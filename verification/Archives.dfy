/** The archive: a byte stream with the codecs for variable-length integers, 32-bit words and
    byte strings on top of it. */
module Archives {
  import opened Codec

  /** The four bytes of a 32-bit word, little end first. */
  ghost function EncUInt32(i: nat): (s: seq<Byte>)
    requires i < 0x1_0000_0000
    ensures |s| == 4
  {
    [i % 256, i / 256 % 256, i / 65536 % 256, i / 16777216]
  }

  function DecUInt32(s: seq<Byte>): nat
    requires |s| == 4
  {
    Four(s[3], s[2], s[1], s[0])
  }

  lemma RoundTripUInt32(i: nat)
    requires i < 0x1_0000_0000
    ensures DecUInt32(EncUInt32(i)) == i
  {
    Digits(i);
  }

  /** A stream that is written at its end and read from a position of its own. */
  class Archive {
    var bytes: seq<Byte>
    var pos: nat

    constructor ()
      ensures bytes == [] && pos == 0
    {
      bytes, pos := [], 0;
    }

    ghost predicate Valid()
      reads this
    {
      pos <= |bytes|
    }

    /** What is still to be read. */
    ghost function Rest(): seq<Byte>
      requires Valid()
      reads this
    {
      bytes[pos..]
    }

    method Put(b: Byte)
      modifies `bytes
      ensures bytes == old(bytes) + [b]
    {
      bytes := bytes + [b];
    }

    method Get() returns (b: Byte)
      requires pos < |bytes|
      modifies `pos
      ensures Valid() && pos == old(pos) + 1 && b == bytes[old(pos)]
    {
      b := bytes[pos];
      pos := pos + 1;
    }

    method PutBytes(s: seq<Byte>)
      modifies `bytes
      ensures bytes == old(bytes) + s
    {
      ghost var was := bytes;
      for j := 0 to |s|
        invariant bytes == was + s[..j]
      {
        Put(s[j]);
      }
    }

    method GetBytes(n: nat) returns (s: seq<Byte>)
      requires Valid() && |Rest()| >= n
      modifies `pos
      ensures Valid() && |s| == n && old(Rest()) == s + Rest()
      ensures pos == old(pos) + n && s == bytes[old(pos)..pos]
    {
      s := [];
      for j := 0 to n
        invariant pos == old(pos) + j && s == bytes[old(pos)..pos]
      {
        var b := Get();
        s := s + [b];
      }
    }

    method PutUInt32(i: nat)
      requires i < 0x1_0000_0000
      modifies `bytes
      ensures bytes == old(bytes) + EncUInt32(i)
      ensures bytes == old(bytes) + [i % 0x100, i / 0x100 % 0x100, i / 0x1_0000 % 0x100, i / 0x100_0000]
    {
      ghost var was := bytes;
      var rest := i;
      for j := 0 to 4
        invariant rest == if j == 4 then 0 else i / Pow256(j)
        invariant bytes == was + EncUInt32(i)[..j]
      {
        Put(rest % 256);
        rest := rest / 256;
      }
    }

    method GetUInt32() returns (i: nat)
      requires Valid() && |Rest()| >= 4
      modifies `pos
      ensures Valid() && i == DecUInt32(old(Rest())[..4]) && Rest() == old(Rest())[4..]
      ensures pos == old(pos) + 4
      ensures var s: seq<nat> := bytes[old(pos)..pos];
              i == s[0] + 0x100 * s[1] + 0x1_0000 * s[2] + 0x100_0000 * s[3]
    {
      var s := GetBytes(4);
      i := DecUInt32(s);
    }

    /** Archive::insertVLU writes the bytes that packVLU stores. */
    method InsertVLU(val: nat)
      requires val < VLU_LIMIT
      modifies `bytes
      ensures bytes == old(bytes) + EncVLU(val)
    {
      var v, n := FormVLU(val);
      ghost var was := bytes;
      for i := 0 to n
        invariant v[..n] == EncVLU(val)
        invariant bytes == was + EncVLU(val)[..i]
      {
        Put(v[i]);
      }
    }

    /** Archive::extractVLU reads what unpackVLU decodes. */
    method ExtractVLU() returns (res: nat)
      requires Valid() && DecVLU(Rest()).Some?
      modifies `pos
      ensures Valid() && pos >= old(pos) && DecVLU(old(Rest())) == Some((res, pos - old(pos)))
      ensures DecVLU(bytes[old(pos)..]) == Some((res, pos - old(pos)))
    {
      ghost var s, p := Rest(), pos;
      var b := Get();
      var n, head := Leading(b);
      assert |s| >= n && forall i {:trigger s[i]} | 0 <= i < |s| :: s[i] == bytes[p + i];
      if n == 1 {
        res := head;
      } else if n == 2 {
        res := ExtractTwo(head, s[1]);
      } else if n == 3 {
        res := ExtractThree(head, s[1], s[2]);
      } else {
        res := ExtractFour(head, s[1], s[2], s[3]);
      }
    }

    method ExtractTwo(head: nat, ghost x: Byte) returns (res: nat)
      requires pos + 1 <= |bytes| && bytes[pos] == x
      modifies `pos
      ensures pos == old(pos) + 1 && res == Two(head, x)
    {
      res := Two(head, 0);
      var b := Get();
      res := res + b;
    }

    method ExtractThree(head: nat, ghost x: Byte, ghost y: Byte) returns (res: nat)
      requires pos + 2 <= |bytes| && bytes[pos] == x && bytes[pos + 1] == y
      modifies `pos
      ensures pos == old(pos) + 2 && res == Three(head, x, y)
    {
      res := Three(head, 0, 0);
      var b := Get();
      res := res + Two(b, 0);
      b := Get();
      res := res + b;
    }

    method ExtractFour(head: nat, ghost x: Byte, ghost y: Byte, ghost z: Byte) returns (res: nat)
      requires pos + 3 <= |bytes| && bytes[pos] == x && bytes[pos + 1] == y && bytes[pos + 2] == z
      modifies `pos
      ensures pos == old(pos) + 3 && res == Four(head, x, y, z)
    {
      res := Four(head, 0, 0, 0);
      var b := Get();
      res := res + Three(b, 0, 0);
      b := Get();
      res := res + Two(b, 0);
      b := Get();
      res := res + b;
    }

    /** A value that begins what is still to be read is read, and nothing more. */
    method ExtractKnown(ghost val: nat, ghost rest: seq<Byte>) returns (res: nat)
      requires Valid() && val < VLU_LIMIT && Rest() == EncVLU(val) + rest
      modifies `pos
      ensures Valid() && res == val && Rest() == rest
    {
      RoundTripVLU(val, rest);
      ghost var s := Rest();
      res := ExtractVLU();
      assert Rest() == s[pos - old(pos)..];
    }
  }
}
