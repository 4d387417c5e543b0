/** Variable-length integers, on bytes: the unsigned form VLU, whose first byte begins with as
    many one bits as bytes follow, and the signed form VLI, whose first byte begins with the
    sign bit, as many complements of it as bytes follow, and the sign bit again. Values are
    as far as the decoders reach: four bytes. */
module Codec {
  type Byte = x: nat | x < 256 witness 0

  datatype Option<T> = None | Some(value: T)

  const VLU_LIMIT := 268435456    // 2^28
  const VLI_LIMIT := 134217728    // 2^27
  const MAX_VL_LENGTH := 10

  // ---- Single bits ----

  predicate Bit(b: nat) {
    b == 16 || b == 32 || b == 64 || b == 128
  }

  /** Exclusive or with a single bit. */
  function Flip(x: Byte, b: nat): Byte
    requires Bit(b)
  {
    if (x / b) % 2 == 0 then x + b else x - b
  }

  lemma FlipIsXor(x: bv8)
    ensures (x ^ 0x10) as nat == Flip(x as nat, 16) && (x ^ 0x20) as nat == Flip(x as nat, 32)
    ensures (x ^ 0x40) as nat == Flip(x as nat, 64) && (x ^ 0x80) as nat == Flip(x as nat, 128)
  {
    FlipLow(x);
    FlipHigh(x);
  }

  lemma FlipLow(x: bv8)
    ensures (x ^ 0x10) as nat == Flip(x as nat, 16) && (x ^ 0x20) as nat == Flip(x as nat, 32)
  {
  }

  lemma FlipHigh(x: bv8)
    ensures (x ^ 0x40) as nat == Flip(x as nat, 64) && (x ^ 0x80) as nat == Flip(x as nat, 128)
  {
  }

  /** 256 to the power k. */
  function Pow256(k: nat): nat
    requires k <= 3
  {
    if k == 0 then 1 else if k == 1 then 256 else if k == 2 then 65536 else 16777216
  }

  // Numbers with two, three and four digits to the base 256.

  function Two(a: nat, b: nat): nat {
    a * 256 + b
  }

  function Three(a: nat, b: nat, c: nat): nat {
    a * 65536 + b * 256 + c
  }

  function Four(a: nat, b: nat, c: nat, d: nat): nat {
    a * 16777216 + b * 65536 + c * 256 + d
  }

  // ---- The unsigned form ----

  /** The number of values that n bytes can hold, 1 << (n * 8 - n). */
  function CapVLU(n: nat): nat
    requires 1 <= n <= 4
  {
    if n == 1 then 128 else if n == 2 then 16384 else if n == 3 then 2097152 else VLU_LIMIT
  }

  /** The length of the shortest form that holds val. */
  ghost function LenVLU(val: nat): (n: nat)
    requires val < VLU_LIMIT
    ensures 1 <= n <= 4 && val < CapVLU(n) && (n > 1 ==> val >= CapVLU(n - 1))
  {
    if val < 128 then 1 else if val < 16384 then 2 else if val < 2097152 then 3 else 4
  }

  ghost function EncVLU(val: nat): (s: seq<Byte>)
    requires val < VLU_LIMIT
    ensures |s| == LenVLU(val)
  {
    if val < 128 then [val]
    else if val < 16384 then [128 + val / 256, val % 256]
    else if val < 2097152 then [192 + val / 65536, val / 256 % 256, val % 256]
    else [224 + val / 16777216, val / 65536 % 256, val / 256 % 256, val % 256]
  }

  /** Read as one number, big end first, the form is the value below its leading bits. */
  lemma NumberOfVLU(val: nat)
    requires val < 0x1000_0000
    ensures var s: seq<nat> := EncVLU(val);
            if val < 0x80 then |s| == 1 && s[0] == val
            else if val < 0x4000 then |s| == 2 && s[0] * 0x100 + s[1] == 0x8000 + val
            else if val < 0x20_0000 then |s| == 3 && s[0] * 0x1_0000 + s[1] * 0x100 + s[2] == 0xC0_0000 + val
            else |s| == 4 && s[0] * 0x100_0000 + s[1] * 0x1_0000 + s[2] * 0x100 + s[3] == 0xE000_0000 + val
  {
    Digits(val);
  }

  /** The value at the head of s and the number of bytes that it takes. */
  ghost function DecVLU(s: seq<Byte>): Option<(nat, nat)> {
    if |s| == 0 then None
    else if s[0] < 128 then Some((s[0], 1))
    else if s[0] < 192 then
      if |s| < 2 then None else Some((Two(s[0] - 128, s[1]), 2))
    else if s[0] < 224 then
      if |s| < 3 then None else Some((Three(s[0] - 192, s[1], s[2]), 3))
    else
      if |s| < 4 then None else Some((Four(s[0] - 224, s[1], s[2], s[3]), 4))
  }

  /** The first byte tells the length, and the value is the number below the leading bits. */
  lemma NumberReadVLU(b: seq<Byte>)
    ensures DecVLU(b) == None <==>
              |b| < 1 || (b[0] >= 0x80 && |b| < 2) || (b[0] >= 0xC0 && |b| < 3) || (b[0] >= 0xE0 && |b| < 4)
    ensures DecVLU(b) != None ==>
              var s: seq<nat> := b;
              var (val, n) := DecVLU(b).value;
              if s[0] < 0x80 then n == 1 && s[0] == val
              else if s[0] < 0xC0 then n == 2 && s[0] * 0x100 + s[1] == 0x8000 + val
              else if s[0] < 0xE0 then n == 3 && s[0] * 0x1_0000 + s[1] * 0x100 + s[2] == 0xC0_0000 + val
              else n == 4 && s[0] * 0x100_0000 + s[1] * 0x1_0000 + s[2] * 0x100 + s[3] == 0xE000_0000 + val
  {
  }

  lemma RoundTripVLU(val: nat, rest: seq<Byte>)
    requires val < VLU_LIMIT
    ensures DecVLU(EncVLU(val) + rest) == Some((val, LenVLU(val)))
  {
    var s := EncVLU(val) + rest;
    assert forall i | 0 <= i < LenVLU(val) :: s[i] == EncVLU(val)[i];
    Digits(val);
  }

  lemma Digits(val: nat)
    ensures val == val / 256 * 256 + val % 256
    ensures val / 256 == val / 65536 * 256 + val / 256 % 256
    ensures val / 65536 == val / 16777216 * 256 + val / 65536 % 256
  {
    assert val / 65536 == val / 256 / 256;
    assert val / 16777216 == val / 65536 / 256;
  }

  ghost function EncAllVLU(vals: seq<nat>): seq<Byte>
    requires forall i | 0 <= i < |vals| :: vals[i] < VLU_LIMIT
  {
    if vals == [] then [] else EncVLU(vals[0]) + EncAllVLU(vals[1..])
  }

  /** The first n values of s and what is left of s after them. */
  ghost function DecAllVLU(s: seq<Byte>, n: nat): Option<(seq<nat>, seq<Byte>)> {
    if n == 0 then Some(([], s))
    else
      match DecVLU(s)
      case None => None
      case Some((v, k)) =>
        if k > |s| then None
        else
          match DecAllVLU(s[k..], n - 1)
          case None => None
          case Some((vs, rest)) => Some(([v] + vs, rest))
  }

  /** Values written back to back are read back, with nothing left over. */
  lemma {:induction false} ListRoundTripVLU(vals: seq<nat>, rest: seq<Byte>)
    requires forall i | 0 <= i < |vals| :: vals[i] < VLU_LIMIT
    ensures DecAllVLU(EncAllVLU(vals) + rest, |vals|) == Some((vals, rest))
  {
    if vals == [] {
      assert EncAllVLU(vals) + rest == rest;
    } else {
      var head, tail := EncVLU(vals[0]), EncAllVLU(vals[1..]) + rest;
      Regroup(head, EncAllVLU(vals[1..]), rest);
      RoundTripVLU(vals[0], tail);
      AfterHead(head, tail);
      ListRoundTripVLU(vals[1..], rest);
      assert [vals[0]] + vals[1..] == vals;
    }
  }

  lemma Regroup(x: seq<Byte>, y: seq<Byte>, z: seq<Byte>)
    ensures (x + y) + z == x + (y + z)
  {
  }

  lemma AfterHead(head: seq<Byte>, tail: seq<Byte>)
    ensures (head + tail)[|head|..] == tail
  {
  }

  /** No form is the beginning of another: the first byte tells the length. */
  lemma PrefixFree(v: nat, w: nat, rest: seq<Byte>, rest': seq<Byte>)
    requires v < VLU_LIMIT && w < VLU_LIMIT
    requires EncVLU(v) + rest == EncVLU(w) + rest'
    ensures v == w && rest == rest'
  {
    RoundTripVLU(v, rest);
    RoundTripVLU(w, rest');
    var n := LenVLU(v);
    assert rest == (EncVLU(v) + rest)[n..];
    assert rest' == (EncVLU(w) + rest')[n..];
  }

  /** The first byte of the n-byte form of val after i of its flips. */
  ghost function HeadVLU(val: nat, n: nat, i: nat): nat
    requires 1 <= n <= 4 && val < CapVLU(n) && i < n
  {
    val / Pow256(n - 1) + if i == 0 then 0 else if i == 1 then 128 else if i == 2 then 192 else 224
  }

  lemma HeadFlip(val: nat, n: nat, i: nat)
    requires 1 <= n <= 4 && val < CapVLU(n) && i + 1 < n
    ensures HeadVLU(val, n, i) < 256
    ensures HeadVLU(val, n, i + 1) == Flip(HeadVLU(val, n, i), if i == 0 then 128 else if i == 1 then 64 else 32)
  {
    if n == 2 {
      assert val / 256 < 64;
    } else if n == 3 {
      assert val / 65536 < 32;
    } else {
      assert val / 16777216 < 16;
    }
  }

  /** The least length that holds val. */
  method Shortest(val: nat) returns (n: nat)
    requires val < VLU_LIMIT
    ensures n == LenVLU(val)
  {
    n := 1;
    while val >= CapVLU(n)
      invariant 1 <= n <= 4 && (n > 1 ==> val >= CapVLU(n - 1))
      decreases 4 - n
    {
      n := n + 1;
    }
  }

  /** The n low bytes of val, big end first. */
  method BigEndian(val: nat, n: nat) returns (v: array<Byte>)
    requires 1 <= n <= 4
    ensures fresh(v) && v.Length == MAX_VL_LENGTH
    ensures forall j | 0 <= j < n :: v[j] == val / Pow256(n - j - 1) % 256
  {
    v := new Byte[MAX_VL_LENGTH];
    for i := 0 to n
      invariant forall j | 0 <= j < i :: v[j] == val / Pow256(n - j - 1) % 256
    {
      v[i] := val / Pow256(n - i - 1) % 256;
    }
  }

  /** What all three writers of a VLU compute before they hand out bytes: n is the least
      length that holds val, v the big-endian digits of val, the first with its leading bits
      flipped. */
  method FormVLU(val: nat) returns (v: array<Byte>, n: nat)
    requires val < VLU_LIMIT
    ensures fresh(v) && v.Length == MAX_VL_LENGTH && n == LenVLU(val)
    ensures v[..n] == EncVLU(val)
  {
    n := Shortest(val);
    v := BigEndian(val, n);
    assert val / Pow256(n - 1) < 256;
    var c := 128;
    for i := 0 to n - 1
      invariant c == (if i == 0 then 128 else if i == 1 then 64 else if i == 2 then 32 else 16)
      invariant v[0] == HeadVLU(val, n, i)
      invariant forall j | 1 <= j < n :: v[j] == val / Pow256(n - j - 1) % 256
    {
      HeadFlip(val, n, i);
      v[0] := Flip(v[0], c);
      c := c / 2;
    }
    FormIs(val, n, v[..n]);
  }

  lemma FormIs(val: nat, n: nat, s: seq<Byte>)
    requires val < VLU_LIMIT && |s| == n == LenVLU(val) && s[0] == HeadVLU(val, n, n - 1)
    requires forall j | 1 <= j < n :: s[j] == val / Pow256(n - j - 1) % 256
    ensures s == EncVLU(val)
  {
  }

  /** The i-th of the bytes e is stored from position at on. */
  lemma StoredByte(was: seq<Byte>, at: nat, e: seq<Byte>, i: nat)
    requires at + |e| <= |was| && i < |e|
    ensures (was[..at] + e[..i] + was[at + i..])[at + i := e[i]] == was[..at] + e[..i + 1] + was[at + i + 1..]
  {
  }

  /** packVLU: the form of val is stored in the buffer from position at on. */
  method PackVLU(val: nat, buf: array<Byte>, at: nat) returns (n: nat)
    requires val < VLU_LIMIT && at + LenVLU(val) <= buf.Length
    modifies buf
    ensures n == LenVLU(val)
    ensures buf[..] == old(buf[..at]) + EncVLU(val) + old(buf[at + n..])
  {
    hide EncVLU;
    var v;
    v, n := FormVLU(val);
    ghost var was := buf[..];
    for i := 0 to n
      invariant v[..n] == EncVLU(val)
      invariant buf[..] == was[..at] + EncVLU(val)[..i] + was[at + i..]
    {
      StoredByte(was, at, EncVLU(val), i);
      buf[at + i] := v[i];
    }
  }

  /** The tests of the leading bits of a first byte: how many bytes there are, and what the
      other bits of the first one are. */
  method Leading(b: nat) returns (n: nat, head: nat)
    requires b < 256
    ensures n == if b < 128 then 1 else if b < 192 then 2 else if b < 224 then 3 else 4
    ensures head == b - if n == 1 then 0 else if n == 2 then 128 else if n == 3 then 192 else 224
  {
    if b / 128 % 2 == 0 {
      n, head := 1, b;
    } else if b / 64 % 2 == 0 {
      n, head := 2, b % 128;
    } else if b / 32 % 2 == 0 {
      n, head := 3, b % 64;
    } else {
      n, head := 4, b % 32;
    }
  }

  /** unpackVLU: the value whose form begins at position at, and the position after it. */
  method UnpackVLU(buf: array<Byte>, at: nat) returns (res: nat, next: nat)
    requires at <= buf.Length && DecVLU(buf[at..]).Some?
    ensures DecVLU(buf[at..]) == Some((res, next - at)) && at < next <= buf.Length
  {
    var n, head := Leading(buf[at]);
    if n == 1 {
      res := head;
    } else if n == 2 {
      res := Two(head, buf[at + 1]);
    } else if n == 3 {
      res := Three(head, buf[at + 1], buf[at + 2]);
    } else {
      res := Four(head, buf[at + 1], buf[at + 2], buf[at + 3]);
    }
    next := at + n;
  }

  /** What packVLU stored, unpackVLU reads back, whatever follows. */
  method PackThenUnpackVLU(val: nat, buf: array<Byte>, at: nat) returns (res: nat, next: nat)
    requires val < VLU_LIMIT && at + LenVLU(val) <= buf.Length
    modifies buf
    ensures res == val && next == at + LenVLU(val)
  {
    var n := PackVLU(val, buf, at);
    assert buf[at..] == EncVLU(val) + buf[at + n..];
    RoundTripVLU(val, buf[at + n..]);
    res, next := UnpackVLU(buf, at);
  }

  // ---- The signed form ----

  /** n bytes hold the values from -CapVLI(n) up to CapVLI(n), 1 << (n * 8 - n - 1). */
  function CapVLI(n: nat): nat
    requires 1 <= n <= 4
  {
    if n == 1 then 64 else if n == 2 then 8192 else if n == 3 then 1048576 else VLI_LIMIT
  }

  predicate HoldsVLI(val: int, n: nat)
    requires 1 <= n <= 4
  {
    var cap: int := CapVLI(n);
    -cap <= val < cap
  }

  /** The length of the shortest form that holds val. */
  ghost function LenVLI(val: int): (n: nat)
    requires -VLI_LIMIT <= val < VLI_LIMIT
    ensures 1 <= n <= 4 && HoldsVLI(val, n) && (n > 1 ==> !HoldsVLI(val, n - 1))
  {
    if HoldsVLI(val, 1) then 1 else if HoldsVLI(val, 2) then 2 else if HoldsVLI(val, 3) then 3 else 4
  }

  /** A number in two's complement where m numbers are told apart, and back. */
  function Wrap(val: int, m: nat): int {
    if val < 0 then val + m else val
  }

  function Unwrap(u: nat, m: nat): int {
    if u < m / 2 then u else u - m
  }

  /** The bits of mask, which follow the sign bit and repeat it, flipped in the first byte. */
  ghost function Sign(head: int, mask: nat): int {
    if head < 128 then head + mask else head - mask
  }

  /** They are flipped back. */
  ghost function Unsign(head: int, mask: nat): int {
    if head < 128 then head - mask else head + mask
  }

  lemma HeadVLI(val: int, n: nat)
    requires 2 <= n <= 4 && HoldsVLI(val, n)
    ensures 0 <= Wrap(val, Pow256(n - 1) * 256)
    ensures var h := Wrap(val, Pow256(n - 1) * 256) / Pow256(n - 1);
            var room := if n == 2 then 32 else if n == 3 then 16 else 8;
            if val < 0 then 256 - room <= h < 256 else 0 <= h < room
  {
    if n == 2 {
      assert Wrap(val, 65536) / 256 == if val < 0 then (val + 8192) / 256 + 224 else val / 256;
    } else if n == 3 {
      assert Wrap(val, 16777216) / 65536 == if val < 0 then (val + 1048576) / 65536 + 240 else val / 65536;
    } else {
      assert Wrap(val, 0x1_0000_0000) / 16777216 ==
             if val < 0 then (val + VLI_LIMIT) / 16777216 + 248 else val / 16777216;
    }
  }

  ghost function EncVLI(val: int): (s: seq<Byte>)
    requires -VLI_LIMIT <= val < VLI_LIMIT
    ensures |s| == LenVLI(val)
  {
    if HoldsVLI(val, 1) then [Wrap(val, 256)]
    else if HoldsVLI(val, 2) then
      HeadVLI(val, 2);
      var u := Wrap(val, 65536); [Sign(u / 256, 64), u % 256]
    else if HoldsVLI(val, 3) then
      HeadVLI(val, 3);
      var u := Wrap(val, 16777216); [Sign(u / 65536, 96), u / 256 % 256, u % 256]
    else
      HeadVLI(val, 4);
      var u := Wrap(val, 0x1_0000_0000); [Sign(u / 16777216, 112), u / 65536 % 256, u / 256 % 256, u % 256]
  }

  /** Read as one number, big end first, the form is the two's complement of the value with the
      bits behind the sign flipped: set in a positive number, cleared in a negative one. */
  lemma NumberOfVLI(val: int)
    requires -0x800_0000 <= val < 0x800_0000
    ensures var s: seq<nat> := EncVLI(val);
            if -0x40 <= val < 0x40 then |s| == 1 && s[0] == if val < 0 then 0x100 + val else val
            else if -0x2000 <= val < 0x2000 then
              |s| == 2 && s[0] * 0x100 + s[1] == if val < 0 then 0xC000 + val else 0x4000 + val
            else if -0x10_0000 <= val < 0x10_0000 then
              && |s| == 3
              && s[0] * 0x1_0000 + s[1] * 0x100 + s[2] == if val < 0 then 0xA0_0000 + val else 0x60_0000 + val
            else
              && |s| == 4
              && s[0] * 0x100_0000 + s[1] * 0x1_0000 + s[2] * 0x100 + s[3]
                 == if val < 0 then 0x9000_0000 + val else 0x7000_0000 + val
  {
    var n := LenVLI(val);
    if n > 1 {
      HeadVLI(val, n);
      Digits(Wrap(val, Pow256(n - 1) * 256));
    }
  }

  /** The value at the head of s and the number of bytes that it takes. No value begins with
      a byte from 120 to 135. */
  ghost function DecVLI(s: seq<Byte>): Option<(int, nat)> {
    if |s| == 0 then None
    else if s[0] < 64 || s[0] >= 192 then Some((Unwrap(s[0], 256), 1))
    else if 64 <= s[0] < 96 || 160 <= s[0] < 192 then
      if |s| < 2 then None
      else Some((Unwrap(Two(Unsign(s[0], 64), s[1]), 65536), 2))
    else if 96 <= s[0] < 112 || 144 <= s[0] < 160 then
      if |s| < 3 then None
      else Some((Unwrap(Three(Unsign(s[0], 96), s[1], s[2]), 16777216), 3))
    else if 112 <= s[0] < 120 || 136 <= s[0] < 144 then
      if |s| < 4 then None
      else Some((Unwrap(Four(Unsign(s[0], 112), s[1], s[2], s[3]), 0x1_0000_0000), 4))
    else None
  }

  /** The first byte tells length and sign, and the value is the number with the bits flipped back. */
  lemma NumberReadVLI(b: seq<Byte>)
    ensures DecVLI(b) == None <==>
              || |b| < 1 || 120 <= b[0] < 136
              || (64 <= b[0] < 192 && |b| < 2) || (96 <= b[0] < 160 && |b| < 3) || (112 <= b[0] < 144 && |b| < 4)
    ensures DecVLI(b) != None ==>
              var s: seq<nat> := b;
              var (val, n) := DecVLI(b).value;
              var neg := s[0] >= 128;
              if s[0] < 64 || s[0] >= 192 then n == 1 && s[0] == if neg then 0x100 + val else val
              else if s[0] < 96 || s[0] >= 160 then
                n == 2 && s[0] * 0x100 + s[1] == if neg then 0xC000 + val else 0x4000 + val
              else if s[0] < 112 || s[0] >= 144 then
                && n == 3
                && s[0] * 0x1_0000 + s[1] * 0x100 + s[2] == if neg then 0xA0_0000 + val else 0x60_0000 + val
              else
                && n == 4
                && s[0] * 0x100_0000 + s[1] * 0x1_0000 + s[2] * 0x100 + s[3]
                   == if neg then 0x9000_0000 + val else 0x7000_0000 + val
  {
  }

  lemma RoundTripVLI(val: int, rest: seq<Byte>)
    requires -VLI_LIMIT <= val < VLI_LIMIT
    ensures DecVLI(EncVLI(val) + rest) == Some((val, LenVLI(val)))
  {
    var s, n := EncVLI(val) + rest, LenVLI(val);
    assert forall i | 0 <= i < n :: s[i] == EncVLI(val)[i];
    if n > 1 {
      HeadVLI(val, n);
      Digits(Wrap(val, Pow256(n - 1) * 256));
    }
  }

  ghost function EncAllVLI(vals: seq<int>): seq<Byte>
    requires forall i | 0 <= i < |vals| :: -VLI_LIMIT <= vals[i] < VLI_LIMIT
  {
    if vals == [] then [] else EncVLI(vals[0]) + EncAllVLI(vals[1..])
  }

  ghost function DecAllVLI(s: seq<Byte>, n: nat): Option<(seq<int>, seq<Byte>)> {
    if n == 0 then Some(([], s))
    else
      match DecVLI(s)
      case None => None
      case Some((v, k)) =>
        if k > |s| then None
        else
          match DecAllVLI(s[k..], n - 1)
          case None => None
          case Some((vs, rest)) => Some(([v] + vs, rest))
  }

  /** Signed values written back to back are read back, with nothing left over. */
  lemma {:induction false} ListRoundTripVLI(vals: seq<int>, rest: seq<Byte>)
    requires forall i | 0 <= i < |vals| :: -VLI_LIMIT <= vals[i] < VLI_LIMIT
    ensures DecAllVLI(EncAllVLI(vals) + rest, |vals|) == Some((vals, rest))
  {
    if vals == [] {
      assert EncAllVLI(vals) + rest == rest;
    } else {
      var head, tail := EncVLI(vals[0]), EncAllVLI(vals[1..]) + rest;
      Regroup(head, EncAllVLI(vals[1..]), rest);
      RoundTripVLI(vals[0], tail);
      AfterHead(head, tail);
      ListRoundTripVLI(vals[1..], rest);
      assert [vals[0]] + vals[1..] == vals;
    }
  }

  /** The low bytes do not depend on how wide the word is. */
  lemma NarrowVLI(val: int, n: nat, k: nat)
    requires 1 <= n <= 4 && HoldsVLI(val, n) && k < n
    ensures 0 <= Wrap(val, Pow256(n - 1) * 256) && 0 <= Wrap(val, 0x1_0000_0000)
    ensures Wrap(val, 0x1_0000_0000) / Pow256(k) % 256 == Wrap(val, Pow256(n - 1) * 256) / Pow256(k) % 256
  {
    var u := Wrap(val, Pow256(n - 1) * 256);
    if val < 0 && n < 4 {
      var more := if n == 1 then 16777215 else if n == 2 then 65535 else 255;
      assert Wrap(val, 0x1_0000_0000) == u + more * (Pow256(n - 1) * 256);
      if k == 0 {
        assert Wrap(val, 0x1_0000_0000) == u + 256 * (more * Pow256(n - 1));
      } else if k == 1 {
        assert Wrap(val, 0x1_0000_0000) / 256 == u / 256 + more * Pow256(n - 1);
        assert n == 2 ==> more * Pow256(n - 1) == 256 * 65535;
        assert n == 3 ==> more * Pow256(n - 1) == 256 * (255 * 256);
      } else {
        assert Wrap(val, 0x1_0000_0000) / 65536 == u / 65536 + 256 * 255;
      }
    }
  }

  /** The mask of the first i flips. */
  function MaskVLI(i: nat): nat {
    if i == 0 then 0 else if i == 1 then 64 else if i == 2 then 96 else 112
  }

  lemma HeadFlipVLI(h: nat, n: nat, i: nat)
    requires 2 <= n <= 4 && i + 1 < n
    requires var room := if n == 2 then 32 else if n == 3 then 16 else 8; h < room || 256 - room <= h < 256
    ensures 0 <= Sign(h, MaskVLI(i)) < 256
    ensures Sign(h, MaskVLI(i + 1)) == Flip(Sign(h, MaskVLI(i)), if i == 0 then 64 else if i == 1 then 32 else 16)
  {
  }

  /** The first byte of the n-byte form of val after i of its flips. */
  ghost function StartVLI(val: int, n: nat, i: nat): int
    requires 1 <= n <= 4 && HoldsVLI(val, n)
  {
    Sign(Wrap(val, Pow256(n - 1) * 256) / Pow256(n - 1), MaskVLI(i))
  }

  /** What packVLI computes before it hands out bytes: n is the least length that holds val,
      v the big-endian digits of val, the first with the bits after its sign flipped. */
  method FormVLI(val: int) returns (v: array<Byte>, n: nat)
    requires -VLI_LIMIT <= val < VLI_LIMIT
    ensures fresh(v) && v.Length == MAX_VL_LENGTH && n == LenVLI(val)
    ensures v[..n] == EncVLI(val)
  {
    n := 1;
    while !HoldsVLI(val, n)
      invariant 1 <= n <= 4 && (n > 1 ==> !HoldsVLI(val, n - 1))
      decreases 4 - n
    {
      n := n + 1;
    }
    var u := Wrap(val, 0x1_0000_0000);
    ghost var w := Wrap(val, Pow256(n - 1) * 256);
    v := BigEndian(u, n);
    forall j | 0 <= j < n ensures v[j] == w / Pow256(n - j - 1) % 256 {
      NarrowVLI(val, n, n - j - 1);
    }
    if n > 1 { HeadVLI(val, n); }
    var c := 128;
    for i := 0 to n - 1
      invariant c == (if i == 0 then 128 else if i == 1 then 64 else if i == 2 then 32 else 16)
      invariant v[0] == (if n == 1 then w else StartVLI(val, n, i))
      invariant forall j | 1 <= j < n :: v[j] == w / Pow256(n - j - 1) % 256
    {
      HeadFlipVLI(w / Pow256(n - 1), n, i);
      c := c / 2;
      v[0] := Flip(v[0], c);
    }
  }

  /** packVLI: the form of val is stored in the buffer from position at on. */
  method PackVLI(val: int, buf: array<Byte>, at: nat) returns (n: nat)
    requires -VLI_LIMIT <= val < VLI_LIMIT && at + LenVLI(val) <= buf.Length
    modifies buf
    ensures n == LenVLI(val)
    ensures buf[..] == old(buf[..at]) + EncVLI(val) + old(buf[at + n..])
  {
    hide EncVLI;
    var v;
    v, n := FormVLI(val);
    ghost var was := buf[..];
    for i := 0 to n
      invariant v[..n] == EncVLI(val)
      invariant buf[..] == was[..at] + EncVLI(val)[..i] + was[at + i..]
    {
      StoredByte(was, at, EncVLI(val), i);
      buf[at + i] := v[i];
    }
  }

  /** unpackVLI: the value whose form begins at position at, and the position after it. The
      first bytes that no form begins with are not decoded. */
  method UnpackVLI(buf: array<Byte>, at: nat) returns (res: int, next: nat)
    requires at <= buf.Length && DecVLI(buf[at..]).Some?
    ensures DecVLI(buf[at..]) == Some((res, next - at)) && at < next <= buf.Length
  {
    var b: nat := buf[at];
    if b / 64 == 0 || b / 64 == 3 {
      res, next := Unwrap(b, 256), at + 1;
    } else if b / 32 == 2 || b / 32 == 5 {
      res, next := Unwrap(Two(Flip(b, 64), buf[at + 1]), 65536), at + 2;
    } else if b / 16 == 6 || b / 16 == 9 {
      var sign := if b / 128 % 2 == 0 then 0 else 0xFF00_0000;
      var u := sign + Three(Flip(Flip(b, 64), 32), buf[at + 1], buf[at + 2]);
      res, next := Unwrap(u, 0x1_0000_0000), at + 3;
    } else {
      var u := Four(Flip(Flip(Flip(b, 64), 32), 16), buf[at + 1], buf[at + 2], buf[at + 3]);
      res, next := Unwrap(u, 0x1_0000_0000), at + 4;
    }
  }
}
