/** Segment descriptors of the memory storage allocator: one 32-bit word that holds the
    length of a segment with three flag bits in its low bits (32-bit layout). */
module Descriptors {
  const NULL: nat := 0
  const WORD: nat := 0x1_0000_0000  // size_t and unsigned int are 32 bits wide
  const QUANT: nat := 8             // MSA_QUANT
  const DESCR: nat := 4             // sizeof(SegDescr)
  const HDR: nat := 28              // MSA_BLK_HDR_LENGTH: seven 32-bit header words

  const ALLOC_FLAG: nat := 1
  const GC_FLAG: nat := 2
  const MARK_FLAG: nat := 4

  ghost function Larger(a: nat, b: nat): nat {
    if a < b then b else a
  }

  /** What a descriptor word means. */
  datatype Seg = Seg(len: nat, alloc: bool, gc: bool, mark: bool)

  ghost function FreeSeg(len: nat): Seg {
    Seg(len, false, false, false)
  }

  /** Lengths are positive multiples of the quantum; only allocated segments are
      collectable and only collectable ones are marked. */
  ghost predicate SegOk(s: Seg) {
    s.len >= QUANT && s.len % QUANT == 0 && (s.gc ==> s.alloc) && (s.mark ==> s.gc)
  }

  /** The descriptor word of a segment. */
  ghost function Word(s: Seg): nat {
    s.len
    + (if s.alloc then ALLOC_FLAG else 0)
    + (if s.gc then GC_FLAG else 0)
    + (if s.mark then MARK_FLAG else 0)
  }

  // The three bit operations on a word and a single-bit flag: (w & f) != 0, w | f, w & ~f.

  predicate Has(w: nat, flag: nat)
    requires flag > 0
  {
    w / flag % 2 == 1
  }

  function SetFlag(w: nat, flag: nat): nat
    requires flag > 0
  {
    if Has(w, flag) then w else w + flag
  }

  function ClearFlag(w: nat, flag: nat): (r: nat)
    requires flag > 0
  {
    if Has(w, flag) then assert w >= flag; w - flag else w
  }

  /** The flag operations act on the word as field updates act on its meaning. */
  lemma FlagsOf(s: Seg)
    requires s.len % QUANT == 0
    ensures Word(s) == s.len + (if s.alloc then 1 else 0) + (if s.gc then 2 else 0) + (if s.mark then 4 else 0)
    ensures Has(Word(s), ALLOC_FLAG) == s.alloc
    ensures Has(Word(s), GC_FLAG) == s.gc
    ensures Has(Word(s), MARK_FLAG) == s.mark
    ensures SetFlag(Word(s), ALLOC_FLAG) == Word(s.(alloc := true))
    ensures SetFlag(Word(s), GC_FLAG) == Word(s.(gc := true))
    ensures SetFlag(Word(s), MARK_FLAG) == Word(s.(mark := true))
    ensures ClearFlag(Word(s), ALLOC_FLAG) == Word(s.(alloc := false))
    ensures ClearFlag(Word(s), GC_FLAG) == Word(s.(gc := false))
    ensures ClearFlag(Word(s), MARK_FLAG) == Word(s.(mark := false))
  {
    LowBits(s.len / QUANT, if s.alloc then 1 else 0, if s.gc then 1 else 0, if s.mark then 1 else 0);
  }

  /** A 32-bit word with length h and flags m, g and a, as a number. */
  lemma WordNumber(h: bv29, m: bv1, g: bv1, a: bv1)
    ensures ((h as bv32 << 3) | (m as bv32 << 2) | (g as bv32 << 1) | a as bv32) as nat ==
            8 * (h as nat) + 4 * (m as nat) + 2 * (g as nat) + a as nat
  {
  }

  // What the source's operations on the bits of such a word do: they test, set and clear one flag.

  lemma AllocBits(h: bv29, m: bv1, g: bv1, a: bv1)
    ensures var w := (h as bv32 << 3) | (m as bv32 << 2) | (g as bv32 << 1) | a as bv32;
            && (w & 1 != 0 <==> a == 1)
            && w | 1 == (h as bv32 << 3) | (m as bv32 << 2) | (g as bv32 << 1) | 1
            && w & !1 == (h as bv32 << 3) | (m as bv32 << 2) | (g as bv32 << 1)
  {
  }

  lemma GcBits(h: bv29, m: bv1, g: bv1, a: bv1)
    ensures var w := (h as bv32 << 3) | (m as bv32 << 2) | (g as bv32 << 1) | a as bv32;
            && (w & 2 != 0 <==> g == 1)
            && w | 2 == (h as bv32 << 3) | (m as bv32 << 2) | 2 | a as bv32
            && w & !2 == (h as bv32 << 3) | (m as bv32 << 2) | a as bv32
  {
  }

  lemma MarkBits(h: bv29, m: bv1, g: bv1, a: bv1)
    ensures var w := (h as bv32 << 3) | (m as bv32 << 2) | (g as bv32 << 1) | a as bv32;
            && (w & 4 != 0 <==> m == 1)
            && w | 4 == (h as bv32 << 3) | 4 | (g as bv32 << 1) | a as bv32
            && w & !4 == (h as bv32 << 3) | (g as bv32 << 1) | a as bv32
  {
  }

  /** The flag operations do the same to the number. */
  lemma FlagSums(h: nat, m: nat, g: nat, a: nat)
    requires m <= 1 && g <= 1 && a <= 1
    ensures var w := 8 * h + 4 * m + 2 * g + a;
            && (Has(w, ALLOC_FLAG) <==> a == 1) && (Has(w, GC_FLAG) <==> g == 1) && (Has(w, MARK_FLAG) <==> m == 1)
            && SetFlag(w, ALLOC_FLAG) == w - a + 1 && ClearFlag(w, ALLOC_FLAG) == w - a
            && SetFlag(w, GC_FLAG) == w - 2 * g + 2 && ClearFlag(w, GC_FLAG) == w - 2 * g
            && SetFlag(w, MARK_FLAG) == w - 4 * m + 4 && ClearFlag(w, MARK_FLAG) == w - 4 * m
  {
    LowBits(h, a, g, m);
  }

  lemma LowBits(k: nat, a: nat, g: nat, m: nat)
    requires a <= 1 && g <= 1 && m <= 1
    ensures var w := QUANT * k + a + 2 * g + 4 * m;
            w / 1 % 2 == a && w / 2 % 2 == g && w / 4 % 2 == m
  {
  }

  /** A word determines the segment it describes. */
  lemma WordInjective(s: Seg, t: Seg)
    requires s.len % QUANT == 0 && t.len % QUANT == 0
    ensures Word(s) == Word(t) <==> s == t
  {
    FlagsOf(s);
    FlagsOf(t);
  }

  /** The rounding of a request in 32-bit unsigned arithmetic (MSA::allocLen). */
  function AllocLen(reqLen: nat): nat {
    QUANT * ((reqLen + DESCR + QUANT - 1) % WORD / QUANT)
  }

  /** The rounded length holds the request and its descriptor, and wastes less than one
      quantum, exactly as long as the addition does not wrap around. */
  lemma AllocLenFits(reqLen: nat)
    requires reqLen < WORD
    ensures AllocLen(reqLen) % QUANT == 0 && AllocLen(reqLen) < WORD
    ensures AllocLen(reqLen) >= reqLen + DESCR <==> reqLen <= WORD - DESCR - QUANT
    ensures AllocLen(reqLen) >= reqLen + DESCR ==> AllocLen(reqLen) < reqLen + DESCR + QUANT
    ensures reqLen <= 0xFFFF_FFF4 ==> AllocLen(reqLen) % 8 == 0 && reqLen + 4 <= AllocLen(reqLen) < reqLen + 12
  {
  }

  /** The length of a new block for a request, in 32-bit arithmetic, when the default is blkLen. */
  ghost function BlkLenFor(blkLen: nat, reqLen: nat): nat {
    var need := (reqLen + HDR) % WORD;
    if blkLen < need then need else blkLen
  }

  /** Wrapping around in 32 bits keeps the remainder by the quantum. */
  lemma WordIsQuanta(x: nat)
    ensures x % WORD % QUANT == x % QUANT
  {
    var q, r := x / WORD, x % WORD;
    assert x == QUANT * (q * (WORD / QUANT)) + r;
  }

  /** Behind the header there are whole quanta. */
  lemma QuantaBehindHeader(n: nat)
    requires n >= HDR && n % QUANT == HDR % QUANT
    ensures (n - HDR) % QUANT == 0
  {
    var k := n / QUANT;
    assert n - HDR == QUANT * (k - 3);
  }

  lemma HeaderAdded(n: nat)
    requires n % QUANT == 0
    ensures (n + HDR) % QUANT == HDR % QUANT
  {
    var k := n / QUANT;
    assert n + HDR == QUANT * (k + 3) + 4;
  }

  lemma RestOf(x: nat, w: nat)
    requires w * WORD <= x < (w + 1) * WORD
    ensures x % WORD == x - w * WORD
  {
    assert x == w * WORD + (x - w * WORD);
  }

  lemma WrapOnce(x: nat)
    requires x < 2 * WORD
    ensures x % WORD == if x < WORD then x else x - WORD
  {
  }

  /** The data area of a new block is a positive number of whole quanta, and it holds the request
      unless the length wraps around. */
  lemma BlkLenForOk(blkLen: nat, reqLen: nat)
    requires blkLen % QUANT == HDR % QUANT && HDR + QUANT <= blkLen && reqLen % QUANT == 0
    ensures HDR + QUANT <= BlkLenFor(blkLen, reqLen) && (BlkLenFor(blkLen, reqLen) - HDR) % QUANT == 0
    ensures blkLen < WORD && reqLen < WORD ==> (reqLen + HDR < WORD <==> reqLen <= BlkLenFor(blkLen, reqLen) - HDR)
    // Without wrap-around it is the least length from the default on whose data area holds the request.
    ensures reqLen + 28 < 0x1_0000_0000 ==>
              var n := BlkLenFor(blkLen, reqLen);
              blkLen <= n && reqLen + 28 <= n && (n == blkLen || n == reqLen + 28)
    // When the length wraps around it is the default.
    ensures blkLen < WORD && reqLen < WORD && reqLen + 28 >= 0x1_0000_0000 ==> BlkLenFor(blkLen, reqLen) == blkLen
  {
    HeaderAdded(reqLen);
    WordIsQuanta(reqLen + HDR);
    QuantaBehindHeader(BlkLenFor(blkLen, reqLen));
    if reqLen + HDR < 2 * WORD { WrapOnce(reqLen + HDR); }
  }

  /** Eight requests are rounded to the length 0, and the three above them to one quantum. */
  lemma AllocLenZero(reqLen: nat)
    requires reqLen < WORD
    ensures AllocLen(reqLen) == 0 <==> 0xFFFF_FFF5 <= reqLen <= 0xFFFF_FFFC
    ensures AllocLen(reqLen) == 8 <== reqLen > 0xFFFF_FFFC
  {
  }
}
