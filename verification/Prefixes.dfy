/** DevAddr prefixes and their ranges (lrwn/src/devaddr.rs). A shift by the width of the word, or a sum
    beyond it, is an arithmetic overflow, which is the error here. */
module Prefixes {
  import opened Bytes
  import opened Words

  function Be32(x: u32): (b: Bytes4) {
    [(x >> 24) as u8, ((x >> 16) & 0xff) as u8, ((x >> 8) & 0xff) as u8, (x & 0xff) as u8]
  }

  function FromBe32(b: Bytes4): u32 {
    (b[0] as u32 << 24) | (b[1] as u32 << 16) | (b[2] as u32 << 8) | (b[3] as u32)
  }

  lemma Be32RoundTrip(x: u32, b: Bytes4)
    ensures FromBe32(Be32(x)) == x
    ensures Be32(FromBe32(b)) == b
  {}

  // Prefixes and their ranges

  datatype DevAddrPrefix = DevAddrPrefix(prefix: Bytes4, size: u32)

  function Shl(x: u32, k: u32): Result<u32> {
    if k < 32 then Ok(x << k) else Err
  }

  function Shr(x: u32, k: u32): Result<u32> {
    if k < 32 then Ok(x >> k) else Err
  }

  function Add(x: u32, y: u32): Result<u32> {
    if Num(x) + Num(y) <= Num(0xffff_ffff) then Ok(x + y) else Err
  }

  function RangeMin(p: DevAddrPrefix): Result<u32> {
    var mask :- Shl(0xffff_ffff, 32 - p.size);
    Ok(And(FromBe32(p.prefix), mask))
  }

  function RangeMax(p: DevAddrPrefix): Result<u32> {
    var low :- RangeMin(p);
    var span :- Shr(0xffff_ffff, p.size);
    Add(low, span)
  }

  function IsSubsetOf(p: DevAddrPrefix, q: DevAddrPrefix): Result<bool> {
    var pMin :- RangeMin(p);
    var qMin :- RangeMin(q);
    if Num(pMin) < Num(qMin) then Ok(false)
    else
      var pMax :- RangeMax(p);
      var qMax :- RangeMax(q);
      Ok(Num(pMax) <= Num(qMax))
  }

  /** What a prefix means: the first `size` bits of the address are those of the prefix. */
  predicate Within(a: u32, p: DevAddrPrefix)
    requires p.size <= 32
  {
    SameBits(a, FromBe32(p.prefix), p.size)
  }

  /** Bit `i` of a byte string, the first bit of the first byte being bit 0. */
  predicate BitAt(b: bytes, i: u32)
    requires (|b| == 4 && i < 32) || (|b| == 8 && i < 64)
  {
    BitOf(if i < 8 then b[0] else if i < 16 then b[1] else if i < 24 then b[2] else if i < 32 then b[3]
          else if i < 40 then b[4] else if i < 48 then b[5] else if i < 56 then b[6] else b[7], i & 7)
  }

  /** Bit `j` of a byte, counted from the most significant. */
  predicate BitOf(b: u8, j: u32) {
    if j == 0 then b >= 0x80
    else if j == 1 then b & 0x40 != 0
    else if j == 2 then b & 0x20 != 0
    else if j == 3 then b & 0x10 != 0
    else if j == 4 then b & 0x08 != 0
    else if j == 5 then b & 0x04 != 0
    else if j == 6 then b & 0x02 != 0
    else b & 0x01 != 0
  }

  /** The first `size` bits of two addresses, written as bytes, are the same. */
  ghost predicate SameStart(a: Bytes4, b: Bytes4, size: u32)
    requires size <= 32
  {
    forall i: u32 :: i < size ==> (BitAt(a, i) <==> BitAt(b, i))
  }

  lemma WordBits(b: Bytes4, i: u32)
    requires i < 32
    ensures Bit(FromBe32(b), i) <==> BitAt(b, i)
  {}

  lemma {:induction false} SameStartIff(a: Bytes4, b: Bytes4, size: u32)
    requires size <= 32
    ensures SameBits(FromBe32(a), FromBe32(b), size) <==> SameStart(a, b, size)
    decreases size
  {
    hide Bit, FromBe32, BitAt;
    if size > 0 {
      SameStartIff(a, b, size - 1);
      WordBits(a, size - 1);
      WordBits(b, size - 1);
    }
  }

  /** An address lies within a prefix exactly if it starts with the same bits. */
  lemma WithinIsStart(a: Bytes4, p: DevAddrPrefix)
    requires p.size <= 32
    ensures Within(FromBe32(a), p) <==> SameStart(a, p.prefix, p.size)
  {
    SameStartIff(a, p.prefix, p.size);
    hide SameStart, SameBits, FromBe32;
  }

  lemma AddDisjoint(x: u32, y: u32)
    requires And(x, y) == 0
    ensures x + y == Or(x, y)
  {}

  lemma Ones(x: u32)
    ensures Or(x, 0xffff_ffff) == 0xffff_ffff
  {}

  lemma NumBound(x: u32)
    ensures Num(x) <= Num(0xffff_ffff)
  {
    Ones(x);
    hide *;
    NumAndOr(x, 0xffff_ffff);
  }

  /** The sum of a masked prefix and the span below it never carries. */
  lemma RangeEnd(x: u32, size: u32)
    requires 1 <= size < 32
    ensures Add(Low(x, size), Span(size)) == Ok(High(x, size))
  {
    LowHigh(x, size);
    hide Num, Low, High, Span, And, Or;
    NumAndOr(Low(x, size), Span(size));
    NumPositive(0);
    NumBound(High(x, size));
    AddDisjoint(Low(x, size), Span(size));
  }

  lemma Sizes(size: u32)
    ensures Shl(0xffff_ffff, 32 - size) == if 1 <= size <= 32 then Ok(Mask(size)) else Err
    ensures Shr(0xffff_ffff, size) == if size <= 31 then Ok(Span(size)) else Err
  {}

  /** Which sizes the range arithmetic accepts, and what it then computes. */
  lemma Ranges(p: DevAddrPrefix)
    ensures RangeMin(p).Ok? <==> 1 <= p.size <= 32
    ensures RangeMax(p).Ok? <==> 1 <= p.size <= 31
    ensures RangeMin(p).Ok? ==> RangeMin(p).value == Low(FromBe32(p.prefix), p.size)
    ensures RangeMax(p).Ok? ==> RangeMax(p).value == High(FromBe32(p.prefix), p.size)
  {
    Sizes(p.size);
    hide FromBe32, High, Mask, Span, Add, Num, And, Or, Shl, Shr;
    if 1 <= p.size <= 31 {
      RangeEnd(FromBe32(p.prefix), p.size);
    }
  }

  /** The range of a prefix holds exactly the addresses that begin with it. */
  lemma RangeIsPrefix(p: DevAddrPrefix, a: u32)
    requires 1 <= p.size <= 31
    ensures RangeMin(p).Ok? && RangeMax(p).Ok?
    ensures Within(a, p) <==> Num(RangeMin(p).value) <= Num(a) <= Num(RangeMax(p).value)
  {
    Ranges(p);
    hide Num, Low, High, FromBe32, SameBits, RangeMin, RangeMax;
    TopIsRange(a, FromBe32(p.prefix), p.size);
  }

  ghost predicate Inside(p: DevAddrPrefix, q: DevAddrPrefix)
    requires p.size <= 32 && q.size <= 32
  {
    forall a :: Within(a, p) ==> Within(a, q)
  }

  /** is_subset_of is inclusion of the sets of addresses, whenever it answers. It never answers for a
      size of 0, and for a size of 32 only when the lower ends settle the matter. */
  lemma SubsetIsInclusion(p: DevAddrPrefix, q: DevAddrPrefix)
    requires p.size <= 32 && q.size <= 32
    ensures IsSubsetOf(p, q).Ok? <==>
            p.size >= 1 && q.size >= 1 &&
            ((p.size <= 31 && q.size <= 31) || Num(RangeMin(p).value) < Num(RangeMin(q).value))
    ensures IsSubsetOf(p, q).Ok? ==> (IsSubsetOf(p, q).value <==> Inside(p, q))
  {
    SubsetIsRanges(p, q);
    hide IsSubsetOf, RangeMin, RangeMax, Within, Num;
    if IsSubsetOf(p, q).Ok? {
      var pMin, qMin := RangeMin(p).value, RangeMin(q).value;
      LowerEnd(p, pMin);
      if Num(pMin) < Num(qMin) {
        LowerEnd(q, pMin);
      } else {
        InclusionByEnds(p, q);
      }
    }
  }

  lemma LowerEnd(p: DevAddrPrefix, a: u32)
    requires 1 <= p.size <= 32
    ensures RangeMin(p).Ok?
    ensures Within(RangeMin(p).value, p)
    ensures Within(a, p) ==> Num(RangeMin(p).value) <= Num(a)
  {
    Ranges(p);
    hide Num, Low, High, FromBe32, SameBits, RangeMin, RangeMax;
    LowIsLeast(FromBe32(p.prefix), p.size, a);
  }

  lemma InclusionByEnds(p: DevAddrPrefix, q: DevAddrPrefix)
    requires 1 <= p.size <= 31 && 1 <= q.size <= 31
    requires IsSubsetOf(p, q).Ok?
    ensures IsSubsetOf(p, q).value <==> Inside(p, q)
  {
    SubsetIsRanges(p, q);
    RangeHasEnds(p);
    hide IsSubsetOf, RangeMin, RangeMax, Within, Num;
    var pMin, pMax := RangeMin(p).value, RangeMax(p).value;
    RangeIsPrefix(p, pMin);
    RangeIsPrefix(p, pMax);
    RangeIsPrefix(q, pMin);
    RangeIsPrefix(q, pMax);
    forall a | IsSubsetOf(p, q).value && Within(a, p)
      ensures Within(a, q)
    {
      RangeIsPrefix(p, a);
      RangeIsPrefix(q, a);
    }
  }

  lemma RangeHasEnds(p: DevAddrPrefix)
    requires 1 <= p.size <= 31
    ensures RangeMin(p).Ok? && RangeMax(p).Ok?
    ensures Num(RangeMin(p).value) <= Num(RangeMax(p).value)
  {
    Ranges(p);
    hide *;
    LowBound(FromBe32(p.prefix), p.size);
    HighBound(FromBe32(p.prefix), p.size);
  }

  lemma SubsetIsRanges(p: DevAddrPrefix, q: DevAddrPrefix)
    requires p.size <= 32 && q.size <= 32
    ensures RangeMin(p).Ok? <==> 1 <= p.size
    ensures RangeMin(q).Ok? <==> 1 <= q.size
    ensures IsSubsetOf(p, q).Ok? <==>
            p.size >= 1 && q.size >= 1 &&
            ((p.size <= 31 && q.size <= 31) || Num(RangeMin(p).value) < Num(RangeMin(q).value))
    ensures IsSubsetOf(p, q).Ok? ==>
              IsSubsetOf(p, q).value ==
              (Num(RangeMin(p).value) >= Num(RangeMin(q).value) && RangeMax(p).Ok? && RangeMax(q).Ok? &&
               Num(RangeMax(p).value) <= Num(RangeMax(q).value))
  {
    Ranges(p);
    Ranges(q);
    hide RangeMin, RangeMax, Num, Low, High, FromBe32;
  }
}
