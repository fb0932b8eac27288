/** 32-bit words: their value as a number, their order, and their leading bits. */
module Words {
  import opened Bytes

  function Half(x: u32): u32 {
    x >> 1
  }

  predicate Odd(x: u32) {
    x & 1 == 1
  }

  function And(x: u32, y: u32): u32 {
    x & y
  }

  function Or(x: u32, y: u32): u32 {
    x | y
  }

  lemma HalfShrinks(x: u32)
    requires x != 0
    ensures Half(x) < x
  {}

  /** The number a word stands for, bit by bit. The order of u32 is the order of these numbers. */
  function Num(x: u32): (n: nat) {
    if x == 0 then 0 else
    HalfShrinks(x);
    2 * Num(Half(x)) + (if Odd(x) then 1 else 0)
  }

  lemma SameHalves(x: u32, y: u32)
    ensures x == y <==> Half(x) == Half(y) && (Odd(x) <==> Odd(y))
  {}

  lemma OddBits(x: u32, y: u32)
    ensures Odd(And(x, y)) <==> Odd(x) && Odd(y)
    ensures Odd(Or(x, y)) <==> Odd(x) || Odd(y)
  {}

  lemma HalfAnd(x: u32, y: u32)
    ensures Half(And(x, y)) == And(Half(x), Half(y))
  {}

  lemma HalfOr(x: u32, y: u32)
    ensures Half(Or(x, y)) == Or(Half(x), Half(y))
  {}

  lemma OrZero(x: u32)
    ensures Or(x, 0) == x && Or(0, x) == x && And(x, 0) == 0 && And(0, x) == 0
  {}

  lemma NumStep(x: u32)
    ensures Num(x) == 2 * Num(Half(x)) + (if Odd(x) then 1 else 0)
  {}

  lemma {:induction false} NumPositive(x: u32)
    ensures Num(x) == 0 <==> x == 0
    decreases x
  {
    if x != 0 {
      HalfShrinks(x);
      NumPositive(Half(x));
      SameHalves(x, 0);
    }
  }

  lemma {:induction false} NumInjective(x: u32, y: u32)
    requires Num(x) == Num(y)
    ensures x == y
    decreases Num(x)
  {
    hide *;
    NumPositive(x);
    NumPositive(y);
    if x != 0 {
      NumStep(x);
      NumStep(y);
      SameHalves(x, y);
      NumInjective(Half(x), Half(y));
    }
  }

  /** Splitting a pair of words into what they share and what either has keeps the sum. */
  lemma {:induction false} NumAndOr(x: u32, y: u32)
    ensures Num(And(x, y)) + Num(Or(x, y)) == Num(x) + Num(y)
    ensures Num(And(x, y)) <= Num(x) <= Num(Or(x, y))
    decreases Num(x) + Num(y)
  {
    hide *;
    NumPositive(x);
    NumPositive(y);
    if x == 0 {
      OrZero(y);
    } else if y == 0 {
      OrZero(x);
    } else {
      NumStep(x);
      NumStep(y);
      NumStep(And(x, y));
      NumStep(Or(x, y));
      HalfAnd(x, y);
      HalfOr(x, y);
      OddBits(x, y);
      NumAndOr(Half(x), Half(y));
    }
  }

  /** The first `size` bits of x, as a word. */
  function Top(x: u32, size: u32): u32
    requires size <= 32
  {
    x >> (32 - size)
  }

  /** Bit `i` of a word, counted from the most significant. */
  predicate Bit(x: u32, i: u32)
    requires i < 32
  {
    (x >> (31 - i)) & 1 == 1
  }

  /** The first `size` bits of a and b are the same, one by one. */
  predicate SameBits(a: u32, b: u32, size: u32)
    requires size <= 32
  {
    size == 0 || (SameBits(a, b, size - 1) && (Bit(a, size - 1) <==> Bit(b, size - 1)))
  }

  lemma TopStep(x: u32, size: u32)
    requires 1 <= size <= 32
    ensures Top(x, size - 1) == Half(Top(x, size))
    ensures Bit(x, size - 1) <==> Odd(Top(x, size))
  {}

  lemma TopEnds(x: u32)
    ensures Top(x, 0) == 0
    ensures Top(x, 32) == x
  {}

  lemma SameBitsStep(a: u32, b: u32, size: u32)
    requires size <= 32
    ensures SameBits(a, b, size) <==>
            size == 0 || (SameBits(a, b, size - 1) && (Bit(a, size - 1) <==> Bit(b, size - 1)))
  {}

  lemma {:induction false} TopIsBits(a: u32, b: u32, size: u32)
    requires size <= 32
    ensures Top(a, size) == Top(b, size) <==> SameBits(a, b, size)
  {
    hide *;
    SameBitsStep(a, b, size);
    if size == 0 {
      TopEnds(a);
      TopEnds(b);
    } else {
      TopIsBits(a, b, size - 1);
      TopStep(a, size);
      TopStep(b, size);
      SameHalves(Top(a, size), Top(b, size));
    }
  }

  lemma {:induction false} TopMonotone(a: u32, b: u32, size: u32)
    requires size <= 32 && Num(a) <= Num(b)
    ensures Num(Top(a, size)) <= Num(Top(b, size))
    decreases 32 - size
  {
    hide *;
    if size == 32 {
      TopEnds(a);
      TopEnds(b);
    } else {
      TopMonotone(a, b, size + 1);
      TopStep(a, size + 1);
      TopStep(b, size + 1);
      NumStep(Top(a, size + 1));
      NumStep(Top(b, size + 1));
    }
  }

  /** The word whose first `size` bits are set, and the one whose other bits are. */
  function Mask(size: u32): u32
    requires 1 <= size <= 32
  {
    0xffff_ffff << (32 - size)
  }

  function Span(size: u32): u32
    requires size < 32
  {
    0xffff_ffff >> size
  }

  /** The lowest and the highest word that begin with the first `size` bits of x. */
  function Low(x: u32, size: u32): u32
    requires 1 <= size <= 32
  {
    And(x, Mask(size))
  }

  function High(x: u32, size: u32): u32
    requires size < 32
  {
    Or(x, Span(size))
  }

  lemma LowTop(x: u32, size: u32)
    requires 1 <= size <= 32
    ensures Top(Low(x, size), size) == Top(x, size)
  {}

  lemma HighTop(x: u32, size: u32)
    requires 1 <= size < 32
    ensures Top(High(x, size), size) == Top(x, size)
  {}

  /** The leading bits of a word, put back in their place. */
  function Placed(top: u32, size: u32): u32
    requires 1 <= size <= 32
  {
    top << (32 - size)
  }

  lemma LowIsPlaced(x: u32, size: u32)
    requires 1 <= size <= 32
    ensures Low(x, size) == Placed(Top(x, size), size)
  {}

  lemma HighIsPlaced(x: u32, size: u32)
    requires 1 <= size < 32
    ensures High(x, size) == Or(Placed(Top(x, size), size), Span(size))
  {}

  lemma SameLow(a: u32, x: u32, size: u32)
    requires 1 <= size <= 32
    requires Top(a, size) == Top(x, size)
    ensures Low(a, size) == Low(x, size)
  {
    hide Low, Top, Placed;
    LowIsPlaced(a, size);
    LowIsPlaced(x, size);
  }

  lemma SameHigh(a: u32, x: u32, size: u32)
    requires 1 <= size < 32
    requires Top(a, size) == Top(x, size)
    ensures High(a, size) == High(x, size)
  {
    hide High, Top, Placed, Span, Or;
    HighIsPlaced(a, size);
    HighIsPlaced(x, size);
  }

  lemma LowBound(x: u32, size: u32)
    requires 1 <= size <= 32
    ensures Num(Low(x, size)) <= Num(x)
  {
    hide Num, Mask, And, Or;
    NumAndOr(x, Mask(size));
  }

  lemma HighBound(x: u32, size: u32)
    requires size < 32
    ensures Num(x) <= Num(High(x, size))
  {
    hide Num, Span, And, Or;
    NumAndOr(x, Span(size));
  }

  /** The span below a masked prefix shares no bit with it. */
  lemma LowHigh(x: u32, size: u32)
    requires 1 <= size < 32
    ensures And(Low(x, size), Span(size)) == 0
    ensures Or(Low(x, size), Span(size)) == High(x, size)
  {}

  /** The lower end of a prefix begins with it, and is the least word that does. */
  lemma LowIsLeast(x: u32, size: u32, a: u32)
    requires 1 <= size <= 32
    ensures SameBits(Low(x, size), x, size)
    ensures SameBits(a, x, size) ==> Num(Low(x, size)) <= Num(a)
  {
    hide *;
    LowTop(x, size);
    TopIsBits(Low(x, size), x, size);
    TopIsBits(a, x, size);
    if Top(a, size) == Top(x, size) {
      SameLow(a, x, size);
      LowBound(a, size);
    }
  }

  /** Words with the same leading bits are the words of one interval. */
  lemma TopIsRange(a: u32, x: u32, size: u32)
    requires 1 <= size < 32
    ensures SameBits(a, x, size) <==> Num(Low(x, size)) <= Num(a) <= Num(High(x, size))
  {
    hide *;
    LowIsLeast(x, size, a);
    TopIsBits(a, x, size);
    if Top(a, size) == Top(x, size) {
      SameHigh(a, x, size);
      HighBound(a, size);
    } else if Num(Low(x, size)) <= Num(a) <= Num(High(x, size)) {
      TopMonotone(Low(x, size), a, size);
      TopMonotone(a, High(x, size), size);
      LowTop(x, size);
      HighTop(x, size);
      NumInjective(Top(a, size), Top(x, size));
    }
  }
}
