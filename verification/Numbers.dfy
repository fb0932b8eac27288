/** What byte strings and words stand for as numbers, digit by digit. */
module Numbers {
  import opened Bytes
  import opened Words

  /** A binary digit of weight n. */
  function Digit(on: bool, n: nat): nat {
    if on then n else 0
  }

  /** The number that the eight bits of a byte stand for. */
  function Sum8(b: u8): nat {
    Digit(b & 0x01 != 0, 1) + Digit(b & 0x02 != 0, 2) + Digit(b & 0x04 != 0, 4) + Digit(b & 0x08 != 0, 8)
    + Digit(b & 0x10 != 0, 16) + Digit(b & 0x20 != 0, 32) + Digit(b & 0x40 != 0, 64) + Digit(b & 0x80 != 0, 128)
  }

  lemma SumStep(b: u8)
    requires b != 0
    ensures Sum8(b) == Sum8(b - 1) + 1
  {}

  lemma {:induction false} ValIsSum(b: u8)
    ensures Val(b) == Sum8(b)
  {
    if b != 0 {
      ValIsSum(b - 1);
      SumStep(b);
    }
    hide Sum8;
  }

  /** The number of a byte string, low byte first. */
  function LeNum(b: bytes): nat {
    if b == [] then 0 else Val(b[0]) + 256 * LeNum(b[1..])
  }

  lemma LeNum1(b: bytes)
    requires |b| == 1
    ensures LeNum(b) == Val(b[0])
  {
    assert b[1..] == [];
  }

  lemma LeNum2(b: bytes)
    requires |b| == 2
    ensures LeNum(b) == Val(b[0]) + 256 * Val(b[1])
  {
    LeNum1(b[1..]);
  }

  lemma LeNum3(b: bytes)
    requires |b| == 3
    ensures LeNum(b) == Val(b[0]) + 256 * Val(b[1]) + 65536 * Val(b[2])
  {
    assert b[1..] == [b[1], b[2]];
    LeNum2(b[1..]);
  }

  lemma LeNum4(b: bytes)
    requires |b| == 4
    ensures LeNum(b) == Val(b[0]) + 256 * Val(b[1]) + 65536 * Val(b[2]) + 0x100_0000 * Val(b[3])
  {
    assert b[1..] == [b[1], b[2], b[3]];
    LeNum3(b[1..]);
  }

  lemma LowDigit(m: nat, n: nat, i: nat, j: nat)
    requires m < 256 && n < 256 && m + 256 * i == n + 256 * j
    ensures m == n && i == j
  {}

  /** Byte strings of one length are determined by their numbers. */
  lemma {:induction false} LeNumInjective(x: bytes, y: bytes)
    requires |x| == |y| && LeNum(x) == LeNum(y)
    ensures x == y
  {
    if x != [] {
      ByteVal(x[0]);
      ByteVal(y[0]);
      LowDigit(Val(x[0]), Val(y[0]), LeNum(x[1..]), LeNum(y[1..]));
      LeNumInjective(x[1..], y[1..]);
      assert x == [x[0]] + x[1..] && y == [y[0]] + y[1..];
    }
    hide Val, Byte;
  }

  // The little-endian forms of words are their numbers.

  function Low8(x: u32): u8 {
    (x & 0xff) as u8
  }

  function Rest(x: u32): u32 {
    x >> 8
  }

  function Down4(x: u32): u32 {
    x >> 4
  }

  lemma Halves4(x: u32)
    ensures Half(x) == x >> 1 && Half(x >> 1) == x >> 2 && Half(x >> 2) == x >> 3 && Half(x >> 3) == Down4(x)
  {}

  lemma NumNibble(x: u32)
    ensures Num(x) == Digit(Odd(x), 1) + Digit(Odd(x >> 1), 2) + Digit(Odd(x >> 2), 4) + Digit(Odd(x >> 3), 8)
                      + 16 * Num(Down4(x))
  {
    Halves4(x);
    NumStep(x);
    NumStep(x >> 1);
    NumStep(x >> 2);
    NumStep(x >> 3);
    hide Num, Half, Odd, Down4;
  }

  lemma LowNibble(x: u32)
    ensures Odd(x) <==> Low8(x) & 0x01 != 0
    ensures Odd(x >> 1) <==> Low8(x) & 0x02 != 0
    ensures Odd(x >> 2) <==> Low8(x) & 0x04 != 0
    ensures Odd(x >> 3) <==> Low8(x) & 0x08 != 0
  {}

  lemma HighNibble(x: u32)
    ensures Odd(x >> 4) <==> Low8(x) & 0x10 != 0
    ensures Odd((x >> 4) >> 1) <==> Low8(x) & 0x20 != 0
    ensures Odd((x >> 4) >> 2) <==> Low8(x) & 0x40 != 0
    ensures Odd((x >> 4) >> 3) <==> Low8(x) & 0x80 != 0
    ensures Down4(x) == x >> 4 && Down4(x >> 4) == Rest(x)
  {}

  /** A word is its low byte and 256 times the rest. */
  lemma NumByte(x: u32)
    ensures Num(x) == Val(Low8(x)) + 256 * Num(Rest(x))
  {
    LowNibble(x);
    HighNibble(x);
    ValIsSum(Low8(x));
    NumNibble(x);
    NumNibble(x >> 4);
    hide Num, Odd, Low8, Rest, Down4, Val;
  }

  lemma NumZero()
    ensures Num(0) == 0
  {}

  lemma Le32Bytes(x: u32)
    ensures Le32(x) == [Low8(x), Low8(Rest(x)), Low8(Rest(Rest(x))), Low8(Rest(Rest(Rest(x))))]
    ensures Rest(Rest(Rest(Rest(x)))) == 0
  {}

  /** The bytes of a word, low byte first, are its number. */
  lemma Le32Num(x: u32)
    ensures LeNum(Le32(x)) == Num(x)
    ensures Val(Le32(x)[0]) + 256 * Val(Le32(x)[1]) + 65536 * Val(Le32(x)[2]) + 0x100_0000 * Val(Le32(x)[3]) == Num(x)
  {
    Le32Bytes(x);
    NumByte(x);
    NumByte(Rest(x));
    NumByte(Rest(Rest(x)));
    NumByte(Rest(Rest(Rest(x))));
    NumZero();
    LeNum4(Le32(x));
    hide Num, Low8, Rest, Val, Le32, LeNum;
  }

  /** And four bytes read as a word keep their number. */
  lemma FromLe32Num(b: bytes)
    requires |b| == 4
    ensures Num(FromLe32(b)) == LeNum(b)
    ensures Num(FromLe32(b)) == Val(b[0]) + 256 * Val(b[1]) + 65536 * Val(b[2]) + 0x100_0000 * Val(b[3])
  {
    Le32RoundTrip(0, b);
    Le32Num(FromLe32(b));
    LeNum4(b);
    hide Num, Val, Le32, FromLe32, LeNum;
  }

  /** The number of a 16-bit word. */
  function Num16(x: u16): nat {
    Num(x as u32)
  }

  lemma Le16Bytes(x: u16)
    ensures Le32(x as u32) == Le16(x) + [0, 0]
  {}

  lemma Le16Num(x: u16)
    ensures LeNum(Le16(x)) == Num16(x)
    ensures Val(Le16(x)[0]) + 256 * Val(Le16(x)[1]) == Num16(x)
  {
    Le16Bytes(x);
    Le32Num(x as u32);
    LeNum2(Le16(x));
    hide Num, Le16, Le32, LeNum;
  }

  lemma FromLe16Num(b: bytes)
    requires |b| == 2
    ensures Num16(FromLe16(b)) == LeNum(b)
  {
    Le16RoundTrip(0, b);
    Le16Num(FromLe16(b));
    hide Num16, Le16, FromLe16, LeNum;
  }

  lemma LowPart(x: nat, y: nat, z: nat)
    requires x < 256 && y < 256
    ensures (x + 256 * (y + 256 * z)) % 65536 == x + 256 * y
  {}

  /** The two low bytes of a word are its number modulo 65536. */
  lemma LowHalfNum(x: u32)
    ensures Val(Low8(x)) + 256 * Val(Low8(Rest(x))) == Num(x) % 65536
  {
    hide *;
    NumByte(x);
    NumByte(Rest(x));
    ByteVal(Low8(x));
    ByteVal(Low8(Rest(x)));
    LowPart(Val(Low8(x)), Val(Low8(Rest(x))), Num(Rest(Rest(x))));
  }
}
