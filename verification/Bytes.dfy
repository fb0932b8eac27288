/** Bytes, results, and the conversions between bytes and wider unsigned integers. */
module Bytes {

  datatype Option<+T> = None | Some(value: T)

  /** The outcome of a fallible operation. The text of an error message is not modelled. */
  datatype Result<+T> = Ok(value: T) | Err
  {
    predicate IsFailure() {
      Err?
    }

    function PropagateFailure<U>(): Result<U>
      requires Err?
    {
      Err
    }

    function Extract(): T
      requires Ok?
    {
      value
    }
  }

  type u8 = bv8
  type u16 = bv16
  type u32 = bv32
  type bytes = seq<u8>

  type Bytes3 = b: bytes | |b| == 3 witness [0, 0, 0]
  type Bytes4 = b: bytes | |b| == 4 witness [0, 0, 0, 0]
  type Bytes8 = b: bytes | |b| == 8 witness [0, 0, 0, 0, 0, 0, 0, 0]
  type Bytes16 = b: bytes | |b| == 16 witness [0, 0, 0, 0, 0, 0, 0, 0, 0, 0, 0, 0, 0, 0, 0, 0]

  function Reverse<T>(s: seq<T>): (r: seq<T>)
    ensures |r| == |s|
    ensures forall i :: 0 <= i < |s| ==> r[i] == s[|s| - 1 - i]
  {
    seq(|s|, i requires 0 <= i < |s| => s[|s| - 1 - i])
  }

  lemma ReverseReverse<T>(s: seq<T>)
    ensures Reverse(Reverse(s)) == s
  {}

  /* The conversions between a byte and a number, defined by counting: Dafny's own `as` says the
     same (ValIsInt) but makes every proof that sees it reason about bit-vectors and integers at once. */

  /** The conversion of a `u8` to a wider integer. */
  function Val(b: u8): (n: nat) {
    if b == 0 then 0 else Val(b - 1) + 1
  }

  /** The conversion `n as u8`, which keeps the low eight bits of n. */
  function Byte(n: nat): (b: u8) {
    if n == 0 then 0 else Byte(n - 1) + 1
  }

  lemma {:induction false} ValIsInt(b: u8)
    ensures Val(b) == b as int
  {
    if b != 0 {
      ValIsInt(b - 1);
      assert (b - 1) as int == b as int - 1;
    }
  }

  lemma {:induction false} ValByte(n: nat)
    ensures Val(Byte(n)) == n % 256
  {
    if n != 0 {
      ValByte(n - 1);
      ValIs255(Byte(n - 1));
    }
  }

  lemma {:induction false} ByteVal(b: u8)
    ensures Byte(Val(b)) == b
    ensures Val(b) < 256
  {
    if b != 0 {
      ByteVal(b - 1);
      ValIs255(b - 1);
    }
  }

  lemma ValIs255(b: u8)
    ensures Val(b) <= 255
    ensures Val(b) == 255 <==> b == 255
  {
    ValIsInt(b);
  }

  lemma ByteInjective(m: nat, n: nat)
    ensures Byte(m) == Byte(n) <==> m % 256 == n % 256
  {
    ValByte(m);
    ValByte(n);
    ByteVal(Byte(m));
    ByteVal(Byte(n));
    if m % 256 == n % 256 {
      assert Byte(m) == Byte(Val(Byte(m))) == Byte(Val(Byte(n)));
    }
  }

  lemma {:induction false} ValMonotone(a: u8, b: u8)
    requires a < b
    ensures Val(a) < Val(b)
    decreases b
  {
    if a < b - 1 {
      ValMonotone(a, b - 1);
    }
  }

  lemma ByteOrder(n: nat, k: u8)
    requires n < 256
    ensures Byte(n) <= k <==> n <= Val(k)
  {
    ValByte(n);
    if Byte(n) > k {
      ValMonotone(k, Byte(n));
    } else if Byte(n) < k {
      ValMonotone(Byte(n), k);
    }
  }

  // Little-endian forms of u16, u32, and of the low three bytes of a number.

  function Le16(x: u16): (b: bytes)
    ensures |b| == 2
  {
    [(x & 0xff) as u8, (x >> 8) as u8]
  }

  function FromLe16(b: bytes): u16
    requires |b| == 2
  {
    b[0] as u16 | (b[1] as u16 << 8)
  }

  lemma Le16RoundTrip(x: u16, b: bytes)
    requires |b| == 2
    ensures FromLe16(Le16(x)) == x
    ensures Le16(FromLe16(b)) == b
  {}

  function Le32(x: u32): (b: bytes)
    ensures |b| == 4
  {
    [(x & 0xff) as u8, ((x >> 8) & 0xff) as u8, ((x >> 16) & 0xff) as u8, (x >> 24) as u8]
  }

  function FromLe32(b: bytes): u32
    requires |b| == 4
  {
    b[0] as u32 | (b[1] as u32 << 8) | (b[2] as u32 << 16) | (b[3] as u32 << 24)
  }

  lemma Le32RoundTrip(x: u32, b: bytes)
    requires |b| == 4
    ensures FromLe32(Le32(x)) == x
    ensures Le32(FromLe32(b)) == b
  {}

  function Le24(n: nat): Bytes3 {
    [Byte(n), Byte(n / 0x100), Byte(n / 0x1_0000)]
  }

  function FromLe24(b: Bytes3): nat {
    Val(b[0]) + 0x100 * Val(b[1]) + 0x1_0000 * Val(b[2])
  }

  lemma FromLe24Le24(n: nat)
    requires n < 0x100_0000
    ensures FromLe24(Le24(n)) == n
  {
    hide Byte, Val;
    ValByte(n);
    ValByte(n / 0x100);
    ValByte(n / 0x1_0000);
    ThreeDigits(n);
  }

  lemma ThreeDigits(n: nat)
    requires n < 0x100_0000
    ensures n % 256 + 0x100 * (n / 0x100 % 256) + 0x1_0000 * (n / 0x1_0000 % 256) == n
  {}

  lemma Le24FromLe24(b: Bytes3)
    ensures FromLe24(b) < 0x100_0000
    ensures Le24(FromLe24(b)) == b
  {
    var x, y, z := Val(b[0]), Val(b[1]), Val(b[2]);
    ByteVal(b[0]);
    ByteVal(b[1]);
    ByteVal(b[2]);
    Digits(x, y, z);
    ByteInjective(FromLe24(b), x);
    ByteInjective(FromLe24(b) / 0x100, y);
  }

  lemma Digits(x: nat, y: nat, z: nat)
    requires x < 256 && y < 256 && z < 256
    ensures var n := x + 0x100 * y + 0x1_0000 * z;
            n % 256 == x && n / 0x100 % 256 == y && n / 0x1_0000 == z && n < 0x100_0000
  {}
}
