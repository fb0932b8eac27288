/** The encryption of frm_payload and f_opts (lrwn/src/phy_payload.rs), over any block cipher and any CMAC. */
module Crypto {
  import opened Bytes
  import opened Words
  import opened Numbers

  type Key = Bytes16
  type Block = Bytes16

  /** AES-128 in both directions, and CMAC. Nothing is assumed of them here. */
  datatype Suite = Suite(enc: (Key, Block) -> Block, dec: (Key, Block) -> Block, cmac: (Key, bytes) -> Block)

  /** Everything the keystream of one frame depends on. */
  datatype Stream = Stream(key: Key, uplink: bool, devAddr: Bytes4, fCnt: u32)

  function Xor(a: u8, b: u8): u8 {
    a ^ b
  }

  lemma XorTwice(a: u8, b: u8)
    ensures Xor(Xor(a, b), b) == a
  {}

  function Direction(uplink: bool): u8 {
    if uplink then 0x00 else 0x01
  }

  /** Block A of the i-th 16 bytes; the counter is a u8. */
  function CounterBlock(st: Stream, i: nat): Block {
    [0x01, 0, 0, 0, 0, Direction(st.uplink)] + Reverse(st.devAddr) + Le32(st.fCnt) + [0, Byte(i)]
  }

  /** What the blocks of both ciphers share, byte by byte: direction, address, counter. */
  predicate InPlace(a: Block, uplink: bool, devAddr: Bytes4, fCnt: u32) {
    && a[0] == 0x01 && a[1] == 0x00 && a[2] == 0x00 && a[3] == 0x00
    && (uplink ==> a[5] == 0x00) && (!uplink ==> a[5] == 0x01)
    && a[6] == devAddr[3] && a[7] == devAddr[2] && a[8] == devAddr[1] && a[9] == devAddr[0]
    && Val(a[10]) + 256 * Val(a[11]) + 65536 * Val(a[12]) + 0x100_0000 * Val(a[13]) == Num(fCnt)
    && a[14] == 0x00
  }

  /** Block A_i of the frm_payload cipher; the block number is a u8. */
  predicate IsBlockA(a: Block, uplink: bool, devAddr: Bytes4, fCnt: u32, i: nat) {
    InPlace(a, uplink, devAddr, fCnt) && a[4] == 0x00 && Val(a[15]) == i % 256
  }

  /** Block A of the f_opts cipher; byte 4 tells the counters of LoRaWAN 1.1 apart. */
  predicate IsFOptsBlockA(a: Block, uplink: bool, devAddr: Bytes4, fCnt: u32, aFCntDown: bool) {
    && InPlace(a, uplink, devAddr, fCnt)
    && (aFCntDown ==> a[4] == 0x02) && (!aFCntDown ==> a[4] == 0x01) && a[15] == 0x01
  }

  /** The shared bytes determine each other. */
  lemma SameInPlace(a: Block, b: Block, uplink: bool, devAddr: Bytes4, fCnt: u32)
    requires InPlace(a, uplink, devAddr, fCnt) && InPlace(b, uplink, devAddr, fCnt)
    ensures forall k :: 0 <= k < 16 && k != 4 && k != 15 ==> a[k] == b[k]
  {
    LeNum4(a[10..14]);
    LeNum4(b[10..14]);
    hide Val, Num, LeNum;
    LeNumInjective(a[10..14], b[10..14]);
    assert forall k :: 0 <= k < 4 ==> a[10..14][k] == b[10..14][k];
  }

  /** Such a block is the one that is enciphered, and there is no other. */
  lemma BlockAIs(a: Block, st: Stream, i: nat)
    ensures IsBlockA(a, st.uplink, st.devAddr, st.fCnt, i) <==> a == CounterBlock(st, i)
  {
    var c := CounterBlock(st, i);
    Le32Num(st.fCnt);
    ValByte(i);
    hide Le32, Num, Val, Byte;
    assert c[10..14] == Le32(st.fCnt) && c[15] == Byte(i);
    assert IsBlockA(c, st.uplink, st.devAddr, st.fCnt, i);
    if IsBlockA(a, st.uplink, st.devAddr, st.fCnt, i) {
      SameInPlace(a, c, st.uplink, st.devAddr, st.fCnt);
      ByteVal(a[15]);
      ByteVal(c[15]);
    }
  }

  function KeyByte(s: Suite, st: Stream, k: nat): u8 {
    s.enc(st.key, CounterBlock(st, k / 16 + 1))[k % 16]
  }

  /** The encrypted data: byte k is xored with byte k % 16 of the encryption of block k / 16 + 1. */
  function FrmCipher(s: Suite, st: Stream, data: bytes): (out: bytes)
    ensures |out| == |data|
    ensures forall k :: 0 <= k < |data| ==> out[k] == Xor(data[k], KeyByte(s, st, k))
  {
    seq(|data|, k requires 0 <= k < |data| => Xor(data[k], KeyByte(s, st, k)))
  }

  /** The padded block loop: pad to whole blocks, xor each block in place, drop the padding. */
  method EncryptFrmPayload(s: Suite, key: Key, uplink: bool, devAddr: Bytes4, fCnt: u32, data: bytes)
    returns (out: bytes)
    ensures out == FrmCipher(s, Stream(key, uplink, devAddr, fCnt), data)
    ensures |out| == |data|
    ensures forall k: nat, a :: k < |data| && IsBlockA(a, uplink, devAddr, fCnt, k / 16 + 1) ==>
              out[k] == data[k] ^ s.enc(key, a)[k % 16]
  {
    FrmCipherBytes(s, Stream(key, uplink, devAddr, fCnt), data);
    hide FrmCipher, CounterBlock, Xor, KeyByte, IsBlockA;
    ghost var st := Stream(key, uplink, devAddr, fCnt);
    var len := |data|;
    var padded := if len % 16 != 0 then data + seq(16 - len % 16, _ => 0) else data;
    var buf := new u8[|padded|](k requires 0 <= k < |padded| => padded[k]);
    for i := 0 to buf.Length / 16
      invariant forall k :: 0 <= k < 16 * i ==> buf[k] == Xor(padded[k], KeyByte(s, st, k))
      invariant forall k :: 16 * i <= k < buf.Length ==> buf[k] == padded[k]
    {
      var block := s.enc(key, CounterBlock(Stream(key, uplink, devAddr, fCnt), i + 1));
      for j := 0 to 16
        invariant forall k :: 0 <= k < 16 * i + j ==> buf[k] == Xor(padded[k], KeyByte(s, st, k))
        invariant forall k :: 16 * i + j <= k < buf.Length ==> buf[k] == padded[k]
      {
        KeyByteIs(s, st, i, j);
        buf[16 * i + j] := Xor(buf[16 * i + j], block[j]);
      }
    }
    out := buf[..len];
    assert out == FrmCipher(s, st, data);
  }

  lemma KeyByteIs(s: Suite, st: Stream, i: nat, j: nat)
    requires j < 16
    ensures KeyByte(s, st, 16 * i + j) == s.enc(st.key, CounterBlock(st, i + 1))[j]
  {
    assert (16 * i + j) / 16 == i && (16 * i + j) % 16 == j;
  }

  /** Byte k of the cipher text: byte k of the data and byte k % 16 of the encryption of block A_(k / 16 + 1). */
  lemma FrmCipherBytes(s: Suite, st: Stream, data: bytes)
    ensures |FrmCipher(s, st, data)| == |data|
    ensures forall k: nat, a :: k < |data| && IsBlockA(a, st.uplink, st.devAddr, st.fCnt, k / 16 + 1) ==>
              FrmCipher(s, st, data)[k] == data[k] ^ s.enc(st.key, a)[k % 16]
  {
    hide FrmCipher, CounterBlock, IsBlockA;
    forall k: nat, a | k < |data| && IsBlockA(a, st.uplink, st.devAddr, st.fCnt, k / 16 + 1)
      ensures FrmCipher(s, st, data)[k] == data[k] ^ s.enc(st.key, a)[k % 16]
    {
      BlockAIs(a, st, k / 16 + 1);
    }
  }

  /** And these bytes are the cipher text. */
  lemma FrmCipherIs(s: Suite, st: Stream, data: bytes, out: bytes)
    requires |out| == |data|
    requires forall k: nat, a :: k < |data| && IsBlockA(a, st.uplink, st.devAddr, st.fCnt, k / 16 + 1) ==>
               out[k] == data[k] ^ s.enc(st.key, a)[k % 16]
    ensures out == FrmCipher(s, st, data)
  {
    FrmCipherBytes(s, st, data);
    hide FrmCipher, IsBlockA;
    forall k | 0 <= k < |data|
      ensures out[k] == FrmCipher(s, st, data)[k]
    {
      BlockAIs(CounterBlock(st, k / 16 + 1), st, k / 16 + 1);
    }
  }

  /** Decryption is encryption. */
  lemma FrmCipherTwice(s: Suite, st: Stream, data: bytes)
    ensures FrmCipher(s, st, FrmCipher(s, st, data)) == data
  {
    hide Xor, KeyByte;
    var once := FrmCipher(s, st, data);
    var twice := FrmCipher(s, st, once);
    forall k | 0 <= k < |data| ensures twice[k] == data[k] {
      XorTwice(data[k], KeyByte(s, st, k));
    }
  }

  /** The padding never shows: encrypting a prefix gives the prefix of the encryption. */
  lemma FrmCipherPrefix(s: Suite, st: Stream, data: bytes, n: nat)
    requires n <= |data|
    ensures FrmCipher(s, st, data[..n]) == FrmCipher(s, st, data)[..n]
  {
    hide Xor, KeyByte;
  }

  /** Two counter blocks are equal exactly for the same direction, address, counter, and block number modulo 256. */
  lemma CounterBlockInjective(a: Stream, i: nat, b: Stream, j: nat)
    ensures CounterBlock(a, i) == CounterBlock(b, j) <==>
            a.uplink == b.uplink && a.devAddr == b.devAddr && a.fCnt == b.fCnt && i % 256 == j % 256
  {
    hide Le32, Byte, FromLe32;
    ByteInjective(i, j);
    var x, y := CounterBlock(a, i), CounterBlock(b, j);
    assert x[5] == Direction(a.uplink) && x[15] == Byte(i) && x[6..10] == Reverse(a.devAddr) &&
           x[10..14] == Le32(a.fCnt);
    assert y[5] == Direction(b.uplink) && y[15] == Byte(j) && y[6..10] == Reverse(b.devAddr) &&
           y[10..14] == Le32(b.fCnt);
    ReverseReverse(a.devAddr);
    ReverseReverse(b.devAddr);
    Le32RoundTrip(a.fCnt, x[10..14]);
    Le32RoundTrip(b.fCnt, y[10..14]);
  }

  /** Up to 255 blocks no counter block comes twice; the 256th wraps to 0, and then the keystream repeats. */
  lemma KeystreamRepeats(s: Suite, st: Stream, k: nat)
    ensures KeyByte(s, st, k + 4096) == KeyByte(s, st, k)
  {
    var i := k / 16 + 1;
    assert (k + 4096) / 16 + 1 == i + 256 && (k + 4096) % 16 == k % 16;
    assert (i + 256) % 256 == i % 256;
    CounterBlockInjective(st, i, st, i + 256);
    hide CounterBlock;
  }

  // f_opts: one block, marked in its fifth byte.

  function FOptsBlock(st: Stream, aFCntDown: bool): Block {
    [0x01, 0, 0, 0, if aFCntDown then 0x02 else 0x01, Direction(st.uplink)]
    + Reverse(st.devAddr) + Le32(st.fCnt) + [0, 0x01]
  }

  lemma FOptsBlockAIs(a: Block, st: Stream, aFCntDown: bool)
    ensures IsFOptsBlockA(a, st.uplink, st.devAddr, st.fCnt, aFCntDown) <==> a == FOptsBlock(st, aFCntDown)
  {
    var c := FOptsBlock(st, aFCntDown);
    Le32Num(st.fCnt);
    hide Le32, Num, Val;
    assert c[10..14] == Le32(st.fCnt);
    assert IsFOptsBlockA(c, st.uplink, st.devAddr, st.fCnt, aFCntDown);
    if IsFOptsBlockA(a, st.uplink, st.devAddr, st.fCnt, aFCntDown) {
      SameInPlace(a, c, st.uplink, st.devAddr, st.fCnt);
    }
  }

  /** Byte k of the cipher text of f_opts. */
  lemma FOptsCipherBytes(s: Suite, st: Stream, aFCntDown: bool, data: bytes)
    requires |data| <= 15
    ensures FOptsCipher(s, st, aFCntDown, data).Ok? && |FOptsCipher(s, st, aFCntDown, data).value| == |data|
    ensures forall k: nat, a :: k < |data| && IsFOptsBlockA(a, st.uplink, st.devAddr, st.fCnt, aFCntDown) ==>
              FOptsCipher(s, st, aFCntDown, data).value[k] == data[k] ^ s.enc(st.key, a)[k]
  {
    hide FOptsBlock, IsFOptsBlockA;
    forall a | IsFOptsBlockA(a, st.uplink, st.devAddr, st.fCnt, aFCntDown)
      ensures a == FOptsBlock(st, aFCntDown)
    {
      FOptsBlockAIs(a, st, aFCntDown);
    }
  }

  function FOptsCipher(s: Suite, st: Stream, aFCntDown: bool, data: bytes): (r: Result<bytes>)
    ensures r.Ok? <==> |data| <= 15
    ensures r.Ok? ==> |r.value| == |data|
    ensures r.Ok? ==> forall k :: 0 <= k < |data| ==>
            r.value[k] == Xor(data[k], s.enc(st.key, FOptsBlock(st, aFCntDown))[k])
  {
    if |data| > 15 then Err
    else
      var block := s.enc(st.key, FOptsBlock(st, aFCntDown));
      Ok(seq(|data|, k requires 0 <= k < |data| => Xor(data[k], block[k])))
  }

  method EncryptFOpts(s: Suite, key: Key, aFCntDown: bool, uplink: bool, devAddr: Bytes4, fCnt: u32, data: bytes)
    returns (r: Result<bytes>)
    ensures r == FOptsCipher(s, Stream(key, uplink, devAddr, fCnt), aFCntDown, data)
    ensures r.Ok? <==> |data| <= 15
    ensures r.Ok? ==> |r.value| == |data| && forall k: nat, a ::
              k < |data| && IsFOptsBlockA(a, uplink, devAddr, fCnt, aFCntDown) ==>
              r.value[k] == data[k] ^ s.enc(key, a)[k]
  {
    if |data| <= 15 {
      FOptsCipherBytes(s, Stream(key, uplink, devAddr, fCnt), aFCntDown, data);
    }
    hide Xor, FOptsBlock, IsFOptsBlockA;
    if |data| > 15 {
      return Err;
    }
    var block := s.enc(key, FOptsBlock(Stream(key, uplink, devAddr, fCnt), aFCntDown));
    var out := new u8[|data|];
    for i := 0 to |data|
      invariant forall k :: 0 <= k < i ==> out[k] == Xor(data[k], block[k])
    {
      out[i] := Xor(data[i], block[i]);
    }
    r := Ok(out[..]);
    assert out[..] == FOptsCipher(s, Stream(key, uplink, devAddr, fCnt), aFCntDown, data).value;
  }

  lemma FOptsCipherTwice(s: Suite, st: Stream, aFCntDown: bool, data: bytes)
    requires |data| <= 15
    ensures FOptsCipher(s, st, aFCntDown, FOptsCipher(s, st, aFCntDown, data).value) == Ok(data)
  {
    hide Xor, FOptsBlock;
    var block := s.enc(st.key, FOptsBlock(st, aFCntDown));
    var once := FOptsCipher(s, st, aFCntDown, data).value;
    var twice := FOptsCipher(s, st, aFCntDown, once).value;
    forall k | 0 <= k < |data| ensures twice[k] == data[k] {
      XorTwice(data[k], block[k]);
    }
    assert twice == data;
  }

  /** No f_opts block is ever a frm_payload block, so the same key may serve both. */
  lemma FOptsBlockIsApart(a: Stream, aFCntDown: bool, b: Stream, i: nat)
    ensures FOptsBlock(a, aFCntDown) != CounterBlock(b, i)
  {
    assert FOptsBlock(a, aFCntDown)[4] != 0;
    assert CounterBlock(b, i)[4] == 0;
  }
}
