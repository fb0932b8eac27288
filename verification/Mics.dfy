/** What is signed, byte by byte, and what the MIC of a frame depends on (lrwn/src/phy_payload.rs). */
module Mics {
  import opened Bytes
  import opened Words
  import opened Numbers
  import opened Frames
  import opened Crypto
  import opened PhyOps

  // The strings that are signed.

  /** A frame as printed, up to its MIC. */
  function Message(p: PhyFrame): Result<bytes> {
    PhyToVec(p.(mic := None))
  }

  /** The block in front of a signed data frame, byte by byte. */
  predicate IsMicBlock(b: Block, conf: nat, txDr: u8, txCh: u8, dir: u8, devAddr: Bytes4, fCnt: u32, len: nat) {
    && b[0] == 0x49 && Val(b[1]) + 256 * Val(b[2]) == conf && b[3] == txDr && b[4] == txCh && b[5] == dir
    && b[6] == devAddr[3] && b[7] == devAddr[2] && b[8] == devAddr[1] && b[9] == devAddr[0]
    && Val(b[10]) + 256 * Val(b[11]) + 65536 * Val(b[12]) + 0x100_0000 * Val(b[13]) == Num(fCnt)
    && b[14] == 0x00 && Val(b[15]) == len % 256
  }

  /** A block of this direction, then the message. */
  predicate IsSignedData(x: bytes, p: PhyFrame, conf: nat, txDr: u8, txCh: u8, dir: u8)
    requires p.payload.MACFrame?
  {
    && Message(p).Ok? && |x| == 16 + |Message(p).value| && x[16..] == Message(p).value
    && IsMicBlock(x[..16], conf, txDr, txCh, dir, p.payload.mac.fhdr.devAddr, p.payload.mac.fhdr.fCnt, |x| - 16)
  }

  /** The confirmed counter as it is signed: 16 bits of it, if the frame acknowledges. */
  function ConfNumber(ack: bool, conf: u32): nat {
    if ack then Num(conf) % 65536 else 0
  }

  /** What cmacF of an uplink signs. */
  predicate UplinkF(x: bytes, p: PhyFrame)
    requires p.payload.MACFrame?
  {
    IsSignedData(x, p, 0, 0, 0, 0x00)
  }

  /** What cmacS of an uplink signs. */
  predicate UplinkS(x: bytes, p: PhyFrame, conf: u32, txDr: u8, txCh: u8)
    requires p.payload.MACFrame?
  {
    IsSignedData(x, p, ConfNumber(p.payload.mac.fhdr.fCtrl.ack, conf), txDr, txCh, 0x00)
  }

  /** What is signed of a downlink. */
  predicate Downlink(x: bytes, p: PhyFrame, ver: MACVersion, conf: u32)
    requires p.payload.MACFrame?
  {
    IsSignedData(x, p, ConfNumber(ver.LoRaWAN1_1? && p.payload.mac.fhdr.fCtrl.ack, conf), 0, 0, 0x01)
  }

  lemma MessageIs(p: PhyFrame)
    ensures Message(p) == MicBytes(p)
  {
    hide PayloadToVec, MhdrToByte;
    if PayloadToVec(p.payload).Ok? {
      assert MicBytes(p).value + [] == MicBytes(p).value;
    }
  }

  lemma TruncatedNum(conf: u32)
    ensures Num16((conf & 0xffff) as u16) == Num(conf) % 65536
  {
    TruncatedBytes(conf);
    Le16Num((conf & 0xffff) as u16);
    LowHalfNum(conf);
    hide *;
  }

  lemma TruncatedBytes(conf: u32)
    ensures Le16((conf & 0xffff) as u16) == [Low8(conf), Low8(Rest(conf))]
  {}

  lemma ConfNumberIs(ack: bool, conf: u32)
    ensures Num16(ConfFCnt(ack, conf)) == ConfNumber(ack, conf)
  {
    TruncatedNum(conf);
    NumZero();
    hide Num;
  }

  /** The block with these bytes is the one that is built. */
  lemma MicBlockIs(b: Block, c: u16, txDr: u8, txCh: u8, dir: u8, addr: Bytes4, fCnt: u32, len: nat)
    ensures IsMicBlock(b, Num16(c), txDr, txCh, dir, addr, fCnt, len) <==>
            b == MicBlock(c, txDr, txCh, dir, addr, fCnt, len)
  {
    var k := MicBlock(c, txDr, txCh, dir, addr, fCnt, len);
    BuiltBlock(c, txDr, txCh, dir, addr, fCnt, len);
    if IsMicBlock(b, Num16(c), txDr, txCh, dir, addr, fCnt, len) {
      hide MicBlock, Num16, Num;
      SameMicBlock(b, k, Num16(c), txDr, txCh, dir, addr, fCnt, len);
    }
  }

  lemma BuiltBlock(c: u16, txDr: u8, txCh: u8, dir: u8, addr: Bytes4, fCnt: u32, len: nat)
    ensures IsMicBlock(MicBlock(c, txDr, txCh, dir, addr, fCnt, len), Num16(c), txDr, txCh, dir, addr, fCnt, len)
  {
    Le16Num(c);
    Le32Num(fCnt);
    ValByte(len);
    hide Le16, Le32, Num16, Num, Val, Byte;
    BlockFields(Le16(c), txDr, txCh, dir, Reverse(addr), Le32(fCnt), Byte(len));
    var k := MicBlock(c, txDr, txCh, dir, addr, fCnt, len);
    assert k[1..3][0] == k[1] && k[1..3][1] == k[2];
    assert forall i :: 0 <= i < 4 ==> k[6..10][i] == k[6 + i] && k[10..14][i] == k[10 + i];
  }

  lemma SameMicBlock(b: Block, k: Block, conf: nat, txDr: u8, txCh: u8, dir: u8, addr: Bytes4, fCnt: u32, len: nat)
    requires IsMicBlock(b, conf, txDr, txCh, dir, addr, fCnt, len)
    requires IsMicBlock(k, conf, txDr, txCh, dir, addr, fCnt, len)
    ensures b == k
  {
    LeNum2(b[1..3]);
    LeNum2(k[1..3]);
    LeNum4(b[10..14]);
    LeNum4(k[10..14]);
    ByteVal(b[15]);
    ByteVal(k[15]);
    hide Val, Num, LeNum, Byte;
    LeNumInjective(b[1..3], k[1..3]);
    LeNumInjective(b[10..14], k[10..14]);
    assert b == [b[0]] + b[1..3] + b[3..10] + b[10..14] + b[14..];
    assert k == [k[0]] + k[1..3] + k[3..10] + k[10..14] + k[14..];
    assert b[3..10] == k[3..10] && b[14..] == k[14..];
  }

  /** What is signed, as the operations put it together. */
  function BuiltString(p: PhyFrame, c: u16, txDr: u8, txCh: u8, dir: u8): bytes
    requires p.payload.MACFrame? && Message(p).Ok?
  {
    var h, m := p.payload.mac.fhdr, Message(p).value;
    MicBlock(c, txDr, txCh, dir, h.devAddr, h.fCnt, |m|) + m
  }

  lemma Halved(x: bytes, k: Block, m: bytes)
    ensures x == k + m <==> |x| == 16 + |m| && x[..16] == k && x[16..] == m
  {
    if |x| >= 16 {
      assert x == x[..16] + x[16..];
    }
  }

  lemma SignedIs(x: bytes, p: PhyFrame, c: u16, txDr: u8, txCh: u8, dir: u8)
    requires p.payload.MACFrame? && Message(p).Ok?
    ensures IsSignedData(x, p, Num16(c), txDr, txCh, dir) <==> x == BuiltString(p, c, txDr, txCh, dir)
  {
    var h := p.payload.mac.fhdr;
    var m: bytes := Message(p).value;
    hide MicBlock, IsMicBlock, Message, Num16;
    Halved(x, MicBlock(c, txDr, txCh, dir, h.devAddr, h.fCnt, |m|), m);
    if |x| == 16 + |m| {
      MicBlockIs(x[..16], c, txDr, txCh, dir, h.devAddr, h.fCnt, |m|);
    }
  }

  /** For every printable frame there is such a string. */
  lemma SignedExists(p: PhyFrame, c: u16, txDr: u8, txCh: u8, dir: u8)
    requires p.payload.MACFrame? && Message(p).Ok?
    ensures exists x :: IsSignedData(x, p, Num16(c), txDr, txCh, dir)
  {
    var x := BuiltString(p, c, txDr, txCh, dir);
    hide IsSignedData, BuiltString, Message;
    SignedIs(x, p, c, txDr, txCh, dir);
  }

  /** The first four bytes of a hash. */
  predicate IsHead(mic: Mic, hash: Block) {
    mic[0] == hash[0] && mic[1] == hash[1] && mic[2] == hash[2] && mic[3] == hash[3]
  }

  /** The first two bytes of one hash, then those of another. */
  predicate IsHalves(mic: Mic, first: Block, second: Block) {
    mic[0] == first[0] && mic[1] == first[1] && EndsWithHead(mic, second)
  }

  predicate EndsWithHead(mic: Mic, hash: Block) {
    mic[2] == hash[0] && mic[3] == hash[1]
  }

  lemma UplinkMicForm(s: Suite, p: PhyFrame, ver: MACVersion, conf: u32, txDr: u8, txCh: u8, fKey: Key, sKey: Key)
    requires p.payload.MACFrame? && Message(p).Ok?
    ensures var f := s.cmac(fKey, BuiltString(p, 0, 0, 0, 0x00));
            var x := s.cmac(sKey, BuiltString(p, ConfFCnt(p.payload.mac.fhdr.fCtrl.ack, conf), txDr, txCh, 0x00));
            UplinkMic(s, p, ver, conf, txDr, txCh, fKey, sKey) ==
            Ok(if ver.LoRaWAN1_0? then f[..4] else x[..2] + f[..2])
  {
    MessageIs(p);
    hide Message, MicBytes, MicBlock, ConfFCnt;
  }

  lemma DownlinkMicForm(s: Suite, p: PhyFrame, ver: MACVersion, conf: u32, sKey: Key)
    requires p.payload.MACFrame? && Message(p).Ok?
    ensures var c := ConfFCnt(ver.LoRaWAN1_1? && p.payload.mac.fhdr.fCtrl.ack, conf);
            DownlinkMic(s, p, ver, conf, sKey) == Ok(s.cmac(sKey, BuiltString(p, c, 0, 0, 0x01))[..4])
  {
    MessageIs(p);
    hide Message, MicBytes, MicBlock, ConfFCnt;
  }

  /** The MIC of an uplink: for LoRaWAN 1.0 four bytes of cmacF, for LoRaWAN 1.1 two of cmacS and two of cmacF. */
  lemma UplinkMicIs(s: Suite, p: PhyFrame, ver: MACVersion, conf: u32, txDr: u8, txCh: u8, fKey: Key, sKey: Key,
                    f: bytes, x: bytes)
    requires p.payload.MACFrame? && UplinkF(f, p) && UplinkS(x, p, conf, txDr, txCh)
    ensures var r := UplinkMic(s, p, ver, conf, txDr, txCh, fKey, sKey);
            && r.Ok?
            && (ver.LoRaWAN1_0? ==> IsHead(r.value, s.cmac(fKey, f)))
            && (ver.LoRaWAN1_1? ==> IsHalves(r.value, s.cmac(sKey, x), s.cmac(fKey, f)))
  {
    var c := ConfFCnt(p.payload.mac.fhdr.fCtrl.ack, conf);
    NumZero();
    MessagePrints(f, p);
    ConfNumberIs(p.payload.mac.fhdr.fCtrl.ack, conf);
    hide Message, IsSignedData, Num, ConfFCnt, ConfNumber, UplinkMic;
    SignedIs(f, p, 0, 0, 0, 0x00);
    SignedIs(x, p, c, txDr, txCh, 0x00);
    hide BuiltString;
    UplinkMicForm(s, p, ver, conf, txDr, txCh, fKey, sKey);
  }

  lemma MessagePrints(x: bytes, p: PhyFrame)
    ensures p.payload.MACFrame? && UplinkF(x, p) ==> Message(p).Ok?
    ensures p.payload.MACFrame? ==> forall ver, conf :: Downlink(x, p, ver, conf) ==> Message(p).Ok?
  {
    hide Message, IsMicBlock;
  }

  /** The MIC of a downlink: four bytes of one hash; the confirmed counter counts for LoRaWAN 1.1 only. */
  lemma DownlinkMicIs(s: Suite, p: PhyFrame, ver: MACVersion, conf: u32, sKey: Key, x: bytes)
    requires p.payload.MACFrame? && Downlink(x, p, ver, conf)
    ensures var r := DownlinkMic(s, p, ver, conf, sKey);
            r.Ok? && IsHead(r.value, s.cmac(sKey, x))
  {
    var ack := ver.LoRaWAN1_1? && p.payload.mac.fhdr.fCtrl.ack;
    MessagePrints(x, p);
    ConfNumberIs(ack, conf);
    hide Message, IsSignedData, Num, ConfFCnt, ConfNumber, DownlinkMic;
    SignedIs(x, p, ConfFCnt(ack, conf), 0, 0, 0x01);
    hide BuiltString;
    DownlinkMicForm(s, p, ver, conf, sKey);
  }

  lemma SameMic(a: Mic, b: Mic)
    ensures a == b <==> a[0] == b[0] && a[1] == b[1] && a[2] == b[2] && a[3] == b[3]
    ensures a[2..] == b[2..] <==> a[2] == b[2] && a[3] == b[3]
  {
    assert a == [a[0], a[1], a[2], a[3]] && a[2..] == [a[2], a[3]];
    assert b == [b[0], b[1], b[2], b[3]] && b[2..] == [b[2], b[3]];
  }

  /** A MIC is valid exactly if it is there and consists of those bytes. */
  lemma ValidMicIs(s: Suite, p: PhyFrame, ver: MACVersion, conf: u32, txDr: u8, txCh: u8, fKey: Key, sKey: Key,
                   f: bytes, x: bytes)
    requires p.payload.MACFrame? && UplinkF(f, p) && UplinkS(x, p, conf, txDr, txCh)
    ensures ValidUplinkMic(s, p, ver, conf, txDr, txCh, fKey, sKey) == Ok(
              && p.mic.Some?
              && (ver.LoRaWAN1_0? ==> IsHead(p.mic.value, s.cmac(fKey, f)))
              && (ver.LoRaWAN1_1? ==> IsHalves(p.mic.value, s.cmac(sKey, x), s.cmac(fKey, f))))
  {
    UplinkMicIs(s, p, ver, conf, txDr, txCh, fKey, sKey, f, x);
    if p.mic.Some? {
      SameMic(p.mic.value, UplinkMic(s, p, ver, conf, txDr, txCh, fKey, sKey).value);
    }
    hide UplinkMic, UplinkF, UplinkS;
  }

  /** Of a LoRaWAN 1.1 MIC, the cmacF half alone. */
  lemma ValidMicFIs(s: Suite, p: PhyFrame, fKey: Key, f: bytes)
    requires p.payload.MACFrame? && UplinkF(f, p)
    ensures ValidUplinkMicF(s, p, fKey) == Ok(p.mic.Some? && EndsWithHead(p.mic.value, s.cmac(fKey, f)))
  {
    assert UplinkS(f, p, 0, 0, 0) by {
      NumZero();
      hide IsSignedData;
    }
    UplinkMicIs(s, p, MACVersion.LoRaWAN1_1, 0, 0, 0, fKey, fKey, f, f);
    if p.mic.Some? {
      SameMic(p.mic.value, UplinkMic(s, p, MACVersion.LoRaWAN1_1, 0, 0, 0, fKey, fKey).value);
    }
    hide UplinkMic, UplinkF, UplinkS;
  }

  lemma ValidDownlinkMicIs(s: Suite, p: PhyFrame, ver: MACVersion, conf: u32, sKey: Key, x: bytes)
    requires p.payload.MACFrame? && Downlink(x, p, ver, conf)
    ensures ValidDownlinkMic(s, p, ver, conf, sKey) ==
            Ok(p.mic.Some? && IsHead(p.mic.value, s.cmac(sKey, x)))
  {
    DownlinkMicIs(s, p, ver, conf, sKey, x);
    if p.mic.Some? {
      SameMic(p.mic.value, DownlinkMic(s, p, ver, conf, sKey).value);
    }
    hide DownlinkMic, Downlink;
  }

  /** A LoRaWAN 1.1 uplink MIC is valid exactly when its cmacF half is and its first half is the cmacS one. */
  lemma MicSplits(s: Suite, p: PhyFrame, conf: u32, txDr: u8, txCh: u8, fKey: Key, sKey: Key)
    requires p.payload.MACFrame? && MicBytes(p).Ok? && p.mic.Some?
    ensures ValidUplinkMic(s, p, MACVersion.LoRaWAN1_1, conf, txDr, txCh, fKey, sKey) == Ok(true) <==>
            && ValidUplinkMicF(s, p, fKey) == Ok(true)
            && p.mic.value[..2] == CmacS(s, p, conf, txDr, txCh, sKey, MicBytes(p).value)[..2]
  {
    hide MicBytes, CmacS, CmacF;
    var mic := MicBytes(p).value;
    var f, a := CmacF(s, p, fKey, mic), CmacS(s, p, conf, txDr, txCh, sKey, mic);
    var z := CmacS(s, p, 0, 0, 0, fKey, mic);
    assert (a[..2] + f[..2])[..2] == a[..2] && (a[..2] + f[..2])[2..] == f[..2];
    assert (z[..2] + f[..2])[2..] == f[..2];
    assert p.mic.value == p.mic.value[..2] + p.mic.value[2..];
  }

  /** The arguments that only LoRaWAN 1.1 has do not matter to a LoRaWAN 1.0 MIC. */
  lemma Mic10Ignores(s: Suite, p: PhyFrame, conf: u32, conf': u32, txDr: u8, txDr': u8, txCh: u8, txCh': u8,
                     fKey: Key, sKey: Key, sKey': Key)
    ensures UplinkMic(s, p, MACVersion.LoRaWAN1_0, conf, txDr, txCh, fKey, sKey) ==
            UplinkMic(s, p, MACVersion.LoRaWAN1_0, conf', txDr', txCh', fKey, sKey')
    ensures DownlinkMic(s, p, MACVersion.LoRaWAN1_0, conf, sKey) ==
            DownlinkMic(s, p, MACVersion.LoRaWAN1_0, conf', sKey)
  {
    hide MicBytes;
  }

  function Truncated(conf: u32): u16 {
    (conf & 0xffff) as u16
  }

  /** The fields of a block, each in its place. */
  lemma BlockFields(c: bytes, dr: u8, ch: u8, dir: u8, addr: bytes, cnt: bytes, len: u8)
    requires |c| == 2 && |addr| == 4 && |cnt| == 4
    ensures var b := [0x49] + c + [dr, ch, dir] + addr + cnt + [0, len];
            && |b| == 16 && b[1..3] == c && b[3] == dr && b[4] == ch && b[5] == dir
            && b[6..10] == addr && b[10..14] == cnt && b[15] == len
  {}

  lemma BlockIs(c: u16, dr: u8, ch: u8, dir: u8, addr: Bytes4, fCnt: u32, len: nat)
    ensures var b := MicBlock(c, dr, ch, dir, addr, fCnt, len);
            && b[1..3] == Le16(c) && b[3] == dr && b[4] == ch && b[5] == dir
            && b[6..10] == Reverse(addr) && b[10..14] == Le32(fCnt) && b[15] == Byte(len)
  {
    hide Le16, Le32, Byte;
    BlockFields(Le16(c), dr, ch, dir, Reverse(addr), Le32(fCnt), Byte(len));
  }

  lemma SameFields(c: u16, addr: Bytes4, fCnt: u32, len: nat, c': u16, addr': Bytes4, fCnt': u32, len': nat)
    ensures Le16(c) == Le16(c') <==> c == c'
    ensures Reverse(addr) == Reverse(addr') <==> addr == addr'
    ensures Le32(fCnt) == Le32(fCnt') <==> fCnt == fCnt'
    ensures Byte(len) == Byte(len') <==> len % 256 == len' % 256
  {
    Le16RoundTrip(c, [0, 0]);
    Le16RoundTrip(c', [0, 0]);
    Le32RoundTrip(fCnt, [0, 0, 0, 0]);
    Le32RoundTrip(fCnt', [0, 0, 0, 0]);
    ReverseReverse(addr);
    ReverseReverse(addr');
    ByteInjective(len, len');
    hide Le16, Le32, FromLe16, FromLe32, Byte;
  }

  /** The blocks that are signed say everything: equal blocks mean equal arguments. */
  lemma MicBlockInjective(c: u16, dr: u8, ch: u8, dir: u8, addr: Bytes4, fCnt: u32, len: nat,
                          c': u16, dr': u8, ch': u8, dir': u8, addr': Bytes4, fCnt': u32, len': nat)
    ensures MicBlock(c, dr, ch, dir, addr, fCnt, len) == MicBlock(c', dr', ch', dir', addr', fCnt', len') <==>
            c == c' && dr == dr' && ch == ch' && dir == dir' && addr == addr' && fCnt == fCnt' &&
              len % 256 == len' % 256
  {
    BlockIs(c, dr, ch, dir, addr, fCnt, len);
    BlockIs(c', dr', ch', dir', addr', fCnt', len');
    SameFields(c, addr, fCnt, len, c', addr', fCnt', len');
    if Byte(len) == Byte(len') {
      SameLength(c, dr, ch, dir, addr, fCnt, len, len');
    }
    hide MicBlock, Le16, Le32, Byte;
  }

  lemma SameLength(c: u16, dr: u8, ch: u8, dir: u8, addr: Bytes4, fCnt: u32, len: nat, len': nat)
    requires Byte(len) == Byte(len')
    ensures MicBlock(c, dr, ch, dir, addr, fCnt, len) == MicBlock(c, dr, ch, dir, addr, fCnt, len')
  {
    hide Le16, Le32, Byte;
  }

  /** The confirmed counter counts only modulo 2^16, and only in a frame with ACK set. */
  lemma ConfirmedCounter(ack: bool, conf: u32, conf': u32, txDr: u8, txCh: u8, dir: u8, addr: Bytes4, fCnt: u32,
                         len: nat)
    ensures var x, y := ConfFCnt(ack, conf), ConfFCnt(ack, conf');
            MicBlock(x, txDr, txCh, dir, addr, fCnt, len) == MicBlock(y, txDr, txCh, dir, addr, fCnt, len) <==>
            (ack ==> Truncated(conf) == Truncated(conf'))
  {
    MicBlockInjective(ConfFCnt(ack, conf), txDr, txCh, dir, addr, fCnt, len,
                      ConfFCnt(ack, conf'), txDr, txCh, dir, addr, fCnt, len);
    hide MicBlock;
  }

  /** So arguments that agree in this sense give the same MIC, in both directions of the link. */
  lemma SameConfirmedCounter(s: Suite, p: PhyFrame, ver: MACVersion, conf: u32, conf': u32, txDr: u8, txCh: u8,
                             fKey: Key, sKey: Key)
    requires p.payload.MACFrame?
    requires p.payload.mac.fhdr.fCtrl.ack ==> Truncated(conf) == Truncated(conf')
    ensures UplinkMic(s, p, ver, conf, txDr, txCh, fKey, sKey) == UplinkMic(s, p, ver, conf', txDr, txCh, fKey, sKey)
    ensures DownlinkMic(s, p, ver, conf, sKey) == DownlinkMic(s, p, ver, conf', sKey)
  {
    hide MicBytes, MicBlock;
  }

  /** What is signed on an uplink, under either key, is never what is signed on a downlink. */
  lemma DirectionsApart(p: PhyFrame, q: PhyFrame, conf: u32, txDr: u8, txCh: u8, ver: MACVersion, conf': u32,
                        x: bytes, y: bytes)
    requires p.payload.MACFrame? && q.payload.MACFrame?
    requires UplinkF(x, p) || UplinkS(x, p, conf, txDr, txCh)
    requires Downlink(y, q, ver, conf')
    ensures x != y
  {
    assert x[5] == x[..16][5] == 0x00 && y[5] == y[..16][5] == 0x01;
  }

  // Join frames

  lemma JoinRequestMicIs(s: Suite, p: PhyFrame, key: Key)
    ensures JoinRequestMic(s, p, key).Ok? <==> Message(p).Ok?
    ensures Message(p).Ok? ==> IsHead(JoinRequestMic(s, p, key).value, s.cmac(key, Message(p).value))
    ensures Message(p).Ok? ==>
              ValidJoinRequestMic(s, p, key) ==
              Ok(p.mic.Some? && IsHead(p.mic.value, s.cmac(key, Message(p).value)))
  {
    MessageIs(p);
    hide Message, MicBytes;
  }

  /** What is signed of a join-accept: with opt_neg set, the join type, JoinEUI and DevNonce come first. */
  predicate IsSignedJoinAccept(x: bytes, p: PhyFrame, t: JoinType, joinEui: Bytes8, devNonce: u16)
    requires p.payload.JoinAcceptFrame?
  {
    && Message(p).Ok?
    && if !p.payload.joinAccept.dlSettings.optNeg then x == Message(p).value
       else
         && |x| == 11 + |Message(p).value| && x[11..] == Message(p).value
         && (match t case Join => x[0] == 0xff case RejoinType0 => x[0] == 0x00
                     case RejoinType1 => x[0] == 0x01 case RejoinType2 => x[0] == 0x02)
         && x[1..9] == [joinEui[7], joinEui[6], joinEui[5], joinEui[4], joinEui[3], joinEui[2], joinEui[1], joinEui[0]]
         && Val(x[9]) + 256 * Val(x[10]) == Num16(devNonce)
  }

  function JoinAcceptPrefix(optNeg: bool, t: JoinType, joinEui: Bytes8, devNonce: u16): bytes {
    if optNeg then [JoinTypeCode(t)] + Reverse(joinEui) + Le16(devNonce) else []
  }

  lemma Quarters(x: bytes)
    requires |x| >= 11
    ensures x == [x[0]] + x[1..9] + x[9..11] + x[11..]
  {}

  lemma SignedJoinAcceptIs(x: bytes, p: PhyFrame, t: JoinType, joinEui: Bytes8, devNonce: u16)
    requires p.payload.JoinAcceptFrame? && IsSignedJoinAccept(x, p, t, joinEui, devNonce)
    ensures x == JoinAcceptPrefix(p.payload.joinAccept.dlSettings.optNeg, t, joinEui, devNonce) + Message(p).value
  {
    if p.payload.joinAccept.dlSettings.optNeg {
      Le16Num(devNonce);
      LeNum2(x[9..11]);
      hide Message, Le16, Num16, Val, LeNum;
      LeNumInjective(x[9..11], Le16(devNonce));
      Quarters(x);
      assert x[1..9] == Reverse(joinEui);
    }
  }

  lemma JoinAcceptMicForm(s: Suite, p: PhyFrame, t: JoinType, joinEui: Bytes8, devNonce: u16, key: Key)
    requires p.payload.JoinAcceptFrame? && MicBytes(p).Ok?
    ensures var prefix := JoinAcceptPrefix(p.payload.joinAccept.dlSettings.optNeg, t, joinEui, devNonce);
            JoinAcceptMic(s, p, t, joinEui, devNonce, key) == Ok(s.cmac(key, prefix + MicBytes(p).value)[..4])
  {
    hide JoinAcceptToVec, Le16, JoinTypeCode, MhdrToByte;
    var prefix := JoinAcceptPrefix(p.payload.joinAccept.dlSettings.optNeg, t, joinEui, devNonce);
    var b := JoinAcceptToVec(p.payload.joinAccept).value;
    assert prefix + ([MhdrToByte(p.mhdr)] + b) == prefix + [MhdrToByte(p.mhdr)] + b;
  }

  /** The MIC of a join-accept: four bytes of the hash of that. */
  lemma JoinAcceptMicIs(s: Suite, p: PhyFrame, t: JoinType, joinEui: Bytes8, devNonce: u16, key: Key, x: bytes)
    requires p.payload.JoinAcceptFrame? && IsSignedJoinAccept(x, p, t, joinEui, devNonce)
    ensures var r := JoinAcceptMic(s, p, t, joinEui, devNonce, key);
            r.Ok? && IsHead(r.value, s.cmac(key, x))
  {
    SignedJoinAcceptIs(x, p, t, joinEui, devNonce);
    MessageIs(p);
    hide Message, MicBytes, JoinAcceptMic, JoinAcceptPrefix;
    JoinAcceptMicForm(s, p, t, joinEui, devNonce, key);
  }

  lemma ValidJoinAcceptMicIs(s: Suite, p: PhyFrame, t: JoinType, joinEui: Bytes8, devNonce: u16, key: Key, x: bytes)
    requires p.payload.JoinAcceptFrame? && IsSignedJoinAccept(x, p, t, joinEui, devNonce)
    ensures ValidJoinAcceptMic(s, p, t, joinEui, devNonce, key) ==
            Ok(p.mic.Some? && IsHead(p.mic.value, s.cmac(key, x)))
  {
    JoinAcceptMicIs(s, p, t, joinEui, devNonce, key, x);
    if p.mic.Some? {
      SameMic(p.mic.value, JoinAcceptMic(s, p, t, joinEui, devNonce, key).value);
    }
    hide JoinAcceptMic, IsSignedJoinAccept;
  }
}
