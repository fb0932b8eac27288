/** What the operations of PhyPayload do to its value (lrwn/src/phy_payload.rs, and the from_slice functions of
    relay.rs). */
module PhyOps {
  import opened Bytes
  import opened Helpers
  import opened MacCommands
  import opened MacStream
  import opened Frames
  import opened Crypto

  datatype MACVersion = LoRaWAN1_0 | LoRaWAN1_1

  function FrameStream(key: Key, p: PhyFrame): Stream
    requires p.payload.MACFrame?
  {
    Stream(key, IsUplink(p.mhdr.fType), p.payload.mac.fhdr.devAddr, p.payload.mac.fhdr.fCnt)
  }

  function WithFOpts(p: PhyFrame, cmds: seq<MACCommand>): PhyFrame
    requires p.payload.MACFrame?
  {
    p.(payload := MACFrame(p.payload.mac.(fhdr := p.payload.mac.fhdr.(fOpts := cmds))))
  }

  function WithFrm(p: PhyFrame, frm: FRMPayload): PhyFrame
    requires p.payload.MACFrame?
  {
    p.(payload := MACFrame(p.payload.mac.(frmPayload := Some(frm))))
  }

  function WithFCnt(p: PhyFrame, fCnt: u32): PhyFrame
    requires p.payload.MACFrame?
  {
    p.(payload := MACFrame(p.payload.mac.(fhdr := p.payload.mac.fhdr.(fCnt := fCnt))))
  }

  // f_opts

  /** Whether the cipher of f_opts names the application counter: on downlinks that carry a port above 0. */
  predicate UsesAFCntDown(p: PhyFrame)
    requires p.payload.MACFrame?
  {
    !IsUplink(p.mhdr.fType) && p.payload.mac.fPort.Some? && p.payload.mac.fPort.value > 0
  }

  function FOptsEncrypted(s: Suite, key: Key, p: PhyFrame): Result<PhyFrame> {
    if !p.payload.MACFrame? then Err
    else
      var b :- EncodeAll(p.payload.mac.fhdr.fOpts);
      if b == [] then Ok(p)
      else
        var enc :- FOptsCipher(s, FrameStream(key, p), UsesAFCntDown(p), b);
        Ok(WithFOpts(p, [Raw(enc)]))
  }

  function FOptsDecoded(p: PhyFrame): Result<PhyFrame> {
    if !p.payload.MACFrame? then Ok(p)
    else
      var cmds :- DecodedSet(p.payload.mac.fhdr.fOpts, IsUplink(p.mhdr.fType));
      Ok(WithFOpts(p, cmds))
  }

  function FOptsDecrypted(s: Suite, key: Key, p: PhyFrame): Result<PhyFrame> {
    var e :- FOptsEncrypted(s, key, p);
    FOptsDecoded(e)
  }

  // frm_payload

  function ForwardUplinkFromSlice(b: bytes): Result<FRMPayload> {
    if |b| < 6 then Err
    else
      var phy :- PhyFromSlice(b[6..]);
      Ok(ForwardUplinkReq(MetadataFromBytes(b[0], b[1], b[2]), DecodedFreq(b[3..6]), phy))
  }

  function ForwardDownlinkFromSlice(b: bytes): Result<FRMPayload> {
    var phy :- PhyFromSlice(b);
    Ok(ForwardDownlinkReq(phy))
  }

  /** What the decrypted bytes mean on this port. */
  function FrmFromBytes(uplink: bool, fPort: u8, b: bytes): Result<FRMPayload> {
    if fPort == 0 then
      var cmds :- DecodeAll(uplink, b);
      Ok(FrmCommands(cmds))
    else if fPort == LA_FPORT_RELAY && uplink then ForwardUplinkFromSlice(b)
    else if fPort == LA_FPORT_RELAY && !uplink then ForwardDownlinkFromSlice(b)
    else Ok(FrmRaw(b))
  }

  function PortOf(p: MACPayload): u8 {
    if p.fPort.Some? then p.fPort.value else 0
  }

  function FrmDecoded(p: PhyFrame): Result<PhyFrame> {
    if !p.payload.MACFrame? || p.payload.mac.frmPayload.None? || !p.payload.mac.frmPayload.value.FrmRaw? then Ok(p)
    else
      var frm :- FrmFromBytes(IsUplink(p.mhdr.fType), PortOf(p.payload.mac), p.payload.mac.frmPayload.value.raw);
      Ok(WithFrm(p, frm))
  }

  function FrmEncrypted(s: Suite, key: Key, p: PhyFrame): Result<PhyFrame> {
    if !p.payload.MACFrame? then Err
    else if p.payload.mac.frmPayload.None? then Ok(p)
    else
      var data :- FrmToVec(p.payload.mac.frmPayload.value);
      Ok(WithFrm(p, FrmRaw(FrmCipher(s, FrameStream(key, p), data))))
  }

  function FrmDecrypted(s: Suite, key: Key, p: PhyFrame): Result<PhyFrame> {
    if !p.payload.MACFrame? then Err
    else if p.payload.mac.frmPayload.None? then Ok(p)
    else
      var data :- FrmToVec(p.payload.mac.frmPayload.value);
      var frm :- FrmFromBytes(IsUplink(p.mhdr.fType), PortOf(p.payload.mac), FrmCipher(s, FrameStream(key, p), data));
      Ok(WithFrm(p, frm))
  }

  // The MIC of data frames

  function MicBytes(p: PhyFrame): Result<bytes> {
    var b :- PayloadToVec(p.payload);
    Ok([MhdrToByte(p.mhdr)] + b)
  }

  /** The confirmed counter, which counts only when the frame acknowledges, truncated to 16 bits. */
  function ConfFCnt(ack: bool, confFCnt: u32): u16 {
    if ack then (confFCnt & 0xffff) as u16 else 0
  }

  function MicBlock(conf: u16, txDr: u8, txCh: u8, dir: u8, devAddr: Bytes4, fCnt: u32, len: nat): Block {
    [0x49] + Le16(conf) + [txDr, txCh, dir] + Reverse(devAddr) + Le32(fCnt) + [0, Byte(len)]
  }

  /** cmacF: over block B0, which holds nothing that is specific to LoRaWAN 1.1. */
  function CmacF(s: Suite, p: PhyFrame, fKey: Key, mic: bytes): Block
    requires p.payload.MACFrame?
  {
    var h := p.payload.mac.fhdr;
    s.cmac(fKey, MicBlock(0, 0, 0, 0, h.devAddr, h.fCnt, |mic|) + mic)
  }

  /** cmacS: over block B1. */
  function CmacS(s: Suite, p: PhyFrame, conf: u32, txDr: u8, txCh: u8, sKey: Key, mic: bytes): Block
    requires p.payload.MACFrame?
  {
    var h := p.payload.mac.fhdr;
    s.cmac(sKey, MicBlock(ConfFCnt(h.fCtrl.ack, conf), txDr, txCh, 0, h.devAddr, h.fCnt, |mic|) + mic)
  }

  function UplinkMic(s: Suite, p: PhyFrame, ver: MACVersion, conf: u32, txDr: u8, txCh: u8, fKey: Key,
                     sKey: Key): Result<Mic> {
    if !p.payload.MACFrame? then Err
    else
      var mic :- MicBytes(p);
      var f, sx := CmacF(s, p, fKey, mic), CmacS(s, p, conf, txDr, txCh, sKey, mic);
      Ok(if ver.LoRaWAN1_0? then f[..4] else sx[..2] + f[..2])
  }

  function DownlinkMic(s: Suite, p: PhyFrame, ver: MACVersion, conf: u32, sKey: Key): Result<Mic> {
    if !p.payload.MACFrame? then Err
    else
      var mic :- MicBytes(p);
      var h := p.payload.mac.fhdr;
      var c := ConfFCnt(!ver.LoRaWAN1_0? && h.fCtrl.ack, conf);
      Ok(s.cmac(sKey, MicBlock(c, 0, 0, 0x01, h.devAddr, h.fCnt, |mic|) + mic)[..4])
  }

  function ValidUplinkMic(s: Suite, p: PhyFrame, ver: MACVersion, conf: u32, txDr: u8, txCh: u8, fKey: Key,
                          sKey: Key): Result<bool> {
    if p.mic.None? then Ok(false)
    else
      var m :- UplinkMic(s, p, ver, conf, txDr, txCh, fKey, sKey);
      Ok(p.mic.value == m)
  }

  function ValidDownlinkMic(s: Suite, p: PhyFrame, ver: MACVersion, conf: u32, sKey: Key): Result<bool> {
    if p.mic.None? then Ok(false)
    else
      var m :- DownlinkMic(s, p, ver, conf, sKey);
      Ok(p.mic.value == m)
  }

  /** Only the cmacF half of a LoRaWAN 1.1 MIC. */
  function ValidUplinkMicF(s: Suite, p: PhyFrame, fKey: Key): Result<bool> {
    if p.mic.None? then Ok(false)
    else
      var m :- UplinkMic(s, p, MACVersion.LoRaWAN1_1, 0, 0, 0, fKey, fKey);
      Ok(p.mic.value[2..] == m[2..])
  }

  // The MICs of join frames

  function JoinRequestMic(s: Suite, p: PhyFrame, key: Key): Result<Mic> {
    var mic :- MicBytes(p);
    Ok(s.cmac(key, mic)[..4])
  }

  function ValidJoinRequestMic(s: Suite, p: PhyFrame, key: Key): Result<bool> {
    if p.mic.None? then Ok(false)
    else
      var m :- JoinRequestMic(s, p, key);
      Ok(p.mic.value == m)
  }

  function JoinTypeCode(t: JoinType): u8 {
    match t
    case Join => 0xff
    case RejoinType0 => 0x00
    case RejoinType1 => 0x01
    case RejoinType2 => 0x02
  }

  function JoinAcceptMic(s: Suite, p: PhyFrame, t: JoinType, joinEui: Bytes8, devNonce: u16, key: Key): Result<Mic> {
    if !p.payload.JoinAcceptFrame? then Err
    else
      var pl := p.payload.joinAccept;
      var b :- JoinAcceptToVec(pl);
      var prefix := if pl.dlSettings.optNeg then [JoinTypeCode(t)] + Reverse(joinEui) + Le16(devNonce) else [];
      Ok(s.cmac(key, prefix + [MhdrToByte(p.mhdr)] + b)[..4])
  }

  function ValidJoinAcceptMic(s: Suite, p: PhyFrame, t: JoinType, joinEui: Bytes8, devNonce: u16,
                              key: Key): Result<bool> {
    if p.mic.None? then Ok(false)
    else
      var m :- JoinAcceptMic(s, p, t, joinEui, devNonce, key);
      Ok(p.mic.value == m)
  }

  // Join-accept encryption, block by block; the MIC is part of what is encrypted.

  function EachBlock(f: Block -> Block, b: bytes): (r: bytes)
    requires |b| % 16 == 0
    ensures |r| == |b|
  {
    if b == [] then [] else f(b[..16]) + EachBlock(f, b[16..])
  }

  lemma TailSlice<T>(b: seq<T>, k: nat, lo: nat, hi: nat)
    requires lo <= hi && k + hi <= |b|
    ensures b[k..][lo..hi] == b[k + lo..k + hi]
  {}

  /** The block at i, then the blocks behind it. */
  lemma NextBlock(f: Block -> Block, b: bytes, i: nat)
    requires |b| % 16 == 0 && 16 * i + 16 <= |b|
    ensures EachBlock(f, b[16 * i..]) == f(b[16 * i..16 * i + 16]) + EachBlock(f, b[16 * (i + 1)..])
  {
    assert b[16 * i..][..16] == b[16 * i..16 * i + 16] && b[16 * i..][16..] == b[16 * (i + 1)..];
  }

  /** Block i of the result is made of block i of the input. */
  lemma {:induction false} BlockAt(f: Block -> Block, b: bytes, i: nat)
    requires |b| % 16 == 0 && 16 * i + 16 <= |b|
    ensures EachBlock(f, b)[16 * i..16 * i + 16] == f(b[16 * i..16 * i + 16])
    decreases i
  {
    var rest := EachBlock(f, b[16..]);
    assert EachBlock(f, b) == f(b[..16]) + rest;
    if i > 0 {
      BlockAt(f, b[16..], i - 1);
      TailSlice(b, 16, 16 * (i - 1), 16 * i);
      TailSlice(EachBlock(f, b), 16, 16 * (i - 1), 16 * i);
      assert EachBlock(f, b)[16..] == rest;
    }
    hide EachBlock;
  }

  /** The blocks of y, one by one and in order, are f of the blocks of x. */
  ghost predicate IsBlockwise(f: Block -> Block, x: bytes, y: bytes) {
    && |y| == |x|
    && forall i :: 0 <= i < |x| / 16 ==> y[16 * i..16 * i + 16] == f(x[16 * i..16 * i + 16])
  }

  lemma EachBlockIs(f: Block -> Block, x: bytes)
    requires |x| % 16 == 0
    ensures IsBlockwise(f, x, EachBlock(f, x))
  {
    hide EachBlock;
    forall i | 0 <= i < |x| / 16
      ensures EachBlock(f, x)[16 * i..16 * i + 16] == f(x[16 * i..16 * i + 16])
    {
      BlockAt(f, x, i);
    }
  }

  /** Whole blocks determine the result. */
  lemma BlockwiseIs(f: Block -> Block, x: bytes, y: bytes)
    requires |x| % 16 == 0 && IsBlockwise(f, x, y)
    ensures y == EachBlock(f, x)
  {
    var z := EachBlock(f, x);
    EachBlockIs(f, x);
    forall k | 0 <= k < |x|
      ensures y[k] == z[k]
    {
      var i := k / 16;
      assert 0 <= i < |x| / 16;
      assert y[16 * i..16 * i + 16] == z[16 * i..16 * i + 16];
      assert y[k] == y[16 * i..16 * i + 16][k - 16 * i] == z[16 * i..16 * i + 16][k - 16 * i];
    }
    hide EachBlock;
  }

  function JoinAcceptEncrypted(s: Suite, key: Key, p: PhyFrame): Result<PhyFrame> {
    if p.mic.None? || !p.payload.JoinAcceptFrame? then Err
    else
      var pt :- JoinAcceptToVec(p.payload.joinAccept);
      var ct := EachBlock(b => s.dec(key, b), pt + p.mic.value);
      Ok(PhyFrame(p.mhdr, RawFrame(ct[..|ct| - 4]), Some(ct[|ct| - 4..])))
  }

  function JoinAcceptDecrypted(s: Suite, key: Key, p: PhyFrame): Result<PhyFrame> {
    if p.mic.None? || !p.payload.RawFrame? || (|p.payload.raw| + 4) % 16 != 0 then Err
    else
      var pt := EachBlock(b => s.enc(key, b), p.payload.raw + p.mic.value);
      var pl :- JoinAcceptFromSlice(pt[..|pt| - 4]);
      Ok(PhyFrame(p.mhdr, JoinAcceptFrame(pl), Some(pt[|pt| - 4..])))
  }
}
