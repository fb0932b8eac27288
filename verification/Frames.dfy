/** The frame types of lrwn and their codecs: MHDR, FHDR, FCtrl, the payloads, and the relay requests that nest a
    frame. */
module Frames {
  import opened Bytes
  import opened Helpers
  import opened MacFields
  import opened MacCommands
  import opened MacStream
  import CFLists

  const LA_FPORT_RELAY: u8 := 226

  type Mic = Bytes4

  datatype FType =
    | JoinRequest | JoinAccept | UnconfirmedDataUp | UnconfirmedDataDown
    | ConfirmedDataUp | ConfirmedDataDown | RejoinRequest | Proprietary

  datatype Major = LoRaWANR1

  datatype MHDR = MHDR(fType: FType, major: Major)

  datatype FCtrl = FCtrl(adr: bool, adrAckReq: bool, ack: bool, fPending: bool, classB: bool, fOptsLen: u8)

  datatype FHDR = FHDR(devAddr: Bytes4, fCtrl: FCtrl, fCnt: u32, fOpts: seq<MACCommand>)

  datatype JoinType = Join | RejoinType0 | RejoinType1 | RejoinType2

  datatype JoinRequestPayload = JoinRequestPayload(joinEui: Bytes8, devEui: Bytes8, devNonce: u16)

  datatype JoinAcceptPayload = JoinAcceptPayload(
    joinNonce: u32, homeNetId: Bytes3, devAddr: Bytes4, dlSettings: DLSettings, rxDelay: u8,
    cfList: Option<CFLists.CFList>)

  datatype RejoinRequestType02Payload = RejoinRequestType02Payload(
    rejoinType: JoinType, netId: Bytes3, devEui: Bytes8, rjCount0: u16)

  datatype RejoinRequestType1Payload = RejoinRequestType1Payload(
    rejoinType: JoinType, joinEui: Bytes8, devEui: Bytes8, rjCount1: u16)

  datatype UplinkMetadata = UplinkMetadata(dr: u8, snr: int, rssi: int, worChannel: u8)

  datatype FRMPayload =
    | FrmRaw(raw: bytes)
    | FrmCommands(cmds: seq<MACCommand>)
    | ForwardUplinkReq(metadata: UplinkMetadata, frequency: Hz, uplink: PhyFrame)
    | ForwardDownlinkReq(downlink: PhyFrame)

  datatype MACPayload = MACPayload(fhdr: FHDR, fPort: Option<u8>, frmPayload: Option<FRMPayload>)

  datatype Payload =
    | JoinRequestFrame(joinRequest: JoinRequestPayload)
    | JoinAcceptFrame(joinAccept: JoinAcceptPayload)
    | MACFrame(mac: MACPayload)
    | RejoinFrame02(rejoin02: RejoinRequestType02Payload)
    | RejoinFrame1(rejoin1: RejoinRequestType1Payload)
    | RawFrame(raw: bytes)

  /** The value of a PhyPayload. */
  datatype PhyFrame = PhyFrame(mhdr: MHDR, payload: Payload, mic: Option<Mic>)

  // MHDR

  function FTypeCode(t: FType): u8 {
    match t
    case JoinRequest => 0x00
    case JoinAccept => 0x01
    case UnconfirmedDataUp => 0x02
    case UnconfirmedDataDown => 0x03
    case ConfirmedDataUp => 0x04
    case ConfirmedDataDown => 0x05
    case RejoinRequest => 0x06
    case Proprietary => 0x07
  }

  function FTypeOf(b: u8): Result<FType> {
    match b >> 5
    case 0x00 => Ok(JoinRequest)
    case 0x01 => Ok(JoinAccept)
    case 0x02 => Ok(UnconfirmedDataUp)
    case 0x03 => Ok(UnconfirmedDataDown)
    case 0x04 => Ok(ConfirmedDataUp)
    case 0x05 => Ok(ConfirmedDataDown)
    case 0x06 => Ok(RejoinRequest)
    case 0x07 => Ok(Proprietary)
    case _ => Err
  }

  function MhdrFromByte(b: u8): Result<MHDR> {
    var t :- FTypeOf(b);
    if b & 0x03 == 0x00 then Ok(MHDR(t, LoRaWANR1)) else Err
  }

  function MhdrToByte(h: MHDR): u8 {
    (FTypeCode(h.fType) << 5) | 0x00
  }

  lemma MhdrRoundTrip(h: MHDR)
    ensures MhdrFromByte(MhdrToByte(h)) == Ok(h)
  {
    OneMajor(h.major);
  }

  lemma OneMajor(m: Major)
    ensures m == LoRaWANR1
  {}

  /** Parsing a header forgets the three reserved bits, and nothing else. */
  lemma MhdrByteRoundTrip(b: u8)
    ensures MhdrFromByte(b).Ok? <==> b & 0x03 == 0
    ensures MhdrFromByte(b).Ok? ==> MhdrToByte(MhdrFromByte(b).value) == b & 0xe0
  {}

  // FCtrl and FHDR

  function FCtrlFromByte(b: u8): FCtrl {
    FCtrl(b & 0x80 != 0, b & 0x40 != 0, b & 0x20 != 0, b & 0x10 != 0, b & 0x10 != 0, b & 0x0f)
  }

  function FCtrlToByte(c: FCtrl): Result<u8> {
    if c.fOptsLen > 15 then Err
    else Ok(Flag(c.adr, 0x80) | Flag(c.adrAckReq, 0x40) | Flag(c.ack, 0x20) | Flag(c.classB || c.fPending, 0x10)
            | (c.fOptsLen & 0x0f))
  }

  /** What FCtrl looks like to the receiver: class_b and f_pending share a bit. */
  function SharedBit(c: FCtrl): FCtrl {
    c.(classB := c.classB || c.fPending, fPending := c.classB || c.fPending)
  }

  lemma FCtrlRoundTrip(c: FCtrl)
    requires c.fOptsLen <= 15
    ensures FCtrlToByte(c).Ok? && FCtrlFromByte(FCtrlToByte(c).value) == SharedBit(c)
  {}

  lemma FCtrlByteRoundTrip(b: u8)
    ensures FCtrlToByte(FCtrlFromByte(b)) == Ok(b)
  {}

  function LowBytes(fCnt: u32): (b: bytes)
    ensures |b| == 2
  {
    Le32(fCnt)[..2]
  }

  function FHdrToVec(h: FHDR): Result<bytes> {
    var fOpts :- EncodeAll(h.fOpts);
    var fCtrl :- FCtrlToByte(h.fCtrl.(fOptsLen := Byte(|fOpts|)));
    Ok(Reverse(h.devAddr) + [fCtrl] + LowBytes(h.fCnt) + fOpts)
  }

  function FHdrFromSlice(b: bytes): Result<FHDR> {
    if |b| < 7 then Err
    else
      var fCtrl := FCtrlFromByte(b[4]);
      var fCnt := FromLe32([b[5], b[6], 0, 0]);
      if fCtrl.fOptsLen == 0 then Ok(FHDR(Reverse(b[..4]), fCtrl, fCnt, []))
      else if |b| - 7 != Val(fCtrl.fOptsLen) then Err
      else Ok(FHDR(Reverse(b[..4]), fCtrl, fCnt, [Raw(b[7..])]))
  }

  // Join requests, rejoin requests, join accepts

  function JoinRequestToVec(p: JoinRequestPayload): (b: bytes)
    ensures |b| == 18
  {
    Reverse(p.joinEui) + Reverse(p.devEui) + Le16(p.devNonce)
  }

  function JoinRequestFromSlice(b: bytes): Result<JoinRequestPayload> {
    if |b| != 18 then Err
    else Ok(JoinRequestPayload(Reverse(b[..8]), Reverse(b[8..16]), FromLe16(b[16..])))
  }

  function JoinAcceptToVec(p: JoinAcceptPayload): (r: Result<bytes>)
    ensures r.Ok? ==> |r.value| == if p.cfList.Some? then 28 else 12
  {
    if p.rxDelay > 15 then Err
    else
      var dl :- p.dlSettings.ToU8();
      var head := Le32(p.joinNonce)[..3] + Reverse(p.homeNetId) + Reverse(p.devAddr) + [dl] + [p.rxDelay];
      match p.cfList
      case None => Ok(head)
      case Some(v) =>
        var list :- CFLists.ToBytes(v);
        Ok(head + list)
  }

  function JoinAcceptFromSlice(b: bytes): Result<JoinAcceptPayload> {
    if |b| != 12 && |b| != 28 then Err
    else
      var nonce := FromLe32([b[0], b[1], b[2], 0x00]);
      var netId, devAddr := Reverse(b[3..6]), Reverse(b[6..10]);
      var dl := DLSettings.FromU8(b[10]);
      if |b| == 12 then Ok(JoinAcceptPayload(nonce, netId, devAddr, dl, b[11], None))
      else
        var list :- CFLists.FromBytes(b[12..]);
        Ok(JoinAcceptPayload(nonce, netId, devAddr, dl, b[11], Some(list)))
  }

  function Rejoin02ToVec(p: RejoinRequestType02Payload): Result<bytes> {
    match p.rejoinType
    case RejoinType0 => Ok([0x00] + Reverse(p.netId) + Reverse(p.devEui) + Le16(p.rjCount0))
    case RejoinType2 => Ok([0x02] + Reverse(p.netId) + Reverse(p.devEui) + Le16(p.rjCount0))
    case _ => Err
  }

  function Rejoin02FromSlice(b: bytes): Result<RejoinRequestType02Payload> {
    if |b| != 14 || (b[0] != 0x00 && b[0] != 0x02) then Err
    else Ok(RejoinRequestType02Payload(if b[0] == 0x00 then RejoinType0 else RejoinType2,
                                       Reverse(b[1..4]), Reverse(b[4..12]), FromLe16(b[12..])))
  }

  function Rejoin1ToVec(p: RejoinRequestType1Payload): Result<bytes> {
    match p.rejoinType
    case RejoinType1 => Ok([0x01] + Reverse(p.joinEui) + Reverse(p.devEui) + Le16(p.rjCount1))
    case _ => Err
  }

  function Rejoin1FromSlice(b: bytes): Result<RejoinRequestType1Payload> {
    if |b| != 19 || b[0] != 0x01 then Err
    else Ok(RejoinRequestType1Payload(RejoinType1, Reverse(b[1..9]), Reverse(b[9..17]), FromLe16(b[17..])))
  }

  // Relay metadata: five bits of SNR and seven of RSSI packed across three bytes.

  function MetadataToBytes(m: UplinkMetadata): (r: Result<bytes>)
    ensures r.Ok? ==> |r.value| == 3
  {
    if m.dr > 15 || m.worChannel > 1 then Err
    else
      var snr, rssi := SnrCode(m.snr), RssiCode(m.rssi);
      Ok([m.dr | (snr << 4), (snr >> 4) | (rssi << 1), m.worChannel])
  }

  function MetadataFromBytes(b0: u8, b1: u8, b2: u8): UplinkMetadata {
    UplinkMetadata(b0 & 0x0f, Val((b0 >> 4) | ((b1 & 0x01) << 4)) - 20, -15 - Val(b1 >> 1), b2 & 0x03)
  }

  function ClampedMetadata(m: UplinkMetadata): UplinkMetadata {
    m.(snr := Clamp(m.snr, -20, 11), rssi := Clamp(m.rssi, -142, -15))
  }

  lemma MetadataBits(dr: u8, snr: u8, rssi: u8, ch: u8)
    requires dr <= 15 && snr <= 31 && rssi <= 127 && ch <= 1
    ensures (dr | (snr << 4)) & 0x0f == dr
    ensures ((dr | (snr << 4)) >> 4) | ((((snr >> 4) | (rssi << 1)) & 0x01) << 4) == snr
    ensures ((snr >> 4) | (rssi << 1)) >> 1 == rssi
    ensures ch & 0x03 == ch
  {}

  lemma MetadataRoundTrip(m: UplinkMetadata)
    requires MetadataToBytes(m).Ok?
    ensures var b := MetadataToBytes(m).value;
            MetadataFromBytes(b[0], b[1], b[2]) == ClampedMetadata(m)
  {
    SnrCodeRange(m.snr);
    RssiCodeRange(m.rssi);
    hide SnrCode, RssiCode;
    MetadataBits(m.dr, SnrCode(m.snr), RssiCode(m.rssi), m.worChannel);
  }

  // Whole frames

  function FrmToVec(p: FRMPayload): Result<bytes>
    decreases p
  {
    match p
    case FrmRaw(raw) => Ok(raw)
    case FrmCommands(cmds) => EncodeAll(cmds)
    case ForwardUplinkReq(metadata, frequency, phy) =>
      var m :- MetadataToBytes(metadata);
      var f :- EncodedFreq(frequency);
      var b :- PhyToVec(phy);
      Ok(m + f + b)
    case ForwardDownlinkReq(phy) => PhyToVec(phy)
  }

  function MacToVec(p: MACPayload): Result<bytes>
    decreases p
  {
    if p.frmPayload.Some? && (p.fPort.None? || (p.frmPayload.value.FrmCommands? && p.fPort.value != 0)) then Err
    else
      var h :- FHdrToVec(p.fhdr);
      var port := if p.fPort.Some? then [p.fPort.value] else [];
      if p.frmPayload.None? then Ok(h + port)
      else
        var f :- FrmToVec(p.frmPayload.value);
        Ok(h + port + f)
  }

  function PayloadToVec(p: Payload): Result<bytes>
    decreases p
  {
    match p
    case JoinRequestFrame(v) => Ok(JoinRequestToVec(v))
    case JoinAcceptFrame(v) => JoinAcceptToVec(v)
    case MACFrame(v) => MacToVec(v)
    case RejoinFrame02(v) => Rejoin02ToVec(v)
    case RejoinFrame1(v) => Rejoin1ToVec(v)
    case RawFrame(raw) => Ok(raw)
  }

  function PhyToVec(p: PhyFrame): Result<bytes>
    decreases p
  {
    var b :- PayloadToVec(p.payload);
    Ok([MhdrToByte(p.mhdr)] + b + (if p.mic.Some? then p.mic.value else []))
  }

  function MacFromSlice(b: bytes): Result<MACPayload> {
    if |b| < 7 then Err
    else
      var size := 7 + Val(FCtrlFromByte(b[4]).fOptsLen);
      if |b| < size then Err
      else
        var h :- FHdrFromSlice(b[..size]);
        Ok(MACPayload(h,
                      if |b| > size then Some(b[size]) else None,
                      if |b| > size + 1 then Some(FrmRaw(b[size + 1..])) else None))
  }

  function PayloadFromSlice(t: FType, b: bytes): Result<Payload> {
    match t
    case JoinRequest => var v :- JoinRequestFromSlice(b); Ok(JoinRequestFrame(v))
    case JoinAccept => Ok(RawFrame(b))
    case UnconfirmedDataUp | ConfirmedDataUp | UnconfirmedDataDown | ConfirmedDataDown =>
      var v :- MacFromSlice(b);
      Ok(MACFrame(v))
    case RejoinRequest =>
      if b == [] then Err
      else if b[0] == 0x00 || b[0] == 0x02 then
        var v :- Rejoin02FromSlice(b);
        Ok(RejoinFrame02(v))
      else if b[0] == 0x01 then
        var v :- Rejoin1FromSlice(b);
        Ok(RejoinFrame1(v))
      else Err
    case Proprietary => Ok(RawFrame(b))
  }

  function PhyFromSlice(b: bytes): Result<PhyFrame> {
    if b == [] then Err
    else
      var mhdr :- MhdrFromByte(b[0]);
      if mhdr.fType.Proprietary? then
        var p :- PayloadFromSlice(Proprietary, b[1..]);
        Ok(PhyFrame(mhdr, p, None))
      else if |b| < 5 then Err
      else
        var p :- PayloadFromSlice(mhdr.fType, b[1..|b| - 4]);
        Ok(PhyFrame(mhdr, p, Some(b[|b| - 4..])))
  }

  predicate IsUplink(t: FType) {
    t.JoinRequest? || t.UnconfirmedDataUp? || t.ConfirmedDataUp? || t.RejoinRequest?
  }

  predicate IsData(t: FType) {
    t.UnconfirmedDataUp? || t.ConfirmedDataUp? || t.UnconfirmedDataDown? || t.ConfirmedDataDown?
  }
}
