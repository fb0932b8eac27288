/** Where every field of a printed frame lies, byte by byte and digit by digit. */
module FrameLayout {
  import opened Bytes
  import opened Words
  import opened Numbers
  import opened Helpers
  import opened MacFields
  import opened MacStream
  import opened CFLists
  import opened CommandLayout
  import opened Frames
  import opened FrameProofs

  // MHDR and FHDR

  /** The message types of LoRaWAN, by number. */
  function TypeNumber(t: FType): nat {
    match t
    case JoinRequest => 0
    case JoinAccept => 1
    case UnconfirmedDataUp => 2
    case UnconfirmedDataDown => 3
    case ConfirmedDataUp => 4
    case ConfirmedDataDown => 5
    case RejoinRequest => 6
    case Proprietary => 7
  }

  /** The type is in the three high bits; the others are zero. */
  lemma MhdrLayout(h: MHDR)
    ensures Val(MhdrToByte(h)) == 32 * TypeNumber(h.fType)
  {
    ValIsSum(MhdrToByte(h));
    hide Val;
  }

  /** The types sent by devices. */
  lemma UplinkTypes(t: FType)
    ensures IsUplink(t) <==> TypeNumber(t) in {0, 2, 4, 6}
    ensures IsData(t) <==> TypeNumber(t) in {2, 3, 4, 5}
  {}

  lemma FCtrlLayout(c: FCtrl)
    requires FCtrlToByte(c).Ok?
    ensures Val(FCtrlToByte(c).value) ==
            Digit(c.adr, 128) + Digit(c.adrAckReq, 64) + Digit(c.ack, 32) + Digit(c.classB || c.fPending, 16)
            + Val(c.fOptsLen)
    ensures Val(c.fOptsLen) <= 15
  {
    ValIsSum(FCtrlToByte(c).value);
    ValIsSum(c.fOptsLen);
    hide Val;
  }

  /** The bytes of a header: address, control, counter, f_opts. */
  predicate HeaderLies(h: FHDR, opts: bytes, b: bytes) {
    && |b| == 7 + |opts|
    && b[0] == h.devAddr[3] && b[1] == h.devAddr[2] && b[2] == h.devAddr[1] && b[3] == h.devAddr[0]
    && Val(b[4]) == Digit(h.fCtrl.adr, 128) + Digit(h.fCtrl.adrAckReq, 64) + Digit(h.fCtrl.ack, 32)
                    + Digit(h.fCtrl.classB || h.fCtrl.fPending, 16) + |opts| % 256
    && Val(b[5]) + 256 * Val(b[6]) == Num(h.fCnt) % 65536
    && b[7..] == opts
  }

  lemma LowBytesNum(fCnt: u32)
    ensures Val(LowBytes(fCnt)[0]) + 256 * Val(LowBytes(fCnt)[1]) == Num(fCnt) % 65536
  {
    Le32Bytes(fCnt);
    assert LowBytes(fCnt) == [Low8(fCnt), Low8(Rest(fCnt))];
    LowHalfNum(fCnt);
    hide *;
  }

  lemma HeaderLayout(h: FHDR)
    requires FHdrToVec(h).Ok?
    ensures EncodeAll(h.fOpts).Ok? && HeaderLies(h, EncodeAll(h.fOpts).value, FHdrToVec(h).value)
  {
    HeaderEncodes(h);
    HeaderCtrl(h);
    HeaderPrinted(h);
    FCtrlLayout(SentCtrl(h));
    ValByte(|OptsBytes(h)|);
    LowBytesNum(h.fCnt);
    hide FHdrToVec, EncodeAll, FCtrlToByte, LowBytes, Val, Byte, Num;
    var b, c, n := FHdrToVec(h).value, FCtrlToByte(SentCtrl(h)).value, LowBytes(h.fCnt);
    assert b == Reverse(h.devAddr) + [c] + n + OptsBytes(h);
    assert b[4] == c && b[5] == n[0] && b[6] == n[1] && b[7..] == OptsBytes(h);
  }

  // Data frames

  /** A data frame: MHDR, header, port if there is one, payload, MIC. */
  predicate DataLies(p: PhyFrame, opts: bytes, frm: bytes, b: bytes)
    requires p.payload.MACFrame? && p.mic.Some?
  {
    var m, n := p.payload.mac, 8 + |opts|;
    && |b| >= n + 4 && Val(b[0]) == 32 * TypeNumber(p.mhdr.fType)
    && HeaderLies(m.fhdr, opts, b[1..n])
    && b[|b| - 4..] == p.mic.value
    && if m.fPort.None? then |b| == n + 4 && frm == []
       else |b| == n + 5 + |frm| && b[n] == m.fPort.value && b[n + 1..|b| - 4] == frm
  }

  lemma DataPieces(first: u8, h: bytes, port: bytes, frm: bytes, mic: Bytes4)
    requires |port| <= 1
    ensures var b := [first] + (h + port + frm) + mic;
            && |b| == 5 + |h| + |port| + |frm| && b[0] == first && b[1..1 + |h|] == h && b[|b| - 4..] == mic
            && (port != [] ==> b[1 + |h|] == port[0] && b[2 + |h|..|b| - 4] == frm)
  {}

  lemma DataFrameLayout(p: PhyFrame)
    requires p.payload.MACFrame? && p.mic.Some? && PhyToVec(p).Ok?
    ensures EncodeAll(p.payload.mac.fhdr.fOpts).Ok?
    ensures DataLies(p, EncodeAll(p.payload.mac.fhdr.fOpts).value, FrmBytes(p.payload.mac), PhyToVec(p).value)
  {
    var m := p.payload.mac;
    PrintedMac(p);
    MacPrinted(m);
    HeaderLayout(m.fhdr);
    MhdrLayout(p.mhdr);
    DataPieces(MhdrToByte(p.mhdr), FHdrToVec(m.fhdr).value, PortBytes(m), FrmBytes(m), p.mic.value);
    hide MacToVec, FHdrToVec, EncodeAll, FrmBytes, MhdrToByte, HeaderLies, Val;
  }

  // Join frames

  /** A reversed identifier of eight bytes at position `at`. */
  predicate EuiAt(b: bytes, at: nat, eui: Bytes8)
    requires at + 8 <= |b|
  {
    b[at..at + 8] == [eui[7], eui[6], eui[5], eui[4], eui[3], eui[2], eui[1], eui[0]]
  }

  lemma ReversedEui(eui: Bytes8)
    ensures Reverse(eui) == [eui[7], eui[6], eui[5], eui[4], eui[3], eui[2], eui[1], eui[0]]
  {}

  lemma ReversedId(id: Bytes3)
    ensures Reverse(id) == [id[2], id[1], id[0]]
  {}

  lemma JoinRequestLayout(p: JoinRequestPayload)
    ensures var b := JoinRequestToVec(p);
            |b| == 18 && EuiAt(b, 0, p.joinEui) && EuiAt(b, 8, p.devEui) && LeNum(b[16..]) == Num16(p.devNonce)
  {
    ReversedEui(p.joinEui);
    ReversedEui(p.devEui);
    Le16Num(p.devNonce);
    hide Le16, LeNum, Num16;
    assert JoinRequestToVec(p)[16..] == Le16(p.devNonce);
  }

  lemma Rejoin02Layout(p: RejoinRequestType02Payload)
    requires Rejoin02ToVec(p).Ok?
    ensures var b := Rejoin02ToVec(p).value;
            && |b| == 14 && p.rejoinType in {RejoinType0, RejoinType2}
            && b[0] == (if p.rejoinType.RejoinType0? then 0x00 else 0x02)
            && b[1..4] == [p.netId[2], p.netId[1], p.netId[0]] && EuiAt(b, 4, p.devEui)
            && LeNum(b[12..]) == Num16(p.rjCount0)
  {
    ReversedId(p.netId);
    ReversedEui(p.devEui);
    Le16Num(p.rjCount0);
    hide Le16, LeNum, Num16;
    var b := Rejoin02ToVec(p).value;
    assert b[1..4] == Reverse(p.netId) && b[4..12] == Reverse(p.devEui) && b[12..] == Le16(p.rjCount0);
  }

  lemma Rejoin1Layout(p: RejoinRequestType1Payload)
    requires Rejoin1ToVec(p).Ok?
    ensures var b := Rejoin1ToVec(p).value;
            && |b| == 19 && p.rejoinType.RejoinType1? && b[0] == 0x01
            && EuiAt(b, 1, p.joinEui) && EuiAt(b, 9, p.devEui) && LeNum(b[17..]) == Num16(p.rjCount1)
  {
    ReversedEui(p.joinEui);
    ReversedEui(p.devEui);
    Le16Num(p.rjCount1);
    hide Le16, LeNum, Num16;
    var b := Rejoin1ToVec(p).value;
    assert b[1..9] == Reverse(p.joinEui) && b[9..17] == Reverse(p.devEui) && b[17..] == Le16(p.rjCount1);
  }

  lemma JoinAcceptLayout(p: JoinAcceptPayload)
    requires JoinAcceptToVec(p).Ok?
    ensures var b := JoinAcceptToVec(p).value;
            && |b| >= 12 && LeNum(b[..3]) == Num(p.joinNonce) % 0x100_0000
            && b[3..6] == [p.homeNetId[2], p.homeNetId[1], p.homeNetId[0]]
            && b[6..10] == [p.devAddr[3], p.devAddr[2], p.devAddr[1], p.devAddr[0]]
            && Val(b[10]) ==
               Val(p.dlSettings.rx2Dr) + 16 * Val(p.dlSettings.rx1DrOffset) + Digit(p.dlSettings.optNeg, 128)
            && b[11] == p.rxDelay
            && if p.cfList.None? then |b| == 12 else ToBytes(p.cfList.value) == Ok(b[12..])
  {
    DLSettingsSum(p.dlSettings);
    ReversedId(p.homeNetId);
    NonceNum(p.joinNonce);
    hide Le32, LeNum, Num, Val, DLSettings.ToU8, ToBytes;
    var b, nonce := JoinAcceptToVec(p).value, Le32(p.joinNonce)[..3];
    var dl := p.dlSettings.ToU8().value;
    var list := if p.cfList.Some? then ToBytes(p.cfList.value).value else [];
    assert b == nonce + Reverse(p.homeNetId) + Reverse(p.devAddr) + [dl] + [p.rxDelay] + list;
    assert b[..3] == nonce && b[3..6] == Reverse(p.homeNetId) && b[6..10] == Reverse(p.devAddr);
    assert b[10] == dl && b[11] == p.rxDelay && b[12..] == list;
  }

  lemma NonceNum(x: u32)
    ensures LeNum(Le32(x)[..3]) == Num(x) % 0x100_0000
  {
    Le32Bytes(x);
    assert Le32(x)[..3] == [Low8(x), Low8(Rest(x)), Low8(Rest(Rest(x)))];
    hide *;
    NumByte(x);
    NumByte(Rest(x));
    NumByte(Rest(Rest(x)));
    LeNum3(Le32(x)[..3]);
    ByteVal(Low8(x));
    ByteVal(Low8(Rest(x)));
    ByteVal(Low8(Rest(Rest(x))));
    ThreeLowDigits(Val(Low8(x)), Val(Low8(Rest(x))), Val(Low8(Rest(Rest(x)))), Num(x), Num(Rest(x)), Num(Rest(Rest(x))),
                   Num(Rest(Rest(Rest(x)))));
  }

  lemma ThreeLowDigits(x: nat, y: nat, z: nat, n: nat, n1: nat, n2: nat, n3: nat)
    requires x < 256 && y < 256 && z < 256
    requires n == x + 256 * n1 && n1 == y + 256 * n2 && n2 == z + 256 * n3
    ensures n % 0x100_0000 == x + 256 * y + 65536 * z
  {
    assert n == x + 256 * y + 65536 * z + 0x100_0000 * n3;
    LowPart(x + 256 * y + 65536 * z, n3);
  }

  lemma LowPart(low: nat, high: nat)
    requires low < 0x100_0000
    ensures (low + 0x100_0000 * high) % 0x100_0000 == low
  {}

  // Relay metadata

  /** Data rate, then SNR from -20 dB in five bits, then RSSI below -15 dBm in seven, then the channel. */
  lemma MetadataLayout(m: UplinkMetadata)
    requires MetadataToBytes(m).Ok?
    ensures var b := MetadataToBytes(m).value;
            && |b| == 3 && Val(b[2]) == Val(m.worChannel)
            && Val(b[0]) + 256 * Val(b[1]) ==
               Val(m.dr) + 16 * (Clamp(m.snr, -20, 11) + 20) + 512 * (-15 - Clamp(m.rssi, -142, -15))
  {
    SnrCodeRange(m.snr);
    RssiCodeRange(m.rssi);
    hide SnrCode, RssiCode, Val, Clamp;
    MetadataSum(m.dr, SnrCode(m.snr), RssiCode(m.rssi));
  }

  lemma MetadataSum(dr: u8, snr: u8, rssi: u8)
    requires dr <= 15 && snr <= 31 && rssi <= 127
    ensures Val(dr | (snr << 4)) + 256 * Val((snr >> 4) | (rssi << 1)) == Val(dr) + 16 * Val(snr) + 512 * Val(rssi)
  {
    SumLow(dr, snr);
    SumHigh(snr, rssi);
    SumSplit(snr);
    ValIsSum(dr | (snr << 4));
    ValIsSum((snr >> 4) | (rssi << 1));
    ValIsSum(dr);
    ValIsSum(snr);
    ValIsSum(rssi);
    hide Val, Sum8;
  }

  lemma SumLow(dr: u8, snr: u8)
    requires dr <= 15
    ensures Sum8(dr | (snr << 4)) == Sum8(dr) + 16 * Sum8(snr & 0x0f)
  {}

  lemma SumHigh(snr: u8, rssi: u8)
    requires snr <= 31 && rssi <= 127
    ensures Sum8((snr >> 4) | (rssi << 1)) == Sum8(snr >> 4) + 2 * Sum8(rssi)
  {}

  lemma SumSplit(b: u8)
    ensures Sum8(b) == Sum8(b & 0x0f) + 16 * Sum8(b >> 4)
  {}

  lemma SumRead(b0: u8, b1: u8)
    ensures Val(b0) + 256 * Val(b1) ==
            Val(b0 & 0x0f) + 16 * Val((b0 >> 4) | ((b1 & 0x01) << 4)) + 512 * Val(b1 >> 1)
  {
    SumReadLow(b0, b1);
    SumReadHigh(b1);
    ValIsSum(b0);
    ValIsSum(b1);
    ValIsSum(b0 & 0x0f);
    ValIsSum((b0 >> 4) | ((b1 & 0x01) << 4));
    ValIsSum(b1 >> 1);
    hide Val, Sum8;
  }

  lemma SumReadLow(b0: u8, b1: u8)
    ensures Sum8(b0) + 256 * Sum8(b1 & 0x01) == Sum8(b0 & 0x0f) + 16 * Sum8((b0 >> 4) | ((b1 & 0x01) << 4))
  {}

  lemma SumReadHigh(b1: u8)
    ensures Sum8(b1) == Sum8(b1 & 0x01) + 2 * Sum8(b1 >> 1)
  {}

  /** And read back from any three bytes; of the third, two bits. */
  lemma MetadataRead(b0: u8, b1: u8, b2: u8)
    ensures var m := MetadataFromBytes(b0, b1, b2);
            && Val(b0) + 256 * Val(b1) == Val(m.dr) + 16 * (m.snr + 20) + 512 * (-15 - m.rssi)
            && m.worChannel == b2 & 0x03
  {
    SumRead(b0, b1);
    hide Val;
  }

  /** A forwarded uplink: metadata, frequency, frame. */
  lemma ForwardLayout(f: FRMPayload)
    requires f.ForwardUplinkReq? && FrmToVec(f).Ok?
    ensures MetadataToBytes(f.metadata).Ok? && PhyToVec(f.uplink).Ok?
    ensures var b := FrmToVec(f).value;
            && |b| >= 6 && b[..3] == MetadataToBytes(f.metadata).value
            && LeNum(b[3..6]) == (if f.frequency >= 2400000000 then f.frequency / 200 else f.frequency / 100)
            && b[6..] == PhyToVec(f.uplink).value
  {
    EncodedFreqIs(f.frequency);
    hide MetadataToBytes, EncodedFreq, PhyToVec, LeNum;
    var m, n := MetadataToBytes(f.metadata).value, EncodedFreq(f.frequency).value;
    var b, inner := FrmToVec(f).value, PhyToVec(f.uplink).value;
    assert b == m + n + inner;
    assert b[..3] == m && b[3..6] == n && b[6..] == inner;
  }
}
