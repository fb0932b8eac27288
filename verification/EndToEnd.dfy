/** From the sender's data frame to the receiver's: encrypt, sign, print, parse, validate, decrypt. */
module EndToEnd {
  import opened Bytes
  import opened Helpers
  import opened MacCommands
  import opened MacStream
  import opened Frames
  import opened FrameProofs
  import opened Crypto
  import opened PhyOps

  // What survives the wire inside frm_payload.

  /** The payloads that decoding on this port gives back. */
  predicate FrmSurvives(uplink: bool, fPort: u8, f: FRMPayload) {
    match f
    case FrmRaw(_) => fPort != 0 && fPort != 226
    case FrmCommands(cmds) => fPort == 0 && WireList(uplink, cmds)
    case ForwardUplinkReq(metadata, frequency, phy) =>
      fPort == 226 && uplink && ClampedMetadata(metadata) == metadata && CanonicalFreq(frequency) &&
        WireFrame(phy)
    case ForwardDownlinkReq(phy) => fPort == 226 && !uplink && WireFrame(phy)
  }

  lemma ForwardUplinkPieces(m: bytes, f: bytes, b: bytes)
    requires |m| == 3 && |f| == 3
    ensures var w := m + f + b;
            |w| == 6 + |b| && w[0] == m[0] && w[1] == m[1] && w[2] == m[2] && w[3..6] == f && w[6..] == b
  {}

  /** A relayed uplink comes back with its metadata clamped, and the inner frame as the wire holds it. */
  lemma ForwardUplinkArrives(f: FRMPayload)
    requires f.ForwardUplinkReq? && FrmToVec(f).Ok?
    ensures PhyToVec(f.uplink).Ok? && EncodedFreq(f.frequency).Ok?
    ensures ForwardUplinkFromSlice(FrmToVec(f).value) ==
            match PhyFromSlice(PhyToVec(f.uplink).value)
            case Err => Err
            case Ok(phy) => Ok(ForwardUplinkReq(ClampedMetadata(f.metadata),
                                                DecodedFreq(EncodedFreq(f.frequency).value), phy))
  {
    MetadataRoundTrip(f.metadata);
    hide PhyFromSlice, PhyToVec, MetadataToBytes, MetadataFromBytes, EncodedFreq, DecodedFreq, ClampedMetadata;
    ForwardUplinkPieces(MetadataToBytes(f.metadata).value, EncodedFreq(f.frequency).value, PhyToVec(f.uplink).value);
  }

  lemma RawArrives(uplink: bool, fPort: u8, f: FRMPayload)
    requires f.FrmRaw?
    ensures FrmToVec(f).Ok?
    ensures FrmFromBytes(uplink, fPort, FrmToVec(f).value) == Ok(f) <==> FrmSurvives(uplink, fPort, f)
  {
    hide DecodeAll, PhyFromSlice;
  }

  lemma CommandsArrive(uplink: bool, fPort: u8, f: FRMPayload)
    requires f.FrmCommands? && FrmToVec(f).Ok?
    ensures FrmFromBytes(uplink, fPort, FrmToVec(f).value) == Ok(f) <==> FrmSurvives(uplink, fPort, f)
  {
    hide DecodeAll, WireList, EncodeAll, PhyFromSlice;
    ListRoundTrip(uplink, f.cmds);
  }

  lemma RelayedUplinkArrives(uplink: bool, fPort: u8, f: FRMPayload)
    requires f.ForwardUplinkReq? && FrmToVec(f).Ok?
    ensures FrmFromBytes(uplink, fPort, FrmToVec(f).value) == Ok(f) <==> FrmSurvives(uplink, fPort, f)
  {
    ForwardUplinkArrives(f);
    hide PhyFromSlice, PhyToVec, EncodedFreq, DecodedFreq, ClampedMetadata, WireFrame, ForwardUplinkFromSlice;
    hide DecodeAll, FrmToVec, CanonicalFreq;
    PrintParseIff(f.uplink);
    DecodeEncodedFreq(f.frequency);
  }

  lemma RelayedDownlinkArrives(uplink: bool, fPort: u8, f: FRMPayload)
    requires f.ForwardDownlinkReq? && FrmToVec(f).Ok?
    ensures FrmFromBytes(uplink, fPort, FrmToVec(f).value) == Ok(f) <==> FrmSurvives(uplink, fPort, f)
  {
    hide PhyFromSlice, PhyToVec, WireFrame, DecodeAll;
    PrintParseIff(f.downlink);
  }

  lemma FrmArrives(uplink: bool, fPort: u8, f: FRMPayload)
    requires FrmToVec(f).Ok?
    ensures FrmFromBytes(uplink, fPort, FrmToVec(f).value) == Ok(f) <==> FrmSurvives(uplink, fPort, f)
  {
    hide FrmFromBytes, FrmToVec, FrmSurvives;
    match f
    case FrmRaw(_) => RawArrives(uplink, fPort, f);
    case FrmCommands(_) => CommandsArrive(uplink, fPort, f);
    case ForwardUplinkReq(_, _, _) => RelayedUplinkArrives(uplink, fPort, f);
    case ForwardDownlinkReq(_) => RelayedDownlinkArrives(uplink, fPort, f);
  }

  // The two ends of the link.

  datatype MicArgs =
    | UplinkArgs(ver: MACVersion, conf: u32, txDr: u8, txCh: u8, fKey: Key, sKey: Key)
    | DownlinkArgs(ver: MACVersion, conf: u32, sKey: Key)

  function DataMic(s: Suite, args: MicArgs, p: PhyFrame): Result<Mic> {
    match args
    case UplinkArgs(ver, conf, txDr, txCh, fKey, sKey) => UplinkMic(s, p, ver, conf, txDr, txCh, fKey, sKey)
    case DownlinkArgs(ver, conf, sKey) => DownlinkMic(s, p, ver, conf, sKey)
  }

  function ValidMic(s: Suite, args: MicArgs, p: PhyFrame): Result<bool> {
    match args
    case UplinkArgs(ver, conf, txDr, txCh, fKey, sKey) => ValidUplinkMic(s, p, ver, conf, txDr, txCh, fKey, sKey)
    case DownlinkArgs(ver, conf, sKey) => ValidDownlinkMic(s, p, ver, conf, sKey)
  }

  /** Encrypted but not yet signed. LoRaWAN 1.0 has no key for f_opts and leaves them in the clear. */
  function Sealed(s: Suite, optsKey: Option<Key>, frmKey: Key, p: PhyFrame): Result<PhyFrame> {
    var p1 :- if optsKey.Some? then FOptsEncrypted(s, optsKey.value, p) else Ok(p);
    FrmEncrypted(s, frmKey, p1)
  }

  function Signed(s: Suite, args: MicArgs, p: PhyFrame): Result<PhyFrame> {
    var m :- DataMic(s, args, p);
    Ok(p.(mic := Some(m)))
  }

  function Send(s: Suite, args: MicArgs, optsKey: Option<Key>, frmKey: Key, p: PhyFrame): Result<bytes> {
    var p2 :- Sealed(s, optsKey, frmKey, p);
    var p3 :- Signed(s, args, p2);
    PhyToVec(p3)
  }

  /** The receiver knows the full frame counter; the wire has its low half. */
  function Arrived(b: bytes, fCnt: u32): Result<PhyFrame> {
    var r :- PhyFromSlice(b);
    if r.payload.MACFrame? then Ok(WithFCnt(r, fCnt)) else Err
  }

  function Opened(s: Suite, optsKey: Option<Key>, frmKey: Key, r: PhyFrame): Result<PhyFrame> {
    var r1 :- if optsKey.Some? then FOptsDecrypted(s, optsKey.value, r) else FOptsDecoded(r);
    FrmDecrypted(s, frmKey, r1)
  }

  // Step 1: what has been sealed.

  function FrmOf(p: PhyFrame): bytes
    requires p.payload.MACFrame?
  {
    FrmBytes(p.payload.mac)
  }

  function OptsOf(p: PhyFrame): bytes
    requires p.payload.MACFrame?
  {
    OptsBytes(p.payload.mac.fhdr)
  }

  /** What f_opts can be sealed: any that are left in the clear, and up to 15 bytes of encrypted ones. */
  predicate Sealable(optsKey: Option<Key>, p: PhyFrame)
    requires p.payload.MACFrame?
  {
    optsKey.Some? ==> |OptsOf(p)| <= 15
  }

  /** f_opts as they travel. */
  function TravelOpts(s: Suite, optsKey: Option<Key>, p: PhyFrame): bytes
    requires p.payload.MACFrame? && Sealable(optsKey, p)
  {
    if optsKey.None? then OptsOf(p)
    else FOptsCipher(s, FrameStream(optsKey.value, p), UsesAFCntDown(p), OptsOf(p)).value
  }

  lemma OptsSealed(s: Suite, optsKey: Option<Key>, p: PhyFrame)
    requires p.payload.MACFrame? && EncodeAll(p.payload.mac.fhdr.fOpts).Ok?
    ensures var r := if optsKey.Some? then FOptsEncrypted(s, optsKey.value, p) else Ok(p);
            && (r.Ok? <==> Sealable(optsKey, p))
            && (r.Ok? ==>
                  && r.value.payload.MACFrame?
                  && r.value == WithFOpts(p, r.value.payload.mac.fhdr.fOpts)
                  && EncodeAll(r.value.payload.mac.fhdr.fOpts) == Ok(TravelOpts(s, optsKey, p))
                  && |TravelOpts(s, optsKey, p)| == |OptsOf(p)|)
  {
    hide EncodeAll, FOptsCipher, UsesAFCntDown, FrameStream;
    if optsKey.Some? && |OptsOf(p)| <= 15 {
      RawList(TravelOpts(s, optsKey, p));
    }
  }

  lemma SealedFrame(s: Suite, optsKey: Option<Key>, frmKey: Key, p: PhyFrame)
    requires p.payload.MACFrame? && Sealable(optsKey, p)
    requires EncodeAll(p.payload.mac.fhdr.fOpts).Ok?
    requires p.payload.mac.frmPayload.Some? ==> FrmToVec(p.payload.mac.frmPayload.value).Ok?
    ensures Sealed(s, optsKey, frmKey, p).Ok?
    ensures var q := Sealed(s, optsKey, frmKey, p).value;
            && q.payload.MACFrame? && q.mhdr == p.mhdr && q.mic == p.mic
            && q.payload.mac.fPort == p.payload.mac.fPort
            && q.payload.mac.fhdr == p.payload.mac.fhdr.(fOpts := q.payload.mac.fhdr.fOpts)
            && OptsOf(q) == TravelOpts(s, optsKey, p) && |OptsOf(q)| == |OptsOf(p)|
            && FrmOf(q) == FrmCipher(s, FrameStream(frmKey, p), FrmOf(p))
            && (q.payload.mac.frmPayload.None? <==> p.payload.mac.frmPayload.None?)
  {
    OptsSealed(s, optsKey, p);
    hide EncodeAll, FOptsCipher, FrmCipher, FOptsEncrypted, TravelOpts;
  }

  // Step 2: what arrives, and its MIC.

  lemma CounterRestored(fCnt: u32)
    ensures LowBytes(Low16(fCnt)) == LowBytes(fCnt)
  {}

  /** Only the low half of the counter is printed. */
  lemma PrintsSameCounter(m: MACPayload, fCnt: u32)
    requires Low16(fCnt) == m.fhdr.fCnt
    ensures MacToVec(m.(fhdr := m.fhdr.(fCnt := fCnt))) == MacToVec(m)
  {
    CounterRestored(fCnt);
    hide LowBytes, Low16, EncodeAll, FCtrlToByte, FrmToVec;
    var h := m.fhdr.(fCnt := fCnt);
    assert FHdrToVec(h) == FHdrToVec(m.fhdr);
  }

  /** A received payload, with the full counter restored. */
  function Restored(m: MACPayload, fCnt: u32): MACPayload {
    m.(fhdr := m.fhdr.(fCnt := fCnt))
  }

  /** Whatever arrives of a printed data frame, its signed bytes are those that were signed. */
  lemma ArrivedFrame(p: PhyFrame)
    requires IsData(p.mhdr.fType) && p.payload.MACFrame? && p.mic.Some? && PhyToVec(p).Ok?
    ensures var m := p.payload.mac;
            var r := p.(payload := MACFrame(Restored(ReceivedMac(Reread(m)), m.fhdr.fCnt)));
            && Arrived(PhyToVec(p).value, m.fhdr.fCnt) == Ok(r)
            && MicBytes(r) == MicBytes(p)
  {
    DataFrameReread(p);
    var m := p.payload.mac;
    var received := ReceivedMac(Reread(m));
    MacPrints(p);
    MacReread(m);
    MacLossless(MacToVec(m).value);
    ReceivedCounter(Reread(m));
    RereadFields(m);
    hide MacToVec, MacFromSlice, PhyFromSlice, PhyToVec, ReceivedHeader, ReceivedMac, Reread, Low16;
    PrintsSameCounter(received, m.fhdr.fCnt);
  }

  lemma RereadFields(m: MACPayload)
    ensures Reread(m).fhdr == m.fhdr.(fOpts := Reread(m).fhdr.fOpts)
  {
    hide Tail, OptsBytes, Kept;
  }

  lemma MacPrints(p: PhyFrame)
    requires p.payload.MACFrame? && PhyToVec(p).Ok?
    ensures MacToVec(p.payload.mac).Ok?
  {}

  lemma ReceivedCounter(m: MACPayload)
    ensures ReceivedMac(m).fhdr == ReceivedHeader(m.fhdr)
    ensures ReceivedHeader(m.fhdr).fCnt == Low16(m.fhdr.fCnt)
    ensures ReceivedHeader(m.fhdr).devAddr == m.fhdr.devAddr
    ensures ReceivedHeader(m.fhdr).fCtrl == SharedBit(SentCtrl(m.fhdr))
    ensures ReceivedHeader(m.fhdr).fCtrl.ack == m.fhdr.fCtrl.ack
    ensures ReceivedHeader(m.fhdr).fOpts == if OptsBytes(m.fhdr) == [] then [] else [Raw(OptsBytes(m.fhdr))]
  {}

  /** The MIC is a function of the printed bytes, the address, the full counter and the ACK bit. */
  lemma SameMic(s: Suite, args: MicArgs, p: PhyFrame, r: PhyFrame)
    requires p.payload.MACFrame? && r.payload.MACFrame? && MicBytes(p) == MicBytes(r)
    requires p.payload.mac.fhdr.devAddr == r.payload.mac.fhdr.devAddr &&
             p.payload.mac.fhdr.fCnt == r.payload.mac.fhdr.fCnt
    requires p.payload.mac.fhdr.fCtrl.ack == r.payload.mac.fhdr.fCtrl.ack
    ensures DataMic(s, args, p) == DataMic(s, args, r)
  {
    hide MicBytes, MicBlock, ConfFCnt;
  }

  /** The MIC that was set is accepted by a receiver with the same arguments, whatever the frame reads as. */
  lemma MicArrives(s: Suite, args: MicArgs, q: PhyFrame)
    requires IsData(q.mhdr.fType) && q.payload.MACFrame?
    requires Signed(s, args, q).Ok? && PhyToVec(Signed(s, args, q).value).Ok?
    ensures var b := PhyToVec(Signed(s, args, q).value).value;
            var r := Arrived(b, q.payload.mac.fhdr.fCnt);
            r.Ok? && ValidMic(s, args, r.value) == Ok(true)
  {
    var p := Signed(s, args, q).value;
    ArrivedFrame(p);
    ReceivedCounter(Reread(p.payload.mac));
    RereadFields(p.payload.mac);
    var r := Arrived(PhyToVec(p).value, q.payload.mac.fhdr.fCnt).value;
    UnsignedMicBytes(q, p.mic);
    hide MicBytes, PhyToVec, Arrived, ReceivedMac, ReceivedHeader, Reread, UplinkMic, DownlinkMic;
    SameMic(s, args, q, r);
  }

  lemma UnsignedMicBytes(q: PhyFrame, mic: Option<Mic>)
    ensures MicBytes(q.(mic := mic)) == MicBytes(q)
  {}

  // Step 3: opening it.

  lemma OptsOpened(s: Suite, optsKey: Option<Key>, p: PhyFrame, r: PhyFrame)
    requires p.payload.MACFrame? && r.payload.MACFrame? && Sealable(optsKey, p)
    requires r.mhdr == p.mhdr && r.payload.mac.fPort == p.payload.mac.fPort
    requires r.payload.mac.fhdr.devAddr == p.payload.mac.fhdr.devAddr &&
             r.payload.mac.fhdr.fCnt == p.payload.mac.fhdr.fCnt
    requires var travel := TravelOpts(s, optsKey, p);
             r.payload.mac.fhdr.fOpts == if travel == [] then [] else [Raw(travel)]
    ensures (if optsKey.Some? then FOptsDecrypted(s, optsKey.value, r) else FOptsDecoded(r)) ==
            match DecodeAll(IsUplink(p.mhdr.fType), OptsOf(p))
            case Err => Err
            case Ok(cmds) => Ok(WithFOpts(r, cmds))
  {
    var travel := TravelOpts(s, optsKey, p);
    RawList(travel);
    assert DecodeAll(IsUplink(p.mhdr.fType), []) == Ok([]);
    if optsKey.Some? {
      FOptsCipherTwice(s, FrameStream(optsKey.value, p), UsesAFCntDown(p), OptsOf(p));
    }
    hide EncodeAll, FOptsCipher, DecodeAll, OptsOf;
    if travel == [] {
      assert WithFOpts(r, []) == r;
    }
  }

  lemma FrmOpened(s: Suite, frmKey: Key, p: PhyFrame, r: PhyFrame)
    requires p.payload.MACFrame? && r.payload.MACFrame?
    requires r.mhdr == p.mhdr && r.payload.mac.fPort == p.payload.mac.fPort
    requires r.payload.mac.fhdr.devAddr == p.payload.mac.fhdr.devAddr &&
             r.payload.mac.fhdr.fCnt == p.payload.mac.fhdr.fCnt
    requires r.payload.mac.frmPayload ==
             if FrmOf(p) == [] then None else Some(FrmRaw(FrmCipher(s, FrameStream(frmKey, p), FrmOf(p))))
    ensures FrmDecrypted(s, frmKey, r) ==
            if FrmOf(p) == [] then Ok(r)
            else
              match FrmFromBytes(IsUplink(p.mhdr.fType), PortOf(p.payload.mac), FrmOf(p))
              case Err => Err
              case Ok(frm) => Ok(WithFrm(r, frm))
  {
    FrmCipherTwice(s, FrameStream(frmKey, p), FrmOf(p));
    hide FrmFromBytes, FrmCipher, FrmOf;
  }

  // The theorem.

  /** What the receiver should end up with: the frame as sent, but for what the header cannot carry. */
  function Delivered(p: PhyFrame, mic: Mic): PhyFrame
    requires p.payload.MACFrame?
  {
    var h := p.payload.mac.fhdr;
    p.(payload := MACFrame(p.payload.mac.(fhdr := h.(fCtrl := SharedBit(SentCtrl(h))))), mic := Some(mic))
  }

  /** The frames that every step of the link preserves. */
  predicate Deliverable(p: PhyFrame)
    requires p.payload.MACFrame?
  {
    var m := p.payload.mac;
    && WireList(IsUplink(p.mhdr.fType), m.fhdr.fOpts)
    && (m.frmPayload.Some? ==> FrmOf(p) != [] && FrmSurvives(IsUplink(p.mhdr.fType), PortOf(m), m.frmPayload.value))
  }

  lemma SendSteps(s: Suite, args: MicArgs, optsKey: Option<Key>, frmKey: Key, p: PhyFrame)
    requires p.payload.MACFrame? && Send(s, args, optsKey, frmKey, p).Ok?
    ensures Sealed(s, optsKey, frmKey, p).Ok? && Sealed(s, optsKey, frmKey, p).value.payload.MACFrame?
    ensures var q := Sealed(s, optsKey, frmKey, p).value;
            Signed(s, args, q).Ok? && PhyToVec(Signed(s, args, q).value) == Send(s, args, optsKey, frmKey, p)
    ensures EncodeAll(p.payload.mac.fhdr.fOpts).Ok? && Sealable(optsKey, p)
    ensures p.payload.mac.frmPayload.Some? ==> FrmToVec(p.payload.mac.frmPayload.value).Ok? && p.payload.mac.fPort.Some?
  {
    hide EncodeAll, FOptsCipher, FrmCipher;
    var q := Sealed(s, optsKey, frmKey, p).value;
    MacPrints(Signed(s, args, q).value);
    if EncodeAll(p.payload.mac.fhdr.fOpts).Ok? {
      OptsSealed(s, optsKey, p);
    }
  }

  /** What arrives of f_opts that fit, in terms of what was sent. */
  lemma ArrivesSealed(s: Suite, args: MicArgs, optsKey: Option<Key>, frmKey: Key, p: PhyFrame)
    requires IsData(p.mhdr.fType) && p.payload.MACFrame? && |OptsOf(p)| <= 15
    requires Send(s, args, optsKey, frmKey, p).Ok?
    ensures var r := Arrived(Send(s, args, optsKey, frmKey, p).value, p.payload.mac.fhdr.fCnt);
            && r.Ok? && r.value.payload.MACFrame? && r.value.mhdr == p.mhdr && r.value.mic.Some?
            && var travel, frm := TravelOpts(s, optsKey, p), FrmCipher(s, FrameStream(frmKey, p), FrmOf(p));
            && var h := p.payload.mac.fhdr;
            && r.value.payload == MACFrame(MACPayload(
                 FHDR(h.devAddr, SharedBit(SentCtrl(h)), h.fCnt, if travel == [] then [] else [Raw(travel)]),
                 p.payload.mac.fPort, if FrmOf(p) == [] then None else Some(FrmRaw(frm))))
  {
    SendSteps(s, args, optsKey, frmKey, p);
    SealedFrame(s, optsKey, frmKey, p);
    var q := Sealed(s, optsKey, frmKey, p).value;
    var f := Signed(s, args, q).value;
    MacPrints(f);
    ArrivedFrame(f);
    ShortReread(f.payload.mac);
    ReceivedCounter(f.payload.mac);
    SentLength(p, q);
    hide EncodeAll, FOptsCipher, PhyToVec, MacToVec, Arrived, Sealed, Send, ReceivedHeader, SentCtrl, SharedBit;
    hide DataMic;
    hide FrmToVec, Reread, TravelOpts, FrmCipher;
  }

  lemma SentLength(p: PhyFrame, q: PhyFrame)
    requires p.payload.MACFrame? && q.payload.MACFrame? && |OptsOf(p)| == |OptsOf(q)|
    requires q.payload.mac.fhdr == p.payload.mac.fhdr.(fOpts := q.payload.mac.fhdr.fOpts)
    ensures SentCtrl(p.payload.mac.fhdr) == SentCtrl(q.payload.mac.fhdr)
  {}

  /** The receiver accepts the MIC of everything that was sent. */
  lemma SentIsValid(s: Suite, args: MicArgs, optsKey: Option<Key>, frmKey: Key, p: PhyFrame)
    requires IsData(p.mhdr.fType) && p.payload.MACFrame?
    requires Send(s, args, optsKey, frmKey, p).Ok?
    ensures var r := Arrived(Send(s, args, optsKey, frmKey, p).value, p.payload.mac.fhdr.fCnt);
            && r.Ok? && ValidMic(s, args, r.value) == Ok(true) && r.value.mic.Some? && r.value.payload.MACFrame?
  {
    SendSteps(s, args, optsKey, frmKey, p);
    SealedFrame(s, optsKey, frmKey, p);
    var q := Sealed(s, optsKey, frmKey, p).value;
    MicArrives(s, args, q);
    MicPresent(s, args, Arrived(Send(s, args, optsKey, frmKey, p).value, p.payload.mac.fhdr.fCnt).value);
    hide Arrived, ValidMic, Sealed, Send, EncodeAll, FrmToVec, TravelOpts, FrmCipher;
  }

  lemma MicPresent(s: Suite, args: MicArgs, r: PhyFrame)
    ensures ValidMic(s, args, r) == Ok(true) ==> r.mic.Some? && r.payload.MACFrame?
  {
    hide MicBytes, CmacF, CmacS;
  }

  /** Of longer f_opts, sent in the clear, at most 15 bytes arrive. */
  lemma LongOptsArrive(s: Suite, args: MicArgs, optsKey: Option<Key>, frmKey: Key, p: PhyFrame)
    requires IsData(p.mhdr.fType) && p.payload.MACFrame? && |OptsOf(p)| > 15
    requires Send(s, args, optsKey, frmKey, p).Ok?
    ensures var r := Arrived(Send(s, args, optsKey, frmKey, p).value, p.payload.mac.fhdr.fCnt);
            && optsKey.None? && r.Ok? && r.value.payload.MACFrame? && r.value.mhdr == p.mhdr
            && var fOpts := r.value.payload.mac.fhdr.fOpts;
            && (fOpts == [] || (|fOpts| == 1 && fOpts[0].Raw? && |fOpts[0].raw| <= 15))
  {
    SendSteps(s, args, optsKey, frmKey, p);
    SealedFrame(s, optsKey, frmKey, p);
    var f := Signed(s, args, Sealed(s, optsKey, frmKey, p).value).value;
    MacPrints(f);
    ArrivedFrame(f);
    ShortOpts(f.payload.mac);
    hide Arrived, Sealed, Send, EncodeAll, FrmToVec, TravelOpts, FrmCipher, PhyToVec, MacToVec, ReceivedMac, Reread;
    hide DataMic;
  }

  lemma ShortOpts(m: MACPayload)
    requires MacToVec(m).Ok?
    ensures var fOpts := ReceivedMac(Reread(m)).fhdr.fOpts;
            fOpts == [] || (|fOpts| == 1 && fOpts[0].Raw? && |fOpts[0].raw| <= 15)
  {
    MacPrinted(m);
    RereadHeader(m.fhdr);
    CutHeaderOpts(m.fhdr);
    KeptSpill(m.fhdr);
    ReceivedCounter(Reread(m));
    hide MacToVec, FHdrToVec, EncodeAll, OptsBytes, Kept, Spill, CutHeader, Tail, ReceivedMac, ReceivedHeader;
  }

  /** The f_opts of an opened frame are those decoded; decoding does not lengthen them. */
  lemma OpenedOpts(s: Suite, frmKey: Key, r: PhyFrame, d: PhyFrame)
    requires r.payload.MACFrame? && d.payload.MACFrame? && Opened(s, None, frmKey, r) == Ok(d)
    requires var fOpts := r.payload.mac.fhdr.fOpts;
             fOpts == [] || (|fOpts| == 1 && fOpts[0].Raw? && |fOpts[0].raw| <= 15)
    ensures |OptsOf(d)| <= 15
  {
    var fOpts, uplink := r.payload.mac.fhdr.fOpts, IsUplink(r.mhdr.fType);
    RawList([]);
    if fOpts != [] && EncodeAll(d.payload.mac.fhdr.fOpts).Ok? {
      assert DecodeAll(uplink, fOpts[0].raw) == Ok(d.payload.mac.fhdr.fOpts) by {
        hide DecodeAll, EncodeAll, FrmFromBytes, FrmToVec, FrmCipher;
      }
      hide *;
      DecodedIsWire(uplink, fOpts[0].raw);
    }
    hide DecodeAll, EncodeAll, FrmFromBytes, FrmToVec, FrmCipher;
  }

  lemma SameOpts(p: PhyFrame, mic: Mic)
    requires p.payload.MACFrame?
    ensures Delivered(p, mic).payload.MACFrame? && OptsOf(Delivered(p, mic)) == OptsOf(p)
  {
    hide EncodeAll, SentCtrl, SharedBit;
  }

  /** With f_opts that fit, opening gives the frame back exactly when it is deliverable. */
  lemma ShortIsFaithful(s: Suite, args: MicArgs, optsKey: Option<Key>, frmKey: Key, p: PhyFrame)
    requires IsData(p.mhdr.fType) && p.payload.MACFrame? && |OptsOf(p)| <= 15
    requires Send(s, args, optsKey, frmKey, p).Ok?
    ensures var r := Arrived(Send(s, args, optsKey, frmKey, p).value, p.payload.mac.fhdr.fCnt);
            && r.Ok? && r.value.mic.Some?
            && (Opened(s, optsKey, frmKey, r.value) == Ok(Delivered(p, r.value.mic.value)) <==> Deliverable(p))
  {
    ArrivesSealed(s, args, optsKey, frmKey, p);
    SendSteps(s, args, optsKey, frmKey, p);
    var r := Arrived(Send(s, args, optsKey, frmKey, p).value, p.payload.mac.fhdr.fCnt).value;
    OptsOpened(s, optsKey, p, r);
    var uplink, m := IsUplink(p.mhdr.fType), p.payload.mac;
    var cmds := DecodeAll(uplink, OptsOf(p));
    if cmds.Ok? {
      FrmOpened(s, frmKey, p, WithFOpts(r, cmds.value));
    }
    ListRoundTrip(uplink, m.fhdr.fOpts);
    if m.frmPayload.Some? {
      FrmArrives(uplink, PortOf(m), m.frmPayload.value);
    }
    hide Arrived, Send, DecodeAll, EncodeAll, FOptsDecrypted, FOptsDecoded, FrmDecrypted, FrmToVec, FrmFromBytes;
    hide WireList, FrmSurvives, SentCtrl, SharedBit, FrmCipher, TravelOpts, PortOf;
  }

  /** End to end. The receiver always accepts the MIC; it recovers the frame exactly when the frame is deliverable
      and its f_opts fit. */
  lemma LinkIsFaithful(s: Suite, args: MicArgs, optsKey: Option<Key>, frmKey: Key, p: PhyFrame)
    requires IsData(p.mhdr.fType) && p.payload.MACFrame?
    requires Send(s, args, optsKey, frmKey, p).Ok?
    ensures var r := Arrived(Send(s, args, optsKey, frmKey, p).value, p.payload.mac.fhdr.fCnt);
            && r.Ok? && ValidMic(s, args, r.value) == Ok(true) && r.value.mic.Some?
            && (Opened(s, optsKey, frmKey, r.value) == Ok(Delivered(p, r.value.mic.value)) <==>
                Deliverable(p) && |OptsOf(p)| <= 15)
  {
    hide Arrived, Send, ValidMic, Opened, Delivered, Deliverable, OptsOf;
    SentIsValid(s, args, optsKey, frmKey, p);
    if |OptsOf(p)| <= 15 {
      ShortIsFaithful(s, args, optsKey, frmKey, p);
    } else {
      var r := Arrived(Send(s, args, optsKey, frmKey, p).value, p.payload.mac.fhdr.fCnt).value;
      LongOptsArrive(s, args, optsKey, frmKey, p);
      SameOpts(p, r.mic.value);
      if Opened(s, optsKey, frmKey, r) == Ok(Delivered(p, r.mic.value)) {
        OpenedOpts(s, frmKey, r, Delivered(p, r.mic.value));
        assert false;
      }
    }
  }

  /** Sending succeeds exactly if commands and payload encode, a payload has a port, and f_opts have at most 15
      bytes, or, when they are not encrypted, a length that is at most 15 modulo 256. */
  lemma SendSucceedsIff(s: Suite, args: MicArgs, optsKey: Option<Key>, frmKey: Key, p: PhyFrame)
    requires IsData(p.mhdr.fType) && p.payload.MACFrame?
    ensures Send(s, args, optsKey, frmKey, p).Ok? <==>
            var m := p.payload.mac;
            && EncodeAll(m.fhdr.fOpts).Ok?
            && (m.frmPayload.Some? ==> m.fPort.Some? && FrmToVec(m.frmPayload.value).Ok?)
            && Sealable(optsKey, p) && |OptsOf(p)| % 256 <= 15
  {
    var m := p.payload.mac;
    if Send(s, args, optsKey, frmKey, p).Ok? {
      SendSteps(s, args, optsKey, frmKey, p);
      SentHeader(s, args, optsKey, frmKey, p);
    }
    if && EncodeAll(m.fhdr.fOpts).Ok? && (m.frmPayload.Some? ==> m.fPort.Some? && FrmToVec(m.frmPayload.value).Ok?)
       && Sealable(optsKey, p) && |OptsOf(p)| % 256 <= 15 {
      SealedFrame(s, optsKey, frmKey, p);
      var q := Sealed(s, optsKey, frmKey, p).value;
      SealedOptsEncode(s, optsKey, frmKey, p);
      HeaderPrintsIff(q.payload.mac.fhdr);
      SealedPrints(q);
      hide Sealed, MacToVec, EncodeAll, FrmToVec, TravelOpts, FrmCipher, FHdrToVec, OptsBytes;
    }
  }

  lemma SentHeader(s: Suite, args: MicArgs, optsKey: Option<Key>, frmKey: Key, p: PhyFrame)
    requires p.payload.MACFrame? && Send(s, args, optsKey, frmKey, p).Ok?
    ensures |OptsOf(p)| % 256 <= 15
  {
    SendSteps(s, args, optsKey, frmKey, p);
    SealedFrame(s, optsKey, frmKey, p);
    var f := Signed(s, args, Sealed(s, optsKey, frmKey, p).value).value;
    MacPrints(f);
    MacPrinted(f.payload.mac);
    HeaderEncodes(f.payload.mac.fhdr);
    HeaderPrintsIff(f.payload.mac.fhdr);
    hide Sealed, Send, EncodeAll, FrmToVec, TravelOpts, FrmCipher, PhyToVec, MacToVec, FHdrToVec, OptsBytes, DataMic;
  }

  lemma SealedOptsEncode(s: Suite, optsKey: Option<Key>, frmKey: Key, p: PhyFrame)
    requires p.payload.MACFrame? && Sealable(optsKey, p) && EncodeAll(p.payload.mac.fhdr.fOpts).Ok?
    requires p.payload.mac.frmPayload.Some? ==> FrmToVec(p.payload.mac.frmPayload.value).Ok?
    ensures var q := Sealed(s, optsKey, frmKey, p);
            && q.Ok? && q.value.payload.MACFrame? && EncodeAll(q.value.payload.mac.fhdr.fOpts).Ok?
            && (q.value.payload.mac.frmPayload.Some? ==> q.value.payload.mac.frmPayload.value.FrmRaw?)
  {
    OptsSealed(s, optsKey, p);
    hide EncodeAll, FOptsCipher, FrmCipher, FOptsEncrypted, TravelOpts;
  }

  lemma SealedPrints(q: PhyFrame)
    requires q.payload.MACFrame? && FHdrToVec(q.payload.mac.fhdr).Ok?
    requires q.payload.mac.frmPayload.Some? ==> q.payload.mac.fPort.Some? && q.payload.mac.frmPayload.value.FrmRaw?
    ensures MacToVec(q.payload.mac).Ok?
  {
    hide FHdrToVec;
  }
}
