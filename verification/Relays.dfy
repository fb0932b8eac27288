/** Relay frames nest whole frames (lrwn/src/relay.rs): every level comes back, and each level is shorter. */
module Relays {
  import opened Bytes
  import opened Helpers
  import opened Frames
  import opened FrameProofs
  import opened PhyOps
  import opened EndToEnd

  /** The frame inside a relay request. */
  function InnerOf(f: FRMPayload): PhyFrame
    requires f.ForwardUplinkReq? || f.ForwardDownlinkReq?
  {
    if f.ForwardUplinkReq? then f.uplink else f.downlink
  }

  function WithInner(f: FRMPayload, inner: PhyFrame): FRMPayload
    requires f.ForwardUplinkReq? || f.ForwardDownlinkReq?
  {
    if f.ForwardUplinkReq? then f.(uplink := inner) else f.(downlink := inner)
  }

  predicate IsForward(f: FRMPayload) {
    f.ForwardUplinkReq? || f.ForwardDownlinkReq?
  }

  /** A data frame on the relay port that forwards a frame in its own direction. */
  predicate IsRelayFrame(p: PhyFrame) {
    && IsData(p.mhdr.fType) && p.payload.MACFrame? && p.mic.Some?
    && |OptsBytes(p.payload.mac.fhdr)| <= 15
    && p.payload.mac.fPort == Some(226)
    && p.payload.mac.frmPayload.Some? && IsForward(p.payload.mac.frmPayload.value)
    && (p.payload.mac.frmPayload.value.ForwardUplinkReq? <==> IsUplink(p.mhdr.fType))
  }

  function Inner(p: PhyFrame): PhyFrame
    requires IsRelayFrame(p)
  {
    InnerOf(p.payload.mac.frmPayload.value)
  }

  /** n relay frames, one inside the other, around a frame of any kind. */
  predicate Nested(p: PhyFrame, n: nat) {
    if n == 0 then PhyToVec(p).Ok? && PhyFromSlice(PhyToVec(p).value).Ok?
    else IsRelayFrame(p) && PhyToVec(p).Ok? && Nested(Inner(p), n - 1)
  }

  /** Calling decode_frm_payload on a parsed frame, then on the frame inside it, n levels deep. */
  function Unwrapped(p: PhyFrame, n: nat): Result<PhyFrame>
    decreases n
  {
    if n == 0 then Ok(p)
    else
      var d :- FrmDecoded(p);
      if d.payload.MACFrame? && d.payload.mac.frmPayload.Some? && IsForward(d.payload.mac.frmPayload.value) then
        var inner :- Unwrapped(InnerOf(d.payload.mac.frmPayload.value), n - 1);
        Ok(WithFrm(d, WithInner(d.payload.mac.frmPayload.value, inner)))
      else Err
  }

  predicate PrintableRelay(p: PhyFrame) {
    IsRelayFrame(p) && FrmToVec(p.payload.mac.frmPayload.value).Ok?
  }

  /** One relay level as the receiver reads it, around what it reads inside. */
  function ReceivedLevel(p: PhyFrame, inner: PhyFrame): PhyFrame
    requires PrintableRelay(p)
  {
    var m := p.payload.mac;
    p.(payload := MACFrame(MACPayload(ReceivedHeader(m.fhdr), m.fPort,
                                      Some(ReceivedForward(m.frmPayload.value, inner)))))
  }

  function ReceivedForward(f: FRMPayload, inner: PhyFrame): FRMPayload
    requires IsForward(f) && FrmToVec(f).Ok?
  {
    match f
    case ForwardUplinkReq(metadata, frequency, _) =>
      ForwardUplinkReq(ClampedMetadata(metadata), DecodedFreq(EncodedFreq(frequency).value), inner)
    case ForwardDownlinkReq(_) => ForwardDownlinkReq(inner)
  }

  /** The whole nest as the receiver reads it. */
  function Received(p: PhyFrame, n: nat): Result<PhyFrame> {
    if n == 0 then
      var b :- PhyToVec(p);
      PhyFromSlice(b)
    else if !PrintableRelay(p) then Err
    else
      var inner :- Received(Inner(p), n - 1);
      Ok(ReceivedLevel(p, inner))
  }

  lemma RelayPrints(p: PhyFrame)
    requires IsRelayFrame(p) && PhyToVec(p).Ok?
    ensures MacToVec(p.payload.mac).Ok? && PrintableRelay(p) && PhyToVec(Inner(p)).Ok?
  {
    hide FHdrToVec;
  }

  lemma InnerLength(p: PhyFrame)
    requires IsRelayFrame(p) && PhyToVec(p).Ok?
    ensures PhyToVec(Inner(p)).Ok? && FrmToVec(p.payload.mac.frmPayload.value).Ok?
    ensures |FrmToVec(p.payload.mac.frmPayload.value).value| ==
            |PhyToVec(Inner(p)).value| + if IsUplink(p.mhdr.fType) then 6 else 0
  {
    RelayPrints(p);
    hide FHdrToVec, PhyToVec;
  }

  /** Each level is strictly shorter than the one around it: by header, port and MIC, and by the uplink metadata. */
  lemma NestingShrinks(p: PhyFrame)
    requires IsRelayFrame(p) && PhyToVec(p).Ok?
    ensures PhyToVec(Inner(p)).Ok?
    ensures |PhyToVec(p).value| == |PhyToVec(Inner(p)).value| + 13 + |OptsBytes(p.payload.mac.fhdr)|
                                   + if IsUplink(p.mhdr.fType) then 6 else 0
  {
    RelayPrints(p);
    InnerLength(p);
    HeaderEncodes(p.payload.mac.fhdr);
    HeaderReceived(p.payload.mac.fhdr);
    hide FHdrToVec, FrmToVec, OptsBytes, Inner;
  }

  /** One level: what parsing and one decode_frm_payload give. */
  lemma LevelArrives(p: PhyFrame)
    requires IsRelayFrame(p) && PhyToVec(p).Ok? && PhyToVec(Inner(p)).Ok? && PhyFromSlice(PhyToVec(Inner(p)).value).Ok?
    ensures PhyFromSlice(PhyToVec(p).value).Ok?
    ensures PrintableRelay(p)
    ensures FrmDecoded(PhyFromSlice(PhyToVec(p).value).value) ==
            Ok(ReceivedLevel(p, PhyFromSlice(PhyToVec(Inner(p)).value).value))
  {
    RelayPrints(p);
    NestingShrinks(p);
    InnerLength(p);
    DataFrameReceived(p);
    var m := p.payload.mac;
    var f := m.frmPayload.value;
    if f.ForwardUplinkReq? {
      ForwardUplinkArrives(f);
    }
    PrintedNotEmpty(Inner(p));
    hide PhyFromSlice, ReceivedHeader, PhyToVec, ForwardUplinkFromSlice, EncodedFreq, DecodedFreq, ClampedMetadata;
    hide OptsBytes;
  }

  lemma PrintedNotEmpty(p: PhyFrame)
    requires PhyToVec(p).Ok?
    ensures PhyToVec(p).value != []
  {}

  lemma NestedStep(p: PhyFrame, n: nat)
    requires n > 0 && Nested(p, n)
    ensures IsRelayFrame(p) && PrintableRelay(p) && PhyToVec(p).Ok? && Nested(Inner(p), n - 1)
  {
    RelayPrints(p);
    hide PhyToVec, PhyFromSlice, IsRelayFrame, Inner, FrmToVec;
  }

  lemma ReceivedStep(p: PhyFrame, n: nat)
    requires n > 0 && IsRelayFrame(p) && PrintableRelay(p) && Received(Inner(p), n - 1).Ok?
    ensures Received(p, n) == Ok(ReceivedLevel(p, Received(Inner(p), n - 1).value))
  {
    hide PhyToVec, PhyFromSlice, ReceivedLevel, IsRelayFrame, Inner, FrmToVec, PrintableRelay;
  }

  lemma NestedBase(p: PhyFrame)
    requires Nested(p, 0)
    ensures PhyToVec(p).Ok? && PhyFromSlice(PhyToVec(p).value).Ok?
    ensures PhyFromSlice(PhyToVec(p).value) == Received(p, 0)
    ensures Unwrapped(Received(p, 0).value, 0) == Received(p, 0)
  {
    hide PhyToVec, PhyFromSlice;
  }

  lemma NestedParses(p: PhyFrame, n: nat)
    requires Nested(p, n)
    ensures PhyToVec(p).Ok? && PhyFromSlice(PhyToVec(p).value).Ok?
  {
    if n == 0 {
      NestedBase(p);
    } else {
      NestedStep(p, n);
      DataFrameReceived(p);
    }
    hide PhyToVec, PhyFromSlice, Nested;
  }

  /** Print the outer frame, parse it, and decode level by level: every level arrives. */
  lemma {:induction false} NestingArrives(p: PhyFrame, n: nat)
    requires Nested(p, n)
    ensures PhyToVec(p).Ok? && PhyFromSlice(PhyToVec(p).value).Ok? && Received(p, n).Ok?
    ensures Unwrapped(PhyFromSlice(PhyToVec(p).value).value, n) == Received(p, n)
    decreases n
  {
    hide *;
    NestedParses(p, n);
    if n == 0 {
      NestedBase(p);
    } else {
      NestedStep(p, n);
      var inner := Inner(p);
      NestedParses(inner, n - 1);
      NestingArrives(inner, n - 1);
      ReceivedStep(p, n);
      LevelArrives(p);
      UnwrapLevel(p, PhyFromSlice(PhyToVec(p).value).value, PhyFromSlice(PhyToVec(inner).value).value, n,
                  Received(inner, n - 1).value);
    }
  }

  lemma UnwrapLevel(p: PhyFrame, q: PhyFrame, inner: PhyFrame, n: nat, unwrapped: PhyFrame)
    requires n > 0 && PrintableRelay(p)
    requires FrmDecoded(q) == Ok(ReceivedLevel(p, inner)) && Unwrapped(inner, n - 1) == Ok(unwrapped)
    ensures Unwrapped(q, n) == Ok(ReceivedLevel(p, unwrapped))
  {
    hide FrmDecoded, ReceivedHeader, FrmToVec, EncodedFreq, DecodedFreq, ClampedMetadata, IsData;
  }

  /** A level that loses nothing: a header in wire form, metadata within range, a frequency outside the gap. */
  predicate CanonicalLevel(p: PhyFrame)
    requires IsRelayFrame(p)
  {
    && WireHeader(p.payload.mac.fhdr)
    && match p.payload.mac.frmPayload.value
       case ForwardUplinkReq(metadata, frequency, _) =>
         ClampedMetadata(metadata) == metadata && CanonicalFreq(frequency)
       case _ => true
  }

  predicate CanonicalNest(p: PhyFrame, n: nat)
    requires Nested(p, n)
  {
    if n == 0 then WireFrame(p) else CanonicalLevel(p) && CanonicalNest(Inner(p), n - 1)
  }

  lemma ReceivedHeaderIff(h: FHDR)
    requires FHdrToVec(h).Ok? && |OptsBytes(h)| <= 15
    ensures ReceivedHeader(h) == h <==> WireHeader(h)
  {
    if ReceivedHeader(h) == h {
      HeaderEncodes(h);
      HeaderReceived(h);
      ParsedHeaderIsWire(FHdrToVec(h).value);
    }
    if WireHeader(h) {
      WireMacReceived(MACPayload(h, None, None));
    }
    hide FHdrToVec, FHdrFromSlice, ReceivedHeader, WireHeader;
  }

  lemma LevelIff(p: PhyFrame, inner: PhyFrame)
    requires PhyToVec(p).Ok? && PrintableRelay(p)
    ensures ReceivedLevel(p, inner) == p <==> CanonicalLevel(p) && inner == Inner(p)
  {
    RelayPrints(p);
    PrintsHeader(p.payload.mac);
    ReceivedHeaderIff(p.payload.mac.fhdr);
    var f := p.payload.mac.frmPayload.value;
    if f.ForwardUplinkReq? {
      DecodeEncodedFreq(f.frequency);
    }
    hide ReceivedHeader, WireHeader, ClampedMetadata, EncodedFreq, DecodedFreq, CanonicalFreq, FHdrToVec, OptsBytes;
  }

  lemma PrintsHeader(m: MACPayload)
    requires MacToVec(m).Ok?
    ensures FHdrToVec(m.fhdr).Ok?
  {}

  /** The nest is recovered unchanged exactly when every level is canonical and the innermost is a wire frame. */
  lemma {:induction false} NestingIsFaithful(p: PhyFrame, n: nat)
    requires Nested(p, n)
    ensures Received(p, n) == Ok(p) <==> CanonicalNest(p, n)
    decreases n
  {
    hide *;
    if n == 0 {
      NestedBase(p);
      PrintParseIff(p);
      CanonicalBase(p);
    } else {
      NestedStep(p, n);
      NestingArrives(Inner(p), n - 1);
      ReceivedStep(p, n);
      NestingIsFaithful(Inner(p), n - 1);
      LevelIff(p, Received(Inner(p), n - 1).value);
      CanonicalStep(p, n);
    }
  }

  lemma CanonicalBase(p: PhyFrame)
    requires Nested(p, 0)
    ensures CanonicalNest(p, 0) <==> WireFrame(p)
  {}

  lemma CanonicalStep(p: PhyFrame, n: nat)
    requires n > 0 && Nested(p, n) && IsRelayFrame(p) && Nested(Inner(p), n - 1)
    ensures CanonicalNest(p, n) <==> CanonicalLevel(p) && CanonicalNest(Inner(p), n - 1)
  {}
}
