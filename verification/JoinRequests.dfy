/** Join-requests and rejoin-requests on the way from the device: sign, print, parse, validate. */
module JoinRequests {
  import opened Bytes
  import opened Frames
  import opened FrameProofs
  import opened Crypto
  import opened PhyOps

  /** set_join_request_mic, on the value of a frame. */
  function SignedRequest(s: Suite, key: Key, p: PhyFrame): Result<PhyFrame> {
    var m :- JoinRequestMic(s, p, key);
    Ok(p.(mic := Some(m)))
  }

  lemma NoReservedBits(h: MHDR)
    ensures MhdrToByte(h) & 0xe0 == MhdrToByte(h)
  {}

  /** What a printed frame with a MIC parses to has its MIC, and prints the bytes that the MIC covers. */
  lemma ParsedCarriesMic(p: PhyFrame)
    requires p.mic.Some? && !p.mhdr.fType.Proprietary? && PhyToVec(p).Ok?
    ensures var r := PhyFromSlice(PhyToVec(p).value);
            r.Ok? ==> r.value.mic == p.mic && r.value.mhdr == p.mhdr && MicBytes(r.value) == MicBytes(p)
  {
    var b := PhyToVec(p).value;
    MhdrRoundTrip(p.mhdr);
    NoReservedBits(p.mhdr);
    if PhyFromSlice(b).Ok? {
      ParsesIff(b);
      ParseIsLossless(b);
      PayloadParsed(p);
    }
    hide PhyFromSlice, PhyToVec, MhdrToByte, MhdrFromByte, PayloadToVec, PayloadFromSlice;
  }

  lemma PayloadParsed(p: PhyFrame)
    requires p.mic.Some? && !p.mhdr.fType.Proprietary? && PhyToVec(p).Ok? && PhyFromSlice(PhyToVec(p).value).Ok?
    ensures var r := PhyFromSlice(PhyToVec(p).value).value;
            r.mic == p.mic && r.mhdr == p.mhdr && PayloadToVec(r.payload) == PayloadToVec(p.payload)
  {
    hide PayloadToVec, PayloadFromSlice, MhdrToByte, MhdrFromByte;
    MhdrRoundTrip(p.mhdr);
    var m, b := PayloadToVec(p.payload).value, PhyToVec(p).value;
    assert b == [MhdrToByte(p.mhdr)] + m + p.mic.value;
    assert b[1..|b| - 4] == m && b[|b| - 4..] == p.mic.value;
    PayloadLossless(p.mhdr.fType, m);
  }

  /** A signed request is what its receiver parses exactly if its payload is of its type; and whatever of its
      printed bytes parses has a MIC that is accepted. */
  lemma JoinRequestArrives(s: Suite, key: Key, p: PhyFrame)
    requires !p.mhdr.fType.Proprietary? && SignedRequest(s, key, p).Ok?
    ensures PhyToVec(SignedRequest(s, key, p).value).Ok?
    ensures var q := SignedRequest(s, key, p).value;
            var r := PhyFromSlice(PhyToVec(q).value);
            && (r == Ok(q) <==> WirePayload(p.mhdr.fType, p.payload))
            && (r.Ok? ==> ValidJoinRequestMic(s, r.value, key) == Ok(true))
  {
    var q := SignedRequest(s, key, p).value;
    assert MicBytes(q) == MicBytes(p) && PhyToVec(q).Ok?;
    hide PhyFromSlice, PhyToVec, MicBytes, WirePayload;
    PrintParseIff(q);
    ParsedCarriesMic(q);
  }
}
