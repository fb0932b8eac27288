/** The link on PhyPayload objects: the sender's steps, the receiver's steps with the frame counter it expects,
    and both in a row. */
module Link {
  import opened Bytes
  import opened MacStream
  import opened Frames
  import opened FrameProofs
  import opened Crypto
  import opened PhyOps
  import opened PhyPayloads
  import opened EndToEnd
  import opened Counters

  /** What a receiver makes of bytes: parsed, with its counter restored, accepted by its MIC, and opened. */
  function Received(s: Suite, args: MicArgs, optsKey: Option<Key>, frmKey: Key, b: bytes, next: u32): Result<PhyFrame> {
    var p :- PhyFromSlice(b);
    if !p.payload.MACFrame? then Err
    else
      var fCnt :- FullFCnt(next, p.payload.mac.fhdr.fCnt);
      var valid :- ValidMic(s, args, WithFCnt(p, fCnt));
      if !valid then Err else Opened(s, optsKey, frmKey, WithFCnt(p, fCnt))
  }

  /** Nothing is accepted without its MIC: the counter was restored, and the MIC is valid for it. */
  lemma ReceivedIsValid(s: Suite, args: MicArgs, optsKey: Option<Key>, frmKey: Key, b: bytes, next: u32)
    requires Received(s, args, optsKey, frmKey, b, next).Ok?
    ensures PhyFromSlice(b).Ok? && PhyFromSlice(b).value.payload.MACFrame?
    ensures var p := PhyFromSlice(b).value;
            var fCnt := FullFCnt(next, p.payload.mac.fhdr.fCnt);
            && fCnt.Ok? && ValidMic(s, args, WithFCnt(p, fCnt.value)) == Ok(true)
            && Received(s, args, optsKey, frmKey, b, next).value.mic == p.mic
  {
    var p := PhyFromSlice(b).value;
    OpenedKeepsMic(s, optsKey, frmKey, WithFCnt(p, FullFCnt(next, p.payload.mac.fhdr.fCnt).value));
    hide PhyFromSlice, FullFCnt, ValidMic, Opened;
  }

  lemma OpenedKeepsMic(s: Suite, optsKey: Option<Key>, frmKey: Key, r: PhyFrame)
    ensures Opened(s, optsKey, frmKey, r).Ok? ==> Opened(s, optsKey, frmKey, r).value.mic == r.mic
  {
    hide EncodeAll, DecodedSet, FrmFromBytes, FrmToVec, FrmCipher, FOptsCipher;
  }

  lemma ArrivedCounter(p: PhyFrame)
    requires IsData(p.mhdr.fType) && p.payload.MACFrame? && p.mic.Some? && PhyToVec(p).Ok?
    ensures var r := PhyFromSlice(PhyToVec(p).value);
            && r.Ok? && r.value.payload.MACFrame? && r.value.payload.mac.fhdr.fCnt == Low16(p.payload.mac.fhdr.fCnt)
  {
    DataFrameReread(p);
    ReceivedCounter(Reread(p.payload.mac));
    RereadFields(p.payload.mac);
    hide PhyFromSlice, PhyToVec, ReceivedMac, Reread, ReceivedHeader, Low16;
  }

  /** A receiver whose expected counter is in step with the sender's ends up with the frame exactly if it is
      deliverable and its f_opts fit. */
  lemma ReceivedIsSent(s: Suite, args: MicArgs, optsKey: Option<Key>, frmKey: Key, p: PhyFrame, next: u32)
    requires IsData(p.mhdr.fType) && p.payload.MACFrame?
    requires Send(s, args, optsKey, frmKey, p).Ok?
    requires InStep(next, p.payload.mac.fhdr.fCnt)
    ensures var r := Received(s, args, optsKey, frmKey, Send(s, args, optsKey, frmKey, p).value, next);
            (r.Ok? && r.value.mic.Some? && r.value == Delivered(p, r.value.mic.value)) <==>
            (Deliverable(p) && |OptsOf(p)| <= 15)
  {
    var fCnt := p.payload.mac.fhdr.fCnt;
    FullFCntIff(next, fCnt);
    LinkIsFaithful(s, args, optsKey, frmKey, p);
    SentFrame(s, args, optsKey, frmKey, p);
    var b := Send(s, args, optsKey, frmKey, p).value;
    assert Arrived(b, fCnt) == Ok(WithFCnt(PhyFromSlice(b).value, fCnt));
    OpenedKeepsMic(s, optsKey, frmKey, Arrived(b, fCnt).value);
    DeliveredMic(p, Arrived(b, fCnt).value.mic.value);
    hide Send, ValidMic, Opened, Delivered, Deliverable, PhyFromSlice, FullFCnt, InStep, Low16, WithFCnt, OptsOf;
  }

  lemma DeliveredMic(p: PhyFrame, mic: Mic)
    requires p.payload.MACFrame?
    ensures Delivered(p, mic).mic == Some(mic)
  {}

  lemma SentFrame(s: Suite, args: MicArgs, optsKey: Option<Key>, frmKey: Key, p: PhyFrame)
    requires IsData(p.mhdr.fType) && p.payload.MACFrame?
    requires Send(s, args, optsKey, frmKey, p).Ok?
    ensures var r := PhyFromSlice(Send(s, args, optsKey, frmKey, p).value);
            && r.Ok? && r.value.payload.MACFrame? && r.value.payload.mac.fhdr.fCnt == Low16(p.payload.mac.fhdr.fCnt)
  {
    SendSteps(s, args, optsKey, frmKey, p);
    SealedFrame(s, optsKey, frmKey, p);
    var f := Signed(s, args, Sealed(s, optsKey, frmKey, p).value).value;
    hide PhyFromSlice, PhyToVec, Send, Sealed, EncodeAll, FrmToVec, TravelOpts, FrmCipher, DataMic, Low16;
    ArrivedCounter(f);
  }

  // The same on objects.

  method SetMic(phy: PhyPayload, s: Suite, args: MicArgs) returns (r: Result<()>)
    modifies phy
    ensures Became(r, Signed(s, args, old(phy.Value())), old(phy.Value()), phy.Value())
  {
    hide UplinkMic, DownlinkMic;
    match args
    case UplinkArgs(ver, conf, txDr, txCh, fKey, sKey) =>
      r := phy.SetUplinkDataMic(s, ver, conf, txDr, txCh, fKey, sKey);
    case DownlinkArgs(ver, conf, sKey) =>
      r := phy.SetDownlinkDataMic(s, ver, conf, sKey);
  }

  method ValidateMic(phy: PhyPayload, s: Suite, args: MicArgs) returns (r: Result<bool>)
    ensures r == ValidMic(s, args, phy.Value())
  {
    hide ValidUplinkMic, ValidDownlinkMic;
    match args
    case UplinkArgs(ver, conf, txDr, txCh, fKey, sKey) =>
      r := phy.ValidateUplinkDataMic(s, ver, conf, txDr, txCh, fKey, sKey);
    case DownlinkArgs(ver, conf, sKey) =>
      r := phy.ValidateDownlinkDataMic(s, ver, conf, sKey);
  }

  /** The sender: encrypt, sign, print. */
  method SendFrame(phy: PhyPayload, s: Suite, args: MicArgs, optsKey: Option<Key>, frmKey: Key)
    returns (r: Result<bytes>)
    modifies phy
    ensures r == Send(s, args, optsKey, frmKey, old(phy.Value()))
  {
    hide FOptsEncrypted, FrmEncrypted, Signed, PhyToVec;
    if optsKey.Some? {
      var e := phy.EncryptFOpts(s, optsKey.value);
      if e.Err? {
        return Err;
      }
    }
    var e := phy.EncryptFrmPayload(s, frmKey);
    if e.Err? {
      return Err;
    }
    var m := SetMic(phy, s, args);
    if m.Err? {
      return Err;
    }
    r := phy.ToVec();
  }

  /** The receiver: parse, restore the counter, validate, decrypt. */
  method ReceiveFrame(s: Suite, args: MicArgs, optsKey: Option<Key>, frmKey: Key, b: bytes, next: u32)
    returns (r: Result<PhyPayload>)
    ensures r.Ok? <==> Received(s, args, optsKey, frmKey, b, next).Ok?
    ensures r.Ok? ==> fresh(r.value) && r.value.Value() == Received(s, args, optsKey, frmKey, b, next).value
  {
    hide PhyFromSlice, FullFCnt, ValidMic, FOptsEncrypted, FOptsDecoded, FrmDecrypted;
    var parsed := PhyPayload.FromSlice(b);
    if parsed.Err? || !parsed.value.payload.MACFrame? {
      return Err;
    }
    var phy := parsed.value;
    var fCnt := FullFCnt(next, phy.payload.mac.fhdr.fCnt);
    if fCnt.Err? {
      return Err;
    }
    phy.payload := MACFrame(phy.payload.mac.(fhdr := phy.payload.mac.fhdr.(fCnt := fCnt.value)));
    var valid := ValidateMic(phy, s, args);
    if valid.Err? || !valid.value {
      return Err;
    }
    var outcome: Result<()>;
    if optsKey.Some? {
      outcome := phy.DecryptFOpts(s, optsKey.value);
    } else {
      outcome := phy.DecodeFOptsToMacCommands();
    }
    if outcome.Err? {
      return Err;
    }
    outcome := phy.DecryptFrmPayload(s, frmKey);
    if outcome.Err? {
      return Err;
    }
    return Ok(phy);
  }

  /** From one object to another. */
  method Transmit(phy: PhyPayload, s: Suite, args: MicArgs, optsKey: Option<Key>, frmKey: Key, next: u32)
    returns (sent: bool, r: Result<PhyPayload>)
    requires IsData(phy.mhdr.fType) && phy.payload.MACFrame?
    modifies phy
    ensures sent <==> Send(s, args, optsKey, frmKey, old(phy.Value())).Ok?
    ensures r.Ok? ==> fresh(r.value)
    ensures var p := old(phy.Value());
            sent && InStep(next, p.payload.mac.fhdr.fCnt) ==>
              ((r.Ok? && r.value.mic.Some? && r.value.Value() == Delivered(p, r.value.mic.value)) <==>
               (Deliverable(p) && |OptsOf(p)| <= 15))
  {
    hide Send, Received, InStep, Delivered, Deliverable, OptsOf;
    ghost var p := phy.Value();
    var b := SendFrame(phy, s, args, optsKey, frmKey);
    if b.Err? {
      return false, Err;
    }
    sent := true;
    r := ReceiveFrame(s, args, optsKey, frmKey, b.value, next);
    if InStep(next, p.payload.mac.fhdr.fCnt) {
      ReceivedIsSent(s, args, optsKey, frmKey, p, next);
    }
  }
}
