/** What the ciphers do to the fields of a frame, byte by byte, and what port tells of the deciphered bytes. */
module Sealing {
  import opened Bytes
  import opened MacCommands
  import opened MacStream
  import opened Frames
  import opened Crypto
  import opened PhyOps

  /** The frames that devices send. */
  predicate FromDevice(t: FType) {
    t == JoinRequest || t == UnconfirmedDataUp || t == ConfirmedDataUp || t == RejoinRequest
  }

  /** frm_payload becomes the cipher text of its printed bytes, under blocks of this frame's direction, address and
      counter; nothing else changes. */
  lemma FrmEncryptedIs(s: Suite, key: Key, p: PhyFrame)
    requires p.payload.MACFrame? && p.payload.mac.frmPayload.Some? && FrmEncrypted(s, key, p).Ok?
    ensures FrmToVec(p.payload.mac.frmPayload.value).Ok?
    ensures var m, data := p.payload.mac, FrmToVec(p.payload.mac.frmPayload.value).value;
            var q := FrmEncrypted(s, key, p).value;
            && q.payload.MACFrame? && q.payload.mac.frmPayload.Some? && q.payload.mac.frmPayload.value.FrmRaw?
            && var out := q.payload.mac.frmPayload.value.raw;
            && q == p.(payload := MACFrame(m.(frmPayload := Some(FrmRaw(out)))))
            && |out| == |data|
            && forall k: nat, a ::
                 k < |data| && IsBlockA(a, FromDevice(p.mhdr.fType), m.fhdr.devAddr, m.fhdr.fCnt, k / 16 + 1) ==>
                 out[k] == data[k] ^ s.enc(key, a)[k % 16]
  {
    FrmCipherBytes(s, FrameStream(key, p), FrmToVec(p.payload.mac.frmPayload.value).value);
    hide FrmToVec, FrmCipher, IsBlockA;
  }

  /** Whether the cipher of f_opts is the one for the application counter: downlinks with a port above 0. */
  predicate NamesAFCntDown(p: PhyFrame)
    requires p.payload.MACFrame?
  {
    !FromDevice(p.mhdr.fType) && p.payload.mac.fPort.Some? && p.payload.mac.fPort.value != 0
  }

  lemma PortAbove0(port: u8)
    ensures port > 0 <==> port != 0
  {}

  /** The same for f_opts: empty ones stay, others become one raw command with the cipher text. */
  lemma FOptsEncryptedIs(s: Suite, key: Key, p: PhyFrame)
    requires p.payload.MACFrame? && FOptsEncrypted(s, key, p).Ok?
    ensures EncodeAll(p.payload.mac.fhdr.fOpts).Ok? && |EncodeAll(p.payload.mac.fhdr.fOpts).value| <= 15
    ensures var h, data := p.payload.mac.fhdr, EncodeAll(p.payload.mac.fhdr.fOpts).value;
            var q := FOptsEncrypted(s, key, p).value;
            if data == [] then q == p
            else
              && q.payload.MACFrame? && |q.payload.mac.fhdr.fOpts| == 1 && q.payload.mac.fhdr.fOpts[0].Raw?
              && var out := q.payload.mac.fhdr.fOpts[0].raw;
              && q == p.(payload := MACFrame(p.payload.mac.(fhdr := h.(fOpts := [Raw(out)]))))
              && |out| == |data|
              && forall k: nat, a ::
                   k < |data| && IsFOptsBlockA(a, FromDevice(p.mhdr.fType), h.devAddr, h.fCnt, NamesAFCntDown(p)) ==>
                   out[k] == data[k] ^ s.enc(key, a)[k]
  {
    var data := EncodeAll(p.payload.mac.fhdr.fOpts).value;
    if p.payload.mac.fPort.Some? {
      PortAbove0(p.payload.mac.fPort.value);
    }
    assert UsesAFCntDown(p) == NamesAFCntDown(p);
    hide EncodeAll, FOptsCipher, IsFOptsBlockA, UsesAFCntDown, NamesAFCntDown;
    if |data| <= 15 {
      FOptsCipherBytes(s, FrameStream(key, p), UsesAFCntDown(p), data);
    } else {
      TooLong(s, FrameStream(key, p), UsesAFCntDown(p), data);
    }
  }

  lemma TooLong(s: Suite, st: Stream, aFCntDown: bool, data: bytes)
    ensures |data| > 15 ==> FOptsCipher(s, st, aFCntDown, data).Err?
  {}

  /** Decoding f_opts: one raw command is replaced by the commands its bytes decode to in the direction of the
      frame, and anything else stays. */
  lemma FOptsDecodedIs(p: PhyFrame)
    requires p.payload.MACFrame?
    ensures var h := p.payload.mac.fhdr;
            FOptsDecoded(p) ==
            if |h.fOpts| != 1 || !h.fOpts[0].Raw? then Ok(p)
            else
              match DecodeAll(FromDevice(p.mhdr.fType), h.fOpts[0].raw)
              case Err => Err
              case Ok(cmds) => Ok(p.(payload := MACFrame(p.payload.mac.(fhdr := h.(fOpts := cmds)))))
  {
    hide DecodeAll;
  }

  /** What the bytes are on their port: commands on port 0, a forwarded frame on port 226, the application's
      elsewhere. A forwarded uplink has three bytes of metadata and three of frequency in front. */
  lemma PortTells(uplink: bool, fPort: u8, b: bytes)
    ensures var r := FrmFromBytes(uplink, fPort, b);
            && (fPort != 0 && fPort != 226 ==> r == Ok(FrmRaw(b)))
            && (fPort == 0 ==> (r.Ok? <==> DecodeAll(uplink, b).Ok?)
                               && (r.Ok? ==> r.value == FrmCommands(DecodeAll(uplink, b).value)))
            && (fPort == 226 && !uplink ==> (r.Ok? <==> PhyFromSlice(b).Ok?)
                                            && (r.Ok? ==> r.value == ForwardDownlinkReq(PhyFromSlice(b).value)))
            && (fPort == 226 && uplink ==> (r.Ok? <==> |b| >= 6 && PhyFromSlice(b[6..]).Ok?)
                                           && (r.Ok? ==> r.value.ForwardUplinkReq?
                                                         && r.value.uplink == PhyFromSlice(b[6..]).value))
  {
    hide DecodeAll, PhyFromSlice, MetadataFromBytes;
  }

  /** Decryption is for any cipher text: pt is what it deciphers to, byte by byte, and is then read by its port; a
      missing port counts as port 0. */
  lemma FrmDecryptedIs(s: Suite, key: Key, p: PhyFrame, pt: bytes)
    requires p.payload.MACFrame? && p.payload.mac.frmPayload.Some? && p.payload.mac.frmPayload.value.FrmRaw?
    requires var m, raw := p.payload.mac, p.payload.mac.frmPayload.value.raw;
             && |pt| == |raw|
             && forall k: nat, a ::
                  k < |raw| && IsBlockA(a, FromDevice(p.mhdr.fType), m.fhdr.devAddr, m.fhdr.fCnt, k / 16 + 1) ==>
                  pt[k] == raw[k] ^ s.enc(key, a)[k % 16]
    ensures var m := p.payload.mac;
            FrmDecrypted(s, key, p) ==
            match FrmFromBytes(FromDevice(p.mhdr.fType), if m.fPort.Some? then m.fPort.value else 0, pt)
            case Err => Err
            case Ok(frm) => Ok(p.(payload := MACFrame(m.(frmPayload := Some(frm)))))
  {
    hide FrmFromBytes, FrmCipher, IsBlockA;
    FrmCipherIs(s, FrameStream(key, p), p.payload.mac.frmPayload.value.raw, pt);
  }

  /** And reading alone, of a payload that is not encrypted; what has been read stays as it is. */
  lemma FrmDecodedIs(p: PhyFrame)
    requires p.payload.MACFrame? && p.payload.mac.frmPayload.Some?
    ensures var m := p.payload.mac;
            FrmDecoded(p) ==
            if !m.frmPayload.value.FrmRaw? then Ok(p)
            else
              match FrmFromBytes(FromDevice(p.mhdr.fType), if m.fPort.Some? then m.fPort.value else 0,
                                 m.frmPayload.value.raw)
              case Err => Err
              case Ok(frm) => Ok(p.(payload := MACFrame(m.(frmPayload := Some(frm)))))
  {
    hide FrmFromBytes;
  }
}
