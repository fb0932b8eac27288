/** Parsing a frame loses only the three reserved MHDR bits; printing a wire frame and parsing it is the identity. */
module FrameProofs {
  import opened Bytes
  import opened MacCommands
  import opened MacStream
  import opened Frames

  lemma RawList(raw: bytes)
    ensures EncodeAll([Raw(raw)]) == Ok(raw)
    ensures EncodeAll([]) == Ok([])
  {
    assert EncodeCommand(Raw(raw)) == Ok(raw);
    assert EncodeAll([]) == Ok([]);
    assert [Raw(raw)][1..] == [];
    assert raw + [] == raw;
  }

  lemma CounterBytes(b5: u8, b6: u8)
    ensures LowBytes(FromLe32([b5, b6, 0, 0])) == [b5, b6]
  {}

  lemma OptsLenRange(b: u8)
    ensures FCtrlFromByte(b).fOptsLen <= 15
    ensures FCtrlFromByte(b).fOptsLen == 0 <==> Val(FCtrlFromByte(b).fOptsLen) == 0
    ensures Byte(Val(FCtrlFromByte(b).fOptsLen)) == FCtrlFromByte(b).fOptsLen
  {
    ByteVal(FCtrlFromByte(b).fOptsLen);
  }

  /** A header that is accepted prints as its own bytes. With no f_opts announced, bytes behind the first
      seven are accepted too, and dropped. */
  lemma FHdrLossless(b: bytes)
    requires FHdrFromSlice(b).Ok?
    ensures var size := 7 + Val(FCtrlFromByte(b[4]).fOptsLen);
            && size <= |b| && (size == |b| || size == 7)
            && FHdrToVec(FHdrFromSlice(b).value) == Ok(b[..size])
  {
    hide EncodeAll, FCtrlFromByte, FCtrlToByte, FromLe32, LowBytes;
    OptsLenRange(b[4]);
    FCtrlByteRoundTrip(b[4]);
    CounterBytes(b[5], b[6]);
    ReverseReverse(b[..4]);
    var h := FHdrFromSlice(b).value;
    var raw := b[7..7 + Val(h.fCtrl.fOptsLen)];
    RawList(raw);
    HeaderBytes(b, |raw|);
    if h.fOpts != [] {
      assert b[7..] == raw;
    }
    assert EncodeAll(h.fOpts) == Ok(raw);
    assert h.fCtrl.(fOptsLen := Byte(|raw|)) == FCtrlFromByte(b[4]);
    assert b[..4] + [b[4]] == Reverse(h.devAddr) + [b[4]];
  }

  lemma HeaderBytes(b: bytes, n: nat)
    requires 7 + n <= |b|
    ensures b[..7 + n] == b[..4] + [b[4]] + [b[5], b[6]] + b[7..7 + n]
  {}

  /** The same for a slice that is just the header. */
  lemma WholeHeader(b: bytes)
    requires |b| >= 7 && |b| == 7 + Val(FCtrlFromByte(b[4]).fOptsLen)
    ensures FHdrFromSlice(b).Ok? && FHdrToVec(FHdrFromSlice(b).value) == Ok(b)
  {
    hide FHdrToVec, FCtrlFromByte, FromLe32;
    FHdrLossless(b);
    assert b[..|b|] == b;
  }

  lemma MacLossless(b: bytes)
    requires MacFromSlice(b).Ok?
    ensures MacToVec(MacFromSlice(b).value) == Ok(b)
  {
    hide FHdrToVec, FHdrFromSlice, FCtrlFromByte;
    var size := 7 + Val(FCtrlFromByte(b[4]).fOptsLen);
    WholeHeader(b[..size]);
    var p := MacFromSlice(b).value;
    assert p.frmPayload.Some? ==> FrmToVec(p.frmPayload.value) == Ok(b[size + 1..]);
    if |b| == size {
      assert b == b[..size] + [];
    } else if |b| == size + 1 {
      assert b == b[..size] + [b[size]];
    } else {
      assert b == b[..size] + [b[size]] + b[size + 1..];
    }
  }

  lemma JoinRequestLossless(b: bytes)
    requires JoinRequestFromSlice(b).Ok?
    ensures JoinRequestToVec(JoinRequestFromSlice(b).value) == b
  {
    ReverseReverse(b[..8]);
    ReverseReverse(b[8..16]);
    Le16RoundTrip(0, b[16..]);
    assert b == b[..8] + b[8..16] + b[16..];
  }

  lemma Rejoin02Lossless(b: bytes)
    requires Rejoin02FromSlice(b).Ok?
    ensures Rejoin02ToVec(Rejoin02FromSlice(b).value) == Ok(b)
  {
    ReverseReverse(b[1..4]);
    ReverseReverse(b[4..12]);
    Le16RoundTrip(0, b[12..]);
    assert b == [b[0]] + b[1..4] + b[4..12] + b[12..];
  }

  lemma Rejoin1Lossless(b: bytes)
    requires Rejoin1FromSlice(b).Ok?
    ensures Rejoin1ToVec(Rejoin1FromSlice(b).value) == Ok(b)
  {
    ReverseReverse(b[1..9]);
    ReverseReverse(b[9..17]);
    Le16RoundTrip(0, b[17..]);
    assert b == [b[0]] + b[1..9] + b[9..17] + b[17..];
  }

  lemma PayloadLossless(t: FType, b: bytes)
    requires PayloadFromSlice(t, b).Ok?
    ensures PayloadToVec(PayloadFromSlice(t, b).value) == Ok(b)
  {
    hide MacFromSlice, MacToVec, JoinRequestFromSlice, JoinRequestToVec;
    hide Rejoin02FromSlice, Rejoin02ToVec, Rejoin1FromSlice, Rejoin1ToVec;
    if t.JoinRequest? {
      JoinRequestLossless(b);
    } else if IsData(t) {
      MacLossless(b);
    } else if t.RejoinRequest? && b[0] == 0x01 {
      Rejoin1Lossless(b);
    } else if t.RejoinRequest? {
      Rejoin02Lossless(b);
    }
  }

  lemma Rejoined(first: u8, b: bytes, k: nat)
    requires 1 <= k <= |b|
    ensures [first] + b[1..k] + b[k..] == [first] + b[1..]
    ensures b[|b|..] == [] && b[1..|b|] == b[1..]
  {}

  /** Whenever a frame parses, it prints, and the bytes are those parsed with the reserved MHDR bits cleared. */
  lemma ParseIsLossless(b: bytes)
    requires PhyFromSlice(b).Ok?
    ensures PhyToVec(PhyFromSlice(b).value) == Ok([b[0] & 0xe0] + b[1..])
  {
    hide PayloadFromSlice, PayloadToVec, MhdrToByte, MhdrFromByte;
    var p := PhyFromSlice(b).value;
    MhdrByteRoundTrip(b[0]);
    if p.mhdr.fType.Proprietary? {
      PayloadLossless(Proprietary, b[1..]);
      Rejoined(b[0] & 0xe0, b, |b|);
    } else {
      PayloadLossless(p.mhdr.fType, b[1..|b| - 4]);
      Rejoined(b[0] & 0xe0, b, |b| - 4);
    }
  }

  /** Which byte strings parse at all, by length and first bytes. */
  predicate Parses(b: bytes) {
    |b| >= 1 && b[0] & 0x03 == 0 && FTypeOf(b[0]).Ok? && BodyParses(FTypeOf(b[0]).value, b)
  }

  predicate BodyParses(t: FType, b: bytes)
    requires |b| >= 1
  {
    match t
    case Proprietary => true
    case JoinRequest => |b| == 23
    case JoinAccept => |b| >= 5
    case RejoinRequest => |b| > 5 && |b| == RejoinSize(b[1])
    case _ => |b| >= 12 && |b| >= 12 + Val(b[5] & 0x0f)
  }

  function RejoinSize(rejoinType: u8): nat {
    if rejoinType == 0x01 then 24 else if rejoinType == 0x00 || rejoinType == 0x02 then 19 else 0
  }

  lemma FTypeTotal(b: u8)
    ensures FTypeOf(b).Ok?
  {}

  lemma ParsesIff(b: bytes)
    ensures PhyFromSlice(b).Ok? <==> Parses(b)
  {
    hide FTypeOf;
    if |b| >= 1 {
      FTypeTotal(b[0]);
      if |b| >= 5 {
        MacParsesIff(b[1..|b| - 4]);
      }
    }
    hide MacFromSlice;
  }

  lemma MacParsesIff(b: bytes)
    ensures MacFromSlice(b).Ok? <==> |b| >= 7 && |b| >= 7 + Val(b[4] & 0x0f)
  {
    if |b| >= 7 && |b| >= 7 + Val(b[4] & 0x0f) {
      var size := 7 + Val(FCtrlFromByte(b[4]).fOptsLen);
      assert b[..size][4] == b[4];
      hide FCtrlFromByte, FHdrToVec, FHdrFromSlice;
      WholeHeader(b[..size]);
    }
  }

  // Printing, then parsing.

  /** The bytes of f_opts once printed, and of frm_payload. */
  function OptsBytes(h: FHDR): bytes {
    if EncodeAll(h.fOpts).Ok? then EncodeAll(h.fOpts).value else []
  }

  function FrmBytes(p: MACPayload): bytes {
    if p.frmPayload.Some? && FrmToVec(p.frmPayload.value).Ok? then FrmToVec(p.frmPayload.value).value else []
  }

  /** A header as the receiver reads it: undecoded f_opts, a 16-bit counter, one bit for class_b and f_pending. */
  function ReceivedHeader(h: FHDR): FHDR {
    var fOpts := OptsBytes(h);
    FHDR(h.devAddr, SharedBit(SentCtrl(h)), Low16(h.fCnt), if fOpts == [] then [] else [Raw(fOpts)])
  }

  function Low16(x: u32): u32 {
    x & 0xffff
  }

  function SentCtrl(h: FHDR): FCtrl {
    h.fCtrl.(fOptsLen := Byte(|OptsBytes(h)|))
  }

  function ReceivedMac(p: MACPayload): MACPayload {
    MACPayload(ReceivedHeader(p.fhdr), p.fPort, if FrmBytes(p) == [] then None else Some(FrmRaw(FrmBytes(p))))
  }

  lemma CounterLow(fCnt: u32)
    ensures var b := LowBytes(fCnt); FromLe32([b[0], b[1], 0, 0]) == Low16(fCnt)
  {}

  lemma ShortLen(n: nat)
    requires n <= 15
    ensures Byte(n) <= 15 && Val(Byte(n)) == n
    ensures Byte(n) == 0 <==> n == 0
  {
    ValByte(n);
    ValIsInt(15);
    ByteOrder(n, 15);
    ByteInjective(n, 0);
  }

  /** The header that comes back; f_opts of more than 15 bytes do not fit, whatever the length byte wraps to. */
  lemma HeaderReceived(h: FHDR)
    requires EncodeAll(h.fOpts).Ok? && |OptsBytes(h)| <= 15
    ensures FHdrToVec(h).Ok? && |FHdrToVec(h).value| == 7 + |OptsBytes(h)|
    ensures var b := FHdrToVec(h).value;
            && Val(FCtrlFromByte(b[4]).fOptsLen) == |OptsBytes(h)|
            && FHdrFromSlice(b) == Ok(ReceivedHeader(h))
  {
    hide FHdrToVec, FHdrFromSlice, FCtrlFromByte, FCtrlToByte, FromLe32, LowBytes, SharedBit, OptsBytes, SentCtrl;
    hide Low16;
    SentCtrlBits(h);
    CounterLow(h.fCnt);
    HeaderPrinted(h);
    HeaderParsed(h.devAddr, FCtrlToByte(SentCtrl(h)).value, LowBytes(h.fCnt), OptsBytes(h));
  }

  /** The length check sees the length as a u8. */
  lemma HeaderPrintsIff(h: FHDR)
    requires EncodeAll(h.fOpts).Ok?
    ensures FHdrToVec(h).Ok? <==> |OptsBytes(h)| % 256 <= 15
    ensures FHdrToVec(h).Ok? ==> |FHdrToVec(h).value| == 7 + |OptsBytes(h)|
  {
    hide EncodeAll;
    var n := |OptsBytes(h)|;
    ByteInjective(n, n % 256);
    ValIsInt(15);
    ByteOrder(n % 256, 15);
  }

  lemma SentCtrlBits(h: FHDR)
    requires |OptsBytes(h)| <= 15
    ensures FCtrlToByte(SentCtrl(h)).Ok? && FCtrlFromByte(FCtrlToByte(SentCtrl(h)).value) == SharedBit(SentCtrl(h))
    ensures Val(SharedBit(SentCtrl(h)).fOptsLen) == |OptsBytes(h)|
    ensures SharedBit(SentCtrl(h)).fOptsLen == 0 <==> OptsBytes(h) == []
  {
    hide FCtrlFromByte, FCtrlToByte, OptsBytes;
    ShortLen(|OptsBytes(h)|);
    FCtrlRoundTrip(SentCtrl(h));
  }

  lemma HeaderPrinted(h: FHDR)
    requires EncodeAll(h.fOpts).Ok? && FCtrlToByte(SentCtrl(h)).Ok?
    ensures FHdrToVec(h) == Ok(Reverse(h.devAddr) + [FCtrlToByte(SentCtrl(h)).value] + LowBytes(h.fCnt) + OptsBytes(h))
  {
    hide EncodeAll, FCtrlToByte, LowBytes, Reverse;
  }

  lemma HeaderParsed(addr: Bytes4, c: u8, cnt: bytes, fOpts: bytes)
    requires |cnt| == 2
    requires Val(FCtrlFromByte(c).fOptsLen) == |fOpts| && (FCtrlFromByte(c).fOptsLen == 0 <==> fOpts == [])
    ensures var b := Reverse(addr) + [c] + cnt + fOpts;
            && |b| == 7 + |fOpts| && b[4] == c
            && FHdrFromSlice(b) == Ok(FHDR(addr, FCtrlFromByte(c), FromLe32([cnt[0], cnt[1], 0, 0]),
                                           if fOpts == [] then [] else [Raw(fOpts)]))
  {
    hide FCtrlFromByte, FromLe32;
    var b := Reverse(addr) + [c] + cnt + fOpts;
    ReverseReverse(addr);
    assert b[..4] == Reverse(addr) && b[4] == c && b[5] == cnt[0] && b[6] == cnt[1] && b[7..] == fOpts;
  }

  /** A header of seven bytes or more, a port or none, and a payload, as slices of the whole. */
  lemma Sliced(h: bytes, port: bytes, frm: bytes)
    requires |h| >= 7 && |port| <= 1
    ensures var b := h + port + frm;
            && b[4] == h[4] && b[..|h|] == h && |b| == |h| + |port| + |frm|
            && (port != [] ==> b[|h|] == port[0] && b[|h| + 1..] == frm)
  {}

  /** A whole header, then a port or none, then a payload, are read as such. */
  lemma PiecesRead(h: bytes, port: bytes, frm: bytes)
    requires |h| >= 7 && |h| == 7 + Val(FCtrlFromByte(h[4]).fOptsLen) && FHdrFromSlice(h).Ok?
    requires |port| <= 1 && (frm != [] ==> port != [])
    ensures MacFromSlice(h + port + frm) ==
            Ok(MACPayload(FHdrFromSlice(h).value, if port == [] then None else Some(port[0]),
                          if frm == [] then None else Some(FrmRaw(frm))))
  {
    hide FHdrFromSlice, FCtrlFromByte;
    Sliced(h, port, frm);
  }

  lemma MacReceived(p: MACPayload)
    requires MacToVec(p).Ok? && |OptsBytes(p.fhdr)| <= 15
    ensures MacFromSlice(MacToVec(p).value) == Ok(ReceivedMac(p))
  {
    MacPrinted(p);
    HeaderEncodes(p.fhdr);
    HeaderReceived(p.fhdr);
    hide MacToVec, MacFromSlice, FHdrToVec, FHdrFromSlice, FCtrlFromByte, OptsBytes, ReceivedHeader, FrmBytes;
    PiecesRead(FHdrToVec(p.fhdr).value, PortBytes(p), FrmBytes(p));
  }

  lemma HeaderEncodes(h: FHDR)
    requires FHdrToVec(h).Ok?
    ensures EncodeAll(h.fOpts).Ok?
  {}

  function PortBytes(p: MACPayload): bytes {
    if p.fPort.Some? then [p.fPort.value] else []
  }

  /** The f_opts that the length byte announces, and what it leaves out. */
  function Kept(h: FHDR): bytes {
    OptsBytes(h)[..|OptsBytes(h)| % 256]
  }

  function Spill(h: FHDR): bytes {
    OptsBytes(h)[|OptsBytes(h)| % 256..]
  }

  function CutHeader(h: FHDR): FHDR {
    h.(fOpts := if Kept(h) == [] then [] else [Raw(Kept(h))])
  }

  /** Everything in a printed payload that its header does not announce. */
  function Tail(p: MACPayload): bytes {
    Spill(p.fhdr) + PortBytes(p) + FrmBytes(p)
  }

  /** A header, and the bytes behind it taken for port and frm_payload. */
  function WithTail(h: FHDR, tail: bytes): MACPayload {
    MACPayload(h, if tail == [] then None else Some(tail[0]), if |tail| <= 1 then None else Some(FrmRaw(tail[1..])))
  }

  /** How the bytes of a printed payload read: the header announces the length of f_opts modulo 256. */
  function Reread(p: MACPayload): MACPayload {
    WithTail(CutHeader(p.fhdr), Tail(p))
  }

  lemma KeptSpill(h: FHDR)
    ensures Kept(h) + Spill(h) == OptsBytes(h) && |Kept(h)| == |OptsBytes(h)| % 256
    ensures |OptsBytes(h)| <= 15 ==> Kept(h) == OptsBytes(h) && Spill(h) == []
    ensures Kept(h) == OptsBytes(h) ==> |OptsBytes(h)| < 256
  {
    hide OptsBytes;
  }

  lemma CutHeaderOpts(h: FHDR)
    ensures EncodeAll(CutHeader(h).fOpts) == Ok(Kept(h)) && OptsBytes(CutHeader(h)) == Kept(h)
  {
    RawList(Kept(h));
    hide EncodeAll, Kept;
  }

  lemma CutHeaderCtrl(h: FHDR)
    ensures SentCtrl(CutHeader(h)) == SentCtrl(h)
  {
    CutHeaderOpts(h);
    KeptSpill(h);
    ByteInjective(|OptsBytes(h)|, |Kept(h)|);
    hide EncodeAll, Kept, Spill, OptsBytes, Byte;
  }

  lemma HeaderCtrl(h: FHDR)
    requires EncodeAll(h.fOpts).Ok?
    ensures FHdrToVec(h).Ok? <==> FCtrlToByte(SentCtrl(h)).Ok?
  {
    hide EncodeAll, FCtrlToByte, LowBytes, Byte;
  }

  /** The seven fixed bytes of a header. */
  function Head(h: FHDR): bytes
    requires FCtrlToByte(SentCtrl(h)).Ok?
  {
    Reverse(h.devAddr) + [FCtrlToByte(SentCtrl(h)).value] + LowBytes(h.fCnt)
  }

  lemma HeadAndOpts(h: FHDR)
    requires FHdrToVec(h).Ok?
    ensures FCtrlToByte(SentCtrl(h)).Ok? && FHdrToVec(h).value == Head(h) + OptsBytes(h)
  {
    HeaderEncodes(h);
    HeaderCtrl(h);
    HeaderPrinted(h);
    hide FHdrToVec, EncodeAll, FCtrlToByte, SentCtrl, LowBytes, OptsBytes;
  }

  lemma SameHead(h: FHDR)
    requires FCtrlToByte(SentCtrl(h)).Ok?
    ensures FCtrlToByte(SentCtrl(CutHeader(h))).Ok? && Head(CutHeader(h)) == Head(h)
  {
    CutHeaderCtrl(h);
    hide FCtrlToByte, SentCtrl, LowBytes;
  }

  lemma RereadHeader(h: FHDR)
    requires FHdrToVec(h).Ok?
    ensures |OptsBytes(h)| % 256 <= 15 && FHdrToVec(CutHeader(h)).Ok?
    ensures FHdrToVec(h).value == FHdrToVec(CutHeader(h)).value + Spill(h)
  {
    var cut := CutHeader(h);
    HeadAndOpts(h);
    SameHead(h);
    CutHeaderOpts(h);
    HeaderEncodes(h);
    HeaderPrintsIff(h);
    HeaderCtrl(cut);
    hide FHdrToVec, EncodeAll, FCtrlToByte, SentCtrl, OptsBytes, Kept, Spill, Head, CutHeader;
    HeadAndOpts(cut);
    KeptSpill(h);
    assert Head(h) + (Kept(h) + Spill(h)) == Head(h) + Kept(h) + Spill(h);
  }

  lemma MacPrinted(p: MACPayload)
    requires MacToVec(p).Ok?
    ensures FHdrToVec(p.fhdr).Ok? && MacToVec(p).value == FHdrToVec(p.fhdr).value + PortBytes(p) + FrmBytes(p)
    ensures FrmBytes(p) != [] ==> p.fPort.Some?
  {
    hide FHdrToVec, FrmToVec;
  }

  lemma TailPrints(h: FHDR, tail: bytes)
    requires FHdrToVec(h).Ok?
    ensures MacToVec(WithTail(h, tail)) == Ok(FHdrToVec(h).value + tail)
  {
    hide FHdrToVec;
    var b := FHdrToVec(h).value;
    if |tail| > 1 {
      assert b + [tail[0]] + tail[1..] == b + tail;
    } else if |tail| == 1 {
      assert b + [tail[0]] == b + tail;
    } else {
      assert b + [] == b + tail;
    }
  }

  lemma TailJoins(b: bytes, p: MACPayload)
    ensures b + Spill(p.fhdr) + PortBytes(p) + FrmBytes(p) == b + Tail(p)
  {
    hide Spill, PortBytes, FrmBytes;
  }

  lemma RereadPrints(p: MACPayload)
    requires MacToVec(p).Ok?
    ensures MacToVec(Reread(p)) == MacToVec(p)
  {
    MacPrinted(p);
    RereadHeader(p.fhdr);
    hide MacToVec, FHdrToVec, OptsBytes, FrmBytes, PortBytes, CutHeader, Spill, Tail, WithTail;
    TailPrints(CutHeader(p.fhdr), Tail(p));
    TailJoins(FHdrToVec(CutHeader(p.fhdr)).value, p);
  }

  lemma NoSpill(p: MACPayload)
    requires MacToVec(p).Ok? && |OptsBytes(p.fhdr)| <= 15
    ensures Reread(p).fPort == p.fPort
    ensures Reread(p).frmPayload == if FrmBytes(p) == [] then None else Some(FrmRaw(FrmBytes(p)))
  {
    MacPrinted(p);
    KeptSpill(p.fhdr);
    hide MacToVec, OptsBytes, FrmBytes, CutHeader, Kept, Spill;
    if p.fPort.Some? {
      assert Tail(p)[1..] == FrmBytes(p);
    }
  }

  lemma ReceivedOpts(m: MACPayload)
    ensures OptsBytes(ReceivedMac(m).fhdr) == OptsBytes(m.fhdr)
  {
    RawList(OptsBytes(m.fhdr));
    hide EncodeAll;
  }

  lemma ReceivedCut(h: FHDR)
    requires |OptsBytes(h)| <= 15
    ensures ReceivedHeader(CutHeader(h)) == ReceivedHeader(h)
  {
    CutHeaderOpts(h);
    CutHeaderCtrl(h);
    KeptSpill(h);
    hide OptsBytes, SentCtrl, Kept, Spill, EncodeAll;
  }

  /** With at most 15 bytes of f_opts nothing is misread. */
  lemma ShortReread(p: MACPayload)
    requires MacToVec(p).Ok? && |OptsBytes(p.fhdr)| <= 15
    ensures ReceivedMac(Reread(p)) == ReceivedMac(p)
  {
    ReceivedCut(p.fhdr);
    NoSpill(p);
    RawPayload(Reread(p));
    hide OptsBytes, ReceivedHeader, CutHeader, MacToVec, FrmToVec;
    assert Reread(p).fhdr == CutHeader(p.fhdr);
  }

  lemma RawPayload(p: MACPayload)
    ensures p.frmPayload.None? ==> FrmBytes(p) == []
    ensures p.frmPayload.Some? && p.frmPayload.value.FrmRaw? ==> FrmBytes(p) == p.frmPayload.value.raw
  {}

  /** What any printed payload reads as. */
  lemma MacReread(p: MACPayload)
    requires MacToVec(p).Ok?
    ensures MacFromSlice(MacToVec(p).value) == Ok(ReceivedMac(Reread(p)))
  {
    MacPrinted(p);
    RereadHeader(p.fhdr);
    RereadPrints(p);
    CutHeaderOpts(p.fhdr);
    KeptSpill(p.fhdr);
    assert Reread(p).fhdr == CutHeader(p.fhdr);
    hide MacToVec, MacFromSlice, ReceivedMac, Reread, OptsBytes, FHdrToVec, CutHeader, Kept, Spill, EncodeAll;
    MacReceived(Reread(p));
  }

  /** What any printed data frame is to its receiver. */
  lemma DataFrameReread(p: PhyFrame)
    requires IsData(p.mhdr.fType) && p.payload.MACFrame? && p.mic.Some? && PhyToVec(p).Ok?
    ensures PhyFromSlice(PhyToVec(p).value) == Ok(p.(payload := MACFrame(ReceivedMac(Reread(p.payload.mac)))))
  {
    hide MacToVec, MacFromSlice, ReceivedMac, Reread, MhdrToByte, MhdrFromByte;
    var m, b := MacToVec(p.payload.mac).value, PhyToVec(p).value;
    MhdrRoundTrip(p.mhdr);
    MacReread(p.payload.mac);
    assert b == [MhdrToByte(p.mhdr)] + m + p.mic.value;
    assert b[1..|b| - 4] == m && b[|b| - 4..] == p.mic.value;
  }

  /** And with at most 15 bytes of f_opts. */
  lemma DataFrameReceived(p: PhyFrame)
    requires IsData(p.mhdr.fType) && p.payload.MACFrame? && p.mic.Some?
    requires PhyToVec(p).Ok? && |OptsBytes(p.payload.mac.fhdr)| <= 15
    ensures PhyFromSlice(PhyToVec(p).value) == Ok(p.(payload := MACFrame(ReceivedMac(p.payload.mac))))
  {
    DataFrameReread(p);
    PrintedMac(p);
    ShortReread(p.payload.mac);
    hide PhyToVec, PhyFromSlice, MacToVec, ReceivedMac, Reread, OptsBytes;
  }

  lemma PrintedMac(p: PhyFrame)
    requires p.payload.MACFrame? && PhyToVec(p).Ok?
    ensures MacToVec(p.payload.mac).Ok?
  {}

  /** The f_opts of a printed data frame arrive if and only if they have at most 15 bytes: longer ones that
      print, because their length wraps to 15 or less, are cut off. */
  lemma OptsFitIff(p: PhyFrame)
    requires IsData(p.mhdr.fType) && p.payload.MACFrame? && p.mic.Some? && PhyToVec(p).Ok?
    ensures var r := PhyFromSlice(PhyToVec(p).value);
            && r.Ok? && r.value.payload.MACFrame?
            && (OptsBytes(r.value.payload.mac.fhdr) == OptsBytes(p.payload.mac.fhdr) <==>
                |OptsBytes(p.payload.mac.fhdr)| <= 15)
  {
    DataFrameReread(p);
    PrintedMac(p);
    MacPrinted(p.payload.mac);
    var h := p.payload.mac.fhdr;
    RereadHeader(h);
    ReceivedOpts(Reread(p.payload.mac));
    CutHeaderOpts(h);
    KeptSpill(h);
    assert Reread(p.payload.mac).fhdr == CutHeader(h);
    hide PhyToVec, PhyFromSlice, MacToVec, ReceivedMac, Reread, OptsBytes, FHdrToVec, Kept, Spill, CutHeader, EncodeAll;
  }

  /** 256 bytes of f_opts print, and read as none at all, with port 0 and 255 bytes of payload. */
  lemma LongOptsLost()
    ensures var opts := seq(256, _ => 0 as u8);
            var h := FHDR([0, 0, 0, 0], FCtrl(false, false, false, false, false, 0), 0, [Raw(opts)]);
            var p := PhyFrame(MHDR(UnconfirmedDataUp, LoRaWANR1), MACFrame(MACPayload(h, None, None)),
                              Some([0, 0, 0, 0]));
            && PhyToVec(p).Ok?
            && var r := PhyFromSlice(PhyToVec(p).value);
            && r.Ok? && r.value.payload.MACFrame?
            && r.value.payload.mac.fhdr.fOpts == []
            && r.value.payload.mac.fPort == Some(0) && r.value.payload.mac.frmPayload == Some(FrmRaw(opts[1..]))
  {
    var opts := seq(256, _ => 0 as u8);
    var h := FHDR([0, 0, 0, 0], FCtrl(false, false, false, false, false, 0), 0, [Raw(opts)]);
    var m := MACPayload(h, None, None);
    var p := PhyFrame(MHDR(UnconfirmedDataUp, LoRaWANR1), MACFrame(m), Some([0, 0, 0, 0]));
    LongOptsPrint(p, opts);
    DataFrameReread(p);
    LongOptsReread(m, opts);
    ReceivedNoOpts(CutHeader(h));
    RawPayload(Reread(m));
    hide ReceivedHeader, PhyToVec, PhyFromSlice, MacToVec, Reread, CutHeader, FrmBytes;
  }

  lemma LongOptsPrint(p: PhyFrame, opts: bytes)
    requires p.payload.MACFrame? && p.payload.mac.fhdr.fOpts == [Raw(opts)] && |opts| == 256
    requires p.payload.mac.frmPayload.None?
    ensures PhyToVec(p).Ok?
  {
    RawList(opts);
    hide EncodeAll, FHdrToVec, MhdrToByte;
    assert OptsBytes(p.payload.mac.fhdr) == opts;
    HeaderPrintsIff(p.payload.mac.fhdr);
    assert MacToVec(p.payload.mac).Ok?;
  }

  lemma LongOptsReread(m: MACPayload, opts: bytes)
    requires m.fhdr.fOpts == [Raw(opts)] && |opts| == 256 && m.fPort.None? && m.frmPayload.None?
    ensures CutHeader(m.fhdr).fOpts == []
    ensures Reread(m) == MACPayload(CutHeader(m.fhdr), Some(opts[0]), Some(FrmRaw(opts[1..])))
  {
    RawList(opts);
    assert OptsBytes(m.fhdr) == opts;
    NothingKept(m.fhdr);
    hide EncodeAll, OptsBytes, Kept, Spill;
    assert PortBytes(m) == [] && FrmBytes(m) == [];
    assert opts + [] + [] == opts;
  }

  lemma NothingKept(h: FHDR)
    requires |OptsBytes(h)| % 256 == 0
    ensures Kept(h) == [] && Spill(h) == OptsBytes(h)
  {
    hide OptsBytes;
  }

  lemma ReceivedNoOpts(h: FHDR)
    requires h.fOpts == []
    ensures ReceivedHeader(h).fOpts == []
  {
    RawList([]);
  }

  // The frames that parsing can return; each of them prints and parses to itself.

  predicate WireHeader(h: FHDR) {
    && h.fCtrl.classB == h.fCtrl.fPending
    && h.fCnt <= 0xffff
    && if h.fCtrl.fOptsLen == 0 then h.fOpts == []
       else h.fCtrl.fOptsLen <= 15 && |h.fOpts| == 1 && h.fOpts[0].Raw? && |h.fOpts[0].raw| == Val(h.fCtrl.fOptsLen)
  }

  predicate WireMac(p: MACPayload) {
    && WireHeader(p.fhdr)
    && (p.frmPayload.Some? ==> p.fPort.Some? && p.frmPayload.value.FrmRaw? && p.frmPayload.value.raw != [])
  }

  predicate WirePayload(t: FType, p: Payload) {
    match p
    case JoinRequestFrame(_) => t.JoinRequest?
    case JoinAcceptFrame(_) => false
    case MACFrame(v) => IsData(t) && WireMac(v)
    case RejoinFrame02(v) => t.RejoinRequest? && (v.rejoinType.RejoinType0? || v.rejoinType.RejoinType2?)
    case RejoinFrame1(v) => t.RejoinRequest? && v.rejoinType.RejoinType1?
    case RawFrame(_) => t.JoinAccept? || t.Proprietary?
  }

  predicate WireFrame(p: PhyFrame) {
    WirePayload(p.mhdr.fType, p.payload) && (p.mic.None? <==> p.mhdr.fType.Proprietary?)
  }

  lemma ParsedHeaderIsWire(b: bytes)
    requires FHdrFromSlice(b).Ok?
    ensures WireHeader(FHdrFromSlice(b).value)
  {
    OptsLenRange(b[4]);
    CounterIs16Bits(b[5], b[6]);
    hide FromLe32;
  }

  lemma CounterIs16Bits(b5: u8, b6: u8)
    ensures FromLe32([b5, b6, 0, 0]) <= 0xffff
  {}

  lemma ParsedMacIsWire(b: bytes)
    requires MacFromSlice(b).Ok?
    ensures WireMac(MacFromSlice(b).value)
  {
    hide FHdrFromSlice, WireHeader;
    ParsedHeaderIsWire(b[..7 + Val(FCtrlFromByte(b[4]).fOptsLen)]);
  }

  lemma ParsedIsWire(b: bytes)
    requires PhyFromSlice(b).Ok?
    ensures WireFrame(PhyFromSlice(b).value)
  {
    hide MacFromSlice, WireMac, MhdrFromByte, JoinRequestFromSlice;
    var t := MhdrFromByte(b[0]).value.fType;
    if IsData(t) && |b| >= 5 {
      ParsedMacIsWire(b[1..|b| - 4]);
    }
  }

  lemma WireOptsFit(h: FHDR)
    requires WireHeader(h)
    ensures EncodeAll(h.fOpts).Ok? && |OptsBytes(h)| <= 15
    ensures Byte(|OptsBytes(h)|) == h.fCtrl.fOptsLen
    ensures h.fOpts == if OptsBytes(h) == [] then [] else [Raw(OptsBytes(h))]
  {
    if h.fOpts != [] {
      RawList(h.fOpts[0].raw);
      assert h.fOpts == [Raw(h.fOpts[0].raw)];
      ByteVal(h.fCtrl.fOptsLen);
      ValIsInt(15);
      if h.fCtrl.fOptsLen < 15 {
        ValMonotone(h.fCtrl.fOptsLen, 15);
      }
    } else {
      RawList([]);
    }
    hide EncodeAll;
  }

  lemma WireHeaderReceived(h: FHDR)
    requires WireHeader(h)
    ensures ReceivedHeader(h) == h
  {
    WireOptsFit(h);
    LowCounter(h.fCnt);
    hide OptsBytes, EncodeAll, Low16, Byte;
  }

  lemma WireMacReceived(p: MACPayload)
    requires WireMac(p)
    ensures MacToVec(p).Ok? && |OptsBytes(p.fhdr)| <= 15
    ensures ReceivedMac(p) == p
  {
    WireOptsFit(p.fhdr);
    HeaderReceived(p.fhdr);
    WireHeaderReceived(p.fhdr);
    hide OptsBytes, EncodeAll, WireHeader, ReceivedHeader, FHdrToVec, FHdrFromSlice;
  }

  lemma LowCounter(fCnt: u32)
    requires fCnt <= 0xffff
    ensures Low16(fCnt) == fCnt
  {}

  lemma WirePayloadRoundTrip(t: FType, p: Payload)
    requires WirePayload(t, p)
    ensures PayloadToVec(p).Ok? && PayloadFromSlice(t, PayloadToVec(p).value) == Ok(p)
  {
    hide MacToVec, MacFromSlice, ReceivedMac, WireMac, OptsBytes;
    hide JoinRequestFromSlice, JoinRequestToVec, Rejoin02FromSlice, Rejoin02ToVec, Rejoin1FromSlice, Rejoin1ToVec;
    match p
    case JoinRequestFrame(v) => JoinRequestRoundTrip(v);
    case MACFrame(v) => WireMacReceived(v); MacReceived(v);
    case RejoinFrame02(v) => Rejoin02RoundTrip(v);
    case RejoinFrame1(v) => Rejoin1RoundTrip(v);
    case RawFrame(_) =>
  }

  lemma JoinRequestRoundTrip(v: JoinRequestPayload)
    ensures JoinRequestFromSlice(JoinRequestToVec(v)) == Ok(v)
  {
    var b := JoinRequestToVec(v);
    ReverseReverse(v.joinEui);
    ReverseReverse(v.devEui);
    Le16RoundTrip(v.devNonce, [0, 0]);
    assert b[..8] == Reverse(v.joinEui) && b[8..16] == Reverse(v.devEui) && b[16..] == Le16(v.devNonce);
  }

  lemma Rejoin02RoundTrip(v: RejoinRequestType02Payload)
    requires v.rejoinType.RejoinType0? || v.rejoinType.RejoinType2?
    ensures Rejoin02ToVec(v).Ok? && Rejoin02FromSlice(Rejoin02ToVec(v).value) == Ok(v)
    ensures |Rejoin02ToVec(v).value| == 14
    ensures Rejoin02ToVec(v).value[0] == if v.rejoinType.RejoinType0? then 0x00 else 0x02
  {
    var b := Rejoin02ToVec(v).value;
    ReverseReverse(v.netId);
    ReverseReverse(v.devEui);
    Le16RoundTrip(v.rjCount0, [0, 0]);
    assert b[1..4] == Reverse(v.netId) && b[4..12] == Reverse(v.devEui) && b[12..] == Le16(v.rjCount0);
  }

  lemma Rejoin1RoundTrip(v: RejoinRequestType1Payload)
    requires v.rejoinType.RejoinType1?
    ensures Rejoin1ToVec(v).Ok? && Rejoin1FromSlice(Rejoin1ToVec(v).value) == Ok(v)
    ensures |Rejoin1ToVec(v).value| == 19 && Rejoin1ToVec(v).value[0] == 0x01
  {
    var b := Rejoin1ToVec(v).value;
    ReverseReverse(v.joinEui);
    ReverseReverse(v.devEui);
    Le16RoundTrip(v.rjCount1, [0, 0]);
    assert b[1..9] == Reverse(v.joinEui) && b[9..17] == Reverse(v.devEui) && b[17..] == Le16(v.rjCount1);
  }

  lemma WireFramePrints(p: PhyFrame)
    requires WireFrame(p)
    ensures PhyToVec(p).Ok? && PhyFromSlice(PhyToVec(p).value) == Ok(p)
  {
    hide PayloadFromSlice, PayloadToVec, MhdrToByte, MhdrFromByte, WirePayload;
    MhdrRoundTrip(p.mhdr);
    WirePayloadRoundTrip(p.mhdr.fType, p.payload);
    var m, b := PayloadToVec(p.payload).value, PhyToVec(p).value;
    if p.mic.None? {
      assert b == [MhdrToByte(p.mhdr)] + m && b[1..] == m;
    } else {
      assert b == [MhdrToByte(p.mhdr)] + m + p.mic.value;
      assert b[1..|b| - 4] == m && b[|b| - 4..] == p.mic.value;
    }
  }

  /** A printed frame parses to itself exactly when it is a wire frame. */
  lemma PrintParseIff(p: PhyFrame)
    requires PhyToVec(p).Ok?
    ensures PhyFromSlice(PhyToVec(p).value) == Ok(p) <==> WireFrame(p)
  {
    hide PhyFromSlice, PhyToVec, WireFrame;
    if WireFrame(p) {
      WireFramePrints(p);
    }
    if PhyFromSlice(PhyToVec(p).value) == Ok(p) {
      ParsedIsWire(PhyToVec(p).value);
    }
  }
}
