/** MACCommandSet of lrwn/src/maccommand.rs: printing a list of commands and splitting bytes into commands. */
module MacStream {
  import opened Bytes
  import opened MacFields
  import opened MacCommands
  import opened MacProofs
  import opened Directions

  /** Interprets the payload at the front of `rest`; also says how many bytes it took. */
  function DecodePayload(cid: CID, rest: bytes): Result<(MACCommand, nat)>
    requires !cid.RawId?
  {
    match PayloadLen(cid, rest)
    case None => Err
    case Some(n) =>
      var m :- ParsePayload(cid, rest[..n]);
      Ok((m, n))
  }

  lemma CidNotRaw(uplink: bool, v: u8)
    ensures CID.FromU8(uplink, v).Ok? ==> !CID.FromU8(uplink, v).value.RawId?
  {}

  /** The command at the front of b, and its size. An unknown identifier swallows everything that is left. */
  function DecodeCommand(uplink: bool, b: bytes): Result<(MACCommand, nat)>
    requires b != []
  {
    CidNotRaw(uplink, b[0]);
    match CID.FromU8(uplink, b[0])
    case Err => Ok((Raw(b), |b|))
    case Ok(cid) =>
      var (m, n) :- DecodePayload(cid, b[1..]);
      Ok((m, n + 1))
  }

  lemma CommandSize(uplink: bool, b: bytes)
    requires b != []
    ensures DecodeCommand(uplink, b).Ok? ==> 1 <= DecodeCommand(uplink, b).value.1 <= |b|
  {}

  function DecodeAll(uplink: bool, b: bytes): Result<seq<MACCommand>>
    decreases |b|
  {
    if b == [] then Ok([])
    else
      CommandSize(uplink, b);
      var (m, n) :- DecodeCommand(uplink, b);
      var rest :- DecodeAll(uplink, b[n..]);
      Ok([m] + rest)
  }

  function EncodeCommand(m: MACCommand): Result<bytes> {
    if m.Raw? then Ok(m.raw)
    else
      var p :- EncodePayload(m);
      Ok([m.Cid().ToU8()] + p)
  }

  function EncodeAll(cmds: seq<MACCommand>): Result<bytes> {
    if cmds == [] then Ok([])
    else
      var b :- EncodeCommand(cmds[0]);
      var rest :- EncodeAll(cmds[1..]);
      Ok(b + rest)
  }

  /** A command is printed as its identifier and its payload. */
  lemma PrintedCode(m: MACCommand)
    requires !m.Raw? && EncodeCommand(m).Ok?
    ensures EncodePayload(m).Ok? && EncodeCommand(m).value == [CommandCode(m)] + EncodePayload(m).value
  {
    hide EncodePayload, CID.ToU8, CommandCode, MACCommand.Cid;
    CodeIs(m);
  }

  /** What decode_from_raw makes of a set: only a set holding exactly one Raw is decoded. */
  function DecodedSet(cmds: seq<MACCommand>, uplink: bool): Result<seq<MACCommand>> {
    if |cmds| == 1 && cmds[0].Raw? then DecodeAll(uplink, cmds[0].raw) else Ok(cmds)
  }

  // One command inside a longer byte string.

  /** A command that this direction of the link can carry. */
  predicate Legal(uplink: bool, m: MACCommand) {
    !m.Raw? && Carries(uplink, m)
  }

  lemma LegalIff(uplink: bool, m: MACCommand)
    ensures Legal(uplink, m) <==> !m.Raw? && CID.FromU8(uplink, m.Cid().ToU8()) == Ok(m.Cid())
  {
    hide Carries, CID.FromU8, CID.ToU8, MACCommand.Cid;
    if !m.Raw? {
      CarriesIff(uplink, m);
    }
  }

  lemma CidCode(uplink: bool, v: u8)
    ensures CID.FromU8(uplink, v).Ok? ==> CID.FromU8(uplink, v).value.ToU8() == v
  {
    if v < 0x06 {
      CidCodeTo05(uplink, v);
    } else if v < 0x0b {
      CidCodeTo0A(uplink, v);
    } else if v < 0x12 {
      CidCodeTo11(uplink, v);
    } else if v < 0x42 {
      CidCodeTo41(uplink, v);
    } else {
      CidCodeFrom42(uplink, v);
    }
    hide CID.FromU8, CID.ToU8;
  }

  lemma CidCodeTo05(uplink: bool, v: u8)
    requires v < 0x06
    ensures CID.FromU8(uplink, v).Ok? ==> CID.FromU8(uplink, v).value.ToU8() == v
  {}

  lemma CidCodeTo0A(uplink: bool, v: u8)
    requires 0x06 <= v < 0x0b
    ensures CID.FromU8(uplink, v).Ok? ==> CID.FromU8(uplink, v).value.ToU8() == v
  {}

  lemma CidCodeTo11(uplink: bool, v: u8)
    requires 0x0b <= v < 0x12
    ensures CID.FromU8(uplink, v).Ok? ==> CID.FromU8(uplink, v).value.ToU8() == v
  {}

  lemma CidCodeTo41(uplink: bool, v: u8)
    requires 0x12 <= v < 0x42
    ensures CID.FromU8(uplink, v).Ok? ==> CID.FromU8(uplink, v).value.ToU8() == v
  {}

  lemma CidCodeFrom42(uplink: bool, v: u8)
    requires 0x42 <= v
    ensures CID.FromU8(uplink, v).Ok? ==> CID.FromU8(uplink, v).value.ToU8() == v
  {}

  lemma PayloadLenOfPrefix(cid: CID, p: bytes, suffix: bytes)
    requires PayloadLen(cid, p) == Some(|p|)
    ensures PayloadLen(cid, p + suffix) == Some(|p|)
  {}

  lemma FixedPayloadLen(cid: CID, p: bytes)
    requires !cid.FilterListReqId? && PayloadLen(cid, p).Some?
    ensures PayloadLen(cid, p) == Some(FixedLen(cid))
  {}

  lemma FilterPrinted(m: MACCommand)
    requires m.FilterListReq? && EncodePayload(m).Ok?
    ensures m.filterListIdx <= 15 && |m.eui| <= 16
    ensures EncodePayload(m).value == FilterListBytes(m.filterListIdx, m.action, m.eui)
    ensures m.Cid().FilterListReqId?
    ensures Canonical(m) <==> |m.eui| < 8 || |m.eui| == 16
  {
    hide FilterListBytes;
  }

  lemma FilterParsed(b: bytes)
    requires |b| >= 2
    ensures PayloadLen(FilterListReqId, b) == if |b| < 2 + FilterLen(b[0]) then None else Some(2 + FilterLen(b[0]))
    ensures |b| == 2 + FilterLen(b[0]) && FilterListAction.FromU8((b[0] & 0x60) >> 5).Ok? ==>
              ParsePayload(FilterListReqId, b) ==
              Ok(FilterListReq(FilterListIdx(b[0], b[1]), FilterListAction.FromU8((b[0] & 0x60) >> 5).value,
                               Reverse(b[2..])))
  {
    hide FilterLen, FilterListIdx, FilterListAction.FromU8, ParsePayload;
    if |b| == 2 + FilterLen(b[0]) {
      DeviceReads(FilterListReqId, b);
    }
  }

  lemma FilterPayload(m: MACCommand, suffix: bytes)
    requires m.FilterListReq? && EncodePayload(m).Ok?
    ensures DecodePayload(m.Cid(), EncodePayload(m).value + suffix) == Ok((m, |EncodePayload(m).value|)) <==>
            Canonical(m)
  {
    FilterPrinted(m);
    hide EncodePayload, FilterListBytes, FilterLen, FilterListIdx, FilterListAction.FromU8, Canonical, MACCommand.Cid;
    hide PayloadLen, ParsePayload;
    var p := EncodePayload(m).value;
    FilterListRoundTrip(m.filterListIdx, m.action, m.eui);
    FilterParsed(p + suffix);
    if FilterLen(p[0]) == |m.eui| {
      assert (p + suffix)[..|p|] == p;
      FilterParsed(p);
    }
  }

  /** Decoding an encoded payload, whatever follows it, gives the command back exactly when it is canonical. */
  lemma PayloadRoundTrip(m: MACCommand, suffix: bytes)
    requires !m.Raw? && EncodePayload(m).Ok?
    ensures DecodePayload(m.Cid(), EncodePayload(m).value + suffix) == Ok((m, |EncodePayload(m).value|)) <==>
            Canonical(m)
  {
    hide EncodePayload, ParsePayload, PayloadLen;
    if m.FilterListReq? {
      FilterPayload(m, suffix);
    } else {
      var p := EncodePayload(m).value;
      AllRoundTrip(m);
      PayloadLenOfPrefix(m.Cid(), p, suffix);
      assert (p + suffix)[..|p|] == p;
    }
  }

  lemma PrefixLen(cid: CID, rest: bytes, n: nat)
    requires PayloadLen(cid, rest) == Some(n)
    ensures n <= |rest| && PayloadLen(cid, rest[..n]) == Some(n)
  {}

  lemma ParsedFilterLen(b: bytes)
    requires PayloadLen(FilterListReqId, b) == Some(|b|)
    ensures ParsePayload(FilterListReqId, b).Ok? ==>
              ParsePayload(FilterListReqId, b).value.FilterListReq? &&
                |ParsePayload(FilterListReqId, b).value.eui| == |b| - 2
    ensures |b| - 2 <= 7 || |b| - 2 >= 16
  {
    hide ParsePayload, FilterListIdx, FilterListAction.FromU8;
    DeviceReads(FilterListReqId, b);
    MaskedLen(b[0]);
  }

  lemma MaskedLen(b: u8)
    ensures FilterLen(b) <= 7 || FilterLen(b) >= 16
  {
    MaskGap(b);
    ValIsInt(7);
    ValIsInt(16);
    if b & 0x17 < 7 {
      ValMonotone(b & 0x17, 7);
    }
    if b & 0x17 > 16 {
      ValMonotone(16, b & 0x17);
    }
  }

  lemma MaskGap(b: u8)
    ensures b & 0x17 <= 7 || b & 0x17 >= 16
  {}

  lemma FilterEncodable(m: MACCommand)
    requires m.FilterListReq? && EncodePayload(m).Ok?
    ensures |m.eui| <= 16 && |EncodePayload(m).value| == 2 + |m.eui|
  {}

  /** A decoded payload bears its identifier; if it can be sent, it is canonical and as long as what was read. */
  lemma PayloadSound(cid: CID, rest: bytes)
    requires !cid.RawId? && DecodePayload(cid, rest).Ok?
    ensures var (m, n) := DecodePayload(cid, rest).value;
            && m.Cid() == cid && !m.Raw?
            && (EncodePayload(m).Ok? ==> Canonical(m) && |EncodePayload(m).value| == n)
  {
    hide EncodePayload, ParsePayload, PayloadLen;
    var (m, n) := DecodePayload(cid, rest).value;
    PrefixLen(cid, rest, n);
    AllParse(cid, rest[..n]);
    if EncodePayload(m).Ok? {
      if m.FilterListReq? {
        ParsedFilterLen(rest[..n]);
        FilterEncodable(m);
      } else {
        AllRoundTrip(m);
        FixedPayloadLen(cid, rest[..n]);
        FixedPayloadLen(cid, EncodePayload(m).value);
      }
    }
  }

  /** What decoding one command says about it: it is Raw for an unknown identifier, and legal otherwise. */
  lemma CommandSound(uplink: bool, b: bytes)
    requires b != [] && DecodeCommand(uplink, b).Ok?
    ensures var (m, n) := DecodeCommand(uplink, b).value;
            && 1 <= n <= |b|
            && (m.Raw? ==> !KnownCode(uplink, b[0]) && m == Raw(b) && n == |b|)
            && (!m.Raw? ==> Legal(uplink, m) && CommandCode(m) == b[0])
            && (EncodeCommand(m).Ok? && !m.Raw? ==> Canonical(m))
            && (EncodeCommand(m).Ok? ==> |EncodeCommand(m).value| == n)
  {
    hide DecodePayload, EncodePayload, CID.FromU8, CID.ToU8, KnownCode, Legal, CommandCode, MACCommand.Cid;
    CommandSize(uplink, b);
    CidNotRaw(uplink, b[0]);
    CidCode(uplink, b[0]);
    KnownCodeIff(uplink, b[0]);
    if CID.FromU8(uplink, b[0]).Ok? {
      PayloadSound(CID.FromU8(uplink, b[0]).value, b[1..]);
      LegalIff(uplink, DecodeCommand(uplink, b).value.0);
      CodeIs(DecodeCommand(uplink, b).value.0);
    }
  }

  /** One command, whatever follows it, comes back exactly when this direction can carry it and it is canonical. */
  lemma CommandRoundTrip(uplink: bool, m: MACCommand, suffix: bytes)
    requires !m.Raw? && EncodeCommand(m).Ok?
    ensures var e := EncodeCommand(m).value;
            DecodeCommand(uplink, e + suffix) == Ok((m, |e|)) <==> Legal(uplink, m) && Canonical(m)
  {
    hide DecodePayload, EncodePayload, CID.FromU8, CID.ToU8, MACCommand.Cid, Canonical, Legal, CommandCode;
    LegalIff(uplink, m);
    var e, p := EncodeCommand(m).value, EncodePayload(m).value;
    assert (e + suffix)[1..] == p + suffix && (e + suffix)[0] == m.Cid().ToU8();
    if Legal(uplink, m) {
      PayloadRoundTrip(m, suffix);
      var d := DecodePayload(m.Cid(), p + suffix);
      assert DecodeCommand(uplink, e + suffix) == if d.Ok? then Ok((d.value.0, d.value.1 + 1)) else Err;
      assert d.Ok? ==> d == Ok((d.value.0, d.value.1));
    } else if DecodeCommand(uplink, e + suffix) == Ok((m, |e|)) {
      CommandSound(uplink, e + suffix);
    }
  }

  // Whole lists.

  /** The lists of commands that survive the wire: legal canonical commands, then perhaps unparsed bytes
      that start with an identifier unknown in this direction. */
  predicate WireList(uplink: bool, cmds: seq<MACCommand>) {
    forall i :: 0 <= i < |cmds| ==> WireCommand(uplink, cmds[i], i == |cmds| - 1)
  }

  predicate WireCommand(uplink: bool, m: MACCommand, last: bool) {
    if m.Raw? then last && m.raw != [] && !KnownCode(uplink, m.raw[0])
    else Legal(uplink, m) && Canonical(m)
  }

  lemma WireListTail(uplink: bool, cmds: seq<MACCommand>)
    requires cmds != []
    ensures WireList(uplink, cmds) <==> WireCommand(uplink, cmds[0], |cmds| == 1) && WireList(uplink, cmds[1..])
  {
    hide WireCommand;
    var t := cmds[1..];
    if WireList(uplink, cmds) {
      forall i | 0 <= i < |t| ensures WireCommand(uplink, t[i], i == |t| - 1) {
        assert t[i] == cmds[i + 1];
      }
    }
    if WireCommand(uplink, cmds[0], |cmds| == 1) && WireList(uplink, t) {
      forall i | 0 <= i < |cmds| ensures WireCommand(uplink, cmds[i], i == |cmds| - 1) {
        if i > 0 {
          assert cmds[i] == t[i - 1];
        }
      }
    }
  }

  /** Printing a list and decoding the bytes gives the list back exactly for the wire lists. */
  lemma {:induction false} ListRoundTrip(uplink: bool, cmds: seq<MACCommand>)
    requires EncodeAll(cmds).Ok?
    ensures DecodeAll(uplink, EncodeAll(cmds).value) == Ok(cmds) <==> WireList(uplink, cmds)
    decreases |cmds|
  {
    hide DecodeCommand, EncodeCommand, WireList, WireCommand, Legal, Canonical;
    if cmds == [] {
      EmptyWireList(uplink);
    } else {
      var m, t := cmds[0], cmds[1..];
      var e, b := EncodeCommand(m).value, EncodeAll(cmds).value;
      WireListTail(uplink, cmds);
      ListRoundTrip(uplink, t);
      assert b == e + EncodeAll(t).value && b[|e|..] == EncodeAll(t).value;
      assert cmds == [m] + t;
      if m.Raw? {
        RawEncoded(m);
        RawRoundTrip(uplink, m, t, b);
      } else {
        CommandRoundTrip(uplink, m, EncodeAll(t).value);
        NonRawWire(uplink, m, |cmds| == 1);
        NonRawNotEmpty(m);
        if DecodeAll(uplink, b) == Ok(cmds) {
          CommandSound(uplink, b);
        }
      }
    }
  }

  function EightByteFilter(): MACCommand {
    FilterListReq(0, FilterListAction.NoRule, [1, 2, 3, 4, 5, 6, 7, 8])
  }

  lemma EightByteFilterIs()
    ensures !EightByteFilter().Raw? && Legal(false, EightByteFilter())
    ensures EncodeCommand(EightByteFilter()).Ok?
    ensures !Canonical(EightByteFilter())
  {
    hide FilterListBytes;
  }

  /** A filter of eight bytes is legal and encodes, and does not come back. */
  lemma FilterGap()
    ensures var m := EightByteFilter();
            Legal(false, m) && EncodeAll([m]).Ok? && DecodeAll(false, EncodeAll([m]).value) != Ok([m])
  {
    var m := EightByteFilter();
    EightByteFilterIs();
    assert [m][1..] == [] && EncodeAll([]) == Ok([]);
    hide EncodeCommand, DecodeAll, Legal, Canonical, EightByteFilter;
    ListRoundTrip(false, [m]);
    NonRawWire(false, m, true);
    WireListTail(false, [m]);
  }

  lemma EmptyWireList(uplink: bool)
    ensures WireList(uplink, [])
  {}

  lemma NonRawWire(uplink: bool, m: MACCommand, last: bool)
    requires !m.Raw?
    ensures WireCommand(uplink, m, last) <==> Legal(uplink, m) && Canonical(m)
  {}

  lemma NonRawNotEmpty(m: MACCommand)
    requires !m.Raw? && EncodeCommand(m).Ok?
    ensures EncodeCommand(m).value != []
  {}

  lemma RawEncoded(m: MACCommand)
    requires m.Raw?
    ensures EncodeCommand(m) == Ok(m.raw)
  {}

  lemma RawRoundTrip(uplink: bool, m: MACCommand, t: seq<MACCommand>, b: bytes)
    requires m.Raw? && EncodeAll(t).Ok? && b == m.raw + EncodeAll(t).value
    ensures DecodeAll(uplink, b) == Ok([m] + t) <==> WireCommand(uplink, m, t == []) && WireList(uplink, t)
  {
    hide WireList, EncodePayload, CID.FromU8, KnownCode;
    if DecodeAll(uplink, b) == Ok([m] + t) {
      CommandSound(uplink, b);
      assert DecodeCommand(uplink, b).value.0 == ([m] + t)[0] == m;
      assert ([m] + t)[1..] == t;
      EmptyWireList(uplink);
    }
    if WireCommand(uplink, m, t == []) {
      KnownCodeIff(uplink, m.raw[0]);
      assert t == [] && b == m.raw;
      assert DecodeAll(uplink, b[|b|..]) == Ok([]);
    }
  }

  /** Decoded bytes that can be printed again keep their length, and decode to the same commands. */
  lemma {:induction false} DecodedIsWire(uplink: bool, b: bytes)
    requires DecodeAll(uplink, b).Ok? && EncodeAll(DecodeAll(uplink, b).value).Ok?
    ensures WireList(uplink, DecodeAll(uplink, b).value)
    ensures |EncodeAll(DecodeAll(uplink, b).value).value| == |b|
    decreases |b|
  {
    hide DecodeCommand, EncodeCommand, WireList, WireCommand, Legal, Canonical;
    if b == [] {
      EmptyWireList(uplink);
    } else {
      CommandSound(uplink, b);
      var (m, n) := DecodeCommand(uplink, b).value;
      var cmds := DecodeAll(uplink, b).value;
      var t := DecodeAll(uplink, b[n..]).value;
      assert cmds[0] == m && cmds[1..] == t;
      DecodedIsWire(uplink, b[n..]);
      WireListTail(uplink, cmds);
      SoundIsWire(uplink, b);
    }
  }

  lemma SoundIsWire(uplink: bool, b: bytes)
    requires b != [] && DecodeCommand(uplink, b).Ok? && EncodeCommand(DecodeCommand(uplink, b).value.0).Ok?
    requires DecodeAll(uplink, b[DecodeCommand(uplink, b).value.1..]).Ok?
    ensures var (m, n) := DecodeCommand(uplink, b).value;
            WireCommand(uplink, m, DecodeAll(uplink, b[n..]) == Ok([]))
  {
    hide DecodeCommand, EncodeCommand, Legal, Canonical, CID.FromU8;
    CommandSound(uplink, b);
  }

  lemma Canonicalisation(uplink: bool, b: bytes)
    requires DecodeAll(uplink, b).Ok? && EncodeAll(DecodeAll(uplink, b).value).Ok?
    ensures var cmds := DecodeAll(uplink, b).value;
            && |EncodeAll(cmds).value| == |b|
            && DecodeAll(uplink, EncodeAll(cmds).value) == Ok(cmds)
  {
    hide *;
    DecodedIsWire(uplink, b);
    ListRoundTrip(uplink, DecodeAll(uplink, b).value);
  }

  // Decoding, described without recursion: the commands are read off consecutive pieces that cover all bytes.

  ghost predicate IsSplit(uplink: bool, b: bytes, cmds: seq<MACCommand>, cuts: seq<nat>) {
    && |cuts| == |cmds| + 1 && cuts[0] == 0 && cuts[|cmds|] == |b|
    && forall i :: 0 <= i < |cmds| ==> IsPiece(uplink, b, cmds[i], cuts[i], cuts[i + 1])
  }

  ghost predicate IsPiece(uplink: bool, b: bytes, m: MACCommand, lo: nat, hi: nat) {
    lo < hi <= |b| && DecodeCommand(uplink, b[lo..]) == Ok((m, hi - lo))
  }

  function Shift(cuts: seq<nat>, n: nat): (r: seq<nat>)
    ensures |r| == |cuts|
    ensures forall i :: 0 <= i < |cuts| ==> r[i] == cuts[i] + n
  {
    seq(|cuts|, i requires 0 <= i < |cuts| => cuts[i] + n)
  }

  lemma ShiftPiece(uplink: bool, b: bytes, m: MACCommand, lo: nat, hi: nat, n: nat)
    requires n <= |b|
    ensures IsPiece(uplink, b[n..], m, lo, hi) <==> IsPiece(uplink, b, m, lo + n, hi + n)
  {
    hide DecodeCommand;
    if lo + n <= |b| {
      assert b[n..][lo..] == b[lo + n..];
    }
  }

  lemma SplitCons(uplink: bool, b: bytes, m: MACCommand, n: nat, rest: seq<MACCommand>, cuts: seq<nat>)
    requires n <= |b| && IsPiece(uplink, b, m, 0, n) && IsSplit(uplink, b[n..], rest, cuts)
    ensures IsSplit(uplink, b, [m] + rest, [0] + Shift(cuts, n))
  {
    hide IsPiece;
    var cmds, all := [m] + rest, [0] + Shift(cuts, n);
    forall i | 0 <= i < |cmds| ensures IsPiece(uplink, b, cmds[i], all[i], all[i + 1]) {
      if i > 0 {
        ShiftPiece(uplink, b, rest[i - 1], cuts[i - 1], cuts[i], n);
      }
    }
  }

  lemma DecodeStep(uplink: bool, b: bytes)
    requires b != [] && DecodeAll(uplink, b).Ok?
    ensures DecodeCommand(uplink, b).Ok?
    ensures var (m, n) := DecodeCommand(uplink, b).value;
            && 1 <= n <= |b| && DecodeAll(uplink, b[n..]).Ok?
            && DecodeAll(uplink, b).value == [m] + DecodeAll(uplink, b[n..]).value
  {
    hide DecodeCommand;
    CommandSize(uplink, b);
  }

  lemma {:induction false} SplitFromDecode(uplink: bool, b: bytes) returns (cuts: seq<nat>)
    requires DecodeAll(uplink, b).Ok?
    ensures IsSplit(uplink, b, DecodeAll(uplink, b).value, cuts)
    decreases |b|
  {
    if b == [] {
      cuts := [0];
    } else {
      hide DecodeCommand, DecodeAll, IsSplit, IsPiece;
      DecodeStep(uplink, b);
      var (m, n) := DecodeCommand(uplink, b).value;
      var t := SplitFromDecode(uplink, b[n..]);
      cuts := [0] + Shift(t, n);
      FirstPiece(uplink, b);
      SplitCons(uplink, b, m, n, DecodeAll(uplink, b[n..]).value, t);
    }
  }

  lemma FirstPiece(uplink: bool, b: bytes)
    requires b != [] && DecodeCommand(uplink, b).Ok?
    ensures IsPiece(uplink, b, DecodeCommand(uplink, b).value.0, 0, DecodeCommand(uplink, b).value.1)
  {
    CommandSize(uplink, b);
    assert b[0..] == b;
  }

  lemma {:induction false} DecodeFromSplit(uplink: bool, b: bytes, cmds: seq<MACCommand>, cuts: seq<nat>)
    requires IsSplit(uplink, b, cmds, cuts)
    ensures DecodeAll(uplink, b) == Ok(cmds)
    decreases |cmds|
  {
    hide DecodeCommand;
    if cmds != [] {
      var n := cuts[1];
      assert IsPiece(uplink, b, cmds[0], cuts[0], cuts[1]);
      assert b[0..] == b;
      var rest := cmds[1..];
      var t := seq(|cmds|, i requires 0 <= i < |cmds| => if cuts[i + 1] >= n then cuts[i + 1] - n else 0);
      CutsGrow(uplink, b, cmds, cuts, 1);
      forall i | 0 <= i < |rest| ensures IsPiece(uplink, b[n..], rest[i], t[i], t[i + 1]) {
        assert IsPiece(uplink, b, cmds[i + 1], cuts[i + 1], cuts[i + 2]);
        ShiftPiece(uplink, b, cmds[i + 1], t[i], t[i + 1], n);
      }
      DecodeFromSplit(uplink, b[n..], rest, t);
      assert cmds == [cmds[0]] + rest;
    }
  }

  lemma {:induction false} CutsGrow(uplink: bool, b: bytes, cmds: seq<MACCommand>, cuts: seq<nat>, k: nat)
    requires IsSplit(uplink, b, cmds, cuts) && k <= |cmds|
    ensures forall i :: k <= i <= |cmds| ==> cuts[k] <= cuts[i] <= |b|
    decreases |cmds| - k
  {
    hide DecodeCommand;
    if k < |cmds| {
      assert IsPiece(uplink, b, cmds[k], cuts[k], cuts[k + 1]);
      CutsGrow(uplink, b, cmds, cuts, k + 1);
    }
  }

  /** Decoding succeeds with these commands exactly when the bytes split into consecutive pieces that carry them. */
  lemma DecodeIsSplit(uplink: bool, b: bytes, cmds: seq<MACCommand>)
    ensures DecodeAll(uplink, b) == Ok(cmds) <==> exists cuts :: IsSplit(uplink, b, cmds, cuts)
  {
    hide DecodeAll, IsSplit;
    if DecodeAll(uplink, b) == Ok(cmds) {
      var cuts := SplitFromDecode(uplink, b);
    }
    if exists cuts :: IsSplit(uplink, b, cmds, cuts) {
      var cuts :| IsSplit(uplink, b, cmds, cuts);
      DecodeFromSplit(uplink, b, cmds, cuts);
    }
  }

  /** Unparsed bytes can only come last; they are the rest of the input, from an identifier that is unknown. */
  lemma RawComesLast(uplink: bool, b: bytes, cmds: seq<MACCommand>, cuts: seq<nat>, i: nat)
    requires IsSplit(uplink, b, cmds, cuts) && i < |cmds|
    ensures cmds[i].Raw? ==> i == |cmds| - 1 && cmds[i].raw == b[cuts[i]..] && !KnownCode(uplink, b[cuts[i]])
    ensures !cmds[i].Raw? ==> Legal(uplink, cmds[i])
  {
    hide DecodeCommand, Legal, CID.FromU8;
    assert IsPiece(uplink, b, cmds[i], cuts[i], cuts[i + 1]);
    assert i + 1 < |cmds| ==> IsPiece(uplink, b, cmds[i + 1], cuts[i + 1], cuts[i + 2]);
    CommandSound(uplink, b[cuts[i]..]);
  }
}
