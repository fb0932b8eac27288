/** Join-accepts: the server runs the block cipher backwards, so that a device only ever runs it forwards. */
module JoinAccepts {
  import opened Bytes
  import opened MacFields
  import opened Frames
  import opened FrameProofs
  import opened Crypto
  import opened PhyOps

  // The payload codec.

  function Low24(x: u32): u32 {
    x & 0xff_ffff
  }

  /** A join-accept as its receiver reads it: a 24-bit nonce, and no all-false masks at the end of the list. */
  function ReceivedJoinAccept(p: JoinAcceptPayload): JoinAcceptPayload {
    p.(joinNonce := Low24(p.joinNonce),
       cfList := if p.cfList.Some? && p.cfList.value.ChannelMask?
                 then Some(CFLists.ChannelMask(CFLists.StripZeros(p.cfList.value.masks))) else p.cfList)
  }

  predicate CanonicalJoinAccept(p: JoinAcceptPayload) {
    p.joinNonce <= 0xff_ffff && (p.cfList.Some? ==> CFLists.CanonicalList(p.cfList.value))
  }

  lemma ReceivedIffCanonical(p: JoinAcceptPayload)
    ensures ReceivedJoinAccept(p) == p <==> CanonicalJoinAccept(p)
  {
    Low24Iff(p.joinNonce);
    if p.cfList.Some? && p.cfList.value.ChannelMask? {
      CFLists.StripIdentity(p.cfList.value.masks);
    }
    hide Low24;
  }

  lemma Low24Iff(x: u32)
    ensures Low24(x) == x <==> x <= 0xff_ffff
  {}

  lemma NonceBytes(x: u32)
    ensures var b := Le32(x)[..3]; FromLe32([b[0], b[1], b[2], 0x00]) == Low24(x)
    ensures Le32(Low24(x))[..3] == Le32(x)[..3]
  {}

  function Head(p: JoinAcceptPayload, dl: u8): (b: bytes)
    ensures |b| == 12
  {
    Le32(p.joinNonce)[..3] + Reverse(p.homeNetId) + Reverse(p.devAddr) + [dl] + [p.rxDelay]
  }

  lemma HeadPieces(p: JoinAcceptPayload, dl: u8, rest: bytes)
    ensures var b := Head(p, dl) + rest;
            && [b[0], b[1], b[2]] == Le32(p.joinNonce)[..3] && b[3..6] == Reverse(p.homeNetId) &&
               b[6..10] == Reverse(p.devAddr)
            && b[10] == dl && b[11] == p.rxDelay && b[12..] == rest
  {
    hide Le32;
  }

  lemma ListReceived(v: CFLists.CFList)
    requires CFLists.ToBytes(v).Ok?
    ensures var w := if v.ChannelMask? then CFLists.ChannelMask(CFLists.StripZeros(v.masks)) else v;
            && CFLists.FromBytes(CFLists.ToBytes(v).value) == Ok(w)
            && CFLists.ToBytes(w) == CFLists.ToBytes(v)
  {
    var b := CFLists.ToBytes(v).value;
    if v.Channels? {
      CFLists.ListRoundTrip(v);
    } else {
      var e := CFLists.EncodedMasks(v.masks).value;
      assert b[..14] == e[..14] && b[15] == 0x01;
      CFLists.MasksStripped(v.masks);
      CFLists.StripShrinks(v.masks);
      ShorterMasks(v.masks);
    }
  }

  lemma ShorterMasks(masks: seq<ChMask>)
    requires |masks| <= 6
    ensures CFLists.EncodedMasks(CFLists.StripZeros(masks)) == CFLists.EncodedMasks(masks)
  {
    hide *;
    var t := CFLists.StripZeros(masks);
    CFLists.StrippedBytes(masks);
    ZerosJoin(CFLists.MaskBytes(t), 2 * (|masks| - |t|), 15 - 2 * |masks|);
    EncodedMasksIs(t);
    EncodedMasksIs(masks);
  }

  lemma EncodedMasksIs(masks: seq<ChMask>)
    requires |masks| <= 6
    ensures CFLists.EncodedMasks(masks) == Ok(CFLists.MaskBytes(masks) + CFLists.Zeros(15 - 2 * |masks|))
  {}

  lemma ZerosJoin(a: bytes, i: nat, j: nat)
    ensures (a + CFLists.Zeros(i)) + CFLists.Zeros(j) == a + CFLists.Zeros(i + j)
  {}

  lemma JoinAcceptReceived(p: JoinAcceptPayload)
    requires JoinAcceptToVec(p).Ok?
    ensures JoinAcceptFromSlice(JoinAcceptToVec(p).value) == Ok(ReceivedJoinAccept(p))
    ensures JoinAcceptToVec(ReceivedJoinAccept(p)) == JoinAcceptToVec(p)
  {
    NonceBytes(p.joinNonce);
    DLSettingsRoundTrip(p.dlSettings, 0);
    ReverseReverse(p.homeNetId);
    ReverseReverse(p.devAddr);
    if p.cfList.Some? {
      ListReceived(p.cfList.value);
    }
    hide Le32, FromLe32, Low24, DLSettings.ToU8, DLSettings.FromU8, CFLists.ToBytes, CFLists.FromBytes;
    hide CFLists.StripZeros;
    var dl := p.dlSettings.ToU8().value;
    var list := if p.cfList.Some? then CFLists.ToBytes(p.cfList.value).value else [];
    HeadPieces(p, dl, list);
    var b := JoinAcceptToVec(p).value;
    assert b == Head(p, dl) + list;
  }

  // The block cipher.

  lemma {:induction false} BlocksUndone(f: Block -> Block, g: Block -> Block, b: bytes)
    requires |b| % 16 == 0
    requires forall x: Block :: g(f(x)) == x
    ensures EachBlock(g, EachBlock(f, b)) == b
    decreases |b|
  {
    if b != [] {
      var e := EachBlock(f, b);
      BlocksUndone(f, g, b[16..]);
      assert e[..16] == f(b[..16]) && e[16..] == EachBlock(f, b[16..]);
      assert b == b[..16] + b[16..];
    }
  }

  /** What the server encrypts, the device decrypts. */
  lemma CipherUndone(s: Suite, key: Key, b: bytes)
    requires |b| % 16 == 0
    requires forall k: Key, x: Block :: s.enc(k, s.dec(k, x)) == x
    ensures EachBlock(x => s.enc(key, x), EachBlock(x => s.dec(key, x), b)) == b
  {
    BlocksUndone(x => s.dec(key, x), x => s.enc(key, x), b);
  }

  /** Encryption never fails for a payload that encodes: the plaintext is always 16 or 32 bytes. */
  lemma EncryptionSucceedsIff(s: Suite, key: Key, p: PhyFrame)
    ensures JoinAcceptEncrypted(s, key, p).Ok? <==>
            p.mic.Some? && p.payload.JoinAcceptFrame? && JoinAcceptToVec(p.payload.joinAccept).Ok?
    ensures JoinAcceptEncrypted(s, key, p).Ok? ==>
            |JoinAcceptToVec(p.payload.joinAccept).value + p.mic.value| in {16, 32}
  {
    hide JoinAcceptToVec;
  }

  /** The ciphertext: block by block, in order, the decryption of the printed payload and the MIC. */
  lemma CiphertextIs(s: Suite, key: Key, p: PhyFrame)
    requires JoinAcceptEncrypted(s, key, p).Ok?
    ensures p.mic.Some? && p.payload.JoinAcceptFrame? && JoinAcceptToVec(p.payload.joinAccept).Ok?
    ensures var q := JoinAcceptEncrypted(s, key, p).value;
            && q.mhdr == p.mhdr && q.payload.RawFrame? && q.mic.Some?
            && var x, y := JoinAcceptToVec(p.payload.joinAccept).value + p.mic.value, q.payload.raw + q.mic.value;
            && |y| == |x| && |x| % 16 == 0
            && forall i :: 0 <= i < |x| / 16 ==> y[16 * i..16 * i + 16] == s.dec(key, x[16 * i..16 * i + 16])
  {
    var x := JoinAcceptToVec(p.payload.joinAccept).value + p.mic.value;
    EachBlockIs(b => s.dec(key, b), x);
    hide JoinAcceptToVec, EachBlock;
    var ct := EachBlock(b => s.dec(key, b), x);
    assert ct[..|ct| - 4] + ct[|ct| - 4..] == ct;
  }

  /** Decryption: the plaintext is, block by block, the encryption of payload and MIC; its last four bytes are the
      MIC, the others are parsed. */
  lemma PlaintextIs(s: Suite, key: Key, p: PhyFrame, pt: bytes)
    requires p.payload.RawFrame? && p.mic.Some? && |pt| == |p.payload.raw| + 4 && |pt| % 16 == 0
    requires var x := p.payload.raw + p.mic.value;
             forall i :: 0 <= i < |x| / 16 ==> pt[16 * i..16 * i + 16] == s.enc(key, x[16 * i..16 * i + 16])
    ensures JoinAcceptDecrypted(s, key, p) ==
            match JoinAcceptFromSlice(pt[..|pt| - 4])
            case Err => Err
            case Ok(v) => Ok(PhyFrame(p.mhdr, JoinAcceptFrame(v), Some(pt[|pt| - 4..])))
  {
    BlockwiseIs(b => s.enc(key, b), p.payload.raw + p.mic.value, pt);
    hide JoinAcceptFromSlice, EachBlock;
  }

  /** Encrypt, print, parse, decrypt: the payload comes back as its receiver reads it, and so does the MIC. */
  lemma JoinAcceptArrives(s: Suite, key: Key, p: PhyFrame)
    requires forall k: Key, x: Block :: s.enc(k, s.dec(k, x)) == x
    requires p.mhdr.fType.JoinAccept? && JoinAcceptEncrypted(s, key, p).Ok?
    ensures var q := JoinAcceptEncrypted(s, key, p).value;
            && PhyToVec(q).Ok? && PhyFromSlice(PhyToVec(q).value) == Ok(q)
            && JoinAcceptDecrypted(s, key, q) ==
               Ok(p.(payload := JoinAcceptFrame(ReceivedJoinAccept(p.payload.joinAccept))))
  {
    var q := JoinAcceptEncrypted(s, key, p).value;
    WireFramePrints(q);
    hide PhyToVec, PhyFromSlice, JoinAcceptToVec, JoinAcceptFromSlice, ReceivedJoinAccept;
    var pl := p.payload.joinAccept;
    var pt := JoinAcceptToVec(pl).value;
    var ct := EachBlock(x => s.dec(key, x), pt + p.mic.value);
    CipherUndone(s, key, pt + p.mic.value);
    assert q.payload.raw + q.mic.value == ct;
    assert (pt + p.mic.value)[..|pt|] == pt && (pt + p.mic.value)[|pt|..] == p.mic.value;
    JoinAcceptReceived(pl);
  }

  /** The frame is recovered exactly when it is canonical; its MIC is valid in any case. */
  lemma JoinAcceptIsFaithful(s: Suite, key: Key, p: PhyFrame, t: JoinType, joinEui: Bytes8, devNonce: u16, micKey: Key)
    requires forall k: Key, x: Block :: s.enc(k, s.dec(k, x)) == x
    requires p.mhdr.fType.JoinAccept? && JoinAcceptEncrypted(s, key, p).Ok?
    ensures var r := JoinAcceptDecrypted(s, key, JoinAcceptEncrypted(s, key, p).value);
            && r.Ok?
            && (r == Ok(p) <==> CanonicalJoinAccept(p.payload.joinAccept))
            && ValidJoinAcceptMic(s, r.value, t, joinEui, devNonce, micKey) ==
               ValidJoinAcceptMic(s, p, t, joinEui, devNonce, micKey)
  {
    JoinAcceptArrives(s, key, p);
    var pl := p.payload.joinAccept;
    EncryptionSucceedsIff(s, key, p);
    JoinAcceptReceived(pl);
    ReceivedIffCanonical(pl);
    SameOptNeg(pl);
    hide JoinAcceptDecrypted, JoinAcceptEncrypted, JoinAcceptToVec, ReceivedJoinAccept, CanonicalJoinAccept, PhyToVec;
    hide PhyFromSlice;
  }

  lemma SameOptNeg(p: JoinAcceptPayload)
    ensures ReceivedJoinAccept(p).dlSettings == p.dlSettings
  {}
}
