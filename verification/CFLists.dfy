/** The channel list of a join-accept (lrwn/src/cflist.rs): five frequencies, or channel masks. */
module CFLists {
  import opened Bytes
  import opened Numbers
  import opened Helpers
  import opened MacFields

  type Channels5 = s: seq<Hz> | |s| == 5 witness [0, 0, 0, 0, 0]

  datatype CFList = Channels(channels: Channels5) | ChannelMask(masks: seq<ChMask>)

  // Frequencies, in units of 100 Hz.

  function ChannelBytes(channels: seq<Hz>): (r: Result<bytes>)
    ensures r.Ok? ==> |r.value| == 3 * |channels|
  {
    if channels == [] then Ok([])
    else if channels[0] % 100 != 0 || channels[0] / 100 > 0xff_ffff then Err
    else
      var rest :- ChannelBytes(channels[1..]);
      Ok(Le24(channels[0] / 100) + rest)
  }

  function ChannelsOf(b: bytes): (channels: seq<Hz>)
    requires |b| % 3 == 0
    ensures |channels| == |b| / 3
  {
    if b == [] then []
    else
      Le24FromLe24(b[..3]);
      [FromLe24(b[..3]) * 100] + ChannelsOf(b[3..])
  }

  lemma {:induction false} ChannelsRoundTrip(channels: seq<Hz>)
    requires ChannelBytes(channels).Ok?
    ensures ChannelsOf(ChannelBytes(channels).value) == channels
  {
    if channels != [] {
      var b := ChannelBytes(channels).value;
      ChannelsRoundTrip(channels[1..]);
      FromLe24Le24(channels[0] / 100);
      assert b[..3] == Le24(channels[0] / 100) && b[3..] == ChannelBytes(channels[1..]).value;
    }
  }

  lemma {:induction false} ChannelBytesRoundTrip(b: bytes)
    requires |b| % 3 == 0
    ensures ChannelBytes(ChannelsOf(b)) == Ok(b)
  {
    if b != [] {
      ChannelBytesRoundTrip(b[3..]);
      Le24FromLe24(b[..3]);
      assert b[..3] + b[3..] == b;
    }
  }

  /** The frequency in three bytes of a list. */
  function ChannelAt(b: bytes, at: nat): Hz
    requires at + 3 <= |b|
  {
    Le24FromLe24(b[at..at + 3]);
    FromLe24(b[at..at + 3]) * 100
  }

  /** The first k channels, ahead of those still to come. */
  predicate ChannelsRead(b: bytes, k: nat, channels: seq<Hz>)
    requires |b| == 15 && k <= 5
  {
    ChannelsOf(b) == channels + ChannelsOf(b[3 * k..])
  }

  lemma NextChannel(b: bytes)
    requires |b| % 3 == 0 && b != []
    ensures ChannelsOf(b) == [ChannelAt(b, 0)] + ChannelsOf(b[3..])
  {
    hide FromLe24;
  }

  lemma ChannelsReadStep(b: bytes, k: nat, channels: seq<Hz>)
    requires |b| == 15 && k < 5 && ChannelsRead(b, k, channels)
    ensures ChannelsRead(b, k + 1, channels + [ChannelAt(b, 3 * k)])
  {
    var left := b[3 * k..];
    NextChannel(left);
    hide FromLe24, ChannelsOf;
    assert left[0..3] == b[3 * k..3 * k + 3] && left[3..] == b[3 * (k + 1)..];
    var c, rest := ChannelAt(left, 0), ChannelsOf(left[3..]);
    assert channels + ([c] + rest) == channels + [c] + rest;
  }

  lemma ChannelsReadEnds(b: bytes, channels: seq<Hz>)
    requires |b| == 15
    ensures ChannelsRead(b, 0, [])
    ensures ChannelsRead(b, 5, channels) ==> channels == ChannelsOf(b)
  {
    assert b[0..] == b && b[15..] == [];
    assert channels + ChannelsOf(b[15..]) == channels;
  }

  method ChannelsFromBytes(b: bytes) returns (channels: seq<Hz>)
    requires |b| == 15
    ensures channels == ChannelsOf(b)
  {
    hide FromLe24, ChannelsOf, ChannelsRead;
    channels := [];
    ChannelsReadEnds(b, []);
    for i := 0 to 5
      invariant ChannelsRead(b, i, channels)
    {
      ChannelsReadStep(b, i, channels);
      Le24FromLe24(b[3 * i..3 * i + 3]);
      channels := channels + [FromLe24(b[3 * i..3 * i + 3]) * 100];
    }
    ChannelsReadEnds(b, channels);
  }

  // Channel masks.

  predicate IsZero(m: ChMask) {
    forall i :: 0 <= i < 16 ==> !m[i]
  }

  function MasksOf(b: bytes): (masks: seq<ChMask>)
    requires |b| % 2 == 0
    ensures |masks| == |b| / 2
  {
    if b == [] then [] else [MaskFromBytes(b[0], b[1])] + MasksOf(b[2..])
  }

  function MaskBytes(masks: seq<ChMask>): (b: bytes)
    ensures |b| == 2 * |masks|
  {
    if masks == [] then [] else MaskToBytes(masks[0]) + MaskBytes(masks[1..])
  }

  /** The masks up to the last one that is not all false. */
  function StripZeros(masks: seq<ChMask>): seq<ChMask> {
    if masks == [] || !IsZero(masks[|masks| - 1]) then masks else StripZeros(masks[..|masks| - 1])
  }

  lemma ZeroMask(b0: u8, b1: u8)
    ensures IsZero(MaskFromBytes(b0, b1)) <==> b0 == 0 && b1 == 0
  {
    ZeroUnpacked(b0);
    ZeroUnpacked(b1);
    hide UnpackMask;
    var m := MaskFromBytes(b0, b1);
    assert m[..8] == UnpackMask(b0) && m[8..] == UnpackMask(b1);
    if IsZero(m) {
      assert forall i :: 0 <= i < 8 ==> !m[..8][i];
      assert forall i :: 0 <= i < 8 ==> !m[8..][i];
    }
  }

  lemma ZeroUnpacked(b: u8)
    ensures b == 0 <==> forall i :: 0 <= i < 8 ==> !UnpackMask(b)[i]
  {
    var m := UnpackMask(b);
    if forall i :: 0 <= i < 8 ==> !m[i] {
      UnpackPack(b);
      assert !m[0] && !m[1] && !m[2] && !m[3] && !m[4] && !m[5] && !m[6] && !m[7];
    }
  }

  /** Masks read so far, split into those kept and the all-false ones that wait. */
  predicate Waiting(b: bytes, masks: seq<ChMask>, pending: seq<ChMask>)
    requires |b| % 2 == 0
  {
    && masks + pending == MasksOf(b)
    && (forall k :: 0 <= k < |pending| ==> IsZero(pending[k]))
    && (masks == [] || !IsZero(masks[|masks| - 1]))
  }

  lemma WaitingStep(b: bytes, i: nat, masks: seq<ChMask>, pending: seq<ChMask>)
    requires i % 2 == 0 && i + 2 <= |b| && Waiting(b[..i], masks, pending)
    ensures var m := MaskFromBytes(b[i], b[i + 1]);
            && (b[i..i + 2] == [0, 0] ==> Waiting(b[..i + 2], masks, pending + [m]))
            && (b[i..i + 2] != [0, 0] ==> Waiting(b[..i + 2], masks + (pending + [m]), []))
  {
    var m := MaskFromBytes(b[i], b[i + 1]);
    OneMask(b, i);
    ZeroMask(b[i], b[i + 1]);
    hide MasksOf, MaskFromBytes, IsZero;
    assert masks + (pending + [m]) + [] == masks + (pending + [m]) == masks + pending + [m];
    assert b[i..i + 2] == [b[i], b[i + 1]];
  }

  lemma OneMask(b: bytes, i: nat)
    requires i % 2 == 0 && i + 2 <= |b|
    ensures MasksOf(b[..i + 2]) == MasksOf(b[..i]) + [MaskFromBytes(b[i], b[i + 1])]
  {
    MasksOfAppend(b[..i], b[i..i + 2]);
    assert b[..i] + b[i..i + 2] == b[..i + 2];
    MasksStep(b[i..i + 2]);
  }

  /** The decoder's loop: masks wait in `pending` until one that is not all zero comes. */
  method MasksFromBytes(b: bytes) returns (masks: seq<ChMask>)
    requires |b| == 15
    ensures masks == StripZeros(MasksOf(b[..14]))
  {
    masks := [];
    var pending: seq<ChMask> := [];
    assert Waiting(b[..0], [], []);
    var i := 0;
    hide MaskFromBytes, Waiting;
    while i < 14
      invariant 0 <= i <= 14 && i % 2 == 0
      invariant Waiting(b[..i], masks, pending)
    {
      WaitingStep(b, i, masks, pending);
      pending := pending + [MaskFromBytes(b[i], b[i + 1])];
      if b[i..i + 2] != [0, 0] {
        masks := masks + pending;
        pending := [];
      }
      i := i + 2;
    }
    WaitingEnds(b[..14], masks, pending);
  }

  lemma WaitingEnds(b: bytes, masks: seq<ChMask>, pending: seq<ChMask>)
    requires |b| % 2 == 0 && Waiting(b, masks, pending)
    ensures StripZeros(MasksOf(b)) == masks
  {
    StripPending(masks, pending);
  }

  lemma MasksStep(b: bytes)
    requires |b| % 2 == 0 && b != []
    ensures MasksOf(b) == [MaskFromBytes(b[0], b[1])] + MasksOf(b[2..])
  {}

  lemma {:induction false} MasksOfAppend(a: bytes, b: bytes)
    requires |a| % 2 == 0 && |b| % 2 == 0
    ensures MasksOf(a + b) == MasksOf(a) + MasksOf(b)
  {
    if a == [] {
      assert a + b == b;
    } else {
      hide MasksOf, MaskFromBytes;
      MasksOfAppend(a[2..], b);
      assert (a + b)[2..] == a[2..] + b;
      MasksStep(a);
      MasksStep(a + b);
      var m := MaskFromBytes(a[0], a[1]);
      assert [m] + (MasksOf(a[2..]) + MasksOf(b)) == [m] + MasksOf(a[2..]) + MasksOf(b);
    }
  }

  lemma {:induction false} StripPending(masks: seq<ChMask>, pending: seq<ChMask>)
    requires forall k :: 0 <= k < |pending| ==> IsZero(pending[k])
    requires masks == [] || !IsZero(masks[|masks| - 1])
    ensures StripZeros(masks + pending) == masks
    decreases |pending|
  {
    var all := masks + pending;
    if pending == [] {
      assert all == masks;
    } else {
      StripPending(masks, pending[..|pending| - 1]);
      assert all[|all| - 1] == pending[|pending| - 1];
      assert all[..|all| - 1] == masks + pending[..|pending| - 1];
    }
  }

  lemma {:induction false} MasksRoundTrip(masks: seq<ChMask>)
    ensures MasksOf(MaskBytes(masks)) == masks
  {
    if masks != [] {
      MasksRoundTrip(masks[1..]);
      MaskRoundTrip(masks[0]);
      assert MaskBytes(masks)[2..] == MaskBytes(masks[1..]);
    }
  }

  lemma {:induction false} MaskBytesRoundTripAll(b: bytes)
    requires |b| % 2 == 0
    ensures MaskBytes(MasksOf(b)) == b
  {
    if b != [] {
      MaskBytesRoundTripAll(b[2..]);
      MaskBytesRoundTrip(b[0], b[1]);
      assert [b[0], b[1]] + b[2..] == b;
    }
  }

  function Zeros(n: nat): (b: bytes)
    ensures |b| == n && forall i :: 0 <= i < n ==> b[i] == 0
  {
    seq(n, _ => 0)
  }

  function EncodedMasks(masks: seq<ChMask>): (r: Result<bytes>)
    ensures r.Ok? ==> |r.value| == 15
  {
    if |masks| > 6 then Err else Ok(MaskBytes(masks) + Zeros(15 - 2 * |masks|))
  }

  /** The first i masks have been written into the zeroed buffer. */
  predicate MasksWritten(b: bytes, masks: seq<ChMask>, i: nat)
    requires i <= |masks| <= 6 && |b| == 15
  {
    b[..2 * i] + MaskBytes(masks[i..]) == MaskBytes(masks) && b[2 * i..] == Zeros(15 - 2 * i)
  }

  lemma MaskStep(masks: seq<ChMask>, i: nat)
    requires i < |masks|
    ensures MaskBytes(masks[i..]) == MaskToBytes(masks[i]) + MaskBytes(masks[i + 1..])
  {
    assert masks[i..][1..] == masks[i + 1..];
  }

  lemma MasksWrittenStep(b: bytes, masks: seq<ChMask>, i: nat)
    requires i < |masks| <= 6 && |b| == 15 && MasksWritten(b, masks, i)
    ensures var n := MaskToBytes(masks[i]);
            MasksWritten(b[2 * i := n[0]][2 * i + 1 := n[1]], masks, i + 1)
  {
    MaskStep(masks, i);
    hide MaskToBytes, MaskBytes;
    var n := MaskToBytes(masks[i]);
    var c := b[2 * i := n[0]][2 * i + 1 := n[1]];
    assert c[..2 * (i + 1)] == b[..2 * i] + n;
    assert b[..2 * i] + (n + MaskBytes(masks[i + 1..])) == (b[..2 * i] + n) + MaskBytes(masks[i + 1..]);
    assert c[2 * (i + 1)..] == b[2 * i..][2..];
  }

  lemma MasksWrittenEnds(b: bytes, masks: seq<ChMask>)
    requires |masks| <= 6 && |b| == 15
    ensures MasksWritten(Zeros(15), masks, 0)
    ensures MasksWritten(b, masks, |masks|) ==> EncodedMasks(masks) == Ok(b)
  {
    var k := 2 * |masks|;
    assert masks[0..] == masks && masks[|masks|..] == [];
    assert b == b[..k] + b[k..];
    assert b[..k] + [] == b[..k];
  }

  method MasksToBytes(masks: seq<ChMask>) returns (r: Result<bytes>)
    ensures r == EncodedMasks(masks)
  {
    if |masks| > 6 {
      return Err;
    }
    hide MaskToBytes, MasksWritten, EncodedMasks;
    var b := Zeros(15);
    MasksWrittenEnds(b, masks);
    for i := 0 to |masks|
      invariant |b| == 15 && MasksWritten(b, masks, i)
    {
      MasksWrittenStep(b, masks, i);
      var n := MaskToBytes(masks[i]);
      b := b[2 * i := n[0]][2 * i + 1 := n[1]];
    }
    MasksWrittenEnds(b, masks);
    return Ok(b);
  }

  lemma {:induction false} ZeroMasks(n: nat)
    ensures forall i :: 0 <= i < n ==> IsZero(MasksOf(Zeros(2 * n))[i])
  {
    if n > 0 {
      ZeroMasks(n - 1);
      ZeroMask(0, 0);
      assert Zeros(2 * n)[2..] == Zeros(2 * (n - 1));
      var all := MasksOf(Zeros(2 * n));
      forall i | 0 <= i < n ensures IsZero(all[i]) {
        if i > 0 {
          assert all[i] == MasksOf(Zeros(2 * (n - 1)))[i - 1];
        }
      }
    }
  }

  lemma StripAll(masks: seq<ChMask>, zeros: seq<ChMask>)
    requires forall k :: 0 <= k < |zeros| ==> IsZero(zeros[k])
    ensures StripZeros(masks + zeros) == StripZeros(masks)
    decreases |zeros|
  {
    var all := masks + zeros;
    if zeros == [] {
      assert all == masks;
    } else {
      StripAll(masks, zeros[..|zeros| - 1]);
      assert all[|all| - 1] == zeros[|zeros| - 1];
      assert all[..|all| - 1] == masks + zeros[..|zeros| - 1];
    }
  }

  /** Encoding masks and decoding them again strips the all-false masks at the end, and nothing else. */
  lemma MasksStripped(masks: seq<ChMask>)
    requires EncodedMasks(masks).Ok?
    ensures StripZeros(MasksOf(EncodedMasks(masks).value[..14])) == StripZeros(masks)
  {
    var n := 7 - |masks|;
    var b := EncodedMasks(masks).value;
    assert b[..14] == MaskBytes(masks) + Zeros(2 * n);
    MasksOfAppend(MaskBytes(masks), Zeros(2 * n));
    MasksRoundTrip(masks);
    ZeroMasks(n);
    StripAll(masks, MasksOf(Zeros(2 * n)));
  }

  // The list with its type byte.

  function ToBytes(v: CFList): (r: Result<bytes>)
    ensures r.Ok? ==> |r.value| == 16
  {
    match v
    case Channels(channels) =>
      var b :- ChannelBytes(channels);
      Ok(b + [0x00])
    case ChannelMask(masks) =>
      var b :- EncodedMasks(masks);
      Ok(b + [0x01])
  }

  function FromBytes(b: bytes): Result<CFList>
    requires |b| == 16
  {
    if b[15] == 0x00 then Ok(Channels(ChannelsOf(b[..15])))
    else if b[15] == 0x01 then Ok(ChannelMask(StripZeros(MasksOf(b[..14]))))
    else Err
  }

  /** Only a trailing all-false mask is lost on the wire. */
  predicate CanonicalList(v: CFList) {
    v.Channels? || v.masks == [] || !IsZero(v.masks[|v.masks| - 1])
  }

  lemma StripIdentity(masks: seq<ChMask>)
    ensures StripZeros(masks) == masks <==> masks == [] || !IsZero(masks[|masks| - 1])
  {
    if masks != [] {
      StripShrinks(masks[..|masks| - 1]);
    }
  }

  lemma {:induction false} StripShrinks(masks: seq<ChMask>)
    ensures |StripZeros(masks)| <= |masks|
    ensures StripZeros(masks) == masks[..|StripZeros(masks)|]
  {
    if masks != [] && IsZero(masks[|masks| - 1]) {
      StripShrinks(masks[..|masks| - 1]);
    }
  }

  lemma ListRoundTrip(v: CFList)
    requires ToBytes(v).Ok?
    ensures FromBytes(ToBytes(v).value) == Ok(v) <==> CanonicalList(v)
  {
    var b := ToBytes(v).value;
    if v.Channels? {
      ChannelsRoundTrip(v.channels);
      assert b[..15] == ChannelBytes(v.channels).value;
    } else {
      var e := EncodedMasks(v.masks).value;
      assert b[..14] == e[..14];
      MasksStripped(v.masks);
      StripIdentity(v.masks);
    }
  }

  /** In the other direction frequencies are exact; masks are, but for the unused byte, if the seventh is zero. */
  lemma BytesRoundTrip(b: bytes)
    requires |b| == 16 && FromBytes(b).Ok?
    ensures b[15] == 0x00 ==> ToBytes(FromBytes(b).value) == Ok(b)
    ensures b[15] == 0x01 ==> ToBytes(FromBytes(b).value) == if b[12] == 0 && b[13] == 0 then Ok(b[14 := 0]) else Err
  {
    if b[15] == 0x00 {
      ChannelBytesRoundTrip(b[..15]);
      assert b[..15] + [b[15]] == b;
    } else {
      hide MasksOf, StripZeros, EncodedMasks;
      ReencodedMasks(b[..14]);
      assert b[14 := 0] == (b[..14] + [0]) + [0x01];
    }
  }

  lemma ReencodedMasks(b: bytes)
    requires |b| == 14
    ensures EncodedMasks(StripZeros(MasksOf(b))) == if b[12] == 0 && b[13] == 0 then Ok(b + [0]) else Err
  {
    hide MasksOf, StripZeros, MaskBytes;
    MaskListBytes(b);
    var masks := StripZeros(MasksOf(b));
    if |masks| <= 6 {
      assert Zeros(15 - 2 * |masks|) == Zeros(14 - 2 * |masks|) + [0];
      assert MaskBytes(masks) + Zeros(15 - 2 * |masks|) == (MaskBytes(masks) + Zeros(14 - 2 * |masks|)) + [0];
    }
  }

  lemma MaskListBytes(b: bytes)
    requires |b| == 14
    ensures var masks := StripZeros(MasksOf(b));
            && (|masks| <= 6 <==> b[12] == 0 && b[13] == 0)
            && |masks| <= 7 && MaskBytes(masks) + Zeros(14 - 2 * |masks|) == b
  {
    hide MasksOf, StripZeros, MaskBytes, Zeros, MaskFromBytes;
    var all := MasksOf(b);
    StripShrinks(all);
    StripIdentity(all);
    LastMask(b);
    StrippedBytes(all);
    MaskBytesRoundTripAll(b);
  }

  lemma LastMask(b: bytes)
    requires |b| == 14
    ensures IsZero(MasksOf(b)[6]) <==> b[12] == 0 && b[13] == 0
  {
    MasksOfAppend(b[..12], b[12..]);
    assert b[..12] + b[12..] == b;
    assert MasksOf(b[12..]) == [MaskFromBytes(b[12], b[13])];
    ZeroMask(b[12], b[13]);
  }

  lemma {:induction false} StrippedBytes(masks: seq<ChMask>)
    ensures |StripZeros(masks)| <= |masks|
    ensures MaskBytes(masks) == MaskBytes(StripZeros(masks)) + Zeros(2 * (|masks| - |StripZeros(masks)|))
  {
    StripShrinks(masks);
    if masks != [] && IsZero(masks[|masks| - 1]) {
      var init, last := masks[..|masks| - 1], masks[|masks| - 1];
      StrippedBytes(init);
      MaskBytesAppend(init, last);
      assert init + [last] == masks;
      ZeroToBytes(last);
    }
  }

  lemma {:induction false} MaskBytesAppend(masks: seq<ChMask>, m: ChMask)
    ensures MaskBytes(masks + [m]) == MaskBytes(masks) + MaskToBytes(m)
  {
    if masks == [] {
      assert masks + [m] == [m];
    } else {
      MaskBytesAppend(masks[1..], m);
      assert (masks + [m])[1..] == masks[1..] + [m];
    }
  }

  lemma ZeroToBytes(m: ChMask)
    requires IsZero(m)
    ensures MaskToBytes(m) == [0, 0]
  {
    ZeroMask(0, 0);
    assert m == MaskFromBytes(0, 0);
    MaskBytesRoundTrip(0, 0);
  }

  // Where the frequencies and the masks lie.

  /** A mask as a number: channel 1 has weight 1, channel 16 has weight 32768. */
  function MaskNumber(m: ChMask): nat {
    Digit(m[0], 1) + Digit(m[1], 2) + Digit(m[2], 4) + Digit(m[3], 8)
    + Digit(m[4], 16) + Digit(m[5], 32) + Digit(m[6], 64) + Digit(m[7], 128)
    + 256 * (Digit(m[8], 1) + Digit(m[9], 2) + Digit(m[10], 4) + Digit(m[11], 8)
             + Digit(m[12], 16) + Digit(m[13], 32) + Digit(m[14], 64) + Digit(m[15], 128))
  }

  lemma PackedNumber(m: seq<bool>)
    requires |m| == 8
    ensures Val(PackMask(m)) ==
            Digit(m[0], 1) + Digit(m[1], 2) + Digit(m[2], 4) + Digit(m[3], 8)
            + Digit(m[4], 16) + Digit(m[5], 32) + Digit(m[6], 64) + Digit(m[7], 128)
  {
    ValIsSum(PackMask(m));
    hide Val;
  }

  lemma MaskLayout(m: ChMask)
    ensures LeNum(MaskToBytes(m)) == MaskNumber(m)
  {
    LeNum2(MaskToBytes(m));
    PackedNumber(m[..8]);
    PackedNumber(m[8..]);
    hide LeNum, Val, PackMask;
  }

  lemma MaskRead(b: bytes, i: nat)
    requires i + 2 <= |b|
    ensures MaskNumber(MaskFromBytes(b[i], b[i + 1])) == LeNum(b[i..i + 2])
  {
    MaskBytesRoundTrip(b[i], b[i + 1]);
    MaskLayout(MaskFromBytes(b[i], b[i + 1]));
    assert b[i..i + 2] == [b[i], b[i + 1]];
    hide LeNum, MaskNumber, MaskToBytes, MaskFromBytes;
  }

  lemma {:induction false} ChannelPlace(channels: seq<Hz>, k: nat)
    requires ChannelBytes(channels).Ok? && k < |channels|
    ensures 100 * LeNum(ChannelBytes(channels).value[3 * k..3 * k + 3]) == channels[k]
  {
    var b, first := ChannelBytes(channels).value, Le24(channels[0] / 100);
    var rest := ChannelBytes(channels[1..]).value;
    assert b == first + rest;
    if k == 0 {
      FromLe24Is(first);
      FromLe24Le24(channels[0] / 100);
      assert b[0..3] == first;
    } else {
      ChannelPlace(channels[1..], k - 1);
      assert rest[3 * (k - 1)..3 * (k - 1) + 3] == b[3 * k..3 * k + 3];
    }
    hide LeNum, Le24, FromLe24;
  }

  lemma {:induction false} MaskPlace(masks: seq<ChMask>, k: nat)
    requires k < |masks|
    ensures LeNum(MaskBytes(masks)[2 * k..2 * k + 2]) == MaskNumber(masks[k])
  {
    hide MaskToBytes, LeNum, MaskNumber;
    var b, rest := MaskBytes(masks), MaskBytes(masks[1..]);
    assert b == MaskToBytes(masks[0]) + rest;
    if k == 0 {
      MaskLayout(masks[0]);
      assert b[0..2] == MaskToBytes(masks[0]);
    } else {
      MaskPlace(masks[1..], k - 1);
      assert rest[2 * (k - 1)..2 * (k - 1) + 2] == b[2 * k..2 * k + 2];
    }
  }

  /** Five frequencies in steps of 100 Hz and type 0, or up to six masks, zeros, and type 1. */
  lemma ListLayout(v: CFList)
    requires ToBytes(v).Ok?
    ensures var b := ToBytes(v).value;
            && |b| == 16
            && match v
               case Channels(channels) =>
                 b[15] == 0x00 && forall k :: 0 <= k < 5 ==> 100 * LeNum(b[3 * k..3 * k + 3]) == channels[k]
               case ChannelMask(masks) =>
                 && b[15] == 0x01 && |masks| <= 6
                 && (forall k :: 0 <= k < |masks| ==> LeNum(b[2 * k..2 * k + 2]) == MaskNumber(masks[k]))
                 && (forall i :: 2 * |masks| <= i < 15 ==> b[i] == 0)
  {
    hide LeNum, MaskNumber, ChannelBytes, MaskBytes;
    var b := ToBytes(v).value;
    match v
    case Channels(channels) =>
      forall k | 0 <= k < 5
        ensures 100 * LeNum(b[3 * k..3 * k + 3]) == channels[k]
      {
        ChannelPlace(channels, k);
        assert b[3 * k..3 * k + 3] == ChannelBytes(channels).value[3 * k..3 * k + 3];
      }
    case ChannelMask(masks) =>
      forall k | 0 <= k < |masks|
        ensures LeNum(b[2 * k..2 * k + 2]) == MaskNumber(masks[k])
      {
        MaskPlace(masks, k);
        assert b[2 * k..2 * k + 2] == MaskBytes(masks)[2 * k..2 * k + 2];
      }
  }

  lemma {:induction false} MaskOfPlace(b: bytes, k: nat)
    requires |b| % 2 == 0 && 2 * k + 2 <= |b|
    ensures |MasksOf(b)| == |b| / 2
    ensures MasksOf(b)[k] == MaskFromBytes(b[2 * k], b[2 * k + 1])
  {
    hide MaskFromBytes;
    MasksStep(b);
    if k > 0 {
      MaskOfPlace(b[2..], k - 1);
    }
  }

  lemma MaskRow(b: bytes, k: nat)
    requires |b| == 16 && k < 7
    ensures |MasksOf(b[..14])| == 7
    ensures MaskNumber(MasksOf(b[..14])[k]) == LeNum(b[2 * k..2 * k + 2])
    ensures IsZero(MasksOf(b[..14])[k]) <==> b[2 * k] == 0 && b[2 * k + 1] == 0
  {
    hide MasksOf, MaskFromBytes, MaskNumber, LeNum, IsZero;
    MaskOfPlace(b[..14], k);
    MaskRead(b, 2 * k);
    ZeroMask(b[2 * k], b[2 * k + 1]);
  }

  /** What masks are read: each from its two bytes, up to the last that is not zero. */
  lemma ListRead(b: bytes)
    requires |b| == 16 && b[15] == 0x01
    ensures FromBytes(b).Ok? && FromBytes(b).value.ChannelMask?
    ensures var masks := FromBytes(b).value.masks;
            && |masks| <= 7
            && (forall k :: 0 <= k < |masks| ==> MaskNumber(masks[k]) == LeNum(b[2 * k..2 * k + 2]))
            && (masks != [] ==> !IsZero(masks[|masks| - 1]))
            && (forall k :: |masks| <= k < 7 ==> b[2 * k] == 0 && b[2 * k + 1] == 0)
  {
    var all := MasksOf(b[..14]);
    hide MasksOf, MaskNumber, LeNum, StripZeros, IsZero;
    var masks := StripZeros(all);
    StripShrinks(all);
    StrippedTail(all);
    MaskRow(b, 0);
    forall k | 0 <= k < |masks|
      ensures MaskNumber(masks[k]) == LeNum(b[2 * k..2 * k + 2])
    {
      MaskRow(b, k);
    }
    forall k | |masks| <= k < 7
      ensures b[2 * k] == 0 && b[2 * k + 1] == 0
    {
      MaskRow(b, k);
    }
  }

  /** Stripping takes off exactly the zero masks at the end. */
  lemma {:induction false} StrippedTail(masks: seq<ChMask>)
    ensures |StripZeros(masks)| <= |masks|
    ensures forall k :: |StripZeros(masks)| <= k < |masks| ==> IsZero(masks[k])
    ensures StripZeros(masks) != [] ==> !IsZero(StripZeros(masks)[|StripZeros(masks)| - 1])
  {
    hide IsZero;
    if masks != [] && IsZero(masks[|masks| - 1]) {
      StrippedTail(masks[..|masks| - 1]);
    }
  }
}
