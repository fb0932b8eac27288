/** Decoding MAC commands and printing them again: which bytes are refused, and which bits are cleared. */
module Reencoding {
  import opened Bytes
  import opened Helpers
  import opened MacFields
  import opened MacCommands
  import opened MacProofs
  import opened Directions
  import opened MacStream
  import opened Frames
  import opened FrameProofs
  import opened PhyOps

  /** The decoded payloads that can be sent again. Encoders check ranges that decoders do not. */
  predicate Sendable(cid: CID, b: bytes)
    requires PayloadLen(cid, b) == Some(|b|)
  {
    && (cid.DutyCycleReqId? ==> b[0] <= 15 || b[0] == 255)
    && (cid.RxTimingSetupReqId? ==> b[0] <= 15)
    && (cid.DevStatusAnsId? ==> b[1] < 96)
    && (cid.ForceRejoinReqId? ==> b[0] & 0x70 == 0x00 || b[0] & 0x70 == 0x20)
    && (cid.RelayConfReqId? ==> b[1] & 0x01 == 0)
    && (cid.FilterListReqId? ==> b[0] & 0x17 <= 16)
  }

  /** The bits of byte i of a payload that mean something. */
  function UsedBits(cid: CID, i: nat): u8 {
    if FlagsId(cid) then FlagBits(cid)
    else if ByteId(cid) then ByteBits(cid)
    else if SettingId(cid) then SettingBits(cid, i)
    else if ChannelId(cid) then ChannelBits(cid, i)
    else DeviceBits(cid, i)
  }

  function FlagBits(cid: CID): u8 {
    if cid.LinkADRAnsId? || cid.RxParamSetupAnsId? || cid.FilterListAnsId? then 0x07
    else if cid.NewChannelAnsId? || cid.DlChannelAnsId? || cid.PingSlotChannelAnsId? then 0x03
    else if cid.RelayConfAnsId? then 0x3f
    else if cid.EndDeviceConfAnsId? then 0x0f
    else 0x01
  }

  function ByteBits(cid: CID): u8 {
    if cid.TxParamSetupReqId? then 0x3f
    else if cid.PingSlotInfoReqId? then 0x07
    else if cid.CtrlUplinkListReqId? then 0x1f
    else 0xff
  }

  function SettingBits(cid: CID, i: nat): u8 {
    if cid.LinkADRReqId? && i == 3 then 0x7f
    else if cid.DevStatusAnsId? && i == 1 then 0x3f
    else if cid.ForceRejoinReqId? then if i == 0 then 0x7f else 0x3f
    else if cid.CtrlUplinkListAnsId? && i == 0 then 0x01
    else if cid.ConfigureFwdLimitReqId? && i == 3 then 0x3f
    else 0xff
  }

  function ChannelBits(cid: CID, i: nat): u8 {
    if cid.PingSlotChannelReqId? && i == 3 then 0x0f
    else if cid.RelayConfReqId? && i == 1 then 0x3f
    else if cid.EndDeviceConfReqId? && i == 0 then 0x0f
    else if cid.EndDeviceConfReqId? && i == 2 then 0x7f
    else 0xff
  }

  function DeviceBits(cid: CID, i: nat): u8 {
    if cid.FilterListReqId? && i == 0 then 0xf7
    else if cid.FilterListReqId? && i == 1 then 0x07
    else if cid.UpdateUplinkListReqId? && i == 0 then 0x0f
    else if cid.NotifyNewEndDeviceReqId? && i == 5 then 0x0f
    else 0xff
  }

  function Cleared(cid: CID, b: bytes): (r: bytes)
    ensures |r| == |b|
    ensures forall i :: 0 <= i < |b| ==> r[i] == b[i] & UsedBits(cid, i)
  {
    seq(|b|, i requires 0 <= i < |b| => b[i] & UsedBits(cid, i))
  }

  /** The bytes e are those of b, or those that printing makes of them. */
  predicate Again(cid: CID, b: bytes, e: Result<bytes>)
    requires PayloadLen(cid, b) == Some(|b|)
  {
    e == if Sendable(cid, b) then Ok(Cleared(cid, b)) else Err
  }

  lemma AllBits(b: u8)
    ensures b & 0xff == b
  {}

  lemma OneByteLen(cid: CID, b: bytes)
    requires (EnumId(cid) || FlagsId(cid) || ByteId(cid)) && PayloadLen(cid, b) == Some(|b|)
    ensures |b| == 1
  {}

  lemma OneByte(cid: CID, b: bytes)
    requires |b| == 1
    ensures Cleared(cid, b) == [b[0] & UsedBits(cid, 0)]
  {
    hide UsedBits;
  }

  // Nothing, or one byte that names something

  lemma EmptyAgain(cid: CID, b: bytes)
    requires EmptyId(cid) && PayloadLen(cid, b) == Some(|b|)
    ensures Again(cid, b, Ok([]))
  {
    EmptyLen(cid, b);
    hide PayloadLen, UsedBits;
  }

  lemma EmptyIs(cid: CID)
    requires EmptyId(cid)
    ensures ParseEmpty(cid).Ok? && IsEmpty(ParseEmpty(cid).value)
  {}

  lemma EnumPrinted(cid: CID, b: bytes)
    requires EnumId(cid) && PayloadLen(cid, b) == Some(|b|) && |b| == 1
    ensures ParseEnum(cid, b).Ok? ==>
              IsEnum(ParseEnum(cid, b).value) && EncodeEnum(ParseEnum(cid, b).value) == Ok(b)
  {
    hide PayloadLen;
    assert b == [b[0]];
  }

  lemma EnumSends(cid: CID, b: bytes)
    requires EnumId(cid) && PayloadLen(cid, b) == Some(|b|)
    ensures Sendable(cid, b)
  {
    hide PayloadLen;
  }

  lemma EnumUses(cid: CID)
    requires EnumId(cid)
    ensures UsedBits(cid, 0) == 0xff
  {}

  lemma EnumAgain(cid: CID, b: bytes)
    requires EnumId(cid) && PayloadLen(cid, b) == Some(|b|)
    ensures ParseEnum(cid, b).Ok? ==>
              IsEnum(ParseEnum(cid, b).value) && Again(cid, b, EncodeEnum(ParseEnum(cid, b).value))
  {
    OneByteLen(cid, b);
    EnumPrinted(cid, b);
    EnumSends(cid, b);
    EnumUses(cid);
    hide PayloadLen, ParseEnum, EncodeEnum, IsEnum, EnumId, Sendable, UsedBits;
    OneByte(cid, b);
    AllBits(b[0]);
    assert b == [b[0]];
  }

  // Flags

  lemma Low1(b: u8)
    ensures Flag(b & 0x01 != 0, 0x01) == b & 0x01
  {}

  lemma Low2(b: u8)
    ensures Flags2(b & 0x01 != 0, b & 0x02 != 0) == b & 0x03
  {}

  lemma Low3(b: u8)
    ensures Flags3(b & 0x01 != 0, b & 0x02 != 0, b & 0x04 != 0) == b & 0x07
  {}

  lemma Low4(b: u8)
    ensures Flags4(b & 0x01 != 0, b & 0x02 != 0, b & 0x04 != 0, b & 0x08 != 0) == b & 0x0f
  {}

  lemma Low6(b: u8)
    ensures Flags6(b & 0x01 != 0, b & 0x02 != 0, b & 0x04 != 0, b & 0x08 != 0, b & 0x10 != 0, b & 0x20 != 0) == b & 0x3f
  {}

  /** The flags of a byte, printed again. */
  ghost predicate FlagsPrint(cid: CID, b: bytes)
    requires FlagsId(cid) && PayloadLen(cid, b) == Some(|b|) && |b| == 1
  {
    var m := ParseFlags(cid, b);
    m.Ok? && IsFlags(m.value) && EncodeFlags(m.value) == Ok([b[0] & FlagBits(cid)])
  }

  lemma ThreeFlags(cid: CID, b: bytes)
    requires (cid.LinkADRAnsId? || cid.RxParamSetupAnsId? || cid.FilterListAnsId?) && PayloadLen(cid, b) == Some(|b|) &&
             |b| == 1
    ensures FlagsPrint(cid, b)
  {
    hide PayloadLen, Flags2, Flags3, Flags4, Flags6;
    Low3(b[0]);
  }

  lemma TwoFlags(cid: CID, b: bytes)
    requires (cid.NewChannelAnsId? || cid.DlChannelAnsId? || cid.PingSlotChannelAnsId?) &&
             PayloadLen(cid, b) == Some(|b|) && |b| == 1
    ensures FlagsPrint(cid, b)
  {
    hide PayloadLen, Flags2, Flags3, Flags4, Flags6;
    Low2(b[0]);
  }

  lemma OneFlag(cid: CID, b: bytes)
    requires (cid.RejoinParamSetupAnsId? || cid.BeaconFreqAnsId?) && PayloadLen(cid, b) == Some(|b|) && |b| == 1
    ensures FlagsPrint(cid, b)
  {
    hide PayloadLen, Flag, Flags2, Flags3, Flags4, Flags6;
    Low1(b[0]);
  }

  lemma SixFlags(cid: CID, b: bytes)
    requires cid.RelayConfAnsId? && PayloadLen(cid, b) == Some(|b|) && |b| == 1
    ensures FlagsPrint(cid, b)
  {
    hide PayloadLen, Flags2, Flags3, Flags4, Flags6;
    Low6(b[0]);
  }

  lemma FourFlags(cid: CID, b: bytes)
    requires cid.EndDeviceConfAnsId? && PayloadLen(cid, b) == Some(|b|) && |b| == 1
    ensures FlagsPrint(cid, b)
  {
    hide PayloadLen, Flags2, Flags3, Flags4, Flags6;
    Low4(b[0]);
  }

  lemma FlagsPrinted(cid: CID, b: bytes)
    requires FlagsId(cid) && PayloadLen(cid, b) == Some(|b|)
    ensures |b| == 1 && FlagsPrint(cid, b)
  {
    OneByteLen(cid, b);
    hide PayloadLen, FlagsPrint;
    if cid.LinkADRAnsId? || cid.RxParamSetupAnsId? || cid.FilterListAnsId? {
      ThreeFlags(cid, b);
    } else if cid.NewChannelAnsId? || cid.DlChannelAnsId? || cid.PingSlotChannelAnsId? {
      TwoFlags(cid, b);
    } else if cid.RelayConfAnsId? {
      SixFlags(cid, b);
    } else if cid.EndDeviceConfAnsId? {
      FourFlags(cid, b);
    } else {
      OneFlag(cid, b);
    }
  }

  lemma FlagsAgain(cid: CID, b: bytes)
    requires FlagsId(cid) && PayloadLen(cid, b) == Some(|b|)
    ensures ParseFlags(cid, b).Ok? && IsFlags(ParseFlags(cid, b).value)
    ensures Again(cid, b, EncodeFlags(ParseFlags(cid, b).value))
  {
    hide PayloadLen, ParseFlags, EncodeFlags, FlagBits, IsFlags;
    FlagsPrinted(cid, b);
    OneByte(cid, b);
  }

  // One byte of fields

  lemma ByteFields(b: u8)
    ensures (b & 0x0f) | Flag(b & 0x10 != 0, 0x10) | Flag(b & 0x20 != 0, 0x20) == b & 0x3f
    ensures (b & 0x0f) | (((b & 0xf0) >> 4) << 4) == b
    ensures b & 0x0f <= 15 && (b & 0xf0) >> 4 <= 15 && b & 0x07 <= 7
    ensures ADRParam.FromU8(b).ToU8() == Ok(b)
    ensures CtrlUplinkActionPL.FromU8(b).ToU8() == Ok(b & 0x1f)
  {}

  lemma Dwell(on: bool)
    ensures ToDwellTime(on).Limit400ms? == on
  {}

  /** A byte of fields, printed again. */
  ghost predicate BytePrint(cid: CID, b: bytes)
    requires ByteId(cid) && PayloadLen(cid, b) == Some(|b|) && |b| == 1
  {
    var m := ParseByte(cid, b);
    && m.Ok? && IsByte(m.value)
    && EncodeByte(m.value) == if Sendable(cid, b) then Ok([b[0] & ByteBits(cid)]) else Err
  }

  lemma NumberPrints(cid: CID, b: bytes)
    requires (cid.DutyCycleReqId? || cid.RxTimingSetupReqId?) && PayloadLen(cid, b) == Some(|b|) && |b| == 1
    ensures BytePrint(cid, b)
  {
    hide PayloadLen;
    AllBits(b[0]);
  }

  lemma PeriodicityPrints(cid: CID, b: bytes)
    requires cid.PingSlotInfoReqId? && PayloadLen(cid, b) == Some(|b|) && |b| == 1
    ensures BytePrint(cid, b)
  {
    hide PayloadLen;
    ByteFields(b[0]);
  }

  lemma TxParamPrints(cid: CID, b: bytes)
    requires cid.TxParamSetupReqId? && PayloadLen(cid, b) == Some(|b|) && |b| == 1
    ensures BytePrint(cid, b)
  {
    hide PayloadLen, Flag, ToDwellTime;
    ByteFields(b[0]);
    Dwell(b[0] & 0x10 != 0);
    Dwell(b[0] & 0x20 != 0);
  }

  lemma RejoinParamPrints(cid: CID, b: bytes)
    requires cid.RejoinParamSetupReqId? && PayloadLen(cid, b) == Some(|b|) && |b| == 1
    ensures BytePrint(cid, b)
  {
    hide PayloadLen;
    ByteFields(b[0]);
    AllBits(b[0]);
  }

  lemma FieldsPrint(cid: CID, b: bytes)
    requires (cid.ADRParamSetupReqId? || cid.CtrlUplinkListReqId?) && PayloadLen(cid, b) == Some(|b|) && |b| == 1
    ensures BytePrint(cid, b)
  {
    hide PayloadLen, ADRParam.FromU8, ADRParam.ToU8, CtrlUplinkActionPL.FromU8, CtrlUplinkActionPL.ToU8;
    ByteFields(b[0]);
    AllBits(b[0]);
  }

  lemma BytePrinted(cid: CID, b: bytes)
    requires ByteId(cid) && PayloadLen(cid, b) == Some(|b|)
    ensures |b| == 1 && BytePrint(cid, b)
  {
    OneByteLen(cid, b);
    hide PayloadLen, BytePrint;
    if cid.DutyCycleReqId? || cid.RxTimingSetupReqId? {
      NumberPrints(cid, b);
    } else if cid.PingSlotInfoReqId? {
      PeriodicityPrints(cid, b);
    } else if cid.TxParamSetupReqId? {
      TxParamPrints(cid, b);
    } else if cid.RejoinParamSetupReqId? {
      RejoinParamPrints(cid, b);
    } else {
      FieldsPrint(cid, b);
    }
  }

  lemma ByteAgain(cid: CID, b: bytes)
    requires ByteId(cid) && PayloadLen(cid, b) == Some(|b|)
    ensures ParseByte(cid, b).Ok? && IsByte(ParseByte(cid, b).value)
    ensures Again(cid, b, EncodeByte(ParseByte(cid, b).value))
  {
    hide PayloadLen, ParseByte, EncodeByte, ByteBits, IsByte, Sendable;
    BytePrinted(cid, b);
    OneByte(cid, b);
  }

  // Two to five bytes of fields

  lemma SettingLen(cid: CID, b: bytes)
    requires SettingId(cid) && PayloadLen(cid, b) == Some(|b|)
    ensures |b| ==
            if cid.LinkCheckAnsId? || cid.DevStatusAnsId? || cid.ForceRejoinReqId? then 2
            else if cid.LinkADRReqId? then 4
            else 5
  {}

  lemma SettingUses(cid: CID)
    requires SettingId(cid)
    ensures forall i: nat :: UsedBits(cid, i) == SettingBits(cid, i)
  {
    hide SettingBits;
  }

  ghost predicate SettingPrint(cid: CID, b: bytes)
    requires SettingId(cid) && PayloadLen(cid, b) == Some(|b|)
  {
    var m := ParseSetting(cid, b);
    m.Ok? && IsSetting(m.value) && Again(cid, b, EncodeSetting(m.value))
  }

  lemma TwoBytes(cid: CID, b: bytes)
    requires |b| == 2
    ensures Cleared(cid, b) == [b[0] & UsedBits(cid, 0), b[1] & UsedBits(cid, 1)]
  {
    hide UsedBits;
  }

  lemma FourBytes(cid: CID, b: bytes)
    requires |b| == 4
    ensures Cleared(cid, b) ==
            [b[0] & UsedBits(cid, 0), b[1] & UsedBits(cid, 1), b[2] & UsedBits(cid, 2), b[3] & UsedBits(cid, 3)]
  {
    hide UsedBits;
  }

  lemma FiveBytes(cid: CID, b: bytes)
    requires |b| == 5
    ensures Cleared(cid, b) ==
            [b[0] & UsedBits(cid, 0), b[1] & UsedBits(cid, 1), b[2] & UsedBits(cid, 2), b[3] & UsedBits(cid, 3),
             b[4] & UsedBits(cid, 4)]
  {
    hide UsedBits;
  }

  lemma LinkCheckPrinted(b: bytes)
    requires |b| == 2 && PayloadLen(LinkCheckAnsId, b) == Some(|b|)
    ensures var m := ParseSetting(LinkCheckAnsId, b);
            && m.Ok? && IsSetting(m.value)
            && EncodeSetting(m.value) == Ok([b[0], b[1]])
  {
    hide PayloadLen;
  }

  lemma LinkCheckCleared(b: bytes)
    requires |b| == 2 && PayloadLen(LinkCheckAnsId, b) == Some(|b|)
    ensures Cleared(LinkCheckAnsId, b) == [b[0], b[1]]
    ensures Sendable(LinkCheckAnsId, b)
  {
    SettingUses(LinkCheckAnsId);
    hide PayloadLen, UsedBits;
    TwoBytes(LinkCheckAnsId, b);
    AllBits(b[0]);
    AllBits(b[1]);
  }

  lemma LinkADRFields(b: u8)
    ensures (b & 0x0f) | (((b & 0xf0) >> 4) << 4) == b
    ensures b & 0x0f <= 15 && (b & 0xf0) >> 4 <= 15
    ensures Redundancy.FromU8(b).ToU8() == Ok(b & 0x7f)
  {}

  lemma LinkADRPrinted(b: bytes)
    requires |b| == 4 && PayloadLen(LinkADRReqId, b) == Some(|b|)
    ensures var m := ParseSetting(LinkADRReqId, b);
            && m.Ok? && IsSetting(m.value)
            && EncodeSetting(m.value) == Ok([b[0], b[1], b[2], b[3] & 0x7f])
  {
    hide PayloadLen, Redundancy.FromU8, Redundancy.ToU8, MaskFromBytes, MaskToBytes;
    LinkADRFields(b[0]);
    LinkADRFields(b[3]);
    MaskBytesRoundTrip(b[1], b[2]);
  }

  lemma LinkADRCleared(b: bytes)
    requires |b| == 4 && PayloadLen(LinkADRReqId, b) == Some(|b|)
    ensures Cleared(LinkADRReqId, b) == [b[0], b[1], b[2], b[3] & 0x7f]
    ensures Sendable(LinkADRReqId, b)
  {
    SettingUses(LinkADRReqId);
    hide PayloadLen, UsedBits;
    FourBytes(LinkADRReqId, b);
    AllBits(b[0]);
    AllBits(b[1]);
    AllBits(b[2]);
  }

  /** Margin bytes from 96 on stand for margins that cannot be sent; bit 6 of the others is ignored. */
  lemma MarginAgain(b: u8)
    ensures MarginToU8(MarginFromU8(b)) == if b < 96 then Ok(b & 0x3f) else Err
  {
    MarginLow(b);
    hide Val, Byte;
  }

  lemma MarginLow(b: u8)
    ensures Val(b) < 96 <==> b < 96
    ensures Val(b) < 256
    ensures Val(b) < 64 ==> b < 96 && Byte(Val(b)) == b & 0x3f
    ensures 64 <= Val(b) < 96 ==> Byte(Val(b) - 64) == b & 0x3f
  {
    ByteVal(b);
    ValIsInt(b);
    LowSix(b);
    if b < 96 && b >= 64 {
      ValIsInt(b - 64);
      ByteVal(b - 64);
    }
  }

  lemma LowSix(b: u8)
    ensures b < 64 ==> b & 0x3f == b
    ensures 64 <= b < 96 ==> b & 0x3f == b - 64
  {}

  lemma DevStatusPrinted(b: bytes)
    requires |b| == 2 && PayloadLen(DevStatusAnsId, b) == Some(|b|)
    ensures var m := ParseSetting(DevStatusAnsId, b);
            && m.Ok? && IsSetting(m.value)
            && EncodeSetting(m.value) == if b[1] < 96 then Ok([b[0], b[1] & 0x3f]) else Err
  {
    hide PayloadLen, MarginToU8, MarginFromU8;
    MarginAgain(b[1]);
  }

  lemma DevStatusCleared(b: bytes)
    requires |b| == 2 && PayloadLen(DevStatusAnsId, b) == Some(|b|)
    ensures Cleared(DevStatusAnsId, b) == [b[0], b[1] & 0x3f]
    ensures Sendable(DevStatusAnsId, b) <==> b[1] < 96
  {
    SettingUses(DevStatusAnsId);
    hide PayloadLen, UsedBits;
    TwoBytes(DevStatusAnsId, b);
    AllBits(b[0]);
  }

  lemma DeviceTimeAgain(b: bytes)
    requires |b| == 5
    ensures DeviceTimeBytes(SecondsOf(b), NanosOf(b)) == b
  {
    Le32RoundTrip(0, b[..4]);
    SecondsLow(FromLe32(b[..4]));
    ByteVal(b[4]);
    hide Le32, FromLe32, Val, Byte;
    assert b == b[..4] + [b[4]];
  }

  lemma SecondsLow(x: u32)
    ensures ((x as bv64) & 0xffff_ffff) as u32 == x
  {}

  lemma DeviceTimePrinted(b: bytes)
    requires |b| == 5 && PayloadLen(DeviceTimeAnsId, b) == Some(|b|)
    ensures var m := ParseSetting(DeviceTimeAnsId, b);
            && m.Ok? && IsSetting(m.value)
            && EncodeSetting(m.value) == Ok(b)
  {
    hide PayloadLen, DeviceTimeBytes, SecondsOf, NanosOf;
    DeviceTimeAgain(b);
  }

  lemma DeviceTimeCleared(b: bytes)
    requires |b| == 5 && PayloadLen(DeviceTimeAnsId, b) == Some(|b|)
    ensures Cleared(DeviceTimeAnsId, b) == b
    ensures Sendable(DeviceTimeAnsId, b)
  {
    SettingUses(DeviceTimeAnsId);
    hide PayloadLen, UsedBits;
    NothingCleared(DeviceTimeAnsId, b);
  }

  lemma NothingCleared(cid: CID, b: bytes)
    requires forall i :: 0 <= i < |b| ==> UsedBits(cid, i) == 0xff
    ensures Cleared(cid, b) == b
  {
    hide UsedBits;
    forall i | 0 <= i < |b|
      ensures Cleared(cid, b)[i] == b[i]
    {
      AllBits(b[i]);
    }
  }

  lemma ForceRejoinFields(b0: u8, b1: u8)
    ensures (b0 & 0x0f) | (((b0 & 0x70) >> 4) << 4) == b0 & 0x7f
    ensures (b1 & 0x07) | (((b1 & 0x38) >> 3) << 3) == b1 & 0x3f
    ensures b0 & 0x0f <= 15 && b1 & 0x07 <= 7 && (b1 & 0x38) >> 3 <= 7
    ensures (b0 & 0x70) >> 4 == 0 <==> b0 & 0x70 == 0
    ensures (b0 & 0x70) >> 4 == 2 <==> b0 & 0x70 == 0x20
  {}

  lemma ForceRejoinPrinted(b: bytes)
    requires |b| == 2 && PayloadLen(ForceRejoinReqId, b) == Some(|b|)
    ensures var m := ParseSetting(ForceRejoinReqId, b);
            && m.Ok? && IsSetting(m.value)
            && EncodeSetting(m.value) ==
               if b[0] & 0x70 == 0x00 || b[0] & 0x70 == 0x20 then Ok([b[0] & 0x7f, b[1] & 0x3f]) else Err
  {
    hide PayloadLen;
    ForceRejoinFields(b[0], b[1]);
  }

  lemma ForceRejoinCleared(b: bytes)
    requires |b| == 2 && PayloadLen(ForceRejoinReqId, b) == Some(|b|)
    ensures Cleared(ForceRejoinReqId, b) == [b[0] & 0x7f, b[1] & 0x3f]
    ensures Sendable(ForceRejoinReqId, b) <==> (b[0] & 0x70 == 0x00 || b[0] & 0x70 == 0x20)
  {
    SettingUses(ForceRejoinReqId);
    hide PayloadLen, UsedBits;
    TwoBytes(ForceRejoinReqId, b);
  }

  lemma LowFlag(b: u8)
    ensures Flag(b & 0x01 > 0, 0x01) == b & 0x01
  {}

  lemma CtrlListPrinted(b: bytes)
    requires |b| == 5 && PayloadLen(CtrlUplinkListAnsId, b) == Some(|b|)
    ensures var m := ParseSetting(CtrlUplinkListAnsId, b);
            && m.Ok? && IsSetting(m.value)
            && EncodeSetting(m.value) == Ok([b[0] & 0x01, b[1], b[2], b[3], b[4]])
  {
    hide PayloadLen, Flag, Le32, FromLe32;
    LowFlag(b[0]);
    Le32RoundTrip(0, [b[1], b[2], b[3], b[4]]);
  }

  lemma CtrlListCleared(b: bytes)
    requires |b| == 5 && PayloadLen(CtrlUplinkListAnsId, b) == Some(|b|)
    ensures Cleared(CtrlUplinkListAnsId, b) == [b[0] & 0x01, b[1], b[2], b[3], b[4]]
    ensures Sendable(CtrlUplinkListAnsId, b)
  {
    SettingUses(CtrlUplinkListAnsId);
    hide PayloadLen, UsedBits;
    FiveBytes(CtrlUplinkListAnsId, b);
    AllBits(b[1]);
    AllBits(b[2]);
    AllBits(b[3]);
    AllBits(b[4]);
  }

  lemma ReloadRatesFit(b0: u8, b1: u8, b2: u8, b3: u8)
    ensures b0 & 0x7f <= 127 && FwdLimitReloadRatePL.GlobalUplinkOf(b0, b1) <= 127
    ensures FwdLimitReloadRatePL.NotifyOf(b1, b2) <= 127 && FwdLimitReloadRatePL.JoinReqOf(b2, b3) <= 127
  {}

  lemma ReloadRateBytes(b0: u8, b1: u8, b2: u8, b3: u8)
    ensures (b0 & 0x7f) | (FwdLimitReloadRatePL.GlobalUplinkOf(b0, b1) << 7) == b0
    ensures (FwdLimitReloadRatePL.GlobalUplinkOf(b0, b1) >> 1) | (FwdLimitReloadRatePL.NotifyOf(b1, b2) << 6) == b1
    ensures (FwdLimitReloadRatePL.NotifyOf(b1, b2) >> 2) | (FwdLimitReloadRatePL.JoinReqOf(b2, b3) << 5) == b2
    ensures (FwdLimitReloadRatePL.JoinReqOf(b2, b3) >> 3) | (((b3 & 0x30) >> 4) << 4) == b3 & 0x3f
  {}

  lemma CounterOf(b: u8)
    ensures var c := ResetLimitCounter.FromU8((b & 0x30) >> 4); c.Ok? && c.value.ToU8() == (b & 0x30) >> 4
  {}

  lemma ReloadRateAgain(b0: u8, b1: u8, b2: u8, b3: u8)
    ensures var r := FwdLimitReloadRatePL.FromBytes(b0, b1, b2, b3);
            && r.Ok? && r.value.InRange()
            && r.value.Byte0() == b0 && r.value.Byte1() == b1 && r.value.Byte2() == b2 && r.value.Byte3() == b3 & 0x3f
  {
    hide FwdLimitReloadRatePL.GlobalUplinkOf, FwdLimitReloadRatePL.NotifyOf, FwdLimitReloadRatePL.JoinReqOf;
    hide ResetLimitCounter.FromU8, ResetLimitCounter.ToU8;
    ReloadRatesFit(b0, b1, b2, b3);
    ReloadRateBytes(b0, b1, b2, b3);
    CounterOf(b3);
  }

  lemma LoadCapacityAgain(b: u8)
    ensures FwdLimitLoadCapacityPL.FromU8(b).ToU8() == Ok(b)
  {}

  lemma FwdLimitPrinted(b: bytes)
    requires |b| == 5 && PayloadLen(ConfigureFwdLimitReqId, b) == Some(|b|)
    ensures var m := ParseSetting(ConfigureFwdLimitReqId, b);
            && m.Ok? && IsSetting(m.value)
            && EncodeSetting(m.value) == Ok([b[0], b[1], b[2], b[3] & 0x3f, b[4]])
  {
    hide PayloadLen, FwdLimitReloadRatePL.FromBytes, FwdLimitReloadRatePL.InRange, FwdLimitReloadRatePL.Byte0;
    hide FwdLimitReloadRatePL.Byte1, FwdLimitReloadRatePL.Byte2, FwdLimitReloadRatePL.Byte3;
    hide FwdLimitLoadCapacityPL.FromU8, FwdLimitLoadCapacityPL.ToU8;
    ReloadRateAgain(b[0], b[1], b[2], b[3]);
    LoadCapacityAgain(b[4]);
  }

  lemma FwdLimitBits(i: nat)
    ensures UsedBits(ConfigureFwdLimitReqId, i) == if i == 3 then 0x3f else 0xff
  {}

  lemma FwdLimitSends(b: bytes)
    requires PayloadLen(ConfigureFwdLimitReqId, b) == Some(|b|)
    ensures Sendable(ConfigureFwdLimitReqId, b)
  {
    hide PayloadLen;
  }

  lemma FwdLimitCleared(b: bytes)
    requires |b| == 5 && PayloadLen(ConfigureFwdLimitReqId, b) == Some(|b|)
    ensures Cleared(ConfigureFwdLimitReqId, b) == [b[0], b[1], b[2], b[3] & 0x3f, b[4]]
    ensures Sendable(ConfigureFwdLimitReqId, b)
  {
    FwdLimitSends(b);
    hide PayloadLen, UsedBits, Sendable;
    var c := Cleared(ConfigureFwdLimitReqId, b);
    forall i | 0 <= i < 5 && i != 3
      ensures c[i] == b[i]
    {
      FwdLimitBits(i);
      AllBits(b[i]);
    }
    FwdLimitBits(3);
    assert c == [c[0], c[1], c[2], c[3], c[4]];
  }

  lemma SettingAgain(cid: CID, b: bytes)
    requires SettingId(cid) && PayloadLen(cid, b) == Some(|b|)
    ensures SettingPrint(cid, b)
  {
    SettingLen(cid, b);
    hide PayloadLen, ParseSetting, EncodeSetting, Cleared, Sendable, IsSetting;
    match cid
    case LinkCheckAnsId => LinkCheckPrinted(b); LinkCheckCleared(b);
    case LinkADRReqId => LinkADRPrinted(b); LinkADRCleared(b);
    case DevStatusAnsId => DevStatusPrinted(b); DevStatusCleared(b);
    case DeviceTimeAnsId => DeviceTimePrinted(b); DeviceTimeCleared(b);
    case ForceRejoinReqId => ForceRejoinPrinted(b); ForceRejoinCleared(b);
    case CtrlUplinkListAnsId => CtrlListPrinted(b); CtrlListCleared(b);
    case ConfigureFwdLimitReqId => FwdLimitPrinted(b); FwdLimitCleared(b);
  }

  // Payloads that hold a frequency

  lemma FreqAgain(b: bytes, i: nat)
    requires i + 3 <= |b|
    ensures EncodedFreq(FreqAt(b, i)) == Ok([b[i], b[i + 1], b[i + 2]])
  {
    EncodeDecodedFreq([b[i], b[i + 1], b[i + 2]]);
  }

  lemma ChannelUses(cid: CID)
    requires ChannelId(cid)
    ensures forall i: nat :: UsedBits(cid, i) == ChannelBits(cid, i)
  {
    hide ChannelBits;
  }

  ghost predicate ChannelPrint(cid: CID, b: bytes)
    requires ChannelId(cid) && PayloadLen(cid, b) == Some(|b|)
  {
    var m := ParseChannel(cid, b);
    m.Ok? && IsChannel(m.value) && Again(cid, b, EncodeChannel(m.value))
  }

  lemma ChannelSize(cid: CID, b: bytes)
    requires ChannelId(cid) && PayloadLen(cid, b) == Some(|b|)
    ensures |b| == if cid.BeaconFreqReqId? then 3 else if cid.NewChannelReqId? || cid.RelayConfReqId? then 5
                   else if cid.EndDeviceConfReqId? then 6 else 4
  {}

  lemma SixBytes(cid: CID, b: bytes)
    requires |b| == 6
    ensures Cleared(cid, b) == [b[0] & UsedBits(cid, 0), b[1] & UsedBits(cid, 1), b[2] & UsedBits(cid, 2),
                                b[3] & UsedBits(cid, 3), b[4] & UsedBits(cid, 4), b[5] & UsedBits(cid, 5)]
  {
    hide UsedBits;
  }

  lemma Nibbles(b: u8)
    ensures (b & 0x0f) | (((b & 0xf0) >> 4) << 4) == b
  {}

  lemma RelaySettingsAgain(b0: u8, b1: u8)
    ensures var s := ChannelSettingsRelay.FromBytes(b0, b1);
            && (s.InRange() <==> b1 & 0x01 == 0)
            && (s.InRange() ==> s.Byte0() == b0 && s.Byte1() == b1 & 0x3f)
  {}

  lemma EDSettingsAgain(b0: u8, b1: u8)
    ensures var s := ChannelSettingsED.FromBytes(b0, b1);
            s.InRange() && s.Byte0() == b0 && s.Byte1() == b1 & 0x7f
  {}

  lemma ActivationAgain(b: u8)
    ensures var a := ActivationRelayMode.FromU8(b);
            a.Ok? && a.value.ToU8() == Ok(b & 0x0f)
  {}

  lemma DLSettingsAgain(b: u8)
    ensures DLSettings.FromU8(b).ToU8() == Ok(b)
  {
    DLSettingsRoundTrip(DLSettings.FromU8(b), b);
  }

  lemma RxParamPrinted(b: bytes)
    requires |b| == 4 && PayloadLen(RxParamSetupReqId, b) == Some(|b|)
    ensures var m := ParseChannel(RxParamSetupReqId, b);
            && m.Ok? && IsChannel(m.value)
            && EncodeChannel(m.value) == Ok(b)
  {
    hide PayloadLen, EncodedFreq, FreqAt, DLSettings.FromU8, DLSettings.ToU8;
    FreqAgain(b, 1);
    DLSettingsAgain(b[0]);
    assert b == [b[0], b[1], b[2], b[3]];
  }

  lemma RxParamCleared(b: bytes)
    requires |b| == 4 && PayloadLen(RxParamSetupReqId, b) == Some(|b|)
    ensures Cleared(RxParamSetupReqId, b) == b
    ensures Sendable(RxParamSetupReqId, b)
  {
    ChannelUses(RxParamSetupReqId);
    hide PayloadLen, UsedBits;
    NothingCleared(RxParamSetupReqId, b);
  }

  lemma NewChannelPrinted(b: bytes)
    requires |b| == 5 && PayloadLen(NewChannelReqId, b) == Some(|b|)
    ensures var m := ParseChannel(NewChannelReqId, b);
            && m.Ok? && IsChannel(m.value)
            && EncodeChannel(m.value) == Ok(b)
  {
    hide PayloadLen, EncodedFreq, FreqAt;
    FreqAgain(b, 1);
    Nibbles(b[4]);
    assert b == [b[0], b[1], b[2], b[3], b[4]];
  }

  lemma NewChannelCleared(b: bytes)
    requires |b| == 5 && PayloadLen(NewChannelReqId, b) == Some(|b|)
    ensures Cleared(NewChannelReqId, b) == b
    ensures Sendable(NewChannelReqId, b)
  {
    ChannelUses(NewChannelReqId);
    hide PayloadLen, UsedBits;
    NothingCleared(NewChannelReqId, b);
  }

  lemma DlChannelPrinted(b: bytes)
    requires |b| == 4 && PayloadLen(DlChannelReqId, b) == Some(|b|)
    ensures var m := ParseChannel(DlChannelReqId, b);
            && m.Ok? && IsChannel(m.value)
            && EncodeChannel(m.value) == Ok(b)
  {
    hide PayloadLen, EncodedFreq, FreqAt;
    FreqAgain(b, 1);
    assert b == [b[0], b[1], b[2], b[3]];
  }

  lemma DlChannelCleared(b: bytes)
    requires |b| == 4 && PayloadLen(DlChannelReqId, b) == Some(|b|)
    ensures Cleared(DlChannelReqId, b) == b
    ensures Sendable(DlChannelReqId, b)
  {
    ChannelUses(DlChannelReqId);
    hide PayloadLen, UsedBits;
    NothingCleared(DlChannelReqId, b);
  }

  lemma PingSlotChannelPrinted(b: bytes)
    requires |b| == 4 && PayloadLen(PingSlotChannelReqId, b) == Some(|b|)
    ensures var m := ParseChannel(PingSlotChannelReqId, b);
            && m.Ok? && IsChannel(m.value)
            && EncodeChannel(m.value) == Ok([b[0], b[1], b[2], b[3] & 0x0f])
  {
    hide PayloadLen, EncodedFreq, FreqAt;
    FreqAgain(b, 0);
  }

  lemma PingSlotChannelCleared(b: bytes)
    requires |b| == 4 && PayloadLen(PingSlotChannelReqId, b) == Some(|b|)
    ensures Cleared(PingSlotChannelReqId, b) == [b[0], b[1], b[2], b[3] & 0x0f]
    ensures Sendable(PingSlotChannelReqId, b)
  {
    ChannelUses(PingSlotChannelReqId);
    hide PayloadLen, UsedBits;
    FourBytes(PingSlotChannelReqId, b);
    AllBits(b[0]);
    AllBits(b[1]);
    AllBits(b[2]);
  }

  lemma BeaconFreqPrinted(b: bytes)
    requires |b| == 3 && PayloadLen(BeaconFreqReqId, b) == Some(|b|)
    ensures var m := ParseChannel(BeaconFreqReqId, b);
            && m.Ok? && IsChannel(m.value)
            && EncodeChannel(m.value) == Ok(b)
  {
    hide PayloadLen, EncodedFreq, FreqAt;
    FreqAgain(b, 0);
    assert b == [b[0], b[1], b[2]];
  }

  lemma BeaconFreqCleared(b: bytes)
    requires |b| == 3 && PayloadLen(BeaconFreqReqId, b) == Some(|b|)
    ensures Cleared(BeaconFreqReqId, b) == b
    ensures Sendable(BeaconFreqReqId, b)
  {
    ChannelUses(BeaconFreqReqId);
    hide PayloadLen, UsedBits;
    NothingCleared(BeaconFreqReqId, b);
  }

  lemma RelayConfPrinted(b: bytes)
    requires |b| == 5 && PayloadLen(RelayConfReqId, b) == Some(|b|)
    ensures var m := ParseChannel(RelayConfReqId, b);
            && m.Ok? && IsChannel(m.value)
            && EncodeChannel(m.value) == if b[1] & 0x01 == 0 then Ok([b[0], b[1] & 0x3f, b[2], b[3], b[4]]) else Err
  {
    hide PayloadLen, EncodedFreq, FreqAt, ChannelSettingsRelay.FromBytes, ChannelSettingsRelay.InRange;
    hide ChannelSettingsRelay.Byte0, ChannelSettingsRelay.Byte1;
    FreqAgain(b, 2);
    RelaySettingsAgain(b[0], b[1]);
  }

  lemma RelayConfCleared(b: bytes)
    requires |b| == 5 && PayloadLen(RelayConfReqId, b) == Some(|b|)
    ensures Cleared(RelayConfReqId, b) == [b[0], b[1] & 0x3f, b[2], b[3], b[4]]
    ensures Sendable(RelayConfReqId, b) <==> b[1] & 0x01 == 0
  {
    ChannelUses(RelayConfReqId);
    hide PayloadLen, UsedBits;
    FiveBytes(RelayConfReqId, b);
    AllBits(b[0]);
    AllBits(b[2]);
    AllBits(b[3]);
    AllBits(b[4]);
  }

  lemma EndDeviceConfPrinted(b: bytes)
    requires |b| == 6 && PayloadLen(EndDeviceConfReqId, b) == Some(|b|)
    ensures var m := ParseChannel(EndDeviceConfReqId, b);
            && m.Ok? && IsChannel(m.value)
            && EncodeChannel(m.value) == Ok([b[0] & 0x0f, b[1], b[2] & 0x7f, b[3], b[4], b[5]])
  {
    hide PayloadLen, EncodedFreq, FreqAt, ChannelSettingsED.FromBytes, ChannelSettingsED.InRange;
    hide ChannelSettingsED.Byte0, ChannelSettingsED.Byte1, ActivationRelayMode.FromU8, ActivationRelayMode.ToU8;
    FreqAgain(b, 3);
    ActivationAgain(b[0]);
    EDSettingsAgain(b[1], b[2]);
  }

  lemma EndDeviceConfCleared(b: bytes)
    requires |b| == 6 && PayloadLen(EndDeviceConfReqId, b) == Some(|b|)
    ensures Cleared(EndDeviceConfReqId, b) == [b[0] & 0x0f, b[1], b[2] & 0x7f, b[3], b[4], b[5]]
    ensures Sendable(EndDeviceConfReqId, b)
  {
    ChannelUses(EndDeviceConfReqId);
    hide PayloadLen, UsedBits;
    SixBytes(EndDeviceConfReqId, b);
    AllBits(b[1]);
    AllBits(b[3]);
    AllBits(b[4]);
    AllBits(b[5]);
  }

  lemma ChannelAgain(cid: CID, b: bytes)
    requires ChannelId(cid) && PayloadLen(cid, b) == Some(|b|)
    ensures ChannelPrint(cid, b)
  {
    ChannelSize(cid, b);
    hide PayloadLen, ParseChannel, EncodeChannel, Cleared, Sendable, IsChannel;
    match cid
    case RxParamSetupReqId => RxParamPrinted(b); RxParamCleared(b);
    case NewChannelReqId => NewChannelPrinted(b); NewChannelCleared(b);
    case DlChannelReqId => DlChannelPrinted(b); DlChannelCleared(b);
    case PingSlotChannelReqId => PingSlotChannelPrinted(b); PingSlotChannelCleared(b);
    case BeaconFreqReqId => BeaconFreqPrinted(b); BeaconFreqCleared(b);
    case RelayConfReqId => RelayConfPrinted(b); RelayConfCleared(b);
    case EndDeviceConfReqId => EndDeviceConfPrinted(b); EndDeviceConfCleared(b);
  }

  // Payloads about one end device of a relay

  lemma DeviceUses(cid: CID)
    requires DeviceId(cid)
    ensures forall i: nat :: UsedBits(cid, i) == DeviceBits(cid, i)
  {
    hide DeviceBits;
  }

  ghost predicate DevicePrint(cid: CID, b: bytes)
    requires DeviceId(cid) && PayloadLen(cid, b) == Some(|b|)
  {
    var m := ParseDevice(cid, b);
    m.Ok? ==> IsDevice(m.value) && Again(cid, b, EncodeDevice(m.value))
  }

  lemma UplinkLimitAgain(b: u8)
    ensures UplinkLimitPL.FromU8(b).ToU8() == Ok(b)
  {}

  lemma UplinkListAgain(b: bytes)
    requires |b| == 26
    ensures UplinkListBytes(b[0] & 0x0f, b[1], UplinkListAddr(b), UplinkListFCnt(b), UplinkListKey(b)) ==
            b[0 := b[0] & 0x0f]
  {
    ReverseReverse(b[2..6]);
    Le32RoundTrip(0, b[6..10]);
    hide Le32, FromLe32, Reverse;
    assert b[0 := b[0] & 0x0f] == [b[0] & 0x0f, b[1]] + b[2..6] + b[6..10] + b[10..26];
  }

  lemma LowNibbleFits(b: u8)
    ensures b & 0x0f <= 15
  {}

  lemma UplinkListReprinted(b: bytes)
    requires |b| == 26 && PayloadLen(UpdateUplinkListReqId, b) == Some(|b|)
    ensures var m := ParseDevice(UpdateUplinkListReqId, b);
            && m.Ok? && IsDevice(m.value)
            && EncodeDevice(m.value) == Ok(b[0 := b[0] & 0x0f])
  {
    hide PayloadLen, UplinkLimitPL.FromU8, UplinkLimitPL.ToU8, UplinkListBytes, UplinkListAddr, UplinkListFCnt;
    hide UplinkListKey;
    LowNibbleFits(b[0]);
    UplinkLimitAgain(b[1]);
    UplinkListAgain(b);
  }

  lemma FirstCleared(cid: CID, b: bytes)
    requires b != [] && forall i :: 1 <= i < |b| ==> UsedBits(cid, i) == 0xff
    ensures Cleared(cid, b) == b[0 := b[0] & UsedBits(cid, 0)]
  {
    hide UsedBits;
    forall i | 1 <= i < |b|
      ensures Cleared(cid, b)[i] == b[i]
    {
      AllBits(b[i]);
    }
  }

  lemma UplinkListCleared(b: bytes)
    requires |b| == 26 && PayloadLen(UpdateUplinkListReqId, b) == Some(|b|)
    ensures Cleared(UpdateUplinkListReqId, b) == b[0 := b[0] & 0x0f]
    ensures Sendable(UpdateUplinkListReqId, b)
  {
    DeviceUses(UpdateUplinkListReqId);
    hide PayloadLen, UsedBits;
    FirstCleared(UpdateUplinkListReqId, b);
  }

  lemma SnrRssiBits(b4: u8, b5: u8)
    ensures var r := (b4 >> 5) | ((b5 & 0x0f) << 3);
            (b4 & 0x1f) | (r << 5) == b4 && r >> 3 == b5 & 0x0f
  {}

  lemma PowerLevelAgain(b4: u8, b5: u8)
    ensures var v := PowerLevel.FromBytes(b4, b5);
            v.Byte0() == b4 && v.Byte1() == b5 & 0x0f
  {
    var s, r := b4 & 0x1f, (b4 >> 5) | ((b5 & 0x0f) << 3);
    MaskedRange(b4, b5);
    SevenBits(s);
    SevenBits(r);
    ByteVal(s);
    ByteVal(r);
    SnrRssiBits(b4, b5);
    hide Val, Byte;
    assert SnrCode(Val(s) - 20) == s && RssiCode(-15 - Val(r)) == r;
  }

  lemma NotifyPrinted(b: bytes)
    requires |b| == 6 && PayloadLen(NotifyNewEndDeviceReqId, b) == Some(|b|)
    ensures var m := ParseDevice(NotifyNewEndDeviceReqId, b);
            && m.Ok? && IsDevice(m.value)
            && EncodeDevice(m.value) == Ok([b[0], b[1], b[2], b[3], b[4], b[5] & 0x0f])
  {
    hide PayloadLen, PowerLevel.FromBytes, PowerLevel.Byte0, PowerLevel.Byte1, Reverse;
    PowerLevelAgain(b[4], b[5]);
    ReverseReverse([b[0], b[1], b[2], b[3]]);
  }

  lemma NotifyCleared(b: bytes)
    requires |b| == 6 && PayloadLen(NotifyNewEndDeviceReqId, b) == Some(|b|)
    ensures Cleared(NotifyNewEndDeviceReqId, b) == [b[0], b[1], b[2], b[3], b[4], b[5] & 0x0f]
    ensures Sendable(NotifyNewEndDeviceReqId, b)
  {
    DeviceUses(NotifyNewEndDeviceReqId);
    hide PayloadLen, UsedBits;
    SixBytes(NotifyNewEndDeviceReqId, b);
    AllBits(b[0]);
    AllBits(b[1]);
    AllBits(b[2]);
    AllBits(b[3]);
    AllBits(b[4]);
  }

  // FilterListReq, whose encoder stops at 16 bytes of filter

  lemma FilterHeadAgain(b0: u8, b1: u8, action: FilterListAction)
    requires FilterListAction.FromU8((b0 & 0x60) >> 5) == Ok(action)
    ensures FilterListHead(b0 & 0x17, action, FilterListIdx(b0, b1)) == b0 & 0xf7
    ensures FilterListIdx(b0, b1) >> 1 == b1 & 0x07 && FilterListIdx(b0, b1) <= 15
  {}

  lemma FilterLenFits(b0: u8)
    ensures Byte(FilterLen(b0)) == b0 & 0x17
    ensures FilterLen(b0) <= 16 <==> b0 & 0x17 <= 16
  {
    ByteVal(b0 & 0x17);
    ValIsInt(16);
    ByteOrder(FilterLen(b0), 16);
  }

  lemma FilterCleared(b: bytes)
    requires |b| >= 2 && PayloadLen(FilterListReqId, b) == Some(|b|)
    ensures Cleared(FilterListReqId, b) == [b[0] & 0xf7, b[1] & 0x07] + b[2..]
    ensures Sendable(FilterListReqId, b) <==> b[0] & 0x17 <= 16
  {
    DeviceUses(FilterListReqId);
    hide PayloadLen, UsedBits;
    forall i | 2 <= i < |b|
      ensures Cleared(FilterListReqId, b)[i] == b[i]
    {
      AllBits(b[i]);
    }
  }

  lemma FilterReprinted(b: bytes)
    requires PayloadLen(FilterListReqId, b) == Some(|b|) && |b| >= 2 && |b| == 2 + FilterLen(b[0])
    ensures var m := ParseDevice(FilterListReqId, b);
            m.Ok? ==>
              && IsDevice(m.value)
              && EncodeDevice(m.value) ==
                 if b[0] & 0x17 <= 16 then Ok([b[0] & 0xf7, b[1] & 0x07] + b[2..]) else Err
  {
    hide PayloadLen, FilterListIdx, FilterListHead, FilterLen, FilterListAction.FromU8;
    var action := FilterListAction.FromU8((b[0] & 0x60) >> 5);
    if action.Ok? {
      FilterHeadAgain(b[0], b[1], action.value);
      FilterLenFits(b[0]);
      ReverseReverse(b[2..]);
    }
  }

  lemma DeviceSize(cid: CID, b: bytes)
    requires DeviceId(cid) && PayloadLen(cid, b) == Some(|b|)
    ensures cid.UpdateUplinkListReqId? ==> |b| == 26
    ensures cid.NotifyNewEndDeviceReqId? ==> |b| == 6
    ensures cid.FilterListReqId? ==> |b| >= 2 && |b| == 2 + FilterLen(b[0])
  {
    hide FilterLen;
  }

  lemma DeviceAgain(cid: CID, b: bytes)
    requires DeviceId(cid) && PayloadLen(cid, b) == Some(|b|)
    ensures DevicePrint(cid, b)
  {
    DeviceSize(cid, b);
    hide PayloadLen, ParseDevice, EncodeDevice, Cleared, Sendable, IsDevice, FilterLen;
    match cid
    case FilterListReqId => FilterReprinted(b); FilterCleared(b);
    case UpdateUplinkListReqId => UplinkListReprinted(b); UplinkListCleared(b);
    case NotifyNewEndDeviceReqId => NotifyPrinted(b); NotifyCleared(b);
  }

  // One payload, one command, a list of commands.

  /** A payload that decodes is printed again with its unused bits cleared, unless its encoder refuses it. */
  lemma PayloadAgain(cid: CID, b: bytes)
    requires !cid.RawId? && PayloadLen(cid, b) == Some(|b|) && ParsePayload(cid, b).Ok?
    ensures !ParsePayload(cid, b).value.Raw? && Again(cid, b, EncodePayload(ParsePayload(cid, b).value))
  {
    hide PayloadLen, ParsePayload, EncodePayload, Again, ParseEmpty, ParseEnum, ParseFlags, ParseByte;
    hide ParseSetting, ParseChannel, ParseDevice;
    if EmptyId(cid) {
      EmptyAgain(cid, b);
      EmptyReads(cid, b);
      EmptyIs(cid);
      EmptyPrints(ParseEmpty(cid).value);
    } else if EnumId(cid) {
      EnumAgain(cid, b);
      EnumReads(cid, b);
      EnumPrints(ParseEnum(cid, b).value);
    } else if FlagsId(cid) {
      FlagsAgain(cid, b);
      FlagsReads(cid, b);
      FlagsPrints(ParseFlags(cid, b).value);
    } else if ByteId(cid) {
      ByteAgain(cid, b);
      ByteReads(cid, b);
      BytePrints(ParseByte(cid, b).value);
    } else if SettingId(cid) {
      SettingAgain(cid, b);
      SettingReads(cid, b);
      SettingPrints(ParseSetting(cid, b).value);
    } else if ChannelId(cid) {
      ChannelAgain(cid, b);
      ChannelReads(cid, b);
      ChannelPrints(ParseChannel(cid, b).value);
    } else {
      DeviceAgain(cid, b);
      DeviceReads(cid, b);
      DevicePrints(ParseDevice(cid, b).value);
    }
  }

  /** What printing the commands read from b gives, in terms of the bytes alone. */
  function Reprinted(uplink: bool, b: bytes): Result<bytes>
    decreases |b|
  {
    if b == [] then Ok([])
    else if CID.FromU8(uplink, b[0]).Err? then Ok(b)
    else
      var cid := CID.FromU8(uplink, b[0]).value;
      match PayloadLen(cid, b[1..])
      case None => Err
      case Some(n) =>
        PrefixLen(cid, b[1..], n);
        if !Sendable(cid, b[1..][..n]) then Err
        else
          var rest :- Reprinted(uplink, b[n + 1..]);
          Ok([b[0]] + Cleared(cid, b[1..][..n]) + rest)
  }

  /** What decoding one command reads. */
  lemma CommandRead(uplink: bool, b: bytes)
    requires b != [] && DecodeCommand(uplink, b).Ok? && CID.FromU8(uplink, b[0]).Ok?
    ensures var (m, n) := DecodeCommand(uplink, b).value;
            var cid := CID.FromU8(uplink, b[0]).value;
            && 1 <= n <= |b| && !cid.RawId? && PayloadLen(cid, b[1..]) == Some(n - 1)
            && |b[1..][..n - 1]| == n - 1 && PayloadLen(cid, b[1..][..n - 1]) == Some(n - 1)
            && ParsePayload(cid, b[1..][..n - 1]) == Ok(m)
  {
    CidNotRaw(uplink, b[0]);
    CommandSize(uplink, b);
    hide CID.FromU8, PayloadLen, ParsePayload;
    var cid := CID.FromU8(uplink, b[0]).value;
    PrefixLen(cid, b[1..], PayloadLen(cid, b[1..]).value);
  }

  lemma PrintedAgain(m: MACCommand, first: u8, cid: CID, p: bytes)
    requires !m.Raw? && CommandCode(m) == first && PayloadLen(cid, p) == Some(|p|) && Again(cid, p, EncodePayload(m))
    ensures EncodeCommand(m) == if Sendable(cid, p) then Ok([first] + Cleared(cid, p)) else Err
  {
    CodeIs(m);
    hide EncodePayload, PayloadLen, Sendable, Cleared, CommandCode, CID.ToU8, MACCommand.Cid;
  }

  /** One command. */
  lemma CommandAgain(uplink: bool, b: bytes)
    requires b != [] && DecodeCommand(uplink, b).Ok? && CID.FromU8(uplink, b[0]).Ok?
    ensures var (m, n) := DecodeCommand(uplink, b).value;
            var cid := CID.FromU8(uplink, b[0]).value;
            && 1 <= n <= |b| && PayloadLen(cid, b[1..]) == Some(n - 1) && |b[1..][..n - 1]| == n - 1
            && PayloadLen(cid, b[1..][..n - 1]) == Some(n - 1)
            && EncodeCommand(m) ==
               if Sendable(cid, b[1..][..n - 1]) then Ok([b[0]] + Cleared(cid, b[1..][..n - 1])) else Err
  {
    hide *;
    CommandRead(uplink, b);
    var cid := CID.FromU8(uplink, b[0]).value;
    var (m, n) := DecodeCommand(uplink, b).value;
    CommandSound(uplink, b);
    PayloadAgain(cid, b[1..][..n - 1]);
    PrintedAgain(m, b[0], cid, b[1..][..n - 1]);
  }

  /** Printing decoded commands refuses or clears exactly what Reprinted says. */
  lemma {:induction false} ListAgain(uplink: bool, b: bytes)
    requires DecodeAll(uplink, b).Ok?
    ensures EncodeAll(DecodeAll(uplink, b).value) == Reprinted(uplink, b)
    decreases |b|
  {
    hide DecodeCommand, EncodeCommand, CID.FromU8, PayloadLen, Sendable, Cleared;
    if b != [] {
      DecodeStep(uplink, b);
      var (m, n) := DecodeCommand(uplink, b).value;
      var cmds, t := DecodeAll(uplink, b).value, DecodeAll(uplink, b[n..]).value;
      assert cmds[0] == m && cmds[1..] == t;
      if CID.FromU8(uplink, b[0]).Ok? {
        CommandAgain(uplink, b);
        ListAgain(uplink, b[n..]);
      } else {
        UnknownAgain(uplink, b);
      }
    }
  }

  lemma UnknownAgain(uplink: bool, b: bytes)
    requires b != [] && CID.FromU8(uplink, b[0]).Err? && DecodeAll(uplink, b).Ok?
    ensures EncodeAll(DecodeAll(uplink, b).value) == Ok(b)
  {
    hide CID.FromU8, EncodeAll;
    RawList(b);
    assert DecodeAll(uplink, b[|b|..]) == Ok([]);
    assert [Raw(b)] + [] == [Raw(b)];
  }

  /** A DutyCycleReq of 32 is read, and refused when printed. */
  lemma DutyCycleRefused()
    ensures DecodeAll(false, [0x04, 0x20]) == Ok([DutyCycleReq(0x20)])
    ensures EncodeAll([DutyCycleReq(0x20)]).Err?
  {
    var b, m := [0x04 as u8, 0x20], DutyCycleReq(0x20);
    assert DecodeCommand(false, b) == Ok((m, 2)) by {
      assert b[1..] == [0x20] && b[1..][..1] == [0x20];
    }
    assert EncodeCommand(m).Err?;
    hide DecodeCommand, EncodeCommand;
    assert b[2..] == [] && DecodeAll(false, []) == Ok([]);
    assert [m] + [] == [m];
  }

  // A received frame, once its f_opts are decoded.

  lemma WireOpts(h: FHDR, uplink: bool)
    requires WireHeader(h)
    ensures EncodeAll(h.fOpts) == Ok(OptsBytes(h))
    ensures DecodedSet(h.fOpts, uplink) == DecodeAll(uplink, OptsBytes(h))
  {
    if h.fOpts == [] {
      RawList([]);
    } else {
      RawList(h.fOpts[0].raw);
      assert h.fOpts == [Raw(h.fOpts[0].raw)];
    }
    hide EncodeAll;
  }

  lemma OptsReplaced(h: FHDR, cmds: seq<MACCommand>)
    requires FHdrToVec(h).Ok? && EncodeAll(cmds).Ok? && |EncodeAll(cmds).value| == |OptsBytes(h)|
    ensures FHdrToVec(h).value[..7] + OptsBytes(h) == FHdrToVec(h).value
    ensures FHdrToVec(h.(fOpts := cmds)) == Ok(FHdrToVec(h).value[..7] + EncodeAll(cmds).value)
  {
    var q := h.(fOpts := cmds);
    HeadAndOpts(h);
    assert SentCtrl(q) == SentCtrl(h);
    HeaderPrinted(q);
    hide FHdrToVec, EncodeAll, FCtrlToByte, SentCtrl, LowBytes;
  }

  /** The header is printed in front of what follows it. */
  lemma HeaderChanged(p: MACPayload, h: FHDR)
    requires MacToVec(p).Ok?
    ensures MacToVec(p.(fhdr := h)) ==
            if FHdrToVec(h).Err? then Err else Ok(FHdrToVec(h).value + PortBytes(p) + FrmBytes(p))
  {
    hide FHdrToVec, FrmToVec;
    var q := p.(fhdr := h);
    assert PortBytes(q) == PortBytes(p) && FrmBytes(q) == FrmBytes(p);
    if FHdrToVec(h).Ok? {
      assert MacToVec(q).Ok?;
      MacPrinted(q);
    }
  }

  lemma OptsChanged(p: MACPayload, cmds: seq<MACCommand>)
    requires MacToVec(p).Ok? && EncodeAll(cmds).Ok? && |EncodeAll(cmds).value| == |OptsBytes(p.fhdr)|
    ensures var b, opts := MacToVec(p).value, EncodeAll(cmds).value;
            && |b| >= 7 + |opts|
            && MacToVec(p.(fhdr := p.fhdr.(fOpts := cmds))) == Ok(b[..7] + opts + b[7 + |opts|..])
  {
    MacPrinted(p);
    HeaderChanged(p, p.fhdr.(fOpts := cmds));
    HeadAndOpts(p.fhdr);
    OptsReplaced(p.fhdr, cmds);
    hide MacToVec, FHdrToVec, EncodeAll, OptsBytes, PortBytes, FrmBytes, Head;
    Replaced(FHdrToVec(p.fhdr).value[..7], OptsBytes(p.fhdr), PortBytes(p), FrmBytes(p));
    Replaced(FHdrToVec(p.fhdr).value[..7], EncodeAll(cmds).value, PortBytes(p), FrmBytes(p));
  }

  /** The MAC payload of a received frame prints after decoding exactly if its f_opts can be printed again. */
  lemma DecodedMacPrints(p: MACPayload, uplink: bool)
    requires WireMac(p) && DecodeAll(uplink, OptsBytes(p.fhdr)).Ok?
    ensures MacToVec(p).Ok?
    ensures var cmds := DecodeAll(uplink, OptsBytes(p.fhdr)).value;
            var b, opts := MacToVec(p).value, Reprinted(uplink, OptsBytes(p.fhdr));
            && (opts.Ok? ==> |opts.value| == |OptsBytes(p.fhdr)| && |b| >= 7 + |opts.value|)
            && MacToVec(p.(fhdr := p.fhdr.(fOpts := cmds))) ==
               if opts.Err? then Err else Ok(b[..7] + opts.value + b[7 + |opts.value|..])
  {
    var cmds := DecodeAll(uplink, OptsBytes(p.fhdr)).value;
    WireMacReceived(p);
    ListAgain(uplink, OptsBytes(p.fhdr));
    HeaderChanged(p, p.fhdr.(fOpts := cmds));
    hide MacToVec, FHdrToVec, OptsBytes, Reprinted, DecodeAll, WireMac, ReceivedMac, FrmBytes, PortBytes;
    if EncodeAll(cmds).Ok? {
      hide EncodeAll;
      DecodedIsWire(uplink, OptsBytes(p.fhdr));
      OptsChanged(p, cmds);
    } else if FHdrToVec(p.fhdr.(fOpts := cmds)).Ok? {
      HeaderEncodes(p.fhdr.(fOpts := cmds));
    }
  }

  lemma Replaced(head: bytes, opts: bytes, port: bytes, frm: bytes)
    ensures var b := head + opts + port + frm;
            && |b| >= |head| + |opts| && b[..|head|] == head && b[|head| + |opts|..] == port + frm
            && b == head + opts + (port + frm)
  {}

  lemma WireData(p: PhyFrame)
    requires WireFrame(p) && p.payload.MACFrame?
    ensures p.mic.Some? && WireMac(p.payload.mac) && WireHeader(p.payload.mac.fhdr)
  {
    hide WireHeader;
  }

  lemma DataPrinted(p: PhyFrame)
    requires p.payload.MACFrame? && p.mic.Some?
    ensures var m := MacToVec(p.payload.mac);
            PhyToVec(p) == if m.Err? then Err else Ok([MhdrToByte(p.mhdr)] + m.value + p.mic.value)
  {
    hide MacToVec, MhdrToByte;
  }

  /** A received data frame whose f_opts have been decoded: it prints exactly if they can be printed again, and
      then differs from what was received in their unused bits only. */
  lemma DecodedFramePrints(p: PhyFrame)
    requires WireFrame(p) && p.payload.MACFrame? && FOptsDecoded(p).Ok?
    ensures PhyToVec(p).Ok?
    ensures var b, opts := PhyToVec(p).value, Reprinted(IsUplink(p.mhdr.fType), OptsBytes(p.payload.mac.fhdr));
            && (opts.Ok? ==> |b| >= 8 + |opts.value|)
            && PhyToVec(FOptsDecoded(p).value) ==
               if opts.Err? then Err else Ok(b[..8] + opts.value + b[8 + |opts.value|..])
  {
    var m, uplink := p.payload.mac, IsUplink(p.mhdr.fType);
    WireData(p);
    WireOpts(m.fhdr, uplink);
    hide WireFrame, MacToVec, MhdrToByte, OptsBytes, Reprinted, DecodeAll, WireMac, WireHeader, PhyToVec, EncodeAll;
    hide DecodedSet;
    DecodedMacPrints(m, uplink);
    DataPrinted(p);
    DataPrinted(FOptsDecoded(p).value);
    var opts := Reprinted(uplink, OptsBytes(m.fhdr));
    if opts.Ok? {
      Framed(MhdrToByte(p.mhdr), MacToVec(m).value, opts.value, p.mic.value);
    }
  }

  lemma Framed(first: u8, m: bytes, opts: bytes, mic: bytes)
    requires |m| >= 7 + |opts|
    ensures var b := [first] + m + mic;
            [first] + (m[..7] + opts + m[7 + |opts|..]) + mic == b[..8] + opts + b[8 + |opts|..]
  {}
}
