/** One command at a time: what is encoded decodes to the same command exactly when it is canonical. */
module MacProofs {
  import opened Bytes
  import opened Helpers
  import opened MacFields
  import opened MacCommands

  ghost predicate RoundTrips(m: MACCommand)
    requires !m.Raw?
  {
    EncodePayload(m).Ok? ==> ComesBack(m, m.Cid(), EncodePayload(m).value)
  }

  /** The bytes e are the whole payload, and read back as m exactly if m is canonical. */
  ghost predicate ComesBack(m: MACCommand, cid: CID, e: bytes) {
    && PayloadLen(cid, e) == Some(|e|) && !cid.RawId?
    && (ParsePayload(cid, e) == Ok(m) <==> Canonical(m))
  }

  // The codec on the groups of commands.

  predicate IsEnum(m: MACCommand) {
    || m.ResetInd? || m.ResetConf? || m.RekeyConf? || m.RekeyInd? || m.DeviceModeInd? || m.DeviceModeConf?
  }

  predicate IsFlags(m: MACCommand) {
    || m.LinkADRAns? || m.RxParamSetupAns? || m.NewChannelAns? || m.DlChannelAns? || m.RejoinParamSetupAns?
    || m.PingSlotChannelAns? || m.BeaconFreqAns? || m.RelayConfAns? || m.EndDeviceConfAns? || m.FilterListAns?
  }

  predicate IsByte(m: MACCommand) {
    || m.DutyCycleReq? || m.RxTimingSetupReq? || m.TxParamSetupReq? || m.ADRParamSetupReq? || m.RejoinParamSetupReq?
    || m.PingSlotInfoReq? || m.CtrlUplinkListReq?
  }

  predicate IsSetting(m: MACCommand) {
    || m.LinkCheckAns? || m.LinkADRReq? || m.DevStatusAns? || m.DeviceTimeAns? || m.ForceRejoinReq?
    || m.CtrlUplinkListAns? || m.ConfigureFwdLimitReq?
  }

  predicate IsChannel(m: MACCommand) {
    || m.RxParamSetupReq? || m.NewChannelReq? || m.DlChannelReq? || m.PingSlotChannelReq? || m.BeaconFreqReq?
    || m.RelayConfReq? || m.EndDeviceConfReq?
  }

  predicate IsDevice(m: MACCommand) {
    || m.FilterListReq? || m.UpdateUplinkListReq? || m.NotifyNewEndDeviceReq?
  }

  predicate IsEmpty(m: MACCommand) {
    || m.LinkCheckReq? || m.DutyCycleAns? || m.DevStatusReq? || m.RxTimingSetupAns? || m.TxParamSetupAns?
    || m.ADRParamSetupAns? || m.DeviceTimeReq? || m.PingSlotInfoAns? || m.UpdateUplinkListAns?
    || m.ConfigureFwdLimitAns?
  }

  lemma EnumPrints(m: MACCommand)
    requires IsEnum(m)
    ensures EncodePayload(m) == EncodeEnum(m)
  {
    hide EncodeEnum;
  }

  lemma EnumReads(cid: CID, b: bytes)
    requires EnumId(cid) && PayloadLen(cid, b) == Some(|b|)
    ensures ParsePayload(cid, b) == ParseEnum(cid, b)
  {
    hide ParseEnum, PayloadLen;
  }

  lemma FlagsPrints(m: MACCommand)
    requires IsFlags(m)
    ensures EncodePayload(m) == EncodeFlags(m)
  {
    hide EncodeFlags;
  }

  lemma FlagsReads(cid: CID, b: bytes)
    requires FlagsId(cid) && PayloadLen(cid, b) == Some(|b|)
    ensures ParsePayload(cid, b) == ParseFlags(cid, b)
  {
    hide ParseFlags, PayloadLen;
  }

  lemma BytePrints(m: MACCommand)
    requires IsByte(m)
    ensures EncodePayload(m) == EncodeByte(m)
  {
    hide EncodeByte;
  }

  lemma ByteReads(cid: CID, b: bytes)
    requires ByteId(cid) && PayloadLen(cid, b) == Some(|b|)
    ensures ParsePayload(cid, b) == ParseByte(cid, b)
  {
    hide ParseByte, PayloadLen;
  }

  lemma SettingPrints(m: MACCommand)
    requires IsSetting(m)
    ensures EncodePayload(m) == EncodeSetting(m)
  {
    hide EncodeSetting;
  }

  lemma SettingReads(cid: CID, b: bytes)
    requires SettingId(cid) && PayloadLen(cid, b) == Some(|b|)
    ensures ParsePayload(cid, b) == ParseSetting(cid, b)
  {
    hide ParseSetting, PayloadLen;
  }

  lemma ChannelPrints(m: MACCommand)
    requires IsChannel(m)
    ensures EncodePayload(m) == EncodeChannel(m)
  {
    hide EncodeChannel;
  }

  lemma ChannelReads(cid: CID, b: bytes)
    requires ChannelId(cid) && PayloadLen(cid, b) == Some(|b|)
    ensures ParsePayload(cid, b) == ParseChannel(cid, b)
  {
    hide ParseChannel, PayloadLen;
  }

  lemma DevicePrints(m: MACCommand)
    requires IsDevice(m)
    ensures EncodePayload(m) == EncodeDevice(m)
  {
    hide EncodeDevice;
  }

  lemma DeviceReads(cid: CID, b: bytes)
    requires DeviceId(cid) && PayloadLen(cid, b) == Some(|b|)
    ensures ParsePayload(cid, b) == ParseDevice(cid, b)
  {
    hide ParseDevice, PayloadLen;
  }

  lemma EmptyPrints(m: MACCommand)
    requires IsEmpty(m)
    ensures EncodePayload(m) == Ok([])
  {}

  lemma EmptyLen(cid: CID, b: bytes)
    requires EmptyId(cid)
    ensures PayloadLen(cid, b) == Some(0)
  {}

  lemma EmptyReads(cid: CID, b: bytes)
    requires EmptyId(cid) && PayloadLen(cid, b) == Some(|b|)
    ensures ParsePayload(cid, b) == ParseEmpty(cid)
  {
    hide ParseEmpty, PayloadLen;
  }

  lemma EmptyIds(m: MACCommand)
    requires IsEmpty(m)
    ensures EmptyId(m.Cid()) && ParseEmpty(m.Cid()) == Ok(m) && Canonical(m)
  {}

  lemma NoPayloads(m: MACCommand)
    requires IsEmpty(m)
    ensures RoundTrips(m)
  {
    hide EncodePayload, ParsePayload, PayloadLen, ParseEmpty, MACCommand.Cid, Canonical, IsEmpty;
    EmptyPrints(m);
    EmptyIds(m);
    EmptyLen(m.Cid(), []);
    EmptyReads(m.Cid(), []);
  }

  lemma Answers(m: MACCommand)
    requires m.LinkADRAns? || m.RxParamSetupAns? || m.NewChannelAns? || m.DlChannelAns?
    ensures RoundTrips(m)
  {
    hide EncodePayload, ParsePayload;
    FlagsPrints(m);
    FlagsReads(m.Cid(), EncodeFlags(m).value);
  }

  lemma RejoinParamSetupAnswers(m: MACCommand)
    requires m.RejoinParamSetupAns?
    ensures RoundTrips(m)
  {
    hide EncodePayload, ParsePayload;
    FlagsPrints(m);
    FlagsReads(m.Cid(), EncodeFlags(m).value);
  }

  lemma BeaconFreqAnswers(m: MACCommand)
    requires m.BeaconFreqAns?
    ensures RoundTrips(m)
  {
    hide EncodePayload, ParsePayload;
    FlagsPrints(m);
    FlagsReads(m.Cid(), EncodeFlags(m).value);
  }

  lemma PingSlotChannelAnswers(m: MACCommand)
    requires m.PingSlotChannelAns?
    ensures RoundTrips(m)
  {
    hide EncodePayload, ParsePayload;
    FlagsPrints(m);
    FlagsReads(m.Cid(), EncodeFlags(m).value);
  }

  lemma FilterListAnswers(m: MACCommand)
    requires m.FilterListAns?
    ensures RoundTrips(m)
  {
    hide EncodePayload, ParsePayload;
    FlagsPrints(m);
    FlagsReads(m.Cid(), EncodeFlags(m).value);
  }

  lemma RelayConfAnswers(m: MACCommand)
    requires m.RelayConfAns?
    ensures RoundTrips(m)
  {
    hide EncodePayload, ParsePayload;
    FlagsPrints(m);
    FlagsReads(m.Cid(), EncodeFlags(m).value);
  }

  lemma EndDeviceConfAnswers(m: MACCommand)
    requires m.EndDeviceConfAns?
    ensures RoundTrips(m)
  {
    hide EncodePayload, ParsePayload;
    FlagsPrints(m);
    FlagsReads(m.Cid(), EncodeFlags(m).value);
  }

  lemma CtrlUplinkListAnswers(m: MACCommand)
    requires m.CtrlUplinkListAns?
    ensures RoundTrips(m)
  {
    hide EncodePayload, ParsePayload;
    SettingPrints(m);
    Le32RoundTrip(m.ctrlWFCnt, Le32(m.ctrlWFCnt));
    var e := EncodeSetting(m).value;
    assert [e[1], e[2], e[3], e[4]] == Le32(m.ctrlWFCnt);
    if EncodeSetting(m).Ok? {
      SettingReads(m.Cid(), EncodeSetting(m).value);
    }
  }

  lemma Versions(m: MACCommand)
    requires m.ResetInd? || m.ResetConf?
    ensures RoundTrips(m)
  {
    hide EncodePayload, ParsePayload;
    EnumPrints(m);
    OnlyVersion(m.version);
    EnumReads(m.Cid(), EncodeEnum(m).value);
  }

  lemma RekeyVersions(m: MACCommand)
    requires m.RekeyInd? || m.RekeyConf?
    ensures RoundTrips(m)
  {
    hide EncodePayload, ParsePayload;
    EnumPrints(m);
    OnlyVersion(m.version);
    EnumReads(m.Cid(), EncodeEnum(m).value);
  }

  lemma OnlyVersion(v: Version)
    ensures v == LoRaWAN1_1
  {}

  lemma Classes(m: MACCommand)
    requires m.DeviceModeInd? || m.DeviceModeConf?
    ensures RoundTrips(m)
  {
    hide EncodePayload, ParsePayload;
    EnumPrints(m);
    hide DeviceModeClass.ToU8, DeviceModeClass.FromU8;
    ClassRoundTrip(m.class_);
    EnumReads(m.Cid(), EncodeEnum(m).value);
  }

  lemma ClassRoundTrip(c: DeviceModeClass)
    ensures DeviceModeClass.FromU8(c.ToU8()) == Ok(c)
  {}

  lemma PlainBytes(m: MACCommand)
    requires m.DutyCycleReq? || m.RxTimingSetupReq? || m.PingSlotInfoReq?
    ensures RoundTrips(m)
  {
    hide EncodePayload, ParsePayload;
    BytePrints(m);
    if EncodeByte(m).Ok? {
      ByteReads(m.Cid(), EncodeByte(m).value);
    }
  }

  lemma PackedBytes(m: MACCommand)
    requires m.TxParamSetupReq? || m.RejoinParamSetupReq?
    ensures RoundTrips(m)
  {
    hide EncodePayload, ParsePayload;
    BytePrints(m);
    if EncodeByte(m).Ok? {
      ByteReads(m.Cid(), EncodeByte(m).value);
    }
  }

  lemma LinkCheckAnswers(m: MACCommand)
    requires m.LinkCheckAns?
    ensures RoundTrips(m)
  {
    hide EncodePayload, ParsePayload;
    SettingPrints(m);
    if EncodeSetting(m).Ok? {
      SettingReads(m.Cid(), EncodeSetting(m).value);
    }
  }

  lemma ForceRejoinReqs(m: MACCommand)
    requires m.ForceRejoinReq?
    ensures RoundTrips(m)
  {
    hide EncodePayload, ParsePayload;
    SettingPrints(m);
    if EncodeSetting(m).Ok? {
      SettingReads(m.Cid(), EncodeSetting(m).value);
    }
  }

  lemma ADRParamSetupReqs(m: MACCommand)
    requires m.ADRParamSetupReq?
    ensures RoundTrips(m)
  {
    hide EncodePayload, ParsePayload;
    BytePrints(m);
    ADRParamRoundTrip(m.adrParam);
    if EncodeByte(m).Ok? {
      ByteReads(m.Cid(), EncodeByte(m).value);
    }
  }

  lemma CtrlUplinkListReqs(m: MACCommand)
    requires m.CtrlUplinkListReq?
    ensures RoundTrips(m)
  {
    hide EncodePayload, ParsePayload;
    BytePrints(m);
    CtrlUplinkActionRoundTrip(m.ctrlUplinkAction);
    if EncodeByte(m).Ok? {
      ByteReads(m.Cid(), EncodeByte(m).value);
    }
  }

  lemma LinkADRReqs(m: MACCommand)
    requires m.LinkADRReq?
    ensures RoundTrips(m)
  {
    hide EncodePayload, ParsePayload, MaskToBytes, MaskFromBytes, Redundancy.ToU8, Redundancy.FromU8;
    SettingPrints(m);
    MaskRoundTrip(m.chMask);
    RedundancyRoundTrip(m.redundancy);
    if EncodeSetting(m).Ok? {
      SettingReads(m.Cid(), EncodeSetting(m).value);
    }
  }

  lemma FreqAtIs(b: bytes, i: nat, f: Bytes3)
    requires i + 3 <= |b| && b[i] == f[0] && b[i + 1] == f[1] && b[i + 2] == f[2]
    ensures FreqAt(b, i) == DecodedFreq(f)
  {
    assert [b[i], b[i + 1], b[i + 2]] == f;
  }

  lemma RxParamSetupReqs(m: MACCommand)
    requires m.RxParamSetupReq?
    ensures RoundTrips(m)
  {
    hide EncodePayload, ParsePayload;
    ChannelPrints(m);
    if EncodeChannel(m).Ok? {
      ChannelReads(m.Cid(), EncodeChannel(m).value);
      hide EncodedFreq, DecodedFreq;
      DLSettingsRoundTrip(m.dlSettings, 0);
      DecodeEncodedFreq(m.frequency);
      FreqAtIs(EncodeChannel(m).value, 1, EncodedFreq(m.frequency).value);
    }
  }

  lemma NewChannelReqs(m: MACCommand)
    requires m.NewChannelReq?
    ensures RoundTrips(m)
  {
    hide EncodePayload, ParsePayload;
    ChannelPrints(m);
    if EncodeChannel(m).Ok? {
      ChannelReads(m.Cid(), EncodeChannel(m).value);
      hide EncodedFreq, DecodedFreq;
      DecodeEncodedFreq(m.freq);
      FreqAtIs(EncodeChannel(m).value, 1, EncodedFreq(m.freq).value);
    }
  }

  lemma DlChannelReqs(m: MACCommand)
    requires m.DlChannelReq?
    ensures RoundTrips(m)
  {
    hide EncodePayload, ParsePayload;
    ChannelPrints(m);
    if EncodeChannel(m).Ok? {
      ChannelReads(m.Cid(), EncodeChannel(m).value);
      hide EncodedFreq, DecodedFreq;
      DecodeEncodedFreq(m.dlFreq);
      FreqAtIs(EncodeChannel(m).value, 1, EncodedFreq(m.dlFreq).value);
    }
  }

  lemma PingSlotChannelReqs(m: MACCommand)
    requires m.PingSlotChannelReq?
    ensures RoundTrips(m)
  {
    hide EncodePayload, ParsePayload;
    ChannelPrints(m);
    if EncodeChannel(m).Ok? {
      ChannelReads(m.Cid(), EncodeChannel(m).value);
      hide EncodedFreq, DecodedFreq;
      DecodeEncodedFreq(m.pingFreq);
      FreqAtIs(EncodeChannel(m).value, 0, EncodedFreq(m.pingFreq).value);
    }
  }

  lemma BeaconFreqReqs(m: MACCommand)
    requires m.BeaconFreqReq?
    ensures RoundTrips(m)
  {
    hide EncodePayload, ParsePayload;
    ChannelPrints(m);
    if EncodeChannel(m).Ok? {
      ChannelReads(m.Cid(), EncodeChannel(m).value);
      hide EncodedFreq, DecodedFreq;
      DecodeEncodedFreq(m.beaconFreq);
      FreqAtIs(EncodeChannel(m).value, 0, EncodedFreq(m.beaconFreq).value);
    }
  }

  lemma RelayConfReqs(m: MACCommand)
    requires m.RelayConfReq?
    ensures RoundTrips(m)
  {
    hide EncodePayload, ParsePayload;
    ChannelPrints(m);
    if EncodeChannel(m).Ok? {
      ChannelReads(m.Cid(), EncodeChannel(m).value);
      hide EncodedFreq, DecodedFreq, ChannelSettingsRelay.Byte0, ChannelSettingsRelay.Byte1;
      hide ChannelSettingsRelay.FromBytes;
      ChannelSettingsRelayRoundTrip(m.channelSettings);
      DecodeEncodedFreq(m.secondChFreq);
      FreqAtIs(EncodeChannel(m).value, 2, EncodedFreq(m.secondChFreq).value);
    }
  }

  lemma EndDeviceConfReqs(m: MACCommand)
    requires m.EndDeviceConfReq?
    ensures RoundTrips(m)
  {
    hide EncodePayload, ParsePayload;
    ChannelPrints(m);
    if EncodeChannel(m).Ok? {
      ChannelReads(m.Cid(), EncodeChannel(m).value);
      hide EncodedFreq, DecodedFreq, ChannelSettingsED.Byte0, ChannelSettingsED.Byte1, ChannelSettingsED.FromBytes;
      hide ActivationRelayMode.ToU8, ActivationRelayMode.FromU8;
      ActivationRelayModeRoundTrip(m.activation);
      ChannelSettingsEDRoundTrip(m.channelSettingsEd);
      DecodeEncodedFreq(m.edFreq);
      FreqAtIs(EncodeChannel(m).value, 3, EncodedFreq(m.edFreq).value);
    }
  }

  lemma MarginRoundTrip(margin: i8)
    ensures MarginToU8(margin).Ok? <==> -32 <= margin <= 31
    ensures MarginToU8(margin).Ok? ==> MarginFromU8(MarginToU8(margin).value) == margin
  {
    if -32 <= margin <= 31 {
      ValByte(if margin < 0 then margin + 64 else margin);
    }
  }

  lemma DevStatusAnswers(m: MACCommand)
    requires m.DevStatusAns?
    ensures RoundTrips(m)
  {
    hide EncodePayload, ParsePayload;
    SettingPrints(m);
    hide MarginToU8, MarginFromU8;
    MarginRoundTrip(m.devMargin);
    if EncodeSetting(m).Ok? {
      SettingReads(m.Cid(), EncodeSetting(m).value);
    }
  }

  lemma SecondsRoundTrip(secs: bv64)
    ensures FromLe32(Le32((secs & 0xffff_ffff) as u32)) as bv64 == secs <==> secs < 0x1_0000_0000
  {
    Le32RoundTrip((secs & 0xffff_ffff) as u32, [0, 0, 0, 0]);
  }

  lemma NanosRoundTrip(nanos: Nanos)
    ensures Val(Byte(nanos / 3906250)) * 3906250 == nanos <==> nanos % 3906250 == 0
  {
    ValByte(nanos / 3906250);
  }

  lemma DeviceTimeRoundTrip(secs: bv64, nanos: Nanos)
    ensures SecondsOf(DeviceTimeBytes(secs, nanos)) == secs <==> secs < 0x1_0000_0000
    ensures NanosOf(DeviceTimeBytes(secs, nanos)) == nanos <==> nanos % 3906250 == 0
  {
    SecondsRoundTrip(secs);
    NanosRoundTrip(nanos);
    hide Le32, FromLe32, Val, Byte;
    assert DeviceTimeBytes(secs, nanos)[..4] == Le32((secs & 0xffff_ffff) as u32);
  }

  lemma DeviceTimeAnswers(m: MACCommand)
    requires m.DeviceTimeAns?
    ensures RoundTrips(m)
  {
    hide EncodePayload, ParsePayload;
    SettingPrints(m);
    hide DeviceTimeBytes, SecondsOf, NanosOf;
    DeviceTimeRoundTrip(m.secs, m.nanos);
    if EncodeSetting(m).Ok? {
      SettingReads(m.Cid(), EncodeSetting(m).value);
    }
  }

  lemma UplinkListRoundTrip(idx: u8, limit: u8, devAddr: Bytes4, wFCnt: u32, key: Bytes16)
    ensures var b := UplinkListBytes(idx, limit, devAddr, wFCnt, key);
            UplinkListAddr(b) == devAddr && UplinkListFCnt(b) == wFCnt && UplinkListKey(b) == key
  {
    ReverseReverse(devAddr);
    Le32RoundTrip(wFCnt, [0, 0, 0, 0]);
    var b := UplinkListBytes(idx, limit, devAddr, wFCnt, key);
    assert b[2..6] == Reverse(devAddr) && b[6..10] == Le32(wFCnt) && b[10..26] == key;
  }

  lemma UplinkListPrinted(m: MACCommand)
    requires m.UpdateUplinkListReq? && EncodePayload(m).Ok?
    ensures m.uplinkListIdx <= 15 && m.uplinkLimit.ToU8().Ok?
    ensures EncodePayload(m).value ==
            UplinkListBytes(m.uplinkListIdx, m.uplinkLimit.ToU8().value, m.devAddr, m.wFCnt, m.rootWorSKey)
  {
    hide UplinkListBytes, UplinkLimitPL.ToU8;
  }

  lemma UplinkListParsed(b: bytes)
    requires |b| == 26
    ensures PayloadLen(UpdateUplinkListReqId, b) == Some(26)
    ensures ParsePayload(UpdateUplinkListReqId, b) ==
            Ok(UpdateUplinkListReq(b[0] & 0x0f, UplinkLimitPL.FromU8(b[1]), UplinkListAddr(b), UplinkListFCnt(b),
                                   UplinkListKey(b)))
  {
    hide UplinkLimitPL.FromU8, UplinkListAddr, UplinkListFCnt, UplinkListKey, FilterLen;
  }

  lemma UpdateUplinkListReqs(m: MACCommand)
    requires m.UpdateUplinkListReq?
    ensures RoundTrips(m)
  {
    hide UplinkListBytes, UplinkListAddr, UplinkListFCnt, UplinkListKey, UplinkLimitPL.ToU8, UplinkLimitPL.FromU8;
    hide EncodePayload, ParsePayload, PayloadLen;
    if EncodePayload(m).Ok? {
      UplinkListPrinted(m);
      UplinkListParsed(EncodePayload(m).value);
      UplinkLimitRoundTrip(m.uplinkLimit);
      UplinkListRoundTrip(m.uplinkListIdx, m.uplinkLimit.ToU8().value, m.devAddr, m.wFCnt, m.rootWorSKey);
    }
  }

  lemma FwdLimitRoundTrip(rate: FwdLimitReloadRatePL, capacity: FwdLimitLoadCapacityPL)
    ensures FwdLimitBytes(rate, capacity).Ok? ==>
              var b := FwdLimitBytes(rate, capacity).value;
              && FwdLimitReloadRatePL.FromBytes(b[0], b[1], b[2], b[3]) == Ok(rate)
              && FwdLimitLoadCapacityPL.FromU8(b[4]) == capacity
  {
    if rate.InRange() {
      hide FwdLimitReloadRatePL.Byte0, FwdLimitReloadRatePL.Byte1, FwdLimitReloadRatePL.Byte2;
      hide FwdLimitReloadRatePL.Byte3;
      hide FwdLimitReloadRatePL.FromBytes, FwdLimitLoadCapacityPL.ToU8, FwdLimitLoadCapacityPL.FromU8;
      FwdLimitReloadRateRoundTrip(rate);
      FwdLimitLoadCapacityRoundTrip(capacity);
    }
  }

  lemma FwdLimitParsed(b: bytes)
    requires |b| == 5
    ensures PayloadLen(ConfigureFwdLimitReqId, b) == Some(5)
    ensures ParsePayload(ConfigureFwdLimitReqId, b) ==
            match FwdLimitReloadRatePL.FromBytes(b[0], b[1], b[2], b[3])
            case Err => Err
            case Ok(r) => Ok(ConfigureFwdLimitReq(r, FwdLimitLoadCapacityPL.FromU8(b[4])))
  {
    hide ParsePayload, FilterLen, FwdLimitReloadRatePL.FromBytes, FwdLimitLoadCapacityPL.FromU8;
    SettingReads(ConfigureFwdLimitReqId, b);
  }

  lemma ConfigureFwdLimitReqs(m: MACCommand)
    requires m.ConfigureFwdLimitReq?
    ensures RoundTrips(m)
  {
    hide EncodePayload, ParsePayload, PayloadLen, FwdLimitBytes;
    hide FwdLimitReloadRatePL.FromBytes, FwdLimitLoadCapacityPL.FromU8;
    SettingPrints(m);
    if EncodeSetting(m).Ok? {
      FwdLimitParsed(EncodeSetting(m).value);
      FwdLimitRoundTrip(m.reloadRate, m.loadCapacity);
    }
  }

  lemma PowerLevelClamped(v: PowerLevel)
    ensures v.Clamped() == v <==> -20 <= v.worSnr <= 11 && -142 <= v.worRssi <= -15
  {}

  lemma NotificationPrinted(m: MACCommand)
    requires m.NotifyNewEndDeviceReq?
    ensures EncodePayload(m) == Ok(Reverse(m.newDevAddr) + [m.powerLevel.Byte0(), m.powerLevel.Byte1()])
  {
    hide PowerLevel.Byte0, PowerLevel.Byte1;
    var d := Reverse(m.newDevAddr);
    assert [d[0], d[1], d[2], d[3], m.powerLevel.Byte0(), m.powerLevel.Byte1()] ==
           d + [m.powerLevel.Byte0(), m.powerLevel.Byte1()];
  }

  lemma NotificationParsed(b: bytes)
    requires |b| == 6
    ensures PayloadLen(NotifyNewEndDeviceReqId, b) == Some(6)
    ensures ParsePayload(NotifyNewEndDeviceReqId, b) ==
            Ok(NotifyNewEndDeviceReq(Reverse(b[..4]), PowerLevel.FromBytes(b[4], b[5])))
  {
    hide PowerLevel.FromBytes, FilterLen;
    assert [b[0], b[1], b[2], b[3]] == b[..4];
  }

  lemma NotifyNewEndDeviceReqs(m: MACCommand)
    requires m.NotifyNewEndDeviceReq?
    ensures RoundTrips(m)
  {
    hide PowerLevel.Byte0, PowerLevel.Byte1, PowerLevel.FromBytes, EncodePayload, ParsePayload, PayloadLen;
    NotificationPrinted(m);
    var e := EncodePayload(m).value;
    NotificationParsed(e);
    assert e[..4] == Reverse(m.newDevAddr);
    ReverseReverse(m.newDevAddr);
    PowerLevelRoundTrip(m.powerLevel);
    PowerLevelClamped(m.powerLevel);
  }

  // FilterListReq: the decoder's length mask 0x17 leaves out bit 3, so filters of 8 to 15 bytes come back short.

  lemma FilterHeadFields(len: u8, action: FilterListAction, idx: u8)
    requires len <= 16 && idx <= 15
    ensures var h := FilterListHead(len, action, idx);
            && h & 0x17 == len & 0x17
            && FilterListAction.FromU8((h & 0x60) >> 5) == Ok(action)
            && FilterListIdx(h, idx >> 1) == idx
  {}

  lemma MaskedFilterLen(len: u8)
    requires len <= 16
    ensures len & 0x17 <= len
    ensures len & 0x17 == len <==> len <= 7 || len == 16
  {}

  lemma FilterLenOf(n: nat)
    requires n <= 16
    ensures Byte(n) <= 16
    ensures Val(Byte(n) & 0x17) <= n
    ensures Val(Byte(n) & 0x17) == n <==> n < 8 || n == 16
  {
    var len := Byte(n);
    ValByte(n);
    ValIsInt(7);
    ValIsInt(16);
    ByteOrder(n, 7);
    ByteOrder(n, 16);
    MaskedFilterLen(len);
    if len & 0x17 != len {
      ValMonotone(len & 0x17, len);
    }
    if len == 16 {
      assert Val(len) == 16;
    } else {
      ByteVal(len);
      ByteVal(16);
    }
  }

  lemma FilterListRoundTrip(idx: u8, action: FilterListAction, eui: bytes)
    requires idx <= 15 && |eui| <= 16
    ensures var b := FilterListBytes(idx, action, eui);
            && FilterLen(b[0]) <= |eui|
            && (FilterLen(b[0]) == |eui| <==> |eui| < 8 || |eui| == 16)
            && FilterListAction.FromU8((b[0] & 0x60) >> 5) == Ok(action)
            && FilterListIdx(b[0], b[1]) == idx
            && Reverse(b[2..]) == eui
  {
    hide FilterListHead;
    FilterLenOf(|eui|);
    FilterHeadFields(Byte(|eui|), action, idx);
    ReverseReverse(eui);
    assert FilterListBytes(idx, action, eui)[2..] == Reverse(eui);
  }

  // The inverse reading: what is parsed bears its identifier and is canonical, but for filters too long to send.

  ghost predicate Parses(cid: CID, b: bytes)
    requires !cid.RawId?
  {
    PayloadLen(cid, b) == Some(|b|) ==> ReadsAs(cid, ParsePayload(cid, b))
  }

  ghost predicate ReadsAs(cid: CID, r: Result<MACCommand>) {
    r.Ok? ==> r.value.Cid() == cid && (Canonical(r.value) || r.value.FilterListReq?)
  }

  /** Identifiers of commands without a payload, each with the command it is read as. */
  lemma EmptyParse(cid: CID)
    requires EmptyId(cid)
    ensures ReadsAs(cid, ParseEmpty(cid))
  {
    match cid
    case LinkCheckReqId => EmptyIds(LinkCheckReq);
    case DutyCycleAnsId => EmptyIds(DutyCycleAns);
    case DevStatusReqId => EmptyIds(DevStatusReq);
    case RxTimingSetupAnsId => EmptyIds(RxTimingSetupAns);
    case TxParamSetupAnsId => EmptyIds(TxParamSetupAns);
    case ADRParamSetupAnsId => EmptyIds(ADRParamSetupAns);
    case DeviceTimeReqId => EmptyIds(DeviceTimeReq);
    case PingSlotInfoAnsId => EmptyIds(PingSlotInfoAns);
    case UpdateUplinkListAnsId => EmptyIds(UpdateUplinkListAns);
    case ConfigureFwdLimitAnsId => EmptyIds(ConfigureFwdLimitAns);
  }

  lemma VersionParse(cid: CID, b: bytes)
    requires (cid.ResetIndId? || cid.ResetConfId? || cid.RekeyConfId? || cid.RekeyIndId?) &&
             PayloadLen(cid, b) == Some(|b|)
    ensures ReadsAs(cid, ParseEnum(cid, b))
  {
    hide PayloadLen, Version.FromU8;
  }

  lemma ClassParse(cid: CID, b: bytes)
    requires (cid.DeviceModeIndId? || cid.DeviceModeConfId?) && PayloadLen(cid, b) == Some(|b|)
    ensures ReadsAs(cid, ParseEnum(cid, b))
  {
    hide PayloadLen, DeviceModeClass.FromU8;
  }

  lemma EnumParse(cid: CID, b: bytes)
    requires EnumId(cid) && PayloadLen(cid, b) == Some(|b|)
    ensures ReadsAs(cid, ParseEnum(cid, b))
  {
    hide PayloadLen, ParseEnum, ReadsAs;
    if cid.ResetIndId? || cid.ResetConfId? || cid.RekeyConfId? || cid.RekeyIndId? {
      VersionParse(cid, b);
    } else {
      ClassParse(cid, b);
    }
  }

  lemma AnswerParse(cid: CID, b: bytes)
    requires (cid.LinkADRAnsId? || cid.RxParamSetupAnsId? || cid.NewChannelAnsId? || cid.DlChannelAnsId?) &&
             PayloadLen(cid, b) == Some(|b|)
    ensures ReadsAs(cid, ParseFlags(cid, b))
  {
    hide PayloadLen;
  }

  lemma MoreAnswerParse(cid: CID, b: bytes)
    requires (cid.RejoinParamSetupAnsId? || cid.PingSlotChannelAnsId? || cid.BeaconFreqAnsId?) &&
             PayloadLen(cid, b) == Some(|b|)
    ensures ReadsAs(cid, ParseFlags(cid, b))
  {
    hide PayloadLen;
  }

  lemma RelayAnswerParse(cid: CID, b: bytes)
    requires (cid.RelayConfAnsId? || cid.EndDeviceConfAnsId? || cid.FilterListAnsId?) && PayloadLen(cid, b) == Some(|b|)
    ensures ReadsAs(cid, ParseFlags(cid, b))
  {
    hide PayloadLen;
  }

  lemma FlagsParse(cid: CID, b: bytes)
    requires FlagsId(cid) && PayloadLen(cid, b) == Some(|b|)
    ensures ReadsAs(cid, ParseFlags(cid, b))
  {
    hide PayloadLen, ParseFlags, ReadsAs;
    if cid.LinkADRAnsId? || cid.RxParamSetupAnsId? || cid.NewChannelAnsId? || cid.DlChannelAnsId? {
      AnswerParse(cid, b);
    } else if cid.RejoinParamSetupAnsId? || cid.PingSlotChannelAnsId? || cid.BeaconFreqAnsId? {
      MoreAnswerParse(cid, b);
    } else {
      RelayAnswerParse(cid, b);
    }
  }

  lemma ByteParse(cid: CID, b: bytes)
    requires ByteId(cid) && PayloadLen(cid, b) == Some(|b|)
    ensures ReadsAs(cid, ParseByte(cid, b))
  {
    hide PayloadLen, ADRParam.FromU8, CtrlUplinkActionPL.FromU8;
  }

  lemma DeviceTimeParse(cid: CID, b: bytes)
    requires cid.DeviceTimeAnsId? && PayloadLen(cid, b) == Some(|b|)
    ensures ReadsAs(cid, ParseSetting(cid, b))
  {
    DeviceTimeCanonical(b);
    hide PayloadLen, SecondsOf, NanosOf;
  }

  lemma LinkParse(cid: CID, b: bytes)
    requires (cid.LinkCheckAnsId? || cid.LinkADRReqId? || cid.ForceRejoinReqId?) && PayloadLen(cid, b) == Some(|b|)
    ensures ReadsAs(cid, ParseSetting(cid, b))
  {
    hide PayloadLen, Redundancy.FromU8, MaskFromBytes;
  }

  lemma StatusParse(cid: CID, b: bytes)
    requires cid.DevStatusAnsId? && PayloadLen(cid, b) == Some(|b|)
    ensures ReadsAs(cid, ParseSetting(cid, b))
  {
    hide PayloadLen, MarginFromU8;
  }

  lemma CtrlListParse(cid: CID, b: bytes)
    requires cid.CtrlUplinkListAnsId? && PayloadLen(cid, b) == Some(|b|)
    ensures ReadsAs(cid, ParseSetting(cid, b))
  {
    hide PayloadLen, FromLe32;
  }

  lemma LimitParse(cid: CID, b: bytes)
    requires cid.ConfigureFwdLimitReqId? && PayloadLen(cid, b) == Some(|b|)
    ensures ReadsAs(cid, ParseSetting(cid, b))
  {
    hide PayloadLen, FwdLimitReloadRatePL.FromBytes, FwdLimitLoadCapacityPL.FromU8;
  }

  lemma SettingParse(cid: CID, b: bytes)
    requires SettingId(cid) && PayloadLen(cid, b) == Some(|b|)
    ensures ReadsAs(cid, ParseSetting(cid, b))
  {
    hide PayloadLen, ParseSetting, ReadsAs;
    if cid.DeviceTimeAnsId? {
      DeviceTimeParse(cid, b);
    } else if cid.LinkCheckAnsId? || cid.LinkADRReqId? || cid.ForceRejoinReqId? {
      LinkParse(cid, b);
    } else if cid.DevStatusAnsId? {
      StatusParse(cid, b);
    } else if cid.CtrlUplinkListAnsId? {
      CtrlListParse(cid, b);
    } else {
      LimitParse(cid, b);
    }
  }

  lemma DeviceTimeCanonical(b: bytes)
    requires |b| == 5
    ensures SecondsOf(b) < 0x1_0000_0000 && NanosOf(b) % 3906250 == 0
  {}

  lemma FreqAtCanonical(b: bytes, i: nat)
    requires i + 3 <= |b|
    ensures CanonicalFreq(FreqAt(b, i))
  {
    EncodeDecodedFreq([b[i], b[i + 1], b[i + 2]]);
  }

  lemma LowNibble(b: u8)
    ensures b & 0x0f <= 15 && (b & 0xf0) >> 4 <= 15
  {}

  /** Where the frequency of a payload lies. */
  function FreqPlace(cid: CID): nat {
    match cid
    case PingSlotChannelReqId | BeaconFreqReqId => 0
    case RelayConfReqId => 2
    case EndDeviceConfReqId => 3
    case _ => 1
  }

  lemma ChannelLen(cid: CID, b: bytes)
    requires ChannelId(cid) && PayloadLen(cid, b) == Some(|b|)
    ensures FreqPlace(cid) + 3 <= |b|
  {}

  lemma RxParamParse(cid: CID, b: bytes)
    requires cid.RxParamSetupReqId? && PayloadLen(cid, b) == Some(|b|)
    ensures ReadsAs(cid, ParseChannel(cid, b))
  {
    ChannelLen(cid, b);
    hide PayloadLen, FreqAt, DLSettings.FromU8;
    FreqAtCanonical(b, FreqPlace(cid));
  }

  lemma FreqParse(cid: CID, b: bytes)
    requires (cid.DlChannelReqId? || cid.BeaconFreqReqId?) && PayloadLen(cid, b) == Some(|b|)
    ensures ReadsAs(cid, ParseChannel(cid, b))
  {
    ChannelLen(cid, b);
    hide PayloadLen, FreqAt;
    FreqAtCanonical(b, FreqPlace(cid));
  }

  lemma DataRateParse(cid: CID, b: bytes)
    requires (cid.NewChannelReqId? || cid.PingSlotChannelReqId?) && PayloadLen(cid, b) == Some(|b|)
    ensures ReadsAs(cid, ParseChannel(cid, b))
  {
    ChannelLen(cid, b);
    hide PayloadLen, FreqAt, DLSettings.FromU8;
    FreqAtCanonical(b, FreqPlace(cid));
    LowNibble(b[|b| - 1]);
  }

  lemma RelayChannelReadsAs(settings: ChannelSettingsRelay, freq: Hz)
    requires CanonicalFreq(freq)
    ensures ReadsAs(RelayConfReqId, Ok(RelayConfReq(settings, freq)))
  {
    hide CanonicalFreq;
  }

  lemma RelayChannelParse(cid: CID, b: bytes)
    requires cid.RelayConfReqId? && PayloadLen(cid, b) == Some(|b|)
    ensures ReadsAs(cid, ParseChannel(cid, b))
  {
    ChannelLen(cid, b);
    hide PayloadLen, FreqAt, ChannelSettingsRelay.FromBytes, ReadsAs, CanonicalFreq;
    FreqAtCanonical(b, 2);
    RelayChannelReadsAs(ChannelSettingsRelay.FromBytes(b[0], b[1]), FreqAt(b, 2));
  }

  lemma EndDeviceChannelReadsAs(activation: ActivationRelayMode, settings: ChannelSettingsED, freq: Hz)
    requires CanonicalFreq(freq)
    ensures ReadsAs(EndDeviceConfReqId, Ok(EndDeviceConfReq(activation, settings, freq)))
  {
    hide CanonicalFreq;
  }

  lemma EndDeviceChannelParse(cid: CID, b: bytes)
    requires cid.EndDeviceConfReqId? && PayloadLen(cid, b) == Some(|b|)
    ensures ReadsAs(cid, ParseChannel(cid, b))
  {
    ChannelLen(cid, b);
    FailedReadsAs(cid);
    hide PayloadLen, FreqAt, ChannelSettingsED.FromBytes, ActivationRelayMode.FromU8, ReadsAs, CanonicalFreq;
    FreqAtCanonical(b, 3);
    if ActivationRelayMode.FromU8(b[0]).Ok? {
      EndDeviceChannelReadsAs(ActivationRelayMode.FromU8(b[0]).value, ChannelSettingsED.FromBytes(b[1], b[2]),
                              FreqAt(b, 3));
    }
  }

  lemma FailedReadsAs(cid: CID)
    ensures ReadsAs(cid, Err)
  {}

  lemma ChannelParse(cid: CID, b: bytes)
    requires ChannelId(cid) && PayloadLen(cid, b) == Some(|b|)
    ensures ReadsAs(cid, ParseChannel(cid, b))
  {
    hide PayloadLen, ParseChannel, ReadsAs;
    if cid.RxParamSetupReqId? {
      RxParamParse(cid, b);
    } else if cid.DlChannelReqId? || cid.BeaconFreqReqId? {
      FreqParse(cid, b);
    } else if cid.NewChannelReqId? || cid.PingSlotChannelReqId? {
      DataRateParse(cid, b);
    } else if cid.RelayConfReqId? {
      RelayChannelParse(cid, b);
    } else {
      EndDeviceChannelParse(cid, b);
    }
  }

  lemma NotificationParse(cid: CID, b: bytes)
    requires cid.NotifyNewEndDeviceReqId? && PayloadLen(cid, b) == Some(|b|)
    ensures ReadsAs(cid, ParseDevice(cid, b))
  {
    PowerLevelDecoded(b[4], b[5]);
    PowerLevelClamped(PowerLevel.FromBytes(b[4], b[5]));
    hide PayloadLen, PowerLevel.FromBytes, PowerLevel.Clamped;
  }

  lemma UplinkListParse(cid: CID, b: bytes)
    requires cid.UpdateUplinkListReqId? && PayloadLen(cid, b) == Some(|b|)
    ensures ReadsAs(cid, ParseDevice(cid, b))
  {
    hide PayloadLen, UplinkLimitPL.FromU8, UplinkListAddr, UplinkListFCnt, UplinkListKey;
  }

  lemma FilterParse(cid: CID, b: bytes)
    requires cid.FilterListReqId? && PayloadLen(cid, b) == Some(|b|)
    ensures ReadsAs(cid, ParseDevice(cid, b))
  {
    hide PayloadLen, FilterListAction.FromU8, FilterListIdx;
  }

  lemma DeviceParse(cid: CID, b: bytes)
    requires DeviceId(cid) && PayloadLen(cid, b) == Some(|b|)
    ensures ReadsAs(cid, ParseDevice(cid, b))
  {
    hide PayloadLen, ParseDevice, ReadsAs;
    if cid.NotifyNewEndDeviceReqId? {
      NotificationParse(cid, b);
    } else if cid.UpdateUplinkListReqId? {
      UplinkListParse(cid, b);
    } else {
      FilterParse(cid, b);
    }
  }

  lemma CidGroups(cid: CID)
    requires !cid.RawId?
    ensures || EmptyId(cid) || EnumId(cid) || FlagsId(cid) || ByteId(cid) || SettingId(cid) || ChannelId(cid) ||
            DeviceId(cid)
  {}

  lemma AllParse(cid: CID, b: bytes)
    requires !cid.RawId?
    ensures Parses(cid, b)
  {
    CidGroups(cid);
    hide PayloadLen, ParsePayload, ReadsAs;
    hide ParseEmpty, ParseEnum, ParseFlags, ParseByte, ParseSetting, ParseChannel, ParseDevice;
    hide EmptyId, EnumId, FlagsId, ByteId, SettingId, ChannelId, DeviceId;
    if PayloadLen(cid, b) == Some(|b|) {
      if EmptyId(cid) {
        EmptyReads(cid, b);
        EmptyParse(cid);
      } else if EnumId(cid) {
        EnumReads(cid, b);
        EnumParse(cid, b);
      } else if FlagsId(cid) {
        FlagsReads(cid, b);
        FlagsParse(cid, b);
      } else if ByteId(cid) {
        ByteReads(cid, b);
        ByteParse(cid, b);
      } else if SettingId(cid) {
        SettingReads(cid, b);
        SettingParse(cid, b);
      } else if ChannelId(cid) {
        ChannelReads(cid, b);
        ChannelParse(cid, b);
      } else {
        DeviceReads(cid, b);
        DeviceParse(cid, b);
      }
    }
  }

  lemma AllRoundTrip(m: MACCommand)
    requires !m.Raw? && !m.FilterListReq?
    ensures RoundTrips(m)
  {
    hide RoundTrips;
    if IsEmpty(m) {
      NoPayloads(m);
    } else if m.LinkADRAns? || m.RxParamSetupAns? || m.NewChannelAns? || m.DlChannelAns? {
      Answers(m);
    } else if m.RejoinParamSetupAns? {
      RejoinParamSetupAnswers(m);
    } else if m.BeaconFreqAns? {
      BeaconFreqAnswers(m);
    } else if m.PingSlotChannelAns? {
      PingSlotChannelAnswers(m);
    } else if m.FilterListAns? {
      FilterListAnswers(m);
    } else if m.ResetInd? || m.ResetConf? {
      Versions(m);
    } else if m.RekeyInd? || m.RekeyConf? {
      RekeyVersions(m);
    } else if m.DeviceModeInd? || m.DeviceModeConf? {
      Classes(m);
    } else if m.DutyCycleReq? || m.RxTimingSetupReq? || m.PingSlotInfoReq? {
      PlainBytes(m);
    } else if m.TxParamSetupReq? || m.RejoinParamSetupReq? {
      PackedBytes(m);
    } else if m.LinkCheckAns? {
      LinkCheckAnswers(m);
    } else if m.ForceRejoinReq? {
      ForceRejoinReqs(m);
    } else {
      OthersRoundTrip(m);
    }
  }

  lemma OthersRoundTrip(m: MACCommand)
    requires || m.RelayConfAns? || m.EndDeviceConfAns? || m.CtrlUplinkListAns? || m.ADRParamSetupReq? ||
             m.CtrlUplinkListReq?
             || m.LinkADRReq? || m.RxParamSetupReq? || m.NewChannelReq? || m.DlChannelReq? || m.PingSlotChannelReq?
             || m.BeaconFreqReq? || m.RelayConfReq? || m.EndDeviceConfReq? || m.DevStatusAns? || m.DeviceTimeAns?
             || m.UpdateUplinkListReq? || m.ConfigureFwdLimitReq? || m.NotifyNewEndDeviceReq?
    ensures RoundTrips(m)
  {
    hide RoundTrips;
    if m.RelayConfAns? { RelayConfAnswers(m); }
    if m.EndDeviceConfAns? { EndDeviceConfAnswers(m); }
    if m.CtrlUplinkListAns? { CtrlUplinkListAnswers(m); }
    if m.ADRParamSetupReq? { ADRParamSetupReqs(m); }
    if m.CtrlUplinkListReq? { CtrlUplinkListReqs(m); }
    if m.LinkADRReq? { LinkADRReqs(m); }
    if m.RxParamSetupReq? { RxParamSetupReqs(m); }
    if m.NewChannelReq? { NewChannelReqs(m); }
    if m.DlChannelReq? { DlChannelReqs(m); }
    if m.PingSlotChannelReq? { PingSlotChannelReqs(m); }
    if m.BeaconFreqReq? { BeaconFreqReqs(m); }
    if m.RelayConfReq? { RelayConfReqs(m); }
    if m.EndDeviceConfReq? { EndDeviceConfReqs(m); }
    if m.DevStatusAns? { DevStatusAnswers(m); }
    if m.DeviceTimeAns? { DeviceTimeAnswers(m); }
    if m.UpdateUplinkListReq? { UpdateUplinkListReqs(m); }
    if m.ConfigureFwdLimitReq? { ConfigureFwdLimitReqs(m); }
    if m.NotifyNewEndDeviceReq? { NotifyNewEndDeviceReqs(m); }
  }
}
