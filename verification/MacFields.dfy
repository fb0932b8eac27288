/** The bit-field structures inside MAC-command payloads (lrwn/src/maccommand.rs), DLSettings and ChMask. */
module MacFields {
  import opened Bytes

  function Flag(on: bool, bit: u8): u8 {
    if on then bit else 0
  }

  // A byte of flags, from the lowest bit up.

  function Flags2(a: bool, b: bool): u8 {
    Flag(a, 0x01) | Flag(b, 0x02)
  }

  function Flags3(a: bool, b: bool, c: bool): u8 {
    Flag(a, 0x01) | Flag(b, 0x02) | Flag(c, 0x04)
  }

  function Flags4(a: bool, b: bool, c: bool, d: bool): u8 {
    Flag(a, 0x01) | Flag(b, 0x02) | Flag(c, 0x04) | Flag(d, 0x08)
  }

  function Flags6(a: bool, b: bool, c: bool, d: bool, e: bool, f: bool): u8 {
    Flag(a, 0x01) | Flag(b, 0x02) | Flag(c, 0x04) | Flag(d, 0x08) | Flag(e, 0x10) | Flag(f, 0x20)
  }

  datatype DLSettings = DLSettings(optNeg: bool, rx2Dr: u8, rx1DrOffset: u8)
  {
    function ToU8(): Result<u8> {
      if rx2Dr > 15 || rx1DrOffset > 7 then Err
      else Ok((rx2Dr | (rx1DrOffset << 4)) | Flag(optNeg, 0x80))
    }

    static function FromU8(b: u8): DLSettings {
      DLSettings(b & 0x80 != 0, b & 15, (b & 112) >> 4)
    }
  }

  lemma DLSettingsRoundTrip(v: DLSettings, b: u8)
    ensures v.ToU8().Ok? ==> DLSettings.FromU8(v.ToU8().value) == v
    ensures DLSettings.FromU8(b).ToU8() == Ok(b)
  {}

  /** The channels usable for uplink; index 0 is channel 1. */
  type ChMask = m: seq<bool> | |m| == 16
    witness [false, false, false, false, false, false, false, false, false, false, false, false, false, false, false,
             false]

  /** Bit i of the byte says whether channel i of these eight is usable. */
  function PackMask(m: seq<bool>): u8
    requires |m| == 8
  {
    Flag(m[0], 0x01) | Flag(m[1], 0x02) | Flag(m[2], 0x04) | Flag(m[3], 0x08)
    | Flag(m[4], 0x10) | Flag(m[5], 0x20) | Flag(m[6], 0x40) | Flag(m[7], 0x80)
  }

  function UnpackMask(b: u8): (m: seq<bool>)
    ensures |m| == 8
  {
    [b & 0x01 != 0, b & 0x02 != 0, b & 0x04 != 0, b & 0x08 != 0,
     b & 0x10 != 0, b & 0x20 != 0, b & 0x40 != 0, b & 0x80 != 0]
  }

  lemma PackUnpack(m: seq<bool>)
    requires |m| == 8
    ensures UnpackMask(PackMask(m)) == m
  {}

  lemma UnpackPack(b: u8)
    ensures PackMask(UnpackMask(b)) == b
  {}

  /** The mask as a little-endian u16: channels 1..8 in the first byte, 9..16 in the second. */
  function MaskToBytes(m: ChMask): (b: bytes)
    ensures |b| == 2
  {
    [PackMask(m[..8]), PackMask(m[8..])]
  }

  function MaskFromBytes(b0: u8, b1: u8): ChMask {
    UnpackMask(b0) + UnpackMask(b1)
  }

  lemma MaskRoundTrip(m: ChMask)
    ensures MaskFromBytes(MaskToBytes(m)[0], MaskToBytes(m)[1]) == m
  {
    PackUnpack(m[..8]);
    PackUnpack(m[8..]);
  }

  lemma MaskBytesRoundTrip(b0: u8, b1: u8)
    ensures MaskToBytes(MaskFromBytes(b0, b1)) == [b0, b1]
  {
    UnpackPack(b0);
    UnpackPack(b1);
    var m := MaskFromBytes(b0, b1);
    assert m[..8] == UnpackMask(b0) && m[8..] == UnpackMask(b1);
  }

  datatype Version = LoRaWAN1_1
  {
    function ToU8(): u8 { 0x01 }

    static function FromU8(v: u8): Result<Version> {
      if v == 0x01 then Ok(LoRaWAN1_1) else Err
    }
  }

  datatype DwellTime = NoLimit | Limit400ms

  datatype DeviceModeClass = ClassA | ClassC
  {
    function ToU8(): u8 {
      if ClassA? then 0x00 else 0x02
    }

    static function FromU8(v: u8): Result<DeviceModeClass> {
      if v == 0x00 then Ok(ClassA) else if v == 0x02 then Ok(ClassC) else Err
    }
  }

  datatype Redundancy = Redundancy(chMaskCntl: u8, nbRep: u8)
  {
    function ToU8(): Result<u8> {
      if nbRep > 15 || chMaskCntl > 7 then Err else Ok(nbRep | (chMaskCntl << 4))
    }

    static function FromU8(b: u8): Redundancy {
      Redundancy((b & 0x70) >> 4, b & 0x0f)
    }
  }

  lemma RedundancyRoundTrip(v: Redundancy)
    ensures v.ToU8().Ok? ==> Redundancy.FromU8(v.ToU8().value) == v
  {}

  datatype ADRParam = ADRParam(limitExp: u8, delayExp: u8)
  {
    function ToU8(): Result<u8> {
      if limitExp > 15 || delayExp > 15 then Err else Ok(delayExp | (limitExp << 4))
    }

    static function FromU8(b: u8): ADRParam {
      ADRParam(b >> 4, b & 0x0f)
    }
  }

  lemma ADRParamRoundTrip(v: ADRParam)
    ensures v.ToU8().Ok? ==> ADRParam.FromU8(v.ToU8().value) == v
  {}

  datatype ChannelSettingsRelay = ChannelSettingsRelay(
    startStop: u8, cadPeriodicity: u8, defaultChIdx: u8, secondChIdx: u8, secondChDr: u8, secondChAckOffset: u8)
  {
    predicate InRange() {
      startStop <= 1 && cadPeriodicity <= 7 && defaultChIdx <= 1 && secondChIdx <= 1 && secondChDr <= 15 &&
        secondChAckOffset <= 7
    }

    function Byte0(): u8 {
      secondChAckOffset | (secondChDr << 3) | (secondChIdx << 7)
    }

    function Byte1(): u8 {
      (secondChIdx >> 1) | (defaultChIdx << 1) | (cadPeriodicity << 2) | (startStop << 5)
    }

    static function FromBytes(b0: u8, b1: u8): ChannelSettingsRelay {
      ChannelSettingsRelay((b1 & 0x20) >> 5, (b1 & 0x1c) >> 2, (b1 & 0x02) >> 1,
                           ((b0 & 0x80) >> 7) | ((b1 & 0x01) << 1), (b0 & 0x78) >> 3, b0 & 0x07)
    }
  }

  lemma ChannelSettingsRelayRoundTrip(v: ChannelSettingsRelay)
    ensures v.InRange() ==> ChannelSettingsRelay.FromBytes(v.Byte0(), v.Byte1()) == v
  {}

  datatype RelayModeActivation = DisableRelayMode | EnableRelayMode | Dynamic | EndDeviceControlled
  {
    function ToU8(): u8 {
      match this
      case DisableRelayMode => 0x00
      case EnableRelayMode => 0x01
      case Dynamic => 0x02
      case EndDeviceControlled => 0x03
    }

    static function FromU8(v: u8): Result<RelayModeActivation> {
      if v == 0x00 then Ok(DisableRelayMode)
      else if v == 0x01 then Ok(EnableRelayMode)
      else if v == 0x02 then Ok(Dynamic)
      else if v == 0x03 then Ok(EndDeviceControlled)
      else Err
    }
  }

  datatype ActivationRelayMode = ActivationRelayMode(relayModeActivation: RelayModeActivation, smartEnableLevel: u8)
  {
    function ToU8(): Result<u8> {
      if smartEnableLevel > 3 then Err else Ok((relayModeActivation.ToU8() << 2) | smartEnableLevel)
    }

    static function FromU8(b: u8): Result<ActivationRelayMode> {
      var mode :- RelayModeActivation.FromU8((b & 0x0c) >> 2);
      Ok(ActivationRelayMode(mode, b & 0x03))
    }
  }

  lemma ActivationRelayModeRoundTrip(v: ActivationRelayMode)
    ensures v.ToU8().Ok? ==> ActivationRelayMode.FromU8(v.ToU8().value) == Ok(v)
  {}

  datatype ChannelSettingsED = ChannelSettingsED(secondChAckOffset: u8, secondChDr: u8, secondChIdx: u8, backoff: u8)
  {
    predicate InRange() {
      secondChAckOffset <= 7 && secondChDr <= 15 && secondChIdx <= 3 && backoff <= 63
    }

    function Byte0(): u8 {
      secondChAckOffset | (secondChDr << 3) | (secondChIdx << 7)
    }

    function Byte1(): u8 {
      (secondChIdx >> 1) | (backoff << 1)
    }

    static function FromBytes(b0: u8, b1: u8): ChannelSettingsED {
      ChannelSettingsED(b0 & 0x07, (b0 & 0x78) >> 3, ((b0 & 0x80) >> 7) | ((b1 & 0x01) << 1), (b1 & 0x7e) >> 1)
    }
  }

  lemma ChannelSettingsEDRoundTrip(v: ChannelSettingsED)
    ensures v.InRange() ==> ChannelSettingsED.FromBytes(v.Byte0(), v.Byte1()) == v
  {}

  datatype FilterListAction = NoRule | Forward | Filter
  {
    function ToU8(): u8 {
      match this
      case NoRule => 0x00
      case Forward => 0x01
      case Filter => 0x02
    }

    static function FromU8(v: u8): Result<FilterListAction> {
      if v == 0x00 then Ok(NoRule) else if v == 0x01 then Ok(Forward) else if v == 0x02 then Ok(Filter) else Err
    }
  }

  datatype UplinkLimitPL = UplinkLimitPL(reloadRate: u8, bucketSize: u8)
  {
    function ToU8(): Result<u8> {
      if reloadRate > 63 || bucketSize > 3 then Err else Ok(reloadRate | (bucketSize << 6))
    }

    static function FromU8(v: u8): UplinkLimitPL {
      UplinkLimitPL(v & 0x3f, (v & 0xc0) >> 6)
    }
  }

  lemma UplinkLimitRoundTrip(v: UplinkLimitPL)
    ensures v.ToU8().Ok? ==> UplinkLimitPL.FromU8(v.ToU8().value) == v
  {}

  datatype CtrlUplinkActionPL = CtrlUplinkActionPL(uplinkListIdx: u8, ctrlUplinkAction: u8)
  {
    function ToU8(): Result<u8> {
      if uplinkListIdx > 15 || ctrlUplinkAction > 1 then Err else Ok(uplinkListIdx | (ctrlUplinkAction << 4))
    }

    static function FromU8(v: u8): CtrlUplinkActionPL {
      CtrlUplinkActionPL(v & 0x0f, (v & 0x10) >> 4)
    }
  }

  lemma CtrlUplinkActionRoundTrip(v: CtrlUplinkActionPL)
    ensures v.ToU8().Ok? ==> CtrlUplinkActionPL.FromU8(v.ToU8().value) == v
  {}

  datatype ResetLimitCounter = TokenCounterToZero | TokenCounterToReloadRate | TokenCounterToMaxValue | NoChange
  {
    function ToU8(): u8 {
      match this
      case TokenCounterToZero => 0x00
      case TokenCounterToReloadRate => 0x01
      case TokenCounterToMaxValue => 0x02
      case NoChange => 0x03
    }

    static function FromU8(v: u8): Result<ResetLimitCounter> {
      if v == 0x00 then Ok(TokenCounterToZero)
      else if v == 0x01 then Ok(TokenCounterToReloadRate)
      else if v == 0x02 then Ok(TokenCounterToMaxValue)
      else if v == 0x03 then Ok(NoChange)
      else Err
    }
  }

  datatype FwdLimitReloadRatePL = FwdLimitReloadRatePL(
    overall: u8, globalUplink: u8, notify: u8, joinReq: u8, resetLimitCounter: ResetLimitCounter)
  {
    predicate InRange() {
      joinReq <= 127 && notify <= 127 && globalUplink <= 127 && overall <= 127
    }

    function Byte0(): u8 { overall | (globalUplink << 7) }
    function Byte1(): u8 { (globalUplink >> 1) | (notify << 6) }
    function Byte2(): u8 { (notify >> 2) | (joinReq << 5) }
    function Byte3(): u8 { (joinReq >> 3) | (resetLimitCounter.ToU8() << 4) }

    static function GlobalUplinkOf(b0: u8, b1: u8): u8 { (b0 >> 7) | ((b1 & 0x3f) << 1) }
    static function NotifyOf(b1: u8, b2: u8): u8 { (b1 >> 6) | ((b2 & 0x1f) << 2) }
    static function JoinReqOf(b2: u8, b3: u8): u8 { (b2 >> 5) | ((b3 & 0x0f) << 3) }

    static function FromBytes(b0: u8, b1: u8, b2: u8, b3: u8): Result<FwdLimitReloadRatePL> {
      var counter :- ResetLimitCounter.FromU8((b3 & 0x30) >> 4);
      Ok(FwdLimitReloadRatePL(b0 & 0x7f, GlobalUplinkOf(b0, b1), NotifyOf(b1, b2), JoinReqOf(b2, b3), counter))
    }

    lemma EachRate()
      requires InRange()
      ensures Byte0() & 0x7f == overall
      ensures GlobalUplinkOf(Byte0(), Byte1()) == globalUplink
      ensures NotifyOf(Byte1(), Byte2()) == notify
      ensures JoinReqOf(Byte2(), Byte3()) == joinReq
      ensures (Byte3() & 0x30) >> 4 == resetLimitCounter.ToU8()
    {}
  }

  lemma FwdLimitReloadRateRoundTrip(v: FwdLimitReloadRatePL)
    requires v.InRange()
    ensures FwdLimitReloadRatePL.FromBytes(v.Byte0(), v.Byte1(), v.Byte2(), v.Byte3()) == Ok(v)
  {
    hide FwdLimitReloadRatePL.Byte0, FwdLimitReloadRatePL.Byte1, FwdLimitReloadRatePL.Byte2, FwdLimitReloadRatePL.Byte3;
    hide FwdLimitReloadRatePL.GlobalUplinkOf, FwdLimitReloadRatePL.NotifyOf, FwdLimitReloadRatePL.JoinReqOf;
    v.EachRate();
  }

  datatype FwdLimitLoadCapacityPL = FwdLimitLoadCapacityPL(overall: u8, globalUplink: u8, notify: u8, joinReq: u8)
  {
    function ToU8(): Result<u8> {
      if overall > 3 || globalUplink > 3 || notify > 3 || joinReq > 3 then Err
      else Ok(overall | (globalUplink << 2) | (notify << 4) | (joinReq << 6))
    }

    static function FromU8(v: u8): FwdLimitLoadCapacityPL {
      FwdLimitLoadCapacityPL(v & 0x03, (v & 0x0c) >> 2, (v & 0x30) >> 4, (v & 0xc0) >> 6)
    }
  }

  lemma FwdLimitLoadCapacityRoundTrip(v: FwdLimitLoadCapacityPL)
    ensures v.ToU8().Ok? ==> FwdLimitLoadCapacityPL.FromU8(v.ToU8().value) == v
  {}

  function Clamp(x: int, lo: int, hi: int): int
    requires lo <= hi
  {
    if x < lo then lo else if x > hi then hi else x
  }

  /** Five bits of SNR and seven of RSSI, as PowerLevel and UplinkMetadata send them. */
  function SnrCode(snr: int): u8 {
    Byte(Clamp(snr, -20, 11) + 20)
  }

  function RssiCode(rssi: int): u8 {
    Byte(-(Clamp(rssi, -142, -15) + 15))
  }

  lemma SnrCodeRange(snr: int)
    ensures SnrCode(snr) <= 31
    ensures Val(SnrCode(snr)) - 20 == Clamp(snr, -20, 11)
  {
    ValByte(Clamp(snr, -20, 11) + 20);
    ValIsInt(31);
    ByteOrder(Clamp(snr, -20, 11) + 20, 31);
  }

  lemma RssiCodeRange(rssi: int)
    ensures RssiCode(rssi) <= 127
    ensures -15 - Val(RssiCode(rssi)) == Clamp(rssi, -142, -15)
  {
    ValByte(-(Clamp(rssi, -142, -15) + 15));
    ValIsInt(127);
    ByteOrder(-(Clamp(rssi, -142, -15) + 15), 127);
  }

  lemma SevenBits(b: u8)
    requires b <= 127
    ensures Val(b) <= 127
    ensures b <= 31 ==> Val(b) <= 31
  {
    ValIsInt(b);
  }

  datatype PowerLevel = PowerLevel(worSnr: int, worRssi: int)
  {
    function Byte0(): u8 { SnrCode(worSnr) | (RssiCode(worRssi) << 5) }
    function Byte1(): u8 { RssiCode(worRssi) >> 3 }

    static function FromBytes(b0: u8, b1: u8): PowerLevel {
      PowerLevel(Val(b0 & 0x1f) - 20, -15 - Val((b0 >> 5) | ((b1 & 0x0f) << 3)))
    }

    function Clamped(): PowerLevel {
      PowerLevel(Clamp(worSnr, -20, 11), Clamp(worRssi, -142, -15))
    }
  }

  lemma SplitSnrRssi(s: u8, r: u8)
    requires s <= 31 && r <= 127
    ensures (s | (r << 5)) & 0x1f == s
    ensures ((s | (r << 5)) >> 5) | (((r >> 3) & 0x0f) << 3) == r
  {}

  lemma PowerLevelRoundTrip(v: PowerLevel)
    ensures PowerLevel.FromBytes(v.Byte0(), v.Byte1()) == v.Clamped()
  {
    SnrCodeRange(v.worSnr);
    RssiCodeRange(v.worRssi);
    SplitSnrRssi(SnrCode(v.worSnr), RssiCode(v.worRssi));
  }

  lemma PowerLevelDecoded(b0: u8, b1: u8)
    ensures PowerLevel.FromBytes(b0, b1).Clamped() == PowerLevel.FromBytes(b0, b1)
  {
    MaskedRange(b0, b1);
    SevenBits(b0 & 0x1f);
    SevenBits((b0 >> 5) | ((b1 & 0x0f) << 3));
  }

  lemma MaskedRange(b0: u8, b1: u8)
    ensures b0 & 0x1f <= 31
    ensures (b0 >> 5) | ((b1 & 0x0f) << 3) <= 127
  {}
}
