/** Where every field of a printed MAC command lies, as numbers: the tables of section 5 of LoRaWAN 1.1 and of TS011. */
module CommandLayout {
  import opened Bytes
  import opened Words
  import opened Numbers
  import opened Helpers
  import opened MacFields
  import opened MacCommands
  import opened MacProofs
  import opened Reencoding
  import opened CFLists

  // One byte that names something

  predicate EnumLies(m: MACCommand, e: bytes) {
    match m
    case ResetInd(_) | ResetConf(_) | RekeyInd(_) | RekeyConf(_) => e == [0x01]
    case DeviceModeInd(c) => e == [if c.ClassA? then 0x00 else 0x02]
    case DeviceModeConf(c) => e == [if c.ClassA? then 0x00 else 0x02]
    case _ => false
  }

  lemma EnumLayout(m: MACCommand)
    requires IsEnum(m)
    ensures EncodeEnum(m).Ok? && EnumLies(m, EncodeEnum(m).value)
  {}

  // Flags, from the lowest bit up

  predicate FlagsLie(m: MACCommand, e: bytes) {
    && |e| == 1
    && match m
       case LinkADRAns(ch, dr, power) => Val(e[0]) == Digit(ch, 1) + Digit(dr, 2) + Digit(power, 4)
       case RxParamSetupAns(ch, rx2, rx1) => Val(e[0]) == Digit(ch, 1) + Digit(rx2, 2) + Digit(rx1, 4)
       case NewChannelAns(freq, range) => Val(e[0]) == Digit(freq, 1) + Digit(range, 2)
       case DlChannelAns(uplinkExists, freq) => Val(e[0]) == Digit(freq, 1) + Digit(uplinkExists, 2)
       case RejoinParamSetupAns(time) => Val(e[0]) == Digit(time, 1)
       case PingSlotChannelAns(dr, freq) => Val(e[0]) == Digit(freq, 1) + Digit(dr, 2)
       case BeaconFreqAns(freq) => Val(e[0]) == Digit(freq, 1)
       case RelayConfAns(freq, offset, dr, idx, defaultIdx, cad) =>
         Val(e[0]) == Digit(freq, 1) + Digit(offset, 2) + Digit(dr, 4) + Digit(idx, 8) + Digit(defaultIdx, 16)
                      + Digit(cad, 32)
       case EndDeviceConfAns(freq, dr, idx, backoff) =>
         Val(e[0]) == Digit(freq, 1) + Digit(dr, 2) + Digit(idx, 4) + Digit(backoff, 8)
       case FilterListAns(action, len, combined) => Val(e[0]) == Digit(action, 1) + Digit(len, 2) + Digit(combined, 4)
       case _ => false
  }

  lemma SixFlagsSum(a: bool, b: bool, c: bool, d: bool, e: bool, f: bool)
    ensures Val(Flags6(a, b, c, d, e, f)) ==
            Digit(a, 1) + Digit(b, 2) + Digit(c, 4) + Digit(d, 8) + Digit(e, 16) + Digit(f, 32)
  {
    ValIsSum(Flags6(a, b, c, d, e, f));
    hide Val;
  }

  lemma FourFlagsSum(a: bool, b: bool, c: bool, d: bool)
    ensures Val(Flags4(a, b, c, d)) == Digit(a, 1) + Digit(b, 2) + Digit(c, 4) + Digit(d, 8)
  {
    ValIsSum(Flags4(a, b, c, d));
    hide Val;
  }

  lemma ThreeFlagsSum(a: bool, b: bool, c: bool)
    ensures Val(Flags3(a, b, c)) == Digit(a, 1) + Digit(b, 2) + Digit(c, 4)
    ensures Val(Flags2(a, b)) == Digit(a, 1) + Digit(b, 2)
    ensures Val(Flag(a, 0x01)) == Digit(a, 1)
  {
    ValIsSum(Flags3(a, b, c));
    ValIsSum(Flags2(a, b));
    ValIsSum(Flag(a, 0x01));
    hide Val;
  }

  lemma LinkADRAnsLies(m: MACCommand)
    requires m.LinkADRAns?
    ensures EncodeFlags(m).Ok? && FlagsLie(m, EncodeFlags(m).value)
  {
    hide Flag, Flags2, Flags3, Flags4, Flags6, Val, Digit;
    ThreeFlagsSum(m.chMaskAck, m.drAck, m.txPowerAck);
  }

  lemma RxParamSetupAnsLies(m: MACCommand)
    requires m.RxParamSetupAns?
    ensures EncodeFlags(m).Ok? && FlagsLie(m, EncodeFlags(m).value)
  {
    hide Flag, Flags2, Flags3, Flags4, Flags6, Val, Digit;
    ThreeFlagsSum(m.channelAck, m.rx2DrAck, m.rx1DrOffsetAck);
  }

  lemma FilterListAnsLies(m: MACCommand)
    requires m.FilterListAns?
    ensures EncodeFlags(m).Ok? && FlagsLie(m, EncodeFlags(m).value)
  {
    hide Flag, Flags2, Flags3, Flags4, Flags6, Val, Digit;
    ThreeFlagsSum(m.actionAck, m.lenAck, m.combinedRulesAck);
  }

  lemma NewChannelAnsLies(m: MACCommand)
    requires m.NewChannelAns?
    ensures EncodeFlags(m).Ok? && FlagsLie(m, EncodeFlags(m).value)
  {
    hide Flag, Flags2, Flags3, Flags4, Flags6, Val, Digit;
    ThreeFlagsSum(m.channelFreqOk, m.drRangeOk, false);
  }

  lemma DlChannelAnsLies(m: MACCommand)
    requires m.DlChannelAns?
    ensures EncodeFlags(m).Ok? && FlagsLie(m, EncodeFlags(m).value)
  {
    hide Flag, Flags2, Flags3, Flags4, Flags6, Val, Digit;
    ThreeFlagsSum(m.dlChannelFreqOk, m.uplinkFreqExists, false);
  }

  lemma PingSlotChannelAnsLies(m: MACCommand)
    requires m.PingSlotChannelAns?
    ensures EncodeFlags(m).Ok? && FlagsLie(m, EncodeFlags(m).value)
  {
    hide Flag, Flags2, Flags3, Flags4, Flags6, Val, Digit;
    ThreeFlagsSum(m.pingFreqOk, m.drOk, false);
  }

  lemma OneFlagLies(m: MACCommand)
    requires m.RejoinParamSetupAns? || m.BeaconFreqAns?
    ensures EncodeFlags(m).Ok? && FlagsLie(m, EncodeFlags(m).value)
  {
    hide Flag, Flags2, Flags3, Flags4, Flags6, Val, Digit;
    if m.RejoinParamSetupAns? {
      ThreeFlagsSum(m.timeOk, false, false);
    } else {
      ThreeFlagsSum(m.beaconFreqOk, false, false);
    }
  }

  lemma SixFlagsLie(m: MACCommand)
    requires m.RelayConfAns?
    ensures EncodeFlags(m).Ok? && FlagsLie(m, EncodeFlags(m).value)
  {
    hide Flag, Flags2, Flags3, Flags4, Flags6, Val, Digit;
    SixFlagsSum(m.relayFreqAck, m.relayAckOffsetAck, m.relayDrAck, m.relayChIdxAck, m.defaultChIdxAck,
                m.cadPeriodicityAck);
  }

  lemma FourFlagsLie(m: MACCommand)
    requires m.EndDeviceConfAns?
    ensures EncodeFlags(m).Ok? && FlagsLie(m, EncodeFlags(m).value)
  {
    hide Flag, Flags2, Flags3, Flags4, Flags6, Val, Digit;
    FourFlagsSum(m.edFreqAck, m.edDrAck, m.edChIdxAck, m.backoffAck);
  }

  lemma FlagsLayout(m: MACCommand)
    requires IsFlags(m)
    ensures EncodeFlags(m).Ok? && FlagsLie(m, EncodeFlags(m).value)
  {
    hide EncodeFlags, FlagsLie;
    if m.LinkADRAns? {
      LinkADRAnsLies(m);
    } else if m.RxParamSetupAns? {
      RxParamSetupAnsLies(m);
    } else if m.FilterListAns? {
      FilterListAnsLies(m);
    } else if m.NewChannelAns? {
      NewChannelAnsLies(m);
    } else if m.DlChannelAns? {
      DlChannelAnsLies(m);
    } else if m.PingSlotChannelAns? {
      PingSlotChannelAnsLies(m);
    } else if m.RelayConfAns? {
      SixFlagsLie(m);
    } else if m.EndDeviceConfAns? {
      FourFlagsLie(m);
    } else {
      OneFlagLies(m);
    }
  }

  // One byte of fields

  predicate ByteLies(m: MACCommand, e: bytes) {
    && |e| == 1
    && match m
       case DutyCycleReq(max) => e[0] == max
       case RxTimingSetupReq(delay) => e[0] == delay
       case TxParamSetupReq(up, down, maxEirp) =>
         Val(e[0]) == Val(maxEirp) + Digit(up.Limit400ms?, 16) + Digit(down.Limit400ms?, 32)
       case ADRParamSetupReq(p) => Val(e[0]) == Val(p.delayExp) + 16 * Val(p.limitExp)
       case RejoinParamSetupReq(maxTimeN, maxCountN) => Val(e[0]) == Val(maxCountN) + 16 * Val(maxTimeN)
       case PingSlotInfoReq(periodicity) => e[0] == periodicity
       case CtrlUplinkListReq(a) => Val(e[0]) == Val(a.uplinkListIdx) + 16 * Val(a.ctrlUplinkAction)
       case _ => false
  }

  /** Two fields of four bits in a byte. */
  lemma NibbleSum(low: u8, high: u8)
    requires low <= 15 && high <= 15
    ensures Val(low | (high << 4)) == Val(low) + 16 * Val(high)
  {
    ValIsSum(low | (high << 4));
    ValIsSum(low);
    ValIsSum(high);
    hide Val;
  }

  lemma TxParamSum(maxEirp: u8, up: bool, down: bool)
    requires maxEirp <= 15
    ensures Val(maxEirp | Flag(up, 0x10) | Flag(down, 0x20)) == Val(maxEirp) + Digit(up, 16) + Digit(down, 32)
  {
    ValIsSum(maxEirp | Flag(up, 0x10) | Flag(down, 0x20));
    ValIsSum(maxEirp);
    hide Val;
  }

  lemma NumberLies(m: MACCommand)
    requires (m.DutyCycleReq? || m.RxTimingSetupReq? || m.PingSlotInfoReq?) && EncodeByte(m).Ok?
    ensures ByteLies(m, EncodeByte(m).value)
  {}

  lemma TxParamLies(m: MACCommand)
    requires m.TxParamSetupReq? && EncodeByte(m).Ok?
    ensures ByteLies(m, EncodeByte(m).value)
  {
    hide Val, Flag, Digit;
    TxParamSum(m.maxEirp, m.uplinkDwellTime.Limit400ms?, m.downlinkDwellTime.Limit400ms?);
  }

  lemma NibblesLie(m: MACCommand)
    requires (m.ADRParamSetupReq? || m.RejoinParamSetupReq? || m.CtrlUplinkListReq?) && EncodeByte(m).Ok?
    ensures ByteLies(m, EncodeByte(m).value)
  {
    hide Val;
    if m.ADRParamSetupReq? {
      NibbleSum(m.adrParam.delayExp, m.adrParam.limitExp);
    } else if m.RejoinParamSetupReq? {
      NibbleSum(m.maxCountN, m.maxTimeN);
    } else {
      NibbleSum(m.ctrlUplinkAction.uplinkListIdx, m.ctrlUplinkAction.ctrlUplinkAction);
    }
  }

  lemma ByteLayout(m: MACCommand)
    requires IsByte(m) && EncodeByte(m).Ok?
    ensures ByteLies(m, EncodeByte(m).value)
  {
    hide EncodeByte, ByteLies;
    if m.TxParamSetupReq? {
      TxParamLies(m);
    } else if m.ADRParamSetupReq? || m.RejoinParamSetupReq? || m.CtrlUplinkListReq? {
      NibblesLie(m);
    } else {
      NumberLies(m);
    }
  }

  // Two to five bytes

  /** The number that stands for what becomes of the counters. */
  function CounterNumber(c: ResetLimitCounter): nat {
    match c
    case TokenCounterToZero => 0
    case TokenCounterToReloadRate => 1
    case TokenCounterToMaxValue => 2
    case NoChange => 3
  }

  /** The seconds that are sent: the low 32 bits. */
  function LowSeconds(secs: bv64): nat {
    Num((secs & 0xffff_ffff) as u32)
  }

  predicate SettingLies(m: MACCommand, e: bytes) {
    match m
    case LinkCheckAns(margin, gwCnt) => e == [margin, gwCnt]
    case LinkADRReq(dr, txPower, chMask, r) =>
      && |e| == 4 && Val(e[0]) == Val(txPower) + 16 * Val(dr) && LeNum(e[1..3]) == MaskNumber(chMask)
      && Val(e[3]) == Val(r.nbRep) + 16 * Val(r.chMaskCntl)
    case DevStatusAns(battery, margin) =>
      |e| == 2 && e[0] == battery && Val(e[1]) == if margin < 0 then margin + 64 else margin
    case DeviceTimeAns(secs, nanos) =>
      |e| == 5 && LeNum(e[..4]) == LowSeconds(secs) && Val(e[4]) == nanos / 3906250
    case ForceRejoinReq(period, maxRetries, rejoinType, dr) =>
      |e| == 2 && Val(e[0]) == Val(dr) + 16 * Val(rejoinType) && Val(e[1]) == Val(maxRetries) + 8 * Val(period)
    case CtrlUplinkListAns(ack, wFCnt) => |e| == 5 && Val(e[0]) == Digit(ack, 1) && LeNum(e[1..]) == Num(wFCnt)
    case ConfigureFwdLimitReq(r, c) =>
      && |e| == 5
      && LeNum(e[..4]) == Val(r.overall) + 0x80 * Val(r.globalUplink) + 0x4000 * Val(r.notify)
                          + 0x20_0000 * Val(r.joinReq) + 0x1000_0000 * CounterNumber(r.resetLimitCounter)
      && Val(e[4]) == Val(c.overall) + 4 * Val(c.globalUplink) + 16 * Val(c.notify) + 64 * Val(c.joinReq)
    case _ => false
  }

  lemma LinkADRLies(m: MACCommand, e: bytes)
    requires m.LinkADRReq? && |e| == 4 && Val(e[0]) == Val(m.txPower) + 16 * Val(m.dr)
    requires LeNum(e[1..3]) == MaskNumber(m.chMask)
    requires Val(e[3]) == Val(m.redundancy.nbRep) + 16 * Val(m.redundancy.chMaskCntl)
    ensures SettingLies(m, e)
  {
    hide Val, LeNum, MaskNumber, LowSeconds, CounterNumber, Digit, Num;
  }

  lemma LinkADRLayout(m: MACCommand)
    requires m.LinkADRReq? && EncodeSetting(m).Ok?
    ensures SettingLies(m, EncodeSetting(m).value)
  {
    hide Val, LeNum, MaskNumber, MaskToBytes, SettingLies;
    NibbleSum(m.txPower, m.dr);
    NibbleSum(m.redundancy.nbRep, m.redundancy.chMaskCntl);
    MaskLayout(m.chMask);
    var e := EncodeSetting(m).value;
    assert e[1..3] == MaskToBytes(m.chMask);
    LinkADRLies(m, e);
  }

  lemma DevStatusLayout(m: MACCommand)
    requires m.DevStatusAns? && EncodeSetting(m).Ok?
    ensures SettingLies(m, EncodeSetting(m).value)
  {
    ValByte(if m.devMargin < 0 then m.devMargin + 64 else m.devMargin);
    hide Val, Byte;
  }

  lemma DeviceTimeNumbers(secs: bv64, nanos: Nanos)
    ensures var e := DeviceTimeBytes(secs, nanos);
            LeNum(e[..4]) == LowSeconds(secs) && Val(e[4]) == nanos / 3906250
  {
    Le32Num((secs & 0xffff_ffff) as u32);
    ValByte(nanos / 3906250);
    assert DeviceTimeBytes(secs, nanos)[..4] == Le32((secs & 0xffff_ffff) as u32);
    assert DeviceTimeBytes(secs, nanos)[4] == Byte(nanos / 3906250);
    assert LowSeconds(secs) == Num((secs & 0xffff_ffff) as u32);
    hide *;
  }

  lemma DeviceTimeLayout(m: MACCommand)
    requires m.DeviceTimeAns?
    ensures EncodeSetting(m).Ok? && SettingLies(m, EncodeSetting(m).value)
  {
    DeviceTimeNumbers(m.secs, m.nanos);
    hide DeviceTimeBytes, Val, LeNum, LowSeconds;
  }

  lemma RetriesSum(maxRetries: u8, period: u8)
    requires maxRetries <= 7 && period <= 7
    ensures Val(maxRetries | (period << 3)) == Val(maxRetries) + 8 * Val(period)
  {
    ValIsSum(maxRetries | (period << 3));
    ValIsSum(maxRetries);
    ValIsSum(period);
    hide Val;
  }

  lemma ForceRejoinLayout(m: MACCommand)
    requires m.ForceRejoinReq? && EncodeSetting(m).Ok?
    ensures SettingLies(m, EncodeSetting(m).value)
  {
    NibbleSum(m.rejoinDr, m.rejoinType);
    RetriesSum(m.maxRetries, m.period);
    hide Val;
  }

  lemma CtrlListPrinted(m: MACCommand)
    requires m.CtrlUplinkListAns?
    ensures EncodeSetting(m) == Ok([Flag(m.idxAck, 0x01)] + Le32(m.ctrlWFCnt))
  {
    hide Le32, Flag;
    var f := Le32(m.ctrlWFCnt);
    assert [Flag(m.idxAck, 0x01), f[0], f[1], f[2], f[3]] == [Flag(m.idxAck, 0x01)] + f;
  }

  lemma CtrlListLayout(m: MACCommand)
    requires m.CtrlUplinkListAns?
    ensures EncodeSetting(m).Ok? && SettingLies(m, EncodeSetting(m).value)
  {
    CtrlListPrinted(m);
    Le32Num(m.ctrlWFCnt);
    ThreeFlagsSum(m.idxAck, false, false);
    hide EncodeSetting, Val, Le32, LeNum, Num, Flag, Digit, LowSeconds, MaskNumber, CounterNumber;
    assert ([Flag(m.idxAck, 0x01)] + Le32(m.ctrlWFCnt))[1..] == Le32(m.ctrlWFCnt);
  }

  // The low and the high part of a field that lies across two bytes.

  function Low1(b: u8): u8 { b & 0x01 }
  function High1(b: u8): u8 { b >> 1 }
  function Low2(b: u8): u8 { b & 0x03 }
  function High2(b: u8): u8 { b >> 2 }
  function Low3(b: u8): u8 { b & 0x07 }
  function High3(b: u8): u8 { b >> 3 }

  lemma SplitByte(b: u8)
    ensures Val(b) == Val(Low1(b)) + 2 * Val(High1(b))
    ensures Val(b) == Val(Low2(b)) + 4 * Val(High2(b))
    ensures Val(b) == Val(Low3(b)) + 8 * Val(High3(b))
  {
    ValIsSum(b);
    ValIsSum(Low1(b));
    ValIsSum(High1(b));
    ValIsSum(Low2(b));
    ValIsSum(High2(b));
    ValIsSum(Low3(b));
    ValIsSum(High3(b));
    hide Val;
  }

  lemma RateByte0(r: FwdLimitReloadRatePL)
    requires r.InRange()
    ensures Val(r.Byte0()) == Val(r.overall) + 128 * Val(Low1(r.globalUplink))
  {
    ValIsSum(r.Byte0());
    ValIsSum(r.overall);
    ValIsSum(Low1(r.globalUplink));
    hide Val;
  }

  lemma RateByte1(r: FwdLimitReloadRatePL)
    requires r.InRange()
    ensures Val(r.Byte1()) == Val(High1(r.globalUplink)) + 64 * Val(Low2(r.notify))
  {
    ValIsSum(r.Byte1());
    ValIsSum(High1(r.globalUplink));
    ValIsSum(Low2(r.notify));
    hide Val;
  }

  lemma RateByte2(r: FwdLimitReloadRatePL)
    requires r.InRange()
    ensures Val(r.Byte2()) == Val(High2(r.notify)) + 32 * Val(Low3(r.joinReq))
  {
    ValIsSum(r.Byte2());
    ValIsSum(High2(r.notify));
    ValIsSum(Low3(r.joinReq));
    hide Val;
  }

  lemma RateByte3(r: FwdLimitReloadRatePL)
    requires r.InRange()
    ensures Val(r.Byte3()) == Val(High3(r.joinReq)) + 16 * CounterNumber(r.resetLimitCounter)
  {
    ValIsSum(r.Byte3());
    ValIsSum(High3(r.joinReq));
    hide Val;
  }

  lemma RatesNumber(r: FwdLimitReloadRatePL)
    requires r.InRange()
    ensures LeNum([r.Byte0(), r.Byte1(), r.Byte2(), r.Byte3()]) ==
            Val(r.overall) + 0x80 * Val(r.globalUplink) + 0x4000 * Val(r.notify)
            + 0x20_0000 * Val(r.joinReq) + 0x1000_0000 * CounterNumber(r.resetLimitCounter)
  {
    hide *;
    LeNum4([r.Byte0(), r.Byte1(), r.Byte2(), r.Byte3()]);
    RateByte0(r);
    RateByte1(r);
    RateByte2(r);
    RateByte3(r);
    SplitByte(r.globalUplink);
    SplitByte(r.notify);
    SplitByte(r.joinReq);
  }

  lemma CapacityBits(a: u8, b: u8, c: u8, d: u8)
    requires a <= 3 && b <= 3 && c <= 3 && d <= 3
    ensures Sum8(a | (b << 2) | (c << 4) | (d << 6)) == Sum8(a) + 4 * Sum8(b) + 16 * Sum8(c) + 64 * Sum8(d)
  {}

  lemma CapacitySum(c: FwdLimitLoadCapacityPL)
    requires c.ToU8().Ok?
    ensures Val(c.ToU8().value) == Val(c.overall) + 4 * Val(c.globalUplink) + 16 * Val(c.notify) + 64 * Val(c.joinReq)
  {
    CapacityBits(c.overall, c.globalUplink, c.notify, c.joinReq);
    ValIsSum(c.ToU8().value);
    ValIsSum(c.overall);
    ValIsSum(c.globalUplink);
    ValIsSum(c.notify);
    ValIsSum(c.joinReq);
    hide Val, Sum8;
  }

  lemma FwdLimitLayout(m: MACCommand)
    requires m.ConfigureFwdLimitReq? && EncodeSetting(m).Ok?
    ensures SettingLies(m, EncodeSetting(m).value)
  {
    hide Val, LeNum, CounterNumber, FwdLimitReloadRatePL.InRange, FwdLimitReloadRatePL.Byte0;
    hide FwdLimitReloadRatePL.Byte1, FwdLimitReloadRatePL.Byte2, FwdLimitReloadRatePL.Byte3;
    hide FwdLimitLoadCapacityPL.ToU8;
    var r, e := m.reloadRate, EncodeSetting(m).value;
    RatesNumber(r);
    CapacitySum(m.loadCapacity);
    assert e[..4] == [r.Byte0(), r.Byte1(), r.Byte2(), r.Byte3()];
  }

  lemma LinkCheckLayout(m: MACCommand)
    requires m.LinkCheckAns?
    ensures EncodeSetting(m).Ok? && SettingLies(m, EncodeSetting(m).value)
  {}

  lemma SettingLayout(m: MACCommand)
    requires IsSetting(m) && EncodeSetting(m).Ok?
    ensures SettingLies(m, EncodeSetting(m).value)
  {
    hide EncodeSetting, SettingLies;
    if m.LinkCheckAns? {
      LinkCheckLayout(m);
    } else if m.LinkADRReq? {
      LinkADRLayout(m);
    } else if m.DevStatusAns? {
      DevStatusLayout(m);
    } else if m.DeviceTimeAns? {
      DeviceTimeLayout(m);
    } else if m.ForceRejoinReq? {
      ForceRejoinLayout(m);
    } else if m.CtrlUplinkListAns? {
      CtrlListLayout(m);
    } else {
      FwdLimitLayout(m);
    }
  }

  // Payloads that hold a frequency

  /** The steps of 100 Hz, or of 200 Hz from 2.4 GHz on, in three bytes. */
  predicate FreqAtPlace(e: bytes, at: nat, freq: Hz) {
    at + 3 <= |e| && LeNum(e[at..at + 3]) == if freq >= 2400000000 then freq / 200 else freq / 100
  }

  predicate ChannelLies(m: MACCommand, e: bytes) {
    match m
    case RxParamSetupReq(freq, s) =>
      && |e| == 4 && FreqAtPlace(e, 1, freq)
      && Val(e[0]) == Val(s.rx2Dr) + 16 * Val(s.rx1DrOffset) + Digit(s.optNeg, 128)
    case NewChannelReq(idx, freq, minDr, maxDr) =>
      && |e| == 5 && e[0] == idx && FreqAtPlace(e, 1, freq)
      && (minDr <= 15 && maxDr <= 15 ==> Val(e[4]) == Val(minDr) + 16 * Val(maxDr))
    case DlChannelReq(idx, freq) => |e| == 4 && e[0] == idx && FreqAtPlace(e, 1, freq)
    case PingSlotChannelReq(freq, dr) => |e| == 4 && FreqAtPlace(e, 0, freq) && e[3] == dr
    case BeaconFreqReq(freq) => |e| == 3 && FreqAtPlace(e, 0, freq)
    case RelayConfReq(s, freq) =>
      && |e| == 5 && FreqAtPlace(e, 2, freq)
      && LeNum(e[..2]) == Val(s.secondChAckOffset) + 8 * Val(s.secondChDr) + 128 * Val(s.secondChIdx)
                          + 512 * Val(s.defaultChIdx) + 1024 * Val(s.cadPeriodicity) + 8192 * Val(s.startStop)
    case EndDeviceConfReq(a, s, freq) =>
      && |e| == 6 && FreqAtPlace(e, 3, freq)
      && Val(e[0]) == Val(a.smartEnableLevel) + 4 * ModeNumber(a.relayModeActivation)
      && LeNum(e[1..3]) == Val(s.secondChAckOffset) + 8 * Val(s.secondChDr) + 128 * Val(s.secondChIdx)
                           + 512 * Val(s.backoff)
    case _ => false
  }

  function ModeNumber(mode: RelayModeActivation): nat {
    match mode
    case DisableRelayMode => 0
    case EnableRelayMode => 1
    case Dynamic => 2
    case EndDeviceControlled => 3
  }

  lemma FreqPlaced(e: bytes, at: nat, freq: Hz)
    requires EncodedFreq(freq).Ok? && at + 3 <= |e|
    requires var f := EncodedFreq(freq).value; e[at] == f[0] && e[at + 1] == f[1] && e[at + 2] == f[2]
    ensures FreqAtPlace(e, at, freq)
  {
    EncodedFreqIs(freq);
    hide EncodedFreq, LeNum;
    assert e[at..at + 3] == EncodedFreq(freq).value;
  }

  lemma DLSettingsSum(v: DLSettings)
    requires v.ToU8().Ok?
    ensures Val(v.ToU8().value) == Val(v.rx2Dr) + 16 * Val(v.rx1DrOffset) + Digit(v.optNeg, 128)
  {
    ValIsSum(v.ToU8().value);
    ValIsSum(v.rx2Dr);
    ValIsSum(v.rx1DrOffset);
    hide Val;
  }

  lemma RxParamLayout(m: MACCommand)
    requires m.RxParamSetupReq? && EncodeChannel(m).Ok?
    ensures ChannelLies(m, EncodeChannel(m).value)
  {
    hide Val, EncodedFreq, DLSettings.ToU8, FreqAtPlace, Digit;
    DLSettingsSum(m.dlSettings);
    FreqPlaced(EncodeChannel(m).value, 1, m.frequency);
  }

  lemma NewChannelLayout(m: MACCommand)
    requires m.NewChannelReq? && EncodeChannel(m).Ok?
    ensures ChannelLies(m, EncodeChannel(m).value)
  {
    hide Val, EncodedFreq, FreqAtPlace;
    if m.minDr <= 15 && m.maxDr <= 15 {
      NibbleSum(m.minDr, m.maxDr);
    }
    FreqPlaced(EncodeChannel(m).value, 1, m.freq);
  }

  lemma PlainChannelLayout(m: MACCommand)
    requires (m.DlChannelReq? || m.PingSlotChannelReq? || m.BeaconFreqReq?) && EncodeChannel(m).Ok?
    ensures ChannelLies(m, EncodeChannel(m).value)
  {
    hide EncodedFreq, FreqAtPlace;
    if m.DlChannelReq? {
      FreqPlaced(EncodeChannel(m).value, 1, m.dlFreq);
    } else if m.PingSlotChannelReq? {
      FreqPlaced(EncodeChannel(m).value, 0, m.pingFreq);
    } else {
      FreqPlaced(EncodeChannel(m).value, 0, m.beaconFreq);
    }
  }

  lemma RelayByte0(s: ChannelSettingsRelay)
    requires s.InRange()
    ensures Val(s.Byte0()) == Val(s.secondChAckOffset) + 8 * Val(s.secondChDr) + 128 * Val(s.secondChIdx)
  {
    ValIsSum(s.Byte0());
    ValIsSum(s.secondChAckOffset);
    ValIsSum(s.secondChDr);
    ValIsSum(s.secondChIdx);
    hide Val;
  }

  lemma RelayByte1(s: ChannelSettingsRelay)
    requires s.InRange()
    ensures Val(s.Byte1()) == 2 * Val(s.defaultChIdx) + 4 * Val(s.cadPeriodicity) + 32 * Val(s.startStop)
  {
    ValIsSum(s.Byte1());
    ValIsSum(s.defaultChIdx);
    ValIsSum(s.cadPeriodicity);
    ValIsSum(s.startStop);
    hide Val;
  }

  lemma RelaySettingsNumber(s: ChannelSettingsRelay)
    requires s.InRange()
    ensures LeNum([s.Byte0(), s.Byte1()]) ==
            Val(s.secondChAckOffset) + 8 * Val(s.secondChDr) + 128 * Val(s.secondChIdx)
            + 512 * Val(s.defaultChIdx) + 1024 * Val(s.cadPeriodicity) + 8192 * Val(s.startStop)
  {
    hide *;
    LeNum2([s.Byte0(), s.Byte1()]);
    RelayByte0(s);
    RelayByte1(s);
  }

  lemma RelayConfLayout(m: MACCommand)
    requires m.RelayConfReq? && EncodeChannel(m).Ok?
    ensures ChannelLies(m, EncodeChannel(m).value)
  {
    hide Val, LeNum, EncodedFreq, FreqAtPlace, ChannelSettingsRelay.Byte0, ChannelSettingsRelay.Byte1;
    hide ChannelSettingsRelay.InRange;
    var e := EncodeChannel(m).value;
    RelaySettingsNumber(m.channelSettings);
    FreqPlaced(e, 2, m.secondChFreq);
    assert e[..2] == [m.channelSettings.Byte0(), m.channelSettings.Byte1()];
  }

  lemma DeviceByte0(s: ChannelSettingsED)
    requires s.InRange()
    ensures Val(s.Byte0()) == Val(s.secondChAckOffset) + 8 * Val(s.secondChDr) + 128 * Val(Low1(s.secondChIdx))
  {
    ValIsSum(s.Byte0());
    ValIsSum(s.secondChAckOffset);
    ValIsSum(s.secondChDr);
    ValIsSum(Low1(s.secondChIdx));
    hide Val;
  }

  lemma DeviceByte1(s: ChannelSettingsED)
    requires s.InRange()
    ensures Val(s.Byte1()) == Val(High1(s.secondChIdx)) + 2 * Val(s.backoff)
  {
    ValIsSum(s.Byte1());
    ValIsSum(High1(s.secondChIdx));
    ValIsSum(s.backoff);
    hide Val;
  }

  lemma DeviceSettingsNumber(s: ChannelSettingsED)
    requires s.InRange()
    ensures LeNum([s.Byte0(), s.Byte1()]) ==
            Val(s.secondChAckOffset) + 8 * Val(s.secondChDr) + 128 * Val(s.secondChIdx) + 512 * Val(s.backoff)
  {
    hide *;
    LeNum2([s.Byte0(), s.Byte1()]);
    DeviceByte0(s);
    DeviceByte1(s);
    SplitByte(s.secondChIdx);
  }

  lemma ActivationSum(a: ActivationRelayMode)
    requires a.ToU8().Ok?
    ensures Val(a.ToU8().value) == Val(a.smartEnableLevel) + 4 * ModeNumber(a.relayModeActivation)
  {
    ValIsSum(a.ToU8().value);
    ValIsSum(a.smartEnableLevel);
    hide Val;
  }

  lemma EndDeviceConfLayout(m: MACCommand)
    requires m.EndDeviceConfReq? && EncodeChannel(m).Ok?
    ensures ChannelLies(m, EncodeChannel(m).value)
  {
    hide Val, LeNum, EncodedFreq, FreqAtPlace, ChannelSettingsED.Byte0, ChannelSettingsED.Byte1;
    hide ChannelSettingsED.InRange, ActivationRelayMode.ToU8, ModeNumber;
    var e := EncodeChannel(m).value;
    ActivationSum(m.activation);
    DeviceSettingsNumber(m.channelSettingsEd);
    FreqPlaced(e, 3, m.edFreq);
    assert e[1..3] == [m.channelSettingsEd.Byte0(), m.channelSettingsEd.Byte1()];
  }

  lemma ChannelLayout(m: MACCommand)
    requires IsChannel(m) && EncodeChannel(m).Ok?
    ensures ChannelLies(m, EncodeChannel(m).value)
  {
    hide EncodeChannel, ChannelLies;
    if m.RxParamSetupReq? {
      RxParamLayout(m);
    } else if m.NewChannelReq? {
      NewChannelLayout(m);
    } else if m.RelayConfReq? {
      RelayConfLayout(m);
    } else if m.EndDeviceConfReq? {
      EndDeviceConfLayout(m);
    } else {
      PlainChannelLayout(m);
    }
  }

  // Payloads about one end device of a relay

  function ActionNumber(a: FilterListAction): nat {
    match a
    case NoRule => 0
    case Forward => 1
    case Filter => 2
  }

  predicate DeviceLies(m: MACCommand, e: bytes) {
    match m
    case FilterListReq(idx, action, eui) =>
      && |e| == 2 + |eui| && e[2..] == Reverse(eui)
      && LeNum(e[..2]) == |eui| + 32 * ActionNumber(action) + 128 * Val(idx)
    case UpdateUplinkListReq(idx, limit, devAddr, wFCnt, key) =>
      && |e| == 26 && e[0] == idx && Val(e[1]) == Val(limit.reloadRate) + 64 * Val(limit.bucketSize)
      && e[2..6] == [devAddr[3], devAddr[2], devAddr[1], devAddr[0]] && LeNum(e[6..10]) == Num(wFCnt) && e[10..] == key
    case NotifyNewEndDeviceReq(devAddr, level) =>
      && |e| == 6 && e[..4] == [devAddr[3], devAddr[2], devAddr[1], devAddr[0]]
      && LeNum(e[4..]) == Clamp(level.worSnr, -20, 11) + 20 + 32 * (-15 - Clamp(level.worRssi, -142, -15))
    case _ => false
  }

  lemma FilterHeadSum(len: u8, action: FilterListAction, idx: u8)
    requires len <= 16 && idx <= 15
    ensures Sum8(FilterListHead(len, action, idx)) == Sum8(len) + 32 * ActionNumber(action) + 128 * Sum8(Low1(idx))
  {}

  lemma FilterHeadNumber(n: nat, action: FilterListAction, idx: u8)
    requires n <= 16 && idx <= 15
    ensures Val(FilterListHead(Byte(n), action, idx)) + 256 * Val(idx >> 1) ==
            n + 32 * ActionNumber(action) + 128 * Val(idx)
  {
    ValByte(n);
    ValIsInt(16);
    ByteOrder(n, 16);
    FilterHeadSum(Byte(n), action, idx);
    SplitByte(idx);
    ValIsSum(FilterListHead(Byte(n), action, idx));
    ValIsSum(Byte(n));
    ValIsSum(Low1(idx));
    hide Val, Byte, Sum8, FilterListHead, ActionNumber, Low1;
  }

  lemma FilterLayout(m: MACCommand)
    requires m.FilterListReq? && EncodeDevice(m).Ok?
    ensures DeviceLies(m, EncodeDevice(m).value)
  {
    hide Val, Byte, LeNum, FilterListHead, ActionNumber;
    FilterHeadNumber(|m.eui|, m.action, m.filterListIdx);
    var e := EncodeDevice(m).value;
    assert e[..2] == [FilterListHead(Byte(|m.eui|), m.action, m.filterListIdx), m.filterListIdx >> 1];
    LeNum2(e[..2]);
    assert e[2..] == Reverse(m.eui);
  }

  lemma LimitSum(v: UplinkLimitPL)
    requires v.ToU8().Ok?
    ensures Val(v.ToU8().value) == Val(v.reloadRate) + 64 * Val(v.bucketSize)
  {
    ValIsSum(v.ToU8().value);
    ValIsSum(v.reloadRate);
    ValIsSum(v.bucketSize);
    hide Val;
  }

  lemma ReversedAddr(a: Bytes4)
    ensures Reverse(a) == [a[3], a[2], a[1], a[0]]
  {}

  lemma UplinkListLayout(m: MACCommand)
    requires m.UpdateUplinkListReq? && EncodeDevice(m).Ok?
    ensures DeviceLies(m, EncodeDevice(m).value)
  {
    hide Val, Le32, LeNum, Num, UplinkLimitPL.ToU8, Reverse;
    LimitSum(m.uplinkLimit);
    ReversedAddr(m.devAddr);
    Le32Num(m.wFCnt);
    var e := EncodeDevice(m).value;
    assert e == [m.uplinkListIdx, m.uplinkLimit.ToU8().value] + Reverse(m.devAddr) + Le32(m.wFCnt) + m.rootWorSKey;
    assert e[2..6] == Reverse(m.devAddr) && e[6..10] == Le32(m.wFCnt) && e[10..] == m.rootWorSKey;
  }

  lemma SnrRssiSum(snr: u8, rssi: u8)
    requires snr <= 31 && rssi <= 127
    ensures Val(snr | (rssi << 5)) == Val(snr) + 32 * Val(Low3(rssi))
  {
    ValIsSum(snr | (rssi << 5));
    ValIsSum(snr);
    ValIsSum(Low3(rssi));
    hide Val;
  }

  lemma LevelNumber(v: PowerLevel)
    ensures LeNum([v.Byte0(), v.Byte1()]) == Clamp(v.worSnr, -20, 11) + 20 + 32 * (-15 - Clamp(v.worRssi, -142, -15))
  {
    SnrCodeRange(v.worSnr);
    RssiCodeRange(v.worRssi);
    hide SnrCode, RssiCode, Clamp;
    var s, r := SnrCode(v.worSnr), RssiCode(v.worRssi);
    SnrRssiSum(s, r);
    SplitByte(r);
    LeNum2([v.Byte0(), v.Byte1()]);
    hide Val, LeNum, Low3;
  }

  lemma NotifyLayout(m: MACCommand)
    requires m.NotifyNewEndDeviceReq?
    ensures EncodeDevice(m).Ok? && DeviceLies(m, EncodeDevice(m).value)
  {
    hide LeNum, Clamp, PowerLevel.Byte0, PowerLevel.Byte1, Reverse;
    ReversedAddr(m.newDevAddr);
    LevelNumber(m.powerLevel);
    var e := EncodeDevice(m).value;
    assert e[4..] == [m.powerLevel.Byte0(), m.powerLevel.Byte1()];
  }

  lemma DeviceLayout(m: MACCommand)
    requires IsDevice(m) && EncodeDevice(m).Ok?
    ensures DeviceLies(m, EncodeDevice(m).value)
  {
    hide EncodeDevice, DeviceLies;
    if m.FilterListReq? {
      FilterLayout(m);
    } else if m.UpdateUplinkListReq? {
      UplinkListLayout(m);
    } else {
      NotifyLayout(m);
    }
  }

  // All commands

  /** The fields of a command, in the bytes of its payload. */
  predicate Lies(m: MACCommand, e: bytes) {
    if IsEnum(m) then EnumLies(m, e)
    else if IsFlags(m) then FlagsLie(m, e)
    else if IsByte(m) then ByteLies(m, e)
    else if IsSetting(m) then SettingLies(m, e)
    else if IsChannel(m) then ChannelLies(m, e)
    else if IsDevice(m) then DeviceLies(m, e)
    else e == []
  }

  lemma EveryGroup(m: MACCommand)
    requires !m.Raw?
    ensures IsEmpty(m) || IsEnum(m) || IsFlags(m) || IsByte(m) || IsSetting(m) || IsChannel(m) || IsDevice(m)
    ensures IsEmpty(m) ==> !(IsEnum(m) || IsFlags(m) || IsByte(m) || IsSetting(m) || IsChannel(m) || IsDevice(m))
  {}

  /** What is printed of a command has every field in its place. */
  lemma PayloadLayout(m: MACCommand)
    requires !m.Raw? && EncodePayload(m).Ok?
    ensures Lies(m, EncodePayload(m).value)
  {
    EveryGroup(m);
    hide EncodePayload, EncodeEnum, EncodeFlags, EncodeByte, EncodeSetting, EncodeChannel, EncodeDevice;
    hide EnumLies, FlagsLie, ByteLies, SettingLies, ChannelLies, DeviceLies;
    hide IsEmpty, IsEnum, IsFlags, IsByte, IsSetting, IsChannel, IsDevice;
    if IsEnum(m) {
      EnumPrints(m);
      EnumLayout(m);
    } else if IsFlags(m) {
      FlagsPrints(m);
      FlagsLayout(m);
    } else if IsByte(m) {
      BytePrints(m);
      ByteLayout(m);
    } else if IsSetting(m) {
      SettingPrints(m);
      SettingLayout(m);
    } else if IsChannel(m) {
      ChannelPrints(m);
      ChannelLayout(m);
    } else if IsDevice(m) {
      DevicePrints(m);
      DeviceLayout(m);
    } else {
      EmptyPrints(m);
    }
  }

  // What is read lies there too, also where an encoder would refuse it.

  lemma NumberReadLies(cid: CID, b: bytes)
    requires (cid.DutyCycleReqId? || cid.RxTimingSetupReqId?) && PayloadLen(cid, b) == Some(|b|)
    ensures ParseByte(cid, b).Ok? && IsByte(ParseByte(cid, b).value)
    ensures ByteLies(ParseByte(cid, b).value, Cleared(cid, b))
  {
    OneByteLen(cid, b);
    hide PayloadLen;
    OneByte(cid, b);
    AllBits(b[0]);
  }

  lemma SmallFields(b: u8)
    ensures (b & 0x70) >> 4 <= 15
  {}

  lemma ForceRejoinReadLies(b: bytes)
    requires |b| == 2 && PayloadLen(ForceRejoinReqId, b) == Some(|b|)
    ensures var m := ParseSetting(ForceRejoinReqId, b);
            m.Ok? && IsSetting(m.value) && SettingLies(m.value, Cleared(ForceRejoinReqId, b))
  {
    hide PayloadLen, Val, Cleared;
    ForceRejoinCleared(b);
    ForceRejoinFields(b[0], b[1]);
    SmallFields(b[0]);
    NibbleSum(b[0] & 0x0f, (b[0] & 0x70) >> 4);
    RetriesSum(b[1] & 0x07, (b[1] & 0x38) >> 3);
  }

  lemma RelayReadByte0(b0: u8, b1: u8)
    ensures var s := ChannelSettingsRelay.FromBytes(b0, b1);
            Val(b0) == Val(s.secondChAckOffset) + 8 * Val(s.secondChDr) + 128 * Val(Low1(s.secondChIdx))
  {
    var s := ChannelSettingsRelay.FromBytes(b0, b1);
    ValIsSum(b0);
    ValIsSum(s.secondChAckOffset);
    ValIsSum(s.secondChDr);
    ValIsSum(Low1(s.secondChIdx));
    hide Val;
  }

  lemma RelayReadByte1(b0: u8, b1: u8)
    ensures var s := ChannelSettingsRelay.FromBytes(b0, b1);
            Val(b1 & 0x3f) == Val(High1(s.secondChIdx)) + 2 * Val(s.defaultChIdx) + 4 * Val(s.cadPeriodicity)
                              + 32 * Val(s.startStop)
  {
    var s := ChannelSettingsRelay.FromBytes(b0, b1);
    ValIsSum(b1 & 0x3f);
    ValIsSum(High1(s.secondChIdx));
    ValIsSum(s.defaultChIdx);
    ValIsSum(s.cadPeriodicity);
    ValIsSum(s.startStop);
    hide Val;
  }

  lemma RelayReadNumber(b0: u8, b1: u8)
    ensures var s := ChannelSettingsRelay.FromBytes(b0, b1);
            LeNum([b0, b1 & 0x3f]) ==
            Val(s.secondChAckOffset) + 8 * Val(s.secondChDr) + 128 * Val(s.secondChIdx)
            + 512 * Val(s.defaultChIdx) + 1024 * Val(s.cadPeriodicity) + 8192 * Val(s.startStop)
  {
    RelayReadByte0(b0, b1);
    RelayReadByte1(b0, b1);
    LeNum2([b0, b1 & 0x3f]);
    hide ChannelSettingsRelay.FromBytes, Val, LeNum, Low1, High1;
    SplitByte(ChannelSettingsRelay.FromBytes(b0, b1).secondChIdx);
  }

  lemma RelayParsed(b: bytes)
    requires |b| == 5 && PayloadLen(RelayConfReqId, b) == Some(|b|)
    ensures ParseChannel(RelayConfReqId, b) ==
            Ok(RelayConfReq(ChannelSettingsRelay.FromBytes(b[0], b[1]), FreqAt(b, 2)))
  {
    hide PayloadLen, FreqAt, ChannelSettingsRelay.FromBytes;
  }

  lemma RelayLies(s: ChannelSettingsRelay, freq: Hz, e: bytes)
    requires |e| == 5 && FreqAtPlace(e, 2, freq)
    requires LeNum(e[..2]) == Val(s.secondChAckOffset) + 8 * Val(s.secondChDr) + 128 * Val(s.secondChIdx)
                              + 512 * Val(s.defaultChIdx) + 1024 * Val(s.cadPeriodicity) + 8192 * Val(s.startStop)
    ensures IsChannel(RelayConfReq(s, freq)) && ChannelLies(RelayConfReq(s, freq), e)
  {
    hide FreqAtPlace, LeNum, Val;
  }

  lemma RelayReadLies(b: bytes)
    requires |b| == 5 && PayloadLen(RelayConfReqId, b) == Some(|b|)
    ensures var m := ParseChannel(RelayConfReqId, b);
            m.Ok? && IsChannel(m.value) && ChannelLies(m.value, Cleared(RelayConfReqId, b))
  {
    hide PayloadLen, Val, LeNum, Cleared, FreqAt, EncodedFreq, FreqAtPlace, ChannelSettingsRelay.FromBytes, Sendable;
    hide ParseChannel, IsChannel, ChannelLies;
    RelayParsed(b);
    RelayConfCleared(b);
    FreqAgain(b, 2);
    RelayReadNumber(b[0], b[1]);
    var e := Cleared(RelayConfReqId, b);
    FreqPlaced(e, 2, FreqAt(b, 2));
    assert e[..2] == [b[0], b[1] & 0x3f];
    RelayLies(ChannelSettingsRelay.FromBytes(b[0], b[1]), FreqAt(b, 2), e);
  }

  lemma FilterReadHead(b0: u8, b1: u8, action: FilterListAction)
    requires FilterListAction.FromU8((b0 & 0x60) >> 5) == Ok(action)
    ensures Val(b0 & 0xf7) == FilterLen(b0) + 32 * ActionNumber(action) + 128 * Val(Low1(FilterListIdx(b0, b1)))
    ensures Val(b1 & 0x07) == Val(High1(FilterListIdx(b0, b1)))
  {
    ValIsSum(b0 & 0xf7);
    ValIsSum(b0 & 0x17);
    ValIsSum(Low1(FilterListIdx(b0, b1)));
    ValIsSum(b1 & 0x07);
    ValIsSum(High1(FilterListIdx(b0, b1)));
    hide Val;
  }

  lemma FilterLies(m: MACCommand, e: bytes)
    requires m.FilterListReq? && |e| == 2 + |m.eui| && e[2..] == Reverse(m.eui)
    requires LeNum(e[..2]) == |m.eui| + 32 * ActionNumber(m.action) + 128 * Val(m.filterListIdx)
    ensures IsDevice(m) && DeviceLies(m, e)
  {
    hide LeNum, Val, ActionNumber, Clamp, Num;
  }

  lemma FilterReadParsed(b: bytes)
    requires PayloadLen(FilterListReqId, b) == Some(|b|) && |b| >= 2
    ensures var action := FilterListAction.FromU8((b[0] & 0x60) >> 5);
            ParseDevice(FilterListReqId, b) ==
            if action.Err? then Err else Ok(FilterListReq(FilterListIdx(b[0], b[1]), action.value, Reverse(b[2..])))
  {
    hide PayloadLen, FilterListIdx, FilterListAction.FromU8;
  }

  lemma FilterReadLies(b: bytes)
    requires PayloadLen(FilterListReqId, b) == Some(|b|) && |b| >= 2 && |b| == 2 + FilterLen(b[0])
    ensures var m := ParseDevice(FilterListReqId, b);
            m.Ok? ==> IsDevice(m.value) && DeviceLies(m.value, Cleared(FilterListReqId, b))
  {
    hide PayloadLen, Val, LeNum, Cleared, FilterLen, FilterListIdx, FilterListAction.FromU8, ActionNumber, Sendable;
    hide Low1, High1, ParseDevice, IsDevice, DeviceLies;
    FilterCleared(b);
    FilterReadParsed(b);
    var action := FilterListAction.FromU8((b[0] & 0x60) >> 5);
    if action.Ok? {
      FilterReadHead(b[0], b[1], action.value);
      SplitByte(FilterListIdx(b[0], b[1]));
      var e := Cleared(FilterListReqId, b);
      LeNum2(e[..2]);
      assert e[2..] == b[2..] == Reverse(Reverse(b[2..]));
      FilterLies(ParseDevice(FilterListReqId, b).value, e);
    }
  }

  /** The margin of a byte, in numbers: bytes from 96 on stand for margins that cannot be sent. */
  lemma MarginRead(b: u8)
    ensures Val(b) < 256
    ensures MarginFromU8(b) == if Val(b) < 32 then Val(b) else if Val(b) < 192 then Val(b) - 64 else Val(b) - 320
  {
    ByteVal(b);
    hide Val;
  }

  lemma MarginReads(b: bytes)
    requires |b| == 2 && PayloadLen(DevStatusAnsId, b) == Some(|b|)
    ensures ParsePayload(DevStatusAnsId, b) == Ok(DevStatusAns(b[0], MarginFromU8(b[1])))
  {
    hide PayloadLen, ParsePayload, MarginFromU8;
    SettingReads(DevStatusAnsId, b);
  }

  /** The command that is read from a payload has its fields there, the unused bits set aside. The margin of a
      DevStatusAns can be out of range; MarginRead tells what it is then. */
  lemma ParsedLayout(cid: CID, b: bytes)
    requires !cid.RawId? && PayloadLen(cid, b) == Some(|b|) && ParsePayload(cid, b).Ok?
    requires cid.DevStatusAnsId? ==> b[1] < 96
    ensures !ParsePayload(cid, b).value.Raw? && Lies(ParsePayload(cid, b).value, Cleared(cid, b))
  {
    PayloadAgain(cid, b);
    if Sendable(cid, b) {
      hide ParsePayload, EncodePayload, PayloadLen, Sendable, Cleared, Lies;
      PayloadLayout(ParsePayload(cid, b).value);
    } else {
      UnsendableLies(cid, b);
    }
  }

  lemma UnsendableLies(cid: CID, b: bytes)
    requires PayloadLen(cid, b) == Some(|b|) && !cid.RawId? && ParsePayload(cid, b).Ok?
    requires cid.DutyCycleReqId? || cid.RxTimingSetupReqId? || cid.ForceRejoinReqId? || cid.RelayConfReqId?
             || cid.FilterListReqId?
    ensures Lies(ParsePayload(cid, b).value, Cleared(cid, b))
  {
    hide ParsePayload, ParseByte, ParseSetting, ParseChannel, ParseDevice, Cleared, FilterLen;
    hide ByteLies, SettingLies, ChannelLies, DeviceLies, PayloadLen;
    if cid.DutyCycleReqId? || cid.RxTimingSetupReqId? {
      ByteReads(cid, b);
      NumberReadLies(cid, b);
    } else if cid.ForceRejoinReqId? {
      SettingLen(cid, b);
      SettingReads(cid, b);
      ForceRejoinReadLies(b);
    } else if cid.RelayConfReqId? {
      ChannelSize(cid, b);
      ChannelReads(cid, b);
      RelayReadLies(b);
    } else {
      DeviceSize(cid, b);
      DeviceReads(cid, b);
      FilterReadLies(b);
    }
  }
}
