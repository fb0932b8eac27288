/** The MAC commands of lrwn/src/maccommand.rs, their command identifiers, and the codec of one payload. */
module MacCommands {
  import opened Bytes
  import opened Helpers
  import opened MacFields

  type i8 = n: int | -128 <= n < 128
  /** The sub-second part of a Duration. */
  type Nanos = n: nat | n < 1000000000

  datatype CID =
    | ResetIndId | ResetConfId | LinkCheckReqId | LinkCheckAnsId | LinkADRReqId | LinkADRAnsId | DutyCycleReqId
    | DutyCycleAnsId | RxParamSetupReqId | RxParamSetupAnsId | DevStatusReqId | DevStatusAnsId | NewChannelReqId
    | NewChannelAnsId | RxTimingSetupReqId | RxTimingSetupAnsId | TxParamSetupReqId | TxParamSetupAnsId
    | DlChannelReqId | DlChannelAnsId | RekeyConfId | RekeyIndId | ADRParamSetupReqId | ADRParamSetupAnsId
    | DeviceTimeReqId | DeviceTimeAnsId | ForceRejoinReqId | RejoinParamSetupReqId | RejoinParamSetupAnsId
    | PingSlotInfoReqId | PingSlotInfoAnsId | PingSlotChannelReqId | PingSlotChannelAnsId | BeaconFreqReqId
    | BeaconFreqAnsId | DeviceModeIndId | DeviceModeConfId | RelayConfReqId | RelayConfAnsId | EndDeviceConfReqId
    | EndDeviceConfAnsId | FilterListReqId | FilterListAnsId | UpdateUplinkListReqId | UpdateUplinkListAnsId
    | CtrlUplinkListReqId | CtrlUplinkListAnsId | ConfigureFwdLimitReqId | ConfigureFwdLimitAnsId
    | NotifyNewEndDeviceReqId | RawId
  {
    function ToU8(): u8 {
      match this
      case ResetIndId | ResetConfId => 0x01
      case LinkCheckReqId | LinkCheckAnsId => 0x02
      case LinkADRAnsId | LinkADRReqId => 0x03
      case DutyCycleAnsId | DutyCycleReqId => 0x04
      case RxParamSetupAnsId | RxParamSetupReqId => 0x05
      case DevStatusAnsId | DevStatusReqId => 0x06
      case NewChannelAnsId | NewChannelReqId => 0x07
      case RxTimingSetupAnsId | RxTimingSetupReqId => 0x08
      case TxParamSetupAnsId | TxParamSetupReqId => 0x09
      case DlChannelAnsId | DlChannelReqId => 0x0a
      case RekeyIndId | RekeyConfId => 0x0b
      case ADRParamSetupAnsId | ADRParamSetupReqId => 0x0c
      case DeviceTimeReqId | DeviceTimeAnsId => 0x0d
      case ForceRejoinReqId => 0x0e
      case RejoinParamSetupAnsId | RejoinParamSetupReqId => 0x0f
      case PingSlotInfoReqId | PingSlotInfoAnsId => 0x10
      case PingSlotChannelAnsId | PingSlotChannelReqId => 0x11
      case BeaconFreqAnsId | BeaconFreqReqId => 0x13
      case DeviceModeIndId | DeviceModeConfId => 0x20
      case RelayConfAnsId | RelayConfReqId => 0x40
      case EndDeviceConfAnsId | EndDeviceConfReqId => 0x41
      case FilterListAnsId | FilterListReqId => 0x42
      case UpdateUplinkListAnsId | UpdateUplinkListReqId => 0x43
      case CtrlUplinkListAnsId | CtrlUplinkListReqId => 0x44
      case ConfigureFwdLimitAnsId | ConfigureFwdLimitReqId => 0x45
      case NotifyNewEndDeviceReqId => 0x46
      case RawId => 0xff
    }

    static function FromU8(uplink: bool, v: u8): Result<CID> {
      match v
      case 0x01 => Ok(if uplink then ResetIndId else ResetConfId)
      case 0x02 => Ok(if uplink then LinkCheckReqId else LinkCheckAnsId)
      case 0x03 => Ok(if uplink then LinkADRAnsId else LinkADRReqId)
      case 0x04 => Ok(if uplink then DutyCycleAnsId else DutyCycleReqId)
      case 0x05 => Ok(if uplink then RxParamSetupAnsId else RxParamSetupReqId)
      case 0x06 => Ok(if uplink then DevStatusAnsId else DevStatusReqId)
      case 0x07 => Ok(if uplink then NewChannelAnsId else NewChannelReqId)
      case 0x08 => Ok(if uplink then RxTimingSetupAnsId else RxTimingSetupReqId)
      case 0x09 => Ok(if uplink then TxParamSetupAnsId else TxParamSetupReqId)
      case 0x0a => Ok(if uplink then DlChannelAnsId else DlChannelReqId)
      case 0x0b => Ok(if uplink then RekeyIndId else RekeyConfId)
      case 0x0c => Ok(if uplink then ADRParamSetupAnsId else ADRParamSetupReqId)
      case 0x0d => Ok(if uplink then DeviceTimeReqId else DeviceTimeAnsId)
      case 0x0e => if uplink then Err else Ok(ForceRejoinReqId)
      case 0x0f => Ok(if uplink then RejoinParamSetupAnsId else RejoinParamSetupReqId)
      case 0x10 => Ok(if uplink then PingSlotInfoReqId else PingSlotInfoAnsId)
      case 0x11 => Ok(if uplink then PingSlotChannelAnsId else PingSlotChannelReqId)
      case 0x13 => Ok(if uplink then BeaconFreqAnsId else BeaconFreqReqId)
      case 0x20 => Ok(if uplink then DeviceModeIndId else DeviceModeConfId)
      case 0x40 => Ok(if uplink then RelayConfAnsId else RelayConfReqId)
      case 0x41 => Ok(if uplink then EndDeviceConfAnsId else EndDeviceConfReqId)
      case 0x42 => Ok(if uplink then FilterListAnsId else FilterListReqId)
      case 0x43 => Ok(if uplink then UpdateUplinkListAnsId else UpdateUplinkListReqId)
      case 0x44 => Ok(if uplink then CtrlUplinkListAnsId else CtrlUplinkListReqId)
      case 0x45 => Ok(if uplink then ConfigureFwdLimitAnsId else ConfigureFwdLimitReqId)
      case 0x46 => if uplink then Ok(NotifyNewEndDeviceReqId) else Err
      case _ => Err
    }
  }

  datatype MACCommand =
    | ResetInd(version: Version)
    | ResetConf(version: Version)
    | LinkCheckReq
    | LinkCheckAns(margin: u8, gwCnt: u8)
    | LinkADRReq(dr: u8, txPower: u8, chMask: ChMask, redundancy: Redundancy)
    | LinkADRAns(chMaskAck: bool, drAck: bool, txPowerAck: bool)
    | DutyCycleReq(maxDutyCycle: u8)
    | DutyCycleAns
    | RxParamSetupReq(frequency: Hz, dlSettings: DLSettings)
    | RxParamSetupAns(channelAck: bool, rx2DrAck: bool, rx1DrOffsetAck: bool)
    | DevStatusReq
    | DevStatusAns(battery: u8, devMargin: i8)
    | NewChannelReq(chIndex: u8, freq: Hz, minDr: u8, maxDr: u8)
    | NewChannelAns(channelFreqOk: bool, drRangeOk: bool)
    | RxTimingSetupReq(delay: u8)
    | RxTimingSetupAns
    | TxParamSetupReq(uplinkDwellTime: DwellTime, downlinkDwellTime: DwellTime, maxEirp: u8)
    | TxParamSetupAns
    | DlChannelReq(dlChIndex: u8, dlFreq: Hz)
    | DlChannelAns(uplinkFreqExists: bool, dlChannelFreqOk: bool)
    | RekeyConf(version: Version)
    | RekeyInd(version: Version)
    | ADRParamSetupReq(adrParam: ADRParam)
    | ADRParamSetupAns
    | DeviceTimeReq
    | DeviceTimeAns(secs: bv64, nanos: Nanos)
    | ForceRejoinReq(period: u8, maxRetries: u8, rejoinType: u8, rejoinDr: u8)
    | RejoinParamSetupReq(maxTimeN: u8, maxCountN: u8)
    | RejoinParamSetupAns(timeOk: bool)
    | PingSlotInfoReq(periodicity: u8)
    | PingSlotInfoAns
    | PingSlotChannelReq(pingFreq: Hz, pingDr: u8)
    | PingSlotChannelAns(drOk: bool, pingFreqOk: bool)
    | BeaconFreqReq(beaconFreq: Hz)
    | BeaconFreqAns(beaconFreqOk: bool)
    | DeviceModeInd(class_: DeviceModeClass)
    | DeviceModeConf(class_: DeviceModeClass)
    | RelayConfReq(channelSettings: ChannelSettingsRelay, secondChFreq: Hz)
    | RelayConfAns(relayFreqAck: bool, relayAckOffsetAck: bool, relayDrAck: bool, relayChIdxAck: bool,
                   defaultChIdxAck: bool, cadPeriodicityAck: bool)
    | EndDeviceConfReq(activation: ActivationRelayMode, channelSettingsEd: ChannelSettingsED, edFreq: Hz)
    | EndDeviceConfAns(edFreqAck: bool, edDrAck: bool, edChIdxAck: bool, backoffAck: bool)
    | FilterListReq(filterListIdx: u8, action: FilterListAction, eui: bytes)
    | FilterListAns(actionAck: bool, lenAck: bool, combinedRulesAck: bool)
    | UpdateUplinkListReq(uplinkListIdx: u8, uplinkLimit: UplinkLimitPL, devAddr: Bytes4, wFCnt: u32,
                          rootWorSKey: Bytes16)
    | UpdateUplinkListAns
    | CtrlUplinkListReq(ctrlUplinkAction: CtrlUplinkActionPL)
    | CtrlUplinkListAns(idxAck: bool, ctrlWFCnt: u32)
    | ConfigureFwdLimitReq(reloadRate: FwdLimitReloadRatePL, loadCapacity: FwdLimitLoadCapacityPL)
    | ConfigureFwdLimitAns
    | NotifyNewEndDeviceReq(newDevAddr: Bytes4, powerLevel: PowerLevel)
    | Raw(raw: bytes)
  {
    function Cid(): (cid: CID)
      ensures cid.RawId? <==> Raw?
    {
      match this
      case ResetInd(_) => ResetIndId
      case ResetConf(_) => ResetConfId
      case LinkCheckReq => LinkCheckReqId
      case LinkCheckAns(_, _) => LinkCheckAnsId
      case LinkADRReq(_, _, _, _) => LinkADRReqId
      case LinkADRAns(_, _, _) => LinkADRAnsId
      case DutyCycleReq(_) => DutyCycleReqId
      case DutyCycleAns => DutyCycleAnsId
      case RxParamSetupReq(_, _) => RxParamSetupReqId
      case RxParamSetupAns(_, _, _) => RxParamSetupAnsId
      case DevStatusReq => DevStatusReqId
      case DevStatusAns(_, _) => DevStatusAnsId
      case NewChannelReq(_, _, _, _) => NewChannelReqId
      case NewChannelAns(_, _) => NewChannelAnsId
      case RxTimingSetupReq(_) => RxTimingSetupReqId
      case RxTimingSetupAns => RxTimingSetupAnsId
      case TxParamSetupReq(_, _, _) => TxParamSetupReqId
      case TxParamSetupAns => TxParamSetupAnsId
      case DlChannelReq(_, _) => DlChannelReqId
      case DlChannelAns(_, _) => DlChannelAnsId
      case RekeyConf(_) => RekeyConfId
      case RekeyInd(_) => RekeyIndId
      case ADRParamSetupReq(_) => ADRParamSetupReqId
      case ADRParamSetupAns => ADRParamSetupAnsId
      case DeviceTimeReq => DeviceTimeReqId
      case DeviceTimeAns(_, _) => DeviceTimeAnsId
      case ForceRejoinReq(_, _, _, _) => ForceRejoinReqId
      case RejoinParamSetupReq(_, _) => RejoinParamSetupReqId
      case RejoinParamSetupAns(_) => RejoinParamSetupAnsId
      case PingSlotInfoReq(_) => PingSlotInfoReqId
      case PingSlotInfoAns => PingSlotInfoAnsId
      case PingSlotChannelReq(_, _) => PingSlotChannelReqId
      case PingSlotChannelAns(_, _) => PingSlotChannelAnsId
      case BeaconFreqReq(_) => BeaconFreqReqId
      case BeaconFreqAns(_) => BeaconFreqAnsId
      case DeviceModeInd(_) => DeviceModeIndId
      case DeviceModeConf(_) => DeviceModeConfId
      case RelayConfReq(_, _) => RelayConfReqId
      case RelayConfAns(_, _, _, _, _, _) => RelayConfAnsId
      case EndDeviceConfReq(_, _, _) => EndDeviceConfReqId
      case EndDeviceConfAns(_, _, _, _) => EndDeviceConfAnsId
      case FilterListReq(_, _, _) => FilterListReqId
      case FilterListAns(_, _, _) => FilterListAnsId
      case UpdateUplinkListReq(_, _, _, _, _) => UpdateUplinkListReqId
      case UpdateUplinkListAns => UpdateUplinkListAnsId
      case CtrlUplinkListReq(_) => CtrlUplinkListReqId
      case CtrlUplinkListAns(_, _) => CtrlUplinkListAnsId
      case ConfigureFwdLimitReq(_, _) => ConfigureFwdLimitReqId
      case ConfigureFwdLimitAns => ConfigureFwdLimitAnsId
      case NotifyNewEndDeviceReq(_, _) => NotifyNewEndDeviceReqId
      case Raw(_) => RawId
    }
  }

  function FreqAt(b: bytes, i: nat): Hz
    requires i + 3 <= |b|
  {
    DecodedFreq([b[i], b[i + 1], b[i + 2]])
  }

  function ToDwellTime(limited: bool): DwellTime {
    if limited then Limit400ms else NoLimit
  }

  /** The i8 arithmetic of DevStatusAns, with the wrap-around of a release build. */
  function MarginFromU8(b: u8): i8 {
    ByteVal(b);
    var v := Val(b);
    if v > 31 then WrapI8((if v < 128 then v else v - 256) - 64) else v
  }

  function WrapI8(n: int): i8
    requires -256 <= n < 128
  {
    if n < -128 then n + 256 else n
  }

  function MarginToU8(margin: i8): Result<u8> {
    if margin < -32 || margin > 31 then Err
    else Ok(Byte(if margin < 0 then margin + 64 else margin))
  }

  function DeviceTimeBytes(secs: bv64, nanos: Nanos): (b: bytes)
    ensures |b| == 5
  {
    Le32((secs & 0xffff_ffff) as u32) + [Byte(nanos / 3906250)]
  }

  function SecondsOf(b: bytes): bv64
    requires |b| == 5
  {
    FromLe32(b[..4]) as bv64
  }

  function NanosOf(b: bytes): Nanos
    requires |b| == 5
  {
    ByteVal(b[4]);
    Val(b[4]) * 3906250
  }

  function UplinkListBytes(idx: u8, limit: u8, devAddr: Bytes4, wFCnt: u32, key: Bytes16): (b: bytes)
    ensures |b| == 26 && b[0] == idx && b[1] == limit
  {
    [idx, limit] + Reverse(devAddr) + Le32(wFCnt) + key
  }

  function UplinkListAddr(b: bytes): Bytes4
    requires |b| == 26
  {
    Reverse(b[2..6])
  }

  function UplinkListFCnt(b: bytes): u32
    requires |b| == 26
  {
    FromLe32(b[6..10])
  }

  function UplinkListKey(b: bytes): Bytes16
    requires |b| == 26
  {
    b[10..26]
  }

  function FwdLimitBytes(rate: FwdLimitReloadRatePL, capacity: FwdLimitLoadCapacityPL): (r: Result<bytes>)
    ensures r.Ok? ==> |r.value| == 5
  {
    if !rate.InRange() then Err
    else
      var c :- capacity.ToU8();
      Ok([rate.Byte0(), rate.Byte1(), rate.Byte2(), rate.Byte3(), c])
  }

  function FilterListBytes(idx: u8, action: FilterListAction, eui: bytes): (b: bytes)
    requires |eui| <= 16
    ensures |b| == 2 + |eui|
  {
    [FilterListHead(Byte(|eui|), action, idx), idx >> 1] + Reverse(eui)
  }

  function FilterListIdx(b0: u8, b1: u8): u8 {
    ((b0 & 0x80) >> 7) | ((b1 & 0x07) << 1)
  }

  function FilterListHead(len: u8, action: FilterListAction, idx: u8): u8 {
    len | (action.ToU8() << 5) | (idx << 7)
  }

  /** How many bytes the decoder of a payload reads; for FilterListReq, before the filter itself. */
  function FixedLen(cid: CID): nat {
    match cid
    case ResetIndId | ResetConfId | LinkADRAnsId | DutyCycleReqId | RxParamSetupAnsId | NewChannelAnsId => 1
    case RxTimingSetupReqId | TxParamSetupReqId | DlChannelAnsId | RekeyConfId | RekeyIndId | ADRParamSetupReqId => 1
    case RejoinParamSetupReqId | RejoinParamSetupAnsId | PingSlotInfoReqId | PingSlotChannelAnsId | BeaconFreqAnsId => 1
    case DeviceModeIndId | DeviceModeConfId | RelayConfAnsId | EndDeviceConfAnsId | FilterListAnsId
       | CtrlUplinkListReqId => 1
    case LinkCheckAnsId | DevStatusAnsId | ForceRejoinReqId | FilterListReqId => 2
    case BeaconFreqReqId => 3
    case LinkADRReqId | RxParamSetupReqId | DlChannelReqId | PingSlotChannelReqId => 4
    case NewChannelReqId | DeviceTimeAnsId | RelayConfReqId | CtrlUplinkListAnsId | ConfigureFwdLimitReqId => 5
    case EndDeviceConfReqId | NotifyNewEndDeviceReqId => 6
    case UpdateUplinkListReqId => 26
    case _ => 0
  }

  /** How many more bytes FilterListReq reads: the mask 0x17 skips bit 3 of the length. */
  function FilterLen(head: u8): nat {
    Val(head & 0x17)
  }

  function PayloadLen(cid: CID, rest: bytes): Option<nat> {
    if |rest| < FixedLen(cid) then None
    else
      var n := FixedLen(cid) + (if cid.FilterListReqId? then FilterLen(rest[0]) else 0);
      if |rest| < n then None else Some(n)
  }

  /* The payloads, in groups of one kind. A command of another group has no form in a group. */

  /** One byte that names a version or a device class. */
  function EncodeEnum(m: MACCommand): Result<bytes>
  {
    match m
    case ResetInd(v) => Ok([v.ToU8()])
    case ResetConf(v) => Ok([v.ToU8()])
    case RekeyConf(v) => Ok([v.ToU8()])
    case RekeyInd(v) => Ok([v.ToU8()])
    case DeviceModeInd(class_) => Ok([class_.ToU8()])
    case DeviceModeConf(class_) => Ok([class_.ToU8()])
    case _ => Err
  }

  /** One byte of flags. */
  function EncodeFlags(m: MACCommand): Result<bytes>
  {
    match m
    case LinkADRAns(ch, dr, power) => Ok([Flags3(ch, dr, power)])
    case RxParamSetupAns(ch, rx2, rx1) => Ok([Flags3(ch, rx2, rx1)])
    case NewChannelAns(freqOk, rangeOk) => Ok([Flags2(freqOk, rangeOk)])
    case DlChannelAns(exists_, freqOk) => Ok([Flags2(freqOk, exists_)])
    case RejoinParamSetupAns(timeOk) => Ok([Flag(timeOk, 0x01)])
    case PingSlotChannelAns(drOk, freqOk) => Ok([Flags2(freqOk, drOk)])
    case BeaconFreqAns(freqOk) => Ok([Flag(freqOk, 0x01)])
    case RelayConfAns(freq, offset, dr, idx, defaultIdx, cad) => Ok([Flags6(freq, offset, dr, idx, defaultIdx, cad)])
    case EndDeviceConfAns(freq, dr, idx, backoff) => Ok([Flags4(freq, dr, idx, backoff)])
    case FilterListAns(action, len, combined) => Ok([Flags3(action, len, combined)])
    case _ => Err
  }

  /** One byte of small fields. */
  function EncodeByte(m: MACCommand): Result<bytes>
  {
    match m
    case DutyCycleReq(max) => if max > 15 && max != 255 then Err else Ok([max])
    case RxTimingSetupReq(delay) => if delay > 15 then Err else Ok([delay])
    case TxParamSetupReq(up, down, maxEirp) =>
      if maxEirp > 15 then Err
      else Ok([maxEirp | Flag(up.Limit400ms?, 0x10) | Flag(down.Limit400ms?, 0x20)])
    case ADRParamSetupReq(param) =>
      var p :- param.ToU8();
      Ok([p])
    case RejoinParamSetupReq(maxTimeN, maxCountN) =>
      if maxTimeN > 15 || maxCountN > 15 then Err else Ok([maxCountN | (maxTimeN << 4)])
    case PingSlotInfoReq(periodicity) => if periodicity > 7 then Err else Ok([periodicity])
    case CtrlUplinkListReq(action) =>
      var a :- action.ToU8();
      Ok([a])
    case _ => Err
  }

  /** Two to five bytes of fields. */
  function EncodeSetting(m: MACCommand): Result<bytes>
  {
    match m
    case LinkCheckAns(margin, gwCnt) => Ok([margin, gwCnt])
    case LinkADRReq(dr, txPower, chMask, redundancy) =>
      if dr > 15 || txPower > 15 then Err
      else
        var r :- redundancy.ToU8();
        Ok([txPower | (dr << 4), MaskToBytes(chMask)[0], MaskToBytes(chMask)[1], r])
    case DevStatusAns(battery, margin) =>
      var v :- MarginToU8(margin);
      Ok([battery, v])
    case DeviceTimeAns(secs, nanos) =>
      Ok(DeviceTimeBytes(secs, nanos))
    case ForceRejoinReq(period, maxRetries, rejoinType, dr) =>
      if period > 7 || maxRetries > 7 || (rejoinType != 0 && rejoinType != 2) || dr > 15 then Err
      else Ok([dr | (rejoinType << 4), maxRetries | (period << 3)])
    case CtrlUplinkListAns(ack, wFCnt) =>
      var f := Le32(wFCnt);
      Ok([Flag(ack, 0x01), f[0], f[1], f[2], f[3]])
    case ConfigureFwdLimitReq(rate, capacity) => FwdLimitBytes(rate, capacity)
    case _ => Err
  }

  /** Payloads that hold a frequency. */
  function EncodeChannel(m: MACCommand): Result<bytes>
  {
    match m
    case RxParamSetupReq(freq, settings) =>
      var s :- settings.ToU8();
      var f :- EncodedFreq(freq);
      Ok([s, f[0], f[1], f[2]])
    case NewChannelReq(idx, freq, minDr, maxDr) =>
      var f :- EncodedFreq(freq);
      Ok([idx, f[0], f[1], f[2], minDr | (maxDr << 4)])
    case DlChannelReq(idx, freq) =>
      var f :- EncodedFreq(freq);
      Ok([idx, f[0], f[1], f[2]])
    case PingSlotChannelReq(freq, dr) =>
      var f :- EncodedFreq(freq);
      Ok([f[0], f[1], f[2], dr])
    case BeaconFreqReq(freq) =>
      var f :- EncodedFreq(freq);
      Ok([f[0], f[1], f[2]])
    case RelayConfReq(settings, freq) =>
      if !settings.InRange() then Err
      else
        var f :- EncodedFreq(freq);
        Ok([settings.Byte0(), settings.Byte1(), f[0], f[1], f[2]])
    case EndDeviceConfReq(activation, settings, freq) =>
      var a :- activation.ToU8();
      if !settings.InRange() then Err
      else
        var f :- EncodedFreq(freq);
        Ok([a, settings.Byte0(), settings.Byte1(), f[0], f[1], f[2]])
    case _ => Err
  }

  /** Payloads about one end device of a relay. */
  function EncodeDevice(m: MACCommand): Result<bytes>
  {
    match m
    case FilterListReq(idx, action, eui) =>
      if idx > 15 || |eui| > 16 then Err else Ok(FilterListBytes(idx, action, eui))
    case UpdateUplinkListReq(idx, limit, devAddr, wFCnt, key) =>
      if idx > 15 then Err
      else
        var l :- limit.ToU8();
        Ok(UplinkListBytes(idx, l, devAddr, wFCnt, key))
    case NotifyNewEndDeviceReq(devAddr, level) =>
      var d := Reverse(devAddr);
      Ok([d[0], d[1], d[2], d[3], level.Byte0(), level.Byte1()])
    case _ => Err
  }

  /** The bytes that follow the command identifier. */
  function EncodePayload(m: MACCommand): Result<bytes>
    requires !m.Raw?
  {
    match m
    case LinkCheckReq | DutyCycleAns | DevStatusReq | RxTimingSetupAns | TxParamSetupAns | ADRParamSetupAns
       | DeviceTimeReq | PingSlotInfoAns | UpdateUplinkListAns | ConfigureFwdLimitAns => Ok([])
    case ResetInd(_) | ResetConf(_) | RekeyConf(_) | RekeyInd(_) | DeviceModeInd(_) | DeviceModeConf(_) => EncodeEnum(m)
    case LinkADRAns(_, _, _) | RxParamSetupAns(_, _, _) | NewChannelAns(_, _) | DlChannelAns(_, _)
       | RejoinParamSetupAns(_) | PingSlotChannelAns(_, _) | BeaconFreqAns(_) | RelayConfAns(_, _, _, _, _, _)
       | EndDeviceConfAns(_, _, _, _) | FilterListAns(_, _, _) => EncodeFlags(m)
    case DutyCycleReq(_) | RxTimingSetupReq(_) | TxParamSetupReq(_, _, _) | ADRParamSetupReq(_)
       | RejoinParamSetupReq(_, _) | PingSlotInfoReq(_) | CtrlUplinkListReq(_) => EncodeByte(m)
    case LinkCheckAns(_, _) | LinkADRReq(_, _, _, _) | DevStatusAns(_, _) | DeviceTimeAns(_, _)
       | ForceRejoinReq(_, _, _, _) | CtrlUplinkListAns(_, _) | ConfigureFwdLimitReq(_, _) => EncodeSetting(m)
    case RxParamSetupReq(_, _) | NewChannelReq(_, _, _, _) | DlChannelReq(_, _) | PingSlotChannelReq(_, _)
       | BeaconFreqReq(_) | RelayConfReq(_, _) | EndDeviceConfReq(_, _, _) => EncodeChannel(m)
    case FilterListReq(_, _, _) | UpdateUplinkListReq(_, _, _, _, _) | NotifyNewEndDeviceReq(_, _) => EncodeDevice(m)
  }

  predicate EnumId(cid: CID) {
    || cid.ResetIndId? || cid.ResetConfId? || cid.RekeyConfId? || cid.RekeyIndId? || cid.DeviceModeIndId?
    || cid.DeviceModeConfId?
  }

  function ParseEnum(cid: CID, b: bytes): Result<MACCommand>
    requires EnumId(cid) && PayloadLen(cid, b) == Some(|b|)
  {
    match cid
    case ResetIndId => var v :- Version.FromU8(b[0]); Ok(ResetInd(v))
    case ResetConfId => var v :- Version.FromU8(b[0]); Ok(ResetConf(v))
    case RekeyConfId => var v :- Version.FromU8(b[0]); Ok(RekeyConf(v))
    case RekeyIndId => var v :- Version.FromU8(b[0]); Ok(RekeyInd(v))
    case DeviceModeIndId => var c :- DeviceModeClass.FromU8(b[0]); Ok(DeviceModeInd(c))
    case DeviceModeConfId => var c :- DeviceModeClass.FromU8(b[0]); Ok(DeviceModeConf(c))
  }

  predicate FlagsId(cid: CID) {
    || cid.LinkADRAnsId? || cid.RxParamSetupAnsId? || cid.NewChannelAnsId? || cid.DlChannelAnsId?
    || cid.RejoinParamSetupAnsId? || cid.PingSlotChannelAnsId? || cid.BeaconFreqAnsId? || cid.RelayConfAnsId?
    || cid.EndDeviceConfAnsId? || cid.FilterListAnsId?
  }

  function ParseFlags(cid: CID, b: bytes): Result<MACCommand>
    requires FlagsId(cid) && PayloadLen(cid, b) == Some(|b|)
  {
    match cid
    case LinkADRAnsId => Ok(LinkADRAns(b[0] & 0x01 != 0, b[0] & 0x02 != 0, b[0] & 0x04 != 0))
    case RxParamSetupAnsId => Ok(RxParamSetupAns(b[0] & 0x01 != 0, b[0] & 0x02 != 0, b[0] & 0x04 != 0))
    case NewChannelAnsId => Ok(NewChannelAns(b[0] & 0x01 != 0, b[0] & 0x02 != 0))
    case DlChannelAnsId => Ok(DlChannelAns(b[0] & 0x02 != 0, b[0] & 0x01 != 0))
    case RejoinParamSetupAnsId => Ok(RejoinParamSetupAns(b[0] & 0x01 != 0))
    case PingSlotChannelAnsId => Ok(PingSlotChannelAns(b[0] & 0x02 != 0, b[0] & 0x01 != 0))
    case BeaconFreqAnsId => Ok(BeaconFreqAns(b[0] & 0x01 != 0))
    case RelayConfAnsId =>
      Ok(RelayConfAns(b[0] & 0x01 != 0, b[0] & 0x02 != 0, b[0] & 0x04 != 0, b[0] & 0x08 != 0, b[0] & 0x10 != 0,
                      b[0] & 0x20 != 0))
    case EndDeviceConfAnsId =>
      Ok(EndDeviceConfAns(b[0] & 0x01 != 0, b[0] & 0x02 != 0, b[0] & 0x04 != 0, b[0] & 0x08 != 0))
    case FilterListAnsId => Ok(FilterListAns(b[0] & 0x01 != 0, b[0] & 0x02 != 0, b[0] & 0x04 != 0))
  }

  predicate ByteId(cid: CID) {
    || cid.DutyCycleReqId? || cid.RxTimingSetupReqId? || cid.TxParamSetupReqId? || cid.ADRParamSetupReqId?
    || cid.RejoinParamSetupReqId? || cid.PingSlotInfoReqId? || cid.CtrlUplinkListReqId?
  }

  function ParseByte(cid: CID, b: bytes): Result<MACCommand>
    requires ByteId(cid) && PayloadLen(cid, b) == Some(|b|)
  {
    match cid
    case DutyCycleReqId => Ok(DutyCycleReq(b[0]))
    case RxTimingSetupReqId => Ok(RxTimingSetupReq(b[0]))
    case TxParamSetupReqId =>
      Ok(TxParamSetupReq(ToDwellTime(b[0] & 0x10 != 0), ToDwellTime(b[0] & 0x20 != 0), b[0] & 0x0f))
    case ADRParamSetupReqId => Ok(ADRParamSetupReq(ADRParam.FromU8(b[0])))
    case RejoinParamSetupReqId => Ok(RejoinParamSetupReq((b[0] & 0xf0) >> 4, b[0] & 0x0f))
    case PingSlotInfoReqId => Ok(PingSlotInfoReq(b[0] & 0x07))
    case CtrlUplinkListReqId => Ok(CtrlUplinkListReq(CtrlUplinkActionPL.FromU8(b[0])))
  }

  predicate SettingId(cid: CID) {
    || cid.LinkCheckAnsId? || cid.LinkADRReqId? || cid.DevStatusAnsId? || cid.DeviceTimeAnsId?
    || cid.ForceRejoinReqId? || cid.CtrlUplinkListAnsId? || cid.ConfigureFwdLimitReqId?
  }

  function ParseSetting(cid: CID, b: bytes): Result<MACCommand>
    requires SettingId(cid) && PayloadLen(cid, b) == Some(|b|)
  {
    match cid
    case LinkCheckAnsId => Ok(LinkCheckAns(b[0], b[1]))
    case LinkADRReqId =>
      Ok(LinkADRReq((b[0] & 0xf0) >> 4, b[0] & 0x0f, MaskFromBytes(b[1], b[2]), Redundancy.FromU8(b[3])))
    case DevStatusAnsId => Ok(DevStatusAns(b[0], MarginFromU8(b[1])))
    case DeviceTimeAnsId =>
      Ok(DeviceTimeAns(SecondsOf(b), NanosOf(b)))
    case ForceRejoinReqId =>
      Ok(ForceRejoinReq((b[1] & 0x38) >> 3, b[1] & 0x07, (b[0] & 0x70) >> 4, b[0] & 0x0f))
    case CtrlUplinkListAnsId => Ok(CtrlUplinkListAns(b[0] & 0x01 > 0, FromLe32([b[1], b[2], b[3], b[4]])))
    case ConfigureFwdLimitReqId =>
      var r :- FwdLimitReloadRatePL.FromBytes(b[0], b[1], b[2], b[3]);
      Ok(ConfigureFwdLimitReq(r, FwdLimitLoadCapacityPL.FromU8(b[4])))
  }

  predicate ChannelId(cid: CID) {
    || cid.RxParamSetupReqId? || cid.NewChannelReqId? || cid.DlChannelReqId? || cid.PingSlotChannelReqId?
    || cid.BeaconFreqReqId? || cid.RelayConfReqId? || cid.EndDeviceConfReqId?
  }

  function ParseChannel(cid: CID, b: bytes): Result<MACCommand>
    requires ChannelId(cid) && PayloadLen(cid, b) == Some(|b|)
  {
    match cid
    case RxParamSetupReqId => Ok(RxParamSetupReq(FreqAt(b, 1), DLSettings.FromU8(b[0])))
    case NewChannelReqId => Ok(NewChannelReq(b[0], FreqAt(b, 1), b[4] & 0x0f, (b[4] & 0xf0) >> 4))
    case DlChannelReqId => Ok(DlChannelReq(b[0], FreqAt(b, 1)))
    case PingSlotChannelReqId => Ok(PingSlotChannelReq(FreqAt(b, 0), b[3] & 0x0f))
    case BeaconFreqReqId => Ok(BeaconFreqReq(FreqAt(b, 0)))
    case RelayConfReqId => Ok(RelayConfReq(ChannelSettingsRelay.FromBytes(b[0], b[1]), FreqAt(b, 2)))
    case EndDeviceConfReqId =>
      var a :- ActivationRelayMode.FromU8(b[0]);
      Ok(EndDeviceConfReq(a, ChannelSettingsED.FromBytes(b[1], b[2]), FreqAt(b, 3)))
  }

  predicate DeviceId(cid: CID) {
    || cid.FilterListReqId? || cid.UpdateUplinkListReqId? || cid.NotifyNewEndDeviceReqId?
  }

  function ParseDevice(cid: CID, b: bytes): Result<MACCommand>
    requires DeviceId(cid) && PayloadLen(cid, b) == Some(|b|)
  {
    match cid
    case FilterListReqId =>
      var a :- FilterListAction.FromU8((b[0] & 0x60) >> 5);
      Ok(FilterListReq(FilterListIdx(b[0], b[1]), a, Reverse(b[2..])))
    case UpdateUplinkListReqId =>
      Ok(UpdateUplinkListReq(b[0] & 0x0f, UplinkLimitPL.FromU8(b[1]), UplinkListAddr(b), UplinkListFCnt(b),
                             UplinkListKey(b)))
    case NotifyNewEndDeviceReqId =>
      Ok(NotifyNewEndDeviceReq(Reverse([b[0], b[1], b[2], b[3]]), PowerLevel.FromBytes(b[4], b[5])))
  }

  predicate EmptyId(cid: CID) {
    || cid.LinkCheckReqId? || cid.DutyCycleAnsId? || cid.DevStatusReqId? || cid.RxTimingSetupAnsId?
    || cid.TxParamSetupAnsId? || cid.ADRParamSetupAnsId? || cid.DeviceTimeReqId? || cid.PingSlotInfoAnsId?
    || cid.UpdateUplinkListAnsId? || cid.ConfigureFwdLimitAnsId?
  }

  function ParseEmpty(cid: CID): Result<MACCommand>
    requires EmptyId(cid)
  {
    match cid
    case LinkCheckReqId => Ok(LinkCheckReq)
    case DutyCycleAnsId => Ok(DutyCycleAns)
    case DevStatusReqId => Ok(DevStatusReq)
    case RxTimingSetupAnsId => Ok(RxTimingSetupAns)
    case TxParamSetupAnsId => Ok(TxParamSetupAns)
    case ADRParamSetupAnsId => Ok(ADRParamSetupAns)
    case DeviceTimeReqId => Ok(DeviceTimeReq)
    case PingSlotInfoAnsId => Ok(PingSlotInfoAns)
    case UpdateUplinkListAnsId => Ok(UpdateUplinkListAns)
    case ConfigureFwdLimitAnsId => Ok(ConfigureFwdLimitAns)
  }

  /** Interprets the bytes that the decoder of a payload has read. */
  function ParsePayload(cid: CID, b: bytes): Result<MACCommand>
    requires !cid.RawId? && PayloadLen(cid, b) == Some(|b|)
  {
    match cid
    case LinkCheckReqId | DutyCycleAnsId | DevStatusReqId | RxTimingSetupAnsId | TxParamSetupAnsId
       | ADRParamSetupAnsId | DeviceTimeReqId | PingSlotInfoAnsId | UpdateUplinkListAnsId
       | ConfigureFwdLimitAnsId => ParseEmpty(cid)
    case ResetIndId | ResetConfId | RekeyConfId | RekeyIndId | DeviceModeIndId | DeviceModeConfId => ParseEnum(cid, b)
    case LinkADRAnsId | RxParamSetupAnsId | NewChannelAnsId | DlChannelAnsId | RejoinParamSetupAnsId
       | PingSlotChannelAnsId | BeaconFreqAnsId | RelayConfAnsId | EndDeviceConfAnsId
       | FilterListAnsId => ParseFlags(cid, b)
    case DutyCycleReqId | RxTimingSetupReqId | TxParamSetupReqId | ADRParamSetupReqId | RejoinParamSetupReqId
       | PingSlotInfoReqId | CtrlUplinkListReqId => ParseByte(cid, b)
    case LinkCheckAnsId | LinkADRReqId | DevStatusAnsId | DeviceTimeAnsId | ForceRejoinReqId
       | CtrlUplinkListAnsId | ConfigureFwdLimitReqId => ParseSetting(cid, b)
    case RxParamSetupReqId | NewChannelReqId | DlChannelReqId | PingSlotChannelReqId | BeaconFreqReqId
       | RelayConfReqId | EndDeviceConfReqId => ParseChannel(cid, b)
    case FilterListReqId | UpdateUplinkListReqId | NotifyNewEndDeviceReqId => ParseDevice(cid, b)
  }

  /** The values of encodable commands that the wire form can hold. */
  predicate Canonical(m: MACCommand) {
    match m
    case RxParamSetupReq(freq, _) => CanonicalFreq(freq)
    case NewChannelReq(_, freq, minDr, maxDr) => CanonicalFreq(freq) && minDr <= 15 && maxDr <= 15
    case DlChannelReq(_, freq) => CanonicalFreq(freq)
    case DeviceTimeAns(secs, nanos) => secs < 0x1_0000_0000 && nanos % 3906250 == 0
    case PingSlotChannelReq(freq, dr) => CanonicalFreq(freq) && dr <= 15
    case BeaconFreqReq(freq) => CanonicalFreq(freq)
    case RelayConfReq(_, freq) => CanonicalFreq(freq)
    case EndDeviceConfReq(_, _, freq) => CanonicalFreq(freq)
    case FilterListReq(_, _, eui) => |eui| < 8 || |eui| == 16
    case NotifyNewEndDeviceReq(_, level) => -20 <= level.worSnr <= 11 && -142 <= level.worRssi <= -15
    case _ => true
  }
}
