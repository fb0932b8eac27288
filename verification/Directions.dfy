/** Which MAC commands a device sends and which a server, and the byte that stands for each (section 5 of LoRaWAN 1.1,
    and TS011 for the relay commands). */
module Directions {
  import opened Bytes
  import opened MacCommands

  // The commands of uplinks: up to 0x08, then the rest of LoRaWAN, then those of relays.

  predicate DeviceSendsSettings(m: MACCommand) {
    || m.ResetInd? || m.LinkCheckReq? || m.LinkADRAns? || m.DutyCycleAns? || m.RxParamSetupAns?
    || m.DevStatusAns? || m.NewChannelAns? || m.RxTimingSetupAns?
  }

  predicate DeviceSendsLink(m: MACCommand) {
    || m.TxParamSetupAns? || m.DlChannelAns? || m.RekeyInd? || m.ADRParamSetupAns? || m.DeviceTimeReq?
    || m.RejoinParamSetupAns? || m.PingSlotInfoReq? || m.PingSlotChannelAns? || m.BeaconFreqAns?
    || m.DeviceModeInd?
  }

  predicate DeviceSendsRelay(m: MACCommand) {
    || m.RelayConfAns? || m.EndDeviceConfAns? || m.FilterListAns? || m.UpdateUplinkListAns?
    || m.CtrlUplinkListAns? || m.ConfigureFwdLimitAns? || m.NotifyNewEndDeviceReq?
  }

  predicate DeviceSends(m: MACCommand) {
    DeviceSendsSettings(m) || DeviceSendsLink(m) || DeviceSendsRelay(m)
  }

  // The commands of downlinks.

  predicate ServerSendsSettings(m: MACCommand) {
    || m.ResetConf? || m.LinkCheckAns? || m.LinkADRReq? || m.DutyCycleReq? || m.RxParamSetupReq?
    || m.DevStatusReq? || m.NewChannelReq? || m.RxTimingSetupReq?
  }

  predicate ServerSendsLink(m: MACCommand) {
    || m.TxParamSetupReq? || m.DlChannelReq? || m.RekeyConf? || m.ADRParamSetupReq? || m.DeviceTimeAns?
    || m.ForceRejoinReq? || m.RejoinParamSetupReq? || m.PingSlotInfoAns? || m.PingSlotChannelReq?
    || m.BeaconFreqReq? || m.DeviceModeConf?
  }

  predicate ServerSendsRelay(m: MACCommand) {
    || m.RelayConfReq? || m.EndDeviceConfReq? || m.FilterListReq? || m.UpdateUplinkListReq?
    || m.CtrlUplinkListReq? || m.ConfigureFwdLimitReq?
  }

  predicate ServerSends(m: MACCommand) {
    ServerSendsSettings(m) || ServerSendsLink(m) || ServerSendsRelay(m)
  }

  predicate Carries(uplink: bool, m: MACCommand) {
    if uplink then DeviceSends(m) else ServerSends(m)
  }

  /** The identifier of a command; a question and its answer share it. */
  function CommandCode(m: MACCommand): u8 {
    match m
    case ResetInd(_) | ResetConf(_) => 0x01
    case LinkCheckReq | LinkCheckAns(_, _) => 0x02
    case LinkADRReq(_, _, _, _) | LinkADRAns(_, _, _) => 0x03
    case DutyCycleReq(_) | DutyCycleAns => 0x04
    case RxParamSetupReq(_, _) | RxParamSetupAns(_, _, _) => 0x05
    case DevStatusReq | DevStatusAns(_, _) => 0x06
    case NewChannelReq(_, _, _, _) | NewChannelAns(_, _) => 0x07
    case RxTimingSetupReq(_) | RxTimingSetupAns => 0x08
    case TxParamSetupReq(_, _, _) | TxParamSetupAns => 0x09
    case DlChannelReq(_, _) | DlChannelAns(_, _) => 0x0a
    case RekeyInd(_) | RekeyConf(_) => 0x0b
    case ADRParamSetupReq(_) | ADRParamSetupAns => 0x0c
    case DeviceTimeReq | DeviceTimeAns(_, _) => 0x0d
    case ForceRejoinReq(_, _, _, _) => 0x0e
    case RejoinParamSetupReq(_, _) | RejoinParamSetupAns(_) => 0x0f
    case PingSlotInfoReq(_) | PingSlotInfoAns => 0x10
    case PingSlotChannelReq(_, _) | PingSlotChannelAns(_, _) => 0x11
    case BeaconFreqReq(_) | BeaconFreqAns(_) => 0x13
    case DeviceModeInd(_) | DeviceModeConf(_) => 0x20
    case RelayConfReq(_, _) | RelayConfAns(_, _, _, _, _, _) => 0x40
    case EndDeviceConfReq(_, _, _) | EndDeviceConfAns(_, _, _, _) => 0x41
    case FilterListReq(_, _, _) | FilterListAns(_, _, _) => 0x42
    case UpdateUplinkListReq(_, _, _, _, _) | UpdateUplinkListAns => 0x43
    case CtrlUplinkListReq(_) | CtrlUplinkListAns(_, _) => 0x44
    case ConfigureFwdLimitReq(_, _) | ConfigureFwdLimitAns => 0x45
    case NotifyNewEndDeviceReq(_, _) => 0x46
    case Raw(_) => 0xff
  }

  /** The bytes that stand for a command in this direction. */
  predicate KnownCode(uplink: bool, v: u8) {
    || 0x01 <= v <= 0x0d || (v == 0x0e && !uplink) || 0x0f <= v <= 0x11 || v == 0x13 || v == 0x20
    || 0x40 <= v <= 0x45 || (v == 0x46 && uplink)
  }

  /** The identifier is right, and is read back on this side of the link only. */
  predicate ReadOn(uplink: bool, m: MACCommand) {
    Coded(m) && ReadHere(uplink, m) && NotReadThere(uplink, m)
  }

  predicate Coded(m: MACCommand) {
    m.Cid().ToU8() == CommandCode(m)
  }

  predicate ReadHere(uplink: bool, m: MACCommand) {
    CID.FromU8(uplink, CommandCode(m)) == Ok(m.Cid())
  }

  predicate NotReadThere(uplink: bool, m: MACCommand) {
    CID.FromU8(!uplink, CommandCode(m)) != Ok(m.Cid())
  }

  lemma DeviceSettingsCoded(m: MACCommand)
    requires DeviceSendsSettings(m)
    ensures Coded(m)
  {}

  lemma DeviceSettingsRead(m: MACCommand)
    requires DeviceSendsSettings(m)
    ensures ReadHere(true, m)
  {}

  lemma DeviceSettingsUnread(m: MACCommand)
    requires DeviceSendsSettings(m)
    ensures NotReadThere(true, m)
  {}

  lemma DeviceLinkCoded(m: MACCommand)
    requires DeviceSendsLink(m)
    ensures Coded(m)
  {}

  lemma DeviceLinkRead(m: MACCommand)
    requires DeviceSendsLink(m)
    ensures ReadHere(true, m)
  {}

  lemma DeviceLinkUnread(m: MACCommand)
    requires DeviceSendsLink(m)
    ensures NotReadThere(true, m)
  {}

  lemma DeviceRelayCoded(m: MACCommand)
    requires DeviceSendsRelay(m)
    ensures Coded(m)
  {}

  lemma DeviceRelayRead(m: MACCommand)
    requires DeviceSendsRelay(m)
    ensures ReadHere(true, m)
  {}

  lemma DeviceRelayUnread(m: MACCommand)
    requires DeviceSendsRelay(m)
    ensures NotReadThere(true, m)
  {}

  lemma DeviceCode(m: MACCommand)
    requires DeviceSends(m)
    ensures ReadOn(true, m)
  {
    hide Coded, ReadHere, NotReadThere, DeviceSendsSettings, DeviceSendsLink, DeviceSendsRelay;
    if DeviceSendsSettings(m) {
      DeviceSettingsCoded(m);
      DeviceSettingsRead(m);
      DeviceSettingsUnread(m);
    } else if DeviceSendsLink(m) {
      DeviceLinkCoded(m);
      DeviceLinkRead(m);
      DeviceLinkUnread(m);
    } else {
      DeviceRelayCoded(m);
      DeviceRelayRead(m);
      DeviceRelayUnread(m);
    }
  }

  lemma ServerSettingsCoded(m: MACCommand)
    requires ServerSendsSettings(m)
    ensures Coded(m)
  {}

  lemma ServerSettingsRead(m: MACCommand)
    requires ServerSendsSettings(m)
    ensures ReadHere(false, m)
  {}

  lemma ServerSettingsUnread(m: MACCommand)
    requires ServerSendsSettings(m)
    ensures NotReadThere(false, m)
  {}

  lemma ServerLinkCoded(m: MACCommand)
    requires ServerSendsLink(m)
    ensures Coded(m)
  {}

  lemma ServerLinkRead(m: MACCommand)
    requires ServerSendsLink(m)
    ensures ReadHere(false, m)
  {}

  lemma ServerLinkUnread(m: MACCommand)
    requires ServerSendsLink(m)
    ensures NotReadThere(false, m)
  {}

  lemma ServerRelayCoded(m: MACCommand)
    requires ServerSendsRelay(m)
    ensures Coded(m)
  {}

  lemma ServerRelayRead(m: MACCommand)
    requires ServerSendsRelay(m)
    ensures ReadHere(false, m)
  {}

  lemma ServerRelayUnread(m: MACCommand)
    requires ServerSendsRelay(m)
    ensures NotReadThere(false, m)
  {}

  lemma ServerCode(m: MACCommand)
    requires ServerSends(m)
    ensures ReadOn(false, m)
  {
    hide Coded, ReadHere, NotReadThere, ServerSendsSettings, ServerSendsLink, ServerSendsRelay;
    if ServerSendsSettings(m) {
      ServerSettingsCoded(m);
      ServerSettingsRead(m);
      ServerSettingsUnread(m);
    } else if ServerSendsLink(m) {
      ServerLinkCoded(m);
      ServerLinkRead(m);
      ServerLinkUnread(m);
    } else {
      ServerRelayCoded(m);
      ServerRelayRead(m);
      ServerRelayUnread(m);
    }
  }

  /** Every command has one direction. */
  lemma OneSide(m: MACCommand)
    ensures !m.Raw? <==> DeviceSends(m) || ServerSends(m)
    ensures !(DeviceSends(m) && ServerSends(m))
  {}

  lemma CodeIs(m: MACCommand)
    requires !m.Raw?
    ensures m.Cid().ToU8() == CommandCode(m)
  {
    hide CID.ToU8, CommandCode, MACCommand.Cid, DeviceSends, ServerSends;
    OneSide(m);
    if DeviceSends(m) {
      DeviceCode(m);
    } else {
      ServerCode(m);
    }
  }

  /** An identifier is known in a direction exactly if it stands for a command of that direction. */
  lemma KnownCodeIff(uplink: bool, v: u8)
    ensures CID.FromU8(uplink, v).Ok? <==> KnownCode(uplink, v)
  {}

  /** The identifier of a command reads as that command exactly in the direction that carries it. */
  lemma CarriesIff(uplink: bool, m: MACCommand)
    requires !m.Raw?
    ensures CID.FromU8(uplink, m.Cid().ToU8()) == Ok(m.Cid()) <==> Carries(uplink, m)
  {
    hide CID.ToU8, CID.FromU8, CommandCode, MACCommand.Cid, DeviceSends, ServerSends;
    OneSide(m);
    CodeIs(m);
    if DeviceSends(m) {
      DeviceCode(m);
    } else {
      ServerCode(m);
    }
  }
}
