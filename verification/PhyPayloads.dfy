/** PhyPayload as the object it is in lrwn/src/phy_payload.rs: methods that overwrite its header, payload and MIC. */
module PhyPayloads {
  import opened Bytes
  import opened MacCommands
  import opened MacStream
  import opened MacSet
  import opened Frames
  import opened Crypto
  import opened PhyOps

  /** An operation either fails and leaves the value alone, or succeeds and changes it as specified. */
  ghost predicate Became(r: Result<()>, outcome: Result<PhyFrame>, before: PhyFrame, after: PhyFrame) {
    match outcome
    case Err => r.Err? && after == before
    case Ok(v) => r.Ok? && after == v
  }

  function WithMic(p: PhyFrame, m: Result<Mic>): Result<PhyFrame> {
    if m.Ok? then Ok(p.(mic := Some(m.value))) else Err
  }

  /** Writes `part` into `block` from position `at` on. */
  function Splice(block: bytes, at: nat, part: bytes): (r: bytes)
    requires at + |part| <= |block|
    ensures |r| == |block|
  {
    block[..at] + part + block[at + |part|..]
  }

  /** The MIC that a failed join-accept decryption leaves: the decrypted one, if there was anything to decrypt. */
  function MicOnFailure(s: Suite, key: Key, p: PhyFrame): Option<Mic> {
    if p.mic.None? || !p.payload.RawFrame? || |p.payload.raw + p.mic.value| % 16 != 0 then p.mic
    else
      var pt := EachBlock(b => s.enc(key, b), p.payload.raw + p.mic.value);
      Some(pt[|pt| - 4..])
  }

  class PhyPayload {
    var mhdr: MHDR
    var payload: Payload
    var mic: Option<Mic>

    function Value(): PhyFrame
      reads this
    {
      PhyFrame(mhdr, payload, mic)
    }

    constructor (v: PhyFrame)
      ensures Value() == v
    {
      mhdr := v.mhdr;
      payload := v.payload;
      mic := v.mic;
    }

    method ToVec() returns (r: Result<bytes>)
      ensures r == PhyToVec(Value())
    {
      hide PayloadToVec, MhdrToByte;
      var b := [MhdrToByte(mhdr)];
      var pl := PayloadToVec(payload);
      if pl.Err? {
        return Err;
      }
      b := b + pl.value;
      if mic.Some? {
        b := b + mic.value;
      } else {
        assert b + [] == b;
      }
      return Ok(b);
    }

    static method FromSlice(b: bytes) returns (r: Result<PhyPayload>)
      ensures r.Ok? <==> PhyFromSlice(b).Ok?
      ensures r.Ok? ==> fresh(r.value) && r.value.Value() == PhyFromSlice(b).value
    {
      hide PayloadFromSlice, MhdrFromByte;
      if b == [] {
        return Err;
      }
      var h := MhdrFromByte(b[0]);
      if h.Err? {
        return Err;
      }
      if h.value.fType.Proprietary? {
        var raw := PayloadFromSlice(Proprietary, b[1..]);
        if raw.Err? {
          return Err;
        }
        var proprietary := new PhyPayload(PhyFrame(h.value, raw.value, None));
        return Ok(proprietary);
      }
      if |b| < 5 {
        return Err;
      }
      var pl := PayloadFromSlice(h.value.fType, b[1..|b| - 4]);
      if pl.Err? {
        return Err;
      }
      var phy := new PhyPayload(PhyFrame(h.value, pl.value, Some(b[|b| - 4..])));
      return Ok(phy);
    }

    // MICs

    method CalculateUplinkDataMic(s: Suite, ver: MACVersion, confFCnt: u32, txDr: u8, txCh: u8, fKey: Key, sKey: Key)
      returns (r: Result<Mic>)
      ensures r == UplinkMic(s, Value(), ver, confFCnt, txDr, txCh, fKey, sKey)
    {
      hide PayloadToVec, MhdrToByte, MicBlock, ConfFCnt;
      if !payload.MACFrame? {
        return Err;
      }
      var h := payload.mac.fhdr;
      var b := PayloadToVec(payload);
      if b.Err? {
        return Err;
      }
      var micBytes := [MhdrToByte(mhdr)] + b.value;
      var conf := ConfFCnt(h.fCtrl.ack, confFCnt);
      var b0, b1 := BuildUplinkBlocks(conf, txDr, txCh, h.devAddr, h.fCnt, |micBytes|);
      var cmacS := s.cmac(sKey, b1 + micBytes);
      var cmacF := s.cmac(fKey, b0 + micBytes);
      if ver.LoRaWAN1_0? {
        return Ok(cmacF[..4]);
      }
      return Ok(cmacS[..2] + cmacF[..2]);
    }

    static method BuildUplinkBlocks(conf: u16, txDr: u8, txCh: u8, devAddr: Bytes4, fCnt: u32, len: nat)
      returns (b0: Block, b1: Block)
      ensures b0 == MicBlock(0, 0, 0, 0, devAddr, fCnt, len)
      ensures b1 == MicBlock(conf, txDr, txCh, 0, devAddr, fCnt, len)
    {
      assert Le16(0) == [0, 0];
      hide Le16, Le32, Byte, Splice;
      var zero: Block := [0, 0, 0, 0, 0, 0, 0, 0, 0, 0, 0, 0, 0, 0, 0, 0];
      b0 := zero[0 := 0x49];
      b0 := Splice(b0, 6, Reverse(devAddr));
      b0 := Splice(b0, 10, Le32(fCnt));
      b0 := b0[15 := Byte(len)];
      FirstBlock(Reverse(devAddr), Le32(fCnt), Byte(len));
      b1 := Splice(b0, 1, Le16(conf));
      b1 := b1[3 := txDr];
      b1 := b1[4 := txCh];
      SecondBlock(Reverse(devAddr), Le32(fCnt), Byte(len), Le16(conf), txDr, txCh);
    }

    /** The layout of a MIC block. */
    static function Layout(conf: bytes, txDr: u8, txCh: u8, addr: bytes, cnt: bytes, len: u8): bytes {
      [0x49] + conf + [txDr, txCh, 0] + addr + cnt + [0, len]
    }

    static lemma FirstBlock(addr: Bytes4, cnt: Bytes4, len: u8)
      ensures var zero: Block := [0, 0, 0, 0, 0, 0, 0, 0, 0, 0, 0, 0, 0, 0, 0, 0];
              Splice(Splice(zero[0 := 0x49], 6, addr), 10, cnt)[15 := len] == Layout([0, 0], 0, 0, addr, cnt, len)
    {}

    static lemma SecondBlock(addr: Bytes4, cnt: Bytes4, len: u8, conf: bytes, txDr: u8, txCh: u8)
      requires |conf| == 2
      ensures |Layout([0, 0], 0, 0, addr, cnt, len)| == 16
      ensures Splice(Layout([0, 0], 0, 0, addr, cnt, len), 1, conf)[3 := txDr][4 := txCh] ==
              Layout(conf, txDr, txCh, addr, cnt, len)
    {}

    method CalculateDownlinkDataMic(s: Suite, ver: MACVersion, confFCnt: u32, sKey: Key) returns (r: Result<Mic>)
      ensures r == DownlinkMic(s, Value(), ver, confFCnt, sKey)
    {
      hide PayloadToVec, MhdrToByte, MicBlock, ConfFCnt;
      if !payload.MACFrame? {
        return Err;
      }
      var h := payload.mac.fhdr;
      var conf := ConfFCnt(!ver.LoRaWAN1_0? && h.fCtrl.ack, confFCnt);
      var b := PayloadToVec(payload);
      if b.Err? {
        return Err;
      }
      var micBytes := [MhdrToByte(mhdr)] + b.value;
      var _, b1 := BuildUplinkBlocks(conf, 0, 0, h.devAddr, h.fCnt, |micBytes|);
      DownlinkBlock(conf, h.devAddr, h.fCnt, |micBytes|);
      var hash := s.cmac(sKey, b1[5 := 0x01] + micBytes);
      return Ok(hash[..4]);
    }

    static lemma DownlinkBlock(conf: u16, devAddr: Bytes4, fCnt: u32, len: nat)
      ensures MicBlock(conf, 0, 0, 0, devAddr, fCnt, len)[5 := 0x01] == MicBlock(conf, 0, 0, 0x01, devAddr, fCnt, len)
    {
      hide Le16, Le32, Byte;
    }

    method SetUplinkDataMic(s: Suite, ver: MACVersion, confFCnt: u32, txDr: u8, txCh: u8, fKey: Key, sKey: Key)
      returns (r: Result<()>)
      modifies this
      ensures Became(r, WithMic(old(Value()), UplinkMic(s, old(Value()), ver, confFCnt, txDr, txCh, fKey, sKey)),
                     old(Value()), Value())
    {
      hide UplinkMic;
      var m := CalculateUplinkDataMic(s, ver, confFCnt, txDr, txCh, fKey, sKey);
      if m.Err? {
        return Err;
      }
      mic := Some(m.value);
      return Ok(());
    }

    method ValidateUplinkDataMic(s: Suite, ver: MACVersion, confFCnt: u32, txDr: u8, txCh: u8, fKey: Key, sKey: Key)
      returns (r: Result<bool>)
      ensures r == ValidUplinkMic(s, Value(), ver, confFCnt, txDr, txCh, fKey, sKey)
    {
      hide UplinkMic;
      if mic.None? {
        return Ok(false);
      }
      var m := CalculateUplinkDataMic(s, ver, confFCnt, txDr, txCh, fKey, sKey);
      if m.Err? {
        return Err;
      }
      return Ok(mic.value == m.value);
    }

    method ValidateUplinkDataMicF(s: Suite, fKey: Key) returns (r: Result<bool>)
      ensures r == ValidUplinkMicF(s, Value(), fKey)
    {
      hide UplinkMic;
      if mic.None? {
        return Ok(false);
      }
      var m := CalculateUplinkDataMic(s, MACVersion.LoRaWAN1_1, 0, 0, 0, fKey, fKey);
      if m.Err? {
        return Err;
      }
      return Ok(mic.value[2..] == m.value[2..]);
    }

    method SetDownlinkDataMic(s: Suite, ver: MACVersion, confFCnt: u32, sKey: Key) returns (r: Result<()>)
      modifies this
      ensures Became(r, WithMic(old(Value()), DownlinkMic(s, old(Value()), ver, confFCnt, sKey)), old(Value()), Value())
    {
      hide DownlinkMic;
      var m := CalculateDownlinkDataMic(s, ver, confFCnt, sKey);
      if m.Err? {
        return Err;
      }
      mic := Some(m.value);
      return Ok(());
    }

    method ValidateDownlinkDataMic(s: Suite, ver: MACVersion, confFCnt: u32, sKey: Key) returns (r: Result<bool>)
      ensures r == ValidDownlinkMic(s, Value(), ver, confFCnt, sKey)
    {
      hide DownlinkMic;
      if mic.None? {
        return Ok(false);
      }
      var m := CalculateDownlinkDataMic(s, ver, confFCnt, sKey);
      if m.Err? {
        return Err;
      }
      return Ok(mic.value == m.value);
    }

    method CalculateUplinkJoinMic(s: Suite, key: Key) returns (r: Result<Mic>)
      ensures r == JoinRequestMic(s, Value(), key)
    {
      hide PayloadToVec, MhdrToByte;
      var micBytes := [MhdrToByte(mhdr)];
      var b := PayloadToVec(payload);
      if b.Err? {
        return Err;
      }
      micBytes := micBytes + b.value;
      return Ok(s.cmac(key, micBytes)[..4]);
    }

    method SetJoinRequestMic(s: Suite, key: Key) returns (r: Result<()>)
      modifies this
      ensures Became(r, WithMic(old(Value()), JoinRequestMic(s, old(Value()), key)), old(Value()), Value())
    {
      hide JoinRequestMic;
      var m := CalculateUplinkJoinMic(s, key);
      if m.Err? {
        return Err;
      }
      mic := Some(m.value);
      return Ok(());
    }

    method ValidateJoinRequestMic(s: Suite, key: Key) returns (r: Result<bool>)
      ensures r == ValidJoinRequestMic(s, Value(), key)
    {
      hide JoinRequestMic;
      if mic.None? {
        return Ok(false);
      }
      var m := CalculateUplinkJoinMic(s, key);
      if m.Err? {
        return Err;
      }
      return Ok(mic.value == m.value);
    }

    method CalculateDownlinkJoinMic(s: Suite, t: JoinType, joinEui: Bytes8, devNonce: u16, key: Key)
      returns (r: Result<Mic>)
      ensures r == JoinAcceptMic(s, Value(), t, joinEui, devNonce, key)
    {
      hide JoinAcceptToVec, MhdrToByte, Le16;
      if !payload.JoinAcceptFrame? {
        return Err;
      }
      var micBytes: bytes := [];
      if payload.joinAccept.dlSettings.optNeg {
        micBytes := micBytes + [JoinTypeCode(t)];
        micBytes := micBytes + Reverse(joinEui);
        micBytes := micBytes + Le16(devNonce);
        assert micBytes == [JoinTypeCode(t)] + Reverse(joinEui) + Le16(devNonce);
      }
      micBytes := micBytes + [MhdrToByte(mhdr)];
      var b := JoinAcceptToVec(payload.joinAccept);
      if b.Err? {
        return Err;
      }
      micBytes := micBytes + b.value;
      return Ok(s.cmac(key, micBytes)[..4]);
    }

    method SetJoinAcceptMic(s: Suite, t: JoinType, joinEui: Bytes8, devNonce: u16, key: Key) returns (r: Result<()>)
      modifies this
      ensures Became(r, WithMic(old(Value()), JoinAcceptMic(s, old(Value()), t, joinEui, devNonce, key)), old(Value()),
                     Value())
    {
      hide JoinAcceptMic;
      var m := CalculateDownlinkJoinMic(s, t, joinEui, devNonce, key);
      if m.Err? {
        return Err;
      }
      mic := Some(m.value);
      return Ok(());
    }

    method ValidateJoinAcceptMic(s: Suite, t: JoinType, joinEui: Bytes8, devNonce: u16, key: Key)
      returns (r: Result<bool>)
      ensures r == ValidJoinAcceptMic(s, Value(), t, joinEui, devNonce, key)
    {
      hide JoinAcceptMic;
      if mic.None? {
        return Ok(false);
      }
      var m := CalculateDownlinkJoinMic(s, t, joinEui, devNonce, key);
      if m.Err? {
        return Err;
      }
      return Ok(mic.value == m.value);
    }

    // Join-accept encryption

    method EncryptJoinAcceptPayload(s: Suite, key: Key) returns (r: Result<()>)
      modifies this
      ensures Became(r, JoinAcceptEncrypted(s, key, old(Value())), old(Value()), Value())
    {
      hide JoinAcceptToVec, EachBlock;
      if mic.None? || !payload.JoinAcceptFrame? {
        return Err;
      }
      var pl := JoinAcceptToVec(payload.joinAccept);
      if pl.Err? {
        return Err;
      }
      var pt := pl.value + mic.value;
      if |pt| % 16 != 0 {
        return Err;
      }
      var ct := RunBlocks(b => s.dec(key, b), pt);
      payload := RawFrame(ct[..|ct| - 4]);
      mic := Some(ct[|ct| - 4..]);
      return Ok(());
    }

    /** On a plaintext that is no join-accept payload, the MIC has already been replaced when the error is found. */
    method DecryptJoinAcceptPayload(s: Suite, key: Key) returns (r: Result<()>)
      modifies this
      ensures JoinAcceptDecrypted(s, key, old(Value())).Ok? ==>
              r.Ok? && Value() == JoinAcceptDecrypted(s, key, old(Value())).value
      ensures JoinAcceptDecrypted(s, key, old(Value())).Err? ==> r.Err? && mhdr == old(mhdr) && payload == old(payload)
      ensures JoinAcceptDecrypted(s, key, old(Value())).Err? ==> mic == MicOnFailure(s, key, old(Value()))
    {
      hide JoinAcceptFromSlice, EachBlock;
      if mic.None? || !payload.RawFrame? {
        return Err;
      }
      var ct := payload.raw + mic.value;
      if |ct| % 16 != 0 {
        return Err;
      }
      var pt := RunBlocks(b => s.enc(key, b), ct);
      mic := Some(pt[|pt| - 4..]);
      var pl := JoinAcceptFromSlice(pt[..|pt| - 4]);
      if pl.Err? {
        return Err;
      }
      payload := JoinAcceptFrame(pl.value);
      return Ok(());
    }

    static method RunBlocks(f: Block -> Block, b: bytes) returns (out: bytes)
      requires |b| % 16 == 0
      ensures out == EachBlock(f, b)
      ensures |out| == |b|
      ensures forall i :: 0 <= i < |b| / 16 ==> out[16 * i..16 * i + 16] == f(b[16 * i..16 * i + 16])
    {
      hide EachBlock;
      out := [];
      assert b[0..] == b;
      for i := 0 to |b| / 16
        invariant EachBlock(f, b) == out + EachBlock(f, b[16 * i..])
      {
        NextBlock(f, b, i);
        out := out + f(b[16 * i..16 * i + 16]);
      }
      LastBlock(f, b);
      EachBlockIs(f, b);
    }

    static lemma LastBlock(f: Block -> Block, b: bytes)
      requires |b| % 16 == 0
      ensures EachBlock(f, b[16 * (|b| / 16)..]) == []
    {}

    // f_opts

    method EncryptFOpts(s: Suite, key: Key) returns (r: Result<()>)
      modifies this
      ensures Became(r, FOptsEncrypted(s, key, old(Value())), old(Value()), Value())
    {
      hide EncodeAll, FOptsCipher;
      if !payload.MACFrame? {
        return Err;
      }
      var pl := payload.mac;
      var set_ := new MACCommandSet(pl.fhdr.fOpts);
      var b := set_.ToVec();
      if b.Err? {
        return Err;
      }
      if b.value == [] {
        return Ok(());
      }
      var uplink := IsUplink(mhdr.fType);
      var aFCntDown := !uplink && pl.fPort.Some? && pl.fPort.value > 0;
      var enc := Crypto.EncryptFOpts(s, key, aFCntDown, uplink, pl.fhdr.devAddr, pl.fhdr.fCnt, b.value);
      if enc.Err? {
        return Err;
      }
      payload := MACFrame(pl.(fhdr := pl.fhdr.(fOpts := [Raw(enc.value)])));
      return Ok(());
    }

    method DecodeFOptsToMacCommands() returns (r: Result<()>)
      modifies this
      ensures Became(r, FOptsDecoded(old(Value())), old(Value()), Value())
    {
      hide DecodedSet;
      if payload.MACFrame? {
        var set_ := new MACCommandSet(payload.mac.fhdr.fOpts);
        var d := set_.DecodeFromRaw(IsUplink(mhdr.fType));
        if d.Err? {
          return Err;
        }
        payload := MACFrame(payload.mac.(fhdr := payload.mac.fhdr.(fOpts := set_.cmds)));
      }
      return Ok(());
    }

    /** If only the decoding fails, the f_opts are left decrypted. */
    method DecryptFOpts(s: Suite, key: Key) returns (r: Result<()>)
      modifies this
      ensures match FOptsEncrypted(s, key, old(Value()))
              case Err => r.Err? && Value() == old(Value())
              case Ok(e) => Became(r, FOptsDecoded(e), e, Value())
    {
      hide FOptsEncrypted, FOptsDecoded;
      var e := EncryptFOpts(s, key);
      if e.Err? {
        return Err;
      }
      r := DecodeFOptsToMacCommands();
    }

    // frm_payload

    method DecodeFrmPayload() returns (r: Result<()>)
      modifies this
      ensures Became(r, FrmDecoded(old(Value())), old(Value()), Value())
    {
      hide FrmFromBytes;
      if !payload.MACFrame? || payload.mac.frmPayload.None? || !payload.mac.frmPayload.value.FrmRaw? {
        return Ok(());
      }
      r := SetFrmFromBytes(payload.mac.frmPayload.value.raw);
    }

    /** The free function decode_frm_payload. */
    method SetFrmFromBytes(b: bytes) returns (r: Result<()>)
      requires payload.MACFrame?
      modifies this
      ensures match FrmFromBytes(IsUplink(old(mhdr).fType), PortOf(old(payload).mac), b)
              case Err => r.Err? && Value() == old(Value())
              case Ok(frm) => r.Ok? && Value() == WithFrm(old(Value()), frm)
    {
      hide DecodeAll, ForwardUplinkFromSlice, ForwardDownlinkFromSlice;
      var uplink, fPort := IsUplink(mhdr.fType), PortOf(payload.mac);
      var frm: FRMPayload;
      if fPort == 0 {
        var macs := new MACCommandSet([Raw(b)]);
        var d := macs.DecodeFromRaw(uplink);
        if d.Err? {
          return Err;
        }
        frm := FrmCommands(macs.cmds);
      } else if fPort == LA_FPORT_RELAY && uplink {
        var f := ForwardUplinkFromSlice(b);
        if f.Err? {
          return Err;
        }
        frm := f.value;
      } else if fPort == LA_FPORT_RELAY && !uplink {
        var f := ForwardDownlinkFromSlice(b);
        if f.Err? {
          return Err;
        }
        frm := f.value;
      } else {
        frm := FrmRaw(b);
      }
      payload := MACFrame(payload.mac.(frmPayload := Some(frm)));
      return Ok(());
    }

    method EncryptFrmPayload(s: Suite, key: Key) returns (r: Result<()>)
      modifies this
      ensures Became(r, FrmEncrypted(s, key, old(Value())), old(Value()), Value())
    {
      hide FrmToVec, FrmCipher;
      if !payload.MACFrame? {
        return Err;
      }
      if payload.mac.frmPayload.None? {
        return Ok(());
      }
      var data := FrmToVec(payload.mac.frmPayload.value);
      if data.Err? {
        return Err;
      }
      var enc := Crypto.EncryptFrmPayload(s, key, IsUplink(mhdr.fType), payload.mac.fhdr.devAddr, payload.mac.fhdr.fCnt,
                                          data.value);
      payload := MACFrame(payload.mac.(frmPayload := Some(FrmRaw(enc))));
      return Ok(());
    }

    method DecryptFrmPayload(s: Suite, key: Key) returns (r: Result<()>)
      modifies this
      ensures Became(r, FrmDecrypted(s, key, old(Value())), old(Value()), Value())
    {
      hide FrmToVec, FrmCipher, FrmFromBytes;
      if !payload.MACFrame? {
        return Err;
      }
      if payload.mac.frmPayload.None? {
        return Ok(());
      }
      var data := FrmToVec(payload.mac.frmPayload.value);
      if data.Err? {
        return Err;
      }
      var dec := Crypto.EncryptFrmPayload(s, key, IsUplink(mhdr.fType), payload.mac.fhdr.devAddr, payload.mac.fhdr.fCnt,
                                          data.value);
      r := SetFrmFromBytes(dec);
    }
  }
}
