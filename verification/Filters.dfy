/** The frame filter of lrwn-filters/src/lib.rs, which looks at the raw bytes of a frame, and its
    agreement with the parser. A shift by the width of the word is an arithmetic overflow, the error here. */
module Filters {
  import opened Bytes
  import opened Words
  import opened Prefixes
  import opened Frames

  type u64 = bv64

  function FromBe64(b: Bytes8): u64 {
    (b[0] as u64 << 56) | (b[1] as u64 << 48) | (b[2] as u64 << 40) | (b[3] as u64 << 32) |
    (b[4] as u64 << 24) | (b[5] as u64 << 16) | (b[6] as u64 << 8) | (b[7] as u64)
  }

  datatype EuiPrefix = EuiPrefix(prefix: Bytes8, size: u32)

  datatype Config = Config(devAddrPrefixes: seq<DevAddrPrefix>, joinEuiPrefixes: seq<EuiPrefix>, lorawanOnly: bool)

  function ShiftedMatch(a: u32, prefix: u32, size: u32): Result<bool> {
    var x :- Shr(a, 32 - size);
    var y :- Shr(prefix, 32 - size);
    Ok(x == y)
  }

  function DevAddrMatch(p: DevAddrPrefix, devAddrLe: Bytes4): Result<bool> {
    ShiftedMatch(FromBe32(Reverse(devAddrLe)), FromBe32(p.prefix), p.size)
  }

  function Shr64(x: u64, k: u32): Result<u64> {
    if k < 64 then Ok(x >> k) else Err
  }

  function ShiftedMatch64(e: u64, prefix: u64, size: u32): Result<bool> {
    var x :- Shr64(e, 64 - size);
    var y :- Shr64(prefix, 64 - size);
    Ok(x == y)
  }

  function EuiMatch(p: EuiPrefix, euiLe: Bytes8): Result<bool> {
    ShiftedMatch64(FromBe64(Reverse(euiLe)), FromBe64(p.prefix), p.size)
  }

  function AnyDevAddr(ps: seq<DevAddrPrefix>, devAddrLe: Bytes4): Result<bool> {
    if ps == [] then Ok(false)
    else
      var m :- DevAddrMatch(ps[0], devAddrLe);
      if m then Ok(true) else AnyDevAddr(ps[1..], devAddrLe)
  }

  function AnyEui(ps: seq<EuiPrefix>, euiLe: Bytes8): Result<bool> {
    if ps == [] then Ok(false)
    else
      var m :- EuiMatch(ps[0], euiLe);
      if m then Ok(true) else AnyEui(ps[1..], euiLe)
  }

  function Matched(b: bytes, c: Config): Result<bool> {
    if b == [] then Ok(!c.lorawanOnly)
    else
      var fType := b[0] >> 5;
      if (fType == 0x02 || fType == 0x04) && |b| >= 5 then
        if c.devAddrPrefixes == [] then Ok(true) else AnyDevAddr(c.devAddrPrefixes, b[1..5])
      else if fType == 0x00 && |b| >= 17 then
        if c.joinEuiPrefixes == [] then Ok(true) else AnyEui(c.joinEuiPrefixes, b[1..9])
      else Ok(!c.lorawanOnly)
  }

  /** Extracts an address or a JoinEUI, if the frame holds one, then scans the prefixes of its kind. */
  method Matches(b: bytes, c: Config) returns (r: Result<bool>)
    ensures r == Matched(b, c)
  {
    hide DevAddrMatch, EuiMatch;
    if b == [] {
      return Ok(!c.lorawanOnly);
    }
    var fType := b[0] >> 5;
    var devAddr: Option<Bytes4> := None;
    if fType == 0x02 || fType == 0x04 {
      if |b| >= 5 {
        devAddr := Some(b[1..5]);
      }
    }
    var joinEui: Option<Bytes8> := None;
    if fType == 0x00 {
      if |b| >= 17 {
        joinEui := Some(b[1..9]);
      }
    }
    if devAddr.None? && joinEui.None? {
      return Ok(!c.lorawanOnly);
    }
    if devAddr.Some? {
      if c.devAddrPrefixes == [] {
        return Ok(true);
      }
      for i := 0 to |c.devAddrPrefixes|
        invariant AnyDevAddr(c.devAddrPrefixes, devAddr.value) == AnyDevAddr(c.devAddrPrefixes[i..], devAddr.value)
      {
        var m :- DevAddrMatch(c.devAddrPrefixes[i], devAddr.value);
        if m {
          return Ok(true);
        }
      }
    }
    if joinEui.Some? {
      if c.joinEuiPrefixes == [] {
        return Ok(true);
      }
      for i := 0 to |c.joinEuiPrefixes|
        invariant AnyEui(c.joinEuiPrefixes, joinEui.value) == AnyEui(c.joinEuiPrefixes[i..], joinEui.value)
      {
        var m :- EuiMatch(c.joinEuiPrefixes[i], joinEui.value);
        if m {
          return Ok(true);
        }
      }
    }
    return Ok(false);
  }

  // What the matches mean

  function Drop64(x: u64, k: u32): u64
    requires k <= 64
  {
    x >> k
  }

  /** The first `size` bits of x, as a word. */
  function Top64(x: u64, size: u32): u64
    requires size <= 64
  {
    Drop64(x, 64 - size)
  }

  predicate Bit64(x: u64, i: u32)
    requires i < 64
  {
    (x >> (63 - i)) & 1 == 1
  }

  predicate SameBits64(a: u64, b: u64, size: u32)
    requires size <= 64
  {
    size == 0 || (SameBits64(a, b, size - 1) && (Bit64(a, size - 1) <==> Bit64(b, size - 1)))
  }

  function Half64(x: u64): u64 {
    x >> 1
  }

  predicate Odd64(x: u64) {
    x & 1 == 1
  }

  lemma SameHalves64(x: u64, y: u64)
    ensures x == y <==> Half64(x) == Half64(y) && (Odd64(x) <==> Odd64(y))
  {}

  lemma ShiftStep64(x: u64, k: u32)
    requires k < 64
    ensures x >> (k + 1) == (x >> k) >> 1
  {}

  lemma Drop64Step(x: u64, k: u32)
    requires k < 64
    ensures Drop64(x, k + 1) == Half64(Drop64(x, k))
  {
    ShiftStep64(x, k);
  }

  lemma Top64Step(x: u64, size: u32)
    requires 1 <= size <= 64
    ensures Top64(x, size - 1) == Half64(Top64(x, size))
  {
    hide Drop64, Half64;
    Drop64Step(x, 64 - size);
    assert 64 - size + 1 == 64 - (size - 1);
  }

  lemma Bit64Step(x: u64, size: u32)
    requires 1 <= size <= 64
    ensures Bit64(x, size - 1) <==> Odd64(Top64(x, size))
  {}

  lemma Top64None(x: u64)
    ensures Top64(x, 0) == 0
  {}

  lemma {:induction false} Top64IsBits(a: u64, b: u64, size: u32)
    requires size <= 64
    ensures Top64(a, size) == Top64(b, size) <==> SameBits64(a, b, size)
  {
    SameBits64Step(a, b, size);
    hide *;
    if size == 0 {
      Top64None(a);
      Top64None(b);
    } else {
      Top64IsBits(a, b, size - 1);
      Top64Step(a, size);
      Top64Step(b, size);
      Bit64Step(a, size);
      Bit64Step(b, size);
      SameHalves64(Top64(a, size), Top64(b, size));
    }
  }

  lemma SameBits64Step(a: u64, b: u64, size: u32)
    requires size <= 64
    ensures SameBits64(a, b, size) <==>
            size == 0 || (SameBits64(a, b, size - 1) && (Bit64(a, size - 1) <==> Bit64(b, size - 1)))
  {}

  /** The first `size` bits of two EUIs, written as bytes, are the same. */
  ghost predicate SameStart64(a: Bytes8, b: Bytes8, size: u32)
    requires size <= 64
  {
    forall i: u32 :: i < size ==> (BitAt(a, i) <==> BitAt(b, i))
  }

  lemma WordBits64(b: Bytes8, i: u32)
    requires i < 64
    ensures Bit64(FromBe64(b), i) <==> BitAt(b, i)
  {}

  lemma {:induction false} SameStart64Iff(a: Bytes8, b: Bytes8, size: u32)
    requires size <= 64
    ensures SameBits64(FromBe64(a), FromBe64(b), size) <==> SameStart64(a, b, size)
    decreases size
  {
    hide Bit64, FromBe64, BitAt;
    if size > 0 {
      SameStart64Iff(a, b, size - 1);
      WordBits64(a, size - 1);
      WordBits64(b, size - 1);
    }
  }

  lemma ShiftIsTop(x: u32, size: u32)
    ensures Shr(x, 32 - size) == if 1 <= size <= 32 then Ok(Top(x, size)) else Err
  {}

  lemma Shift64IsTop(x: u64, size: u32)
    ensures Shr64(x, 64 - size) == if 1 <= size <= 64 then Ok(Top64(x, size)) else Err
  {}

  lemma ShiftedMatchIff(a: u32, b: u32, size: u32)
    ensures ShiftedMatch(a, b, size) == if 1 <= size <= 32 then Ok(SameBits(a, b, size)) else Err
  {
    hide Shr, Top, SameBits;
    ShiftIsTop(a, size);
    ShiftIsTop(b, size);
    if 1 <= size <= 32 {
      TopIsBits(a, b, size);
    }
  }

  lemma ShiftedMatch64Iff(a: u64, b: u64, size: u32)
    ensures ShiftedMatch64(a, b, size) == if 1 <= size <= 64 then Ok(SameBits64(a, b, size)) else Err
  {
    hide Shr64, Top64, SameBits64;
    Shift64IsTop(a, size);
    Shift64IsTop(b, size);
    if 1 <= size <= 64 {
      Top64IsBits(a, b, size);
    }
  }

  /** A prefix of 1 to 32 bits matches the addresses that begin with its bits; any other size overflows. */
  lemma DevAddrMatchIff(p: DevAddrPrefix, devAddrLe: Bytes4)
    ensures var devAddr := [devAddrLe[3], devAddrLe[2], devAddrLe[1], devAddrLe[0]];
            DevAddrMatch(p, devAddrLe) ==
            if 1 <= p.size <= 32 then Ok(SameStart(devAddr, p.prefix, p.size)) else Err
  {
    hide FromBe32, ShiftedMatch, SameBits, SameStart;
    assert Reverse(devAddrLe) == [devAddrLe[3], devAddrLe[2], devAddrLe[1], devAddrLe[0]];
    ShiftedMatchIff(FromBe32(Reverse(devAddrLe)), FromBe32(p.prefix), p.size);
    if p.size <= 32 {
      SameStartIff(Reverse(devAddrLe), p.prefix, p.size);
    }
  }

  /** A prefix of 1 to 64 bits matches the EUIs that begin with its bits; any other size overflows. */
  lemma EuiMatchIff(p: EuiPrefix, euiLe: Bytes8)
    ensures var eui := [euiLe[7], euiLe[6], euiLe[5], euiLe[4], euiLe[3], euiLe[2], euiLe[1], euiLe[0]];
            EuiMatch(p, euiLe) == if 1 <= p.size <= 64 then Ok(SameStart64(eui, p.prefix, p.size)) else Err
  {
    hide FromBe64, ShiftedMatch64, SameBits64, SameStart64;
    assert Reverse(euiLe) == [euiLe[7], euiLe[6], euiLe[5], euiLe[4], euiLe[3], euiLe[2], euiLe[1], euiLe[0]];
    ShiftedMatch64Iff(FromBe64(Reverse(euiLe)), FromBe64(p.prefix), p.size);
    if p.size <= 64 {
      SameStart64Iff(Reverse(euiLe), p.prefix, p.size);
    }
  }

  /** is_match is membership in the range that lrwn gives the same prefix. */
  lemma DevAddrMatchIsRange(p: DevAddrPrefix, devAddrLe: Bytes4)
    requires 1 <= p.size <= 31
    ensures RangeMin(p).Ok? && RangeMax(p).Ok?
    ensures DevAddrMatch(p, devAddrLe) ==
            Ok(Num(RangeMin(p).value) <= Num(FromBe32(Reverse(devAddrLe))) <= Num(RangeMax(p).value))
  {
    DevAddrMatchIff(p, devAddrLe);
    assert Reverse(devAddrLe) == [devAddrLe[3], devAddrLe[2], devAddrLe[1], devAddrLe[0]];
    WithinIsStart(Reverse(devAddrLe), p);
    RangeIsPrefix(p, FromBe32(Reverse(devAddrLe)));
    hide DevAddrMatch, RangeMin, RangeMax, FromBe32, Num, Within, SameStart;
  }

  // Agreement with the parser

  /** A configuration whose prefixes the arithmetic accepts. */
  predicate Usable(c: Config) {
    (forall i :: 0 <= i < |c.devAddrPrefixes| ==> 1 <= c.devAddrPrefixes[i].size <= 32) &&
    (forall i :: 0 <= i < |c.joinEuiPrefixes| ==> 1 <= c.joinEuiPrefixes[i].size <= 64)
  }

  /** One of the prefixes starts the address. */
  ghost predicate AddrListed(a: Bytes4, ps: seq<DevAddrPrefix>) {
    exists i :: 0 <= i < |ps| && ps[i].size <= 32 && SameStart(a, ps[i].prefix, ps[i].size)
  }

  ghost predicate EuiListed(e: Bytes8, ps: seq<EuiPrefix>) {
    exists i :: 0 <= i < |ps| && ps[i].size <= 64 && SameStart64(e, ps[i].prefix, ps[i].size)
  }

  lemma {:induction false} AnyDevAddrIff(ps: seq<DevAddrPrefix>, devAddrLe: Bytes4)
    requires forall i :: 0 <= i < |ps| ==> 1 <= ps[i].size <= 32
    ensures AnyDevAddr(ps, devAddrLe) == Ok(AddrListed(Reverse(devAddrLe), ps))
  {
    hide DevAddrMatch, SameStart;
    if ps != [] {
      DevAddrMatchIff(ps[0], devAddrLe);
      AnyDevAddrIff(ps[1..], devAddrLe);
      var a := Reverse(devAddrLe);
      assert a == [devAddrLe[3], devAddrLe[2], devAddrLe[1], devAddrLe[0]];
      if AddrListed(a, ps) && !SameStart(a, ps[0].prefix, ps[0].size) {
        var i :| 0 <= i < |ps| && ps[i].size <= 32 && SameStart(a, ps[i].prefix, ps[i].size);
        assert ps[1..][i - 1] == ps[i];
      }
      if AddrListed(a, ps[1..]) {
        var i :| 0 <= i < |ps[1..]| && ps[1..][i].size <= 32 && SameStart(a, ps[1..][i].prefix, ps[1..][i].size);
        assert ps[i + 1] == ps[1..][i];
      }
    }
  }

  lemma {:induction false} AnyEuiIff(ps: seq<EuiPrefix>, euiLe: Bytes8)
    requires forall i :: 0 <= i < |ps| ==> 1 <= ps[i].size <= 64
    ensures AnyEui(ps, euiLe) == Ok(EuiListed(Reverse(euiLe), ps))
  {
    hide EuiMatch, SameStart64;
    if ps != [] {
      EuiMatchIff(ps[0], euiLe);
      AnyEuiIff(ps[1..], euiLe);
      var e := Reverse(euiLe);
      assert e == [euiLe[7], euiLe[6], euiLe[5], euiLe[4], euiLe[3], euiLe[2], euiLe[1], euiLe[0]];
      if EuiListed(e, ps) && !SameStart64(e, ps[0].prefix, ps[0].size) {
        var i :| 0 <= i < |ps| && ps[i].size <= 64 && SameStart64(e, ps[i].prefix, ps[i].size);
        assert ps[1..][i - 1] == ps[i];
      }
      if EuiListed(e, ps[1..]) {
        var i :| 0 <= i < |ps[1..]| && ps[1..][i].size <= 64 && SameStart64(e, ps[1..][i].prefix, ps[1..][i].size);
        assert ps[i + 1] == ps[1..][i];
      }
    }
  }

  /** What the filter should answer about a parsed frame: uplink data is wanted for its address, a join-request for
      its JoinEUI, without any prefix of the kind they all are, and the rest is wanted if not only LoRaWAN is. */
  ghost predicate Wanted(f: PhyFrame, c: Config) {
    if f.payload.MACFrame? && (f.mhdr.fType.UnconfirmedDataUp? || f.mhdr.fType.ConfirmedDataUp?) then
      c.devAddrPrefixes == [] || AddrListed(f.payload.mac.fhdr.devAddr, c.devAddrPrefixes)
    else if f.payload.JoinRequestFrame? then
      c.joinEuiPrefixes == [] || EuiListed(f.payload.joinRequest.joinEui, c.joinEuiPrefixes)
    else !c.lorawanOnly
  }

  /** Where the parser finds what the filter looks at. */
  lemma FieldsInPlace(b: bytes)
    requires PhyFromSlice(b).Ok?
    ensures var f, t := PhyFromSlice(b).value, b[0] >> 5;
            (t == 0x02 || t == 0x04 <==>
             f.payload.MACFrame? && (f.mhdr.fType.UnconfirmedDataUp? || f.mhdr.fType.ConfirmedDataUp?)) &&
            (t == 0x02 || t == 0x04 ==> |b| >= 12 && f.payload.mac.fhdr.devAddr == Reverse(b[1..5])) &&
            (t == 0x00 <==> f.payload.JoinRequestFrame?) &&
            (t == 0x00 ==> |b| == 23 && f.payload.joinRequest.joinEui == Reverse(b[1..9]))
  {
    var t := b[0] >> 5;
    if t == 0x02 || t == 0x04 {
      DevAddrInPlace(b[1..|b| - 4]);
      assert b[1..|b| - 4][..4] == b[1..5];
    } else if t == 0x00 {
      assert b[1..|b| - 4][..8] == b[1..9];
    }
    hide MacFromSlice, JoinAcceptFromSlice, Rejoin02FromSlice, Rejoin1FromSlice;
  }

  lemma DevAddrInPlace(b: bytes)
    ensures MacFromSlice(b).Ok? ==> |b| >= 7 && MacFromSlice(b).value.fhdr.devAddr == Reverse(b[..4])
  {
    if MacFromSlice(b).Ok? {
      var size := 7 + Val(FCtrlFromByte(b[4]).fOptsLen);
      assert b[..size][..4] == b[..4];
    }
  }

  /** On every frame the parser accepts, the filter's answer about the raw bytes is the one about the parsed frame. */
  lemma FilterAgrees(b: bytes, c: Config)
    requires PhyFromSlice(b).Ok? && Usable(c)
    ensures Matched(b, c) == Ok(Wanted(PhyFromSlice(b).value, c))
  {
    FieldsInPlace(b);
    hide PhyFromSlice, AddrListed, EuiListed;
    if b[0] >> 5 == 0x02 || b[0] >> 5 == 0x04 {
      AnyDevAddrIff(c.devAddrPrefixes, b[1..5]);
    } else if b[0] >> 5 == 0x00 {
      AnyEuiIff(c.joinEuiPrefixes, b[1..9]);
    }
  }

  /** The answer about any bytes: the address of uplink data from five bytes on, the JoinEUI of a join-request from
      seventeen on, and for everything else whether other frames are wanted. */
  lemma FilterAnswers(b: bytes, c: Config)
    requires Usable(c)
    ensures b == [] ==> Matched(b, c) == Ok(!c.lorawanOnly)
    ensures b != [] ==>
              var data, join := 0x40 <= b[0] < 0x60 || 0x80 <= b[0] < 0xa0, b[0] < 0x20;
              && (data && |b| >= 5 ==>
                    Matched(b, c) ==
                    Ok(c.devAddrPrefixes == [] || AddrListed([b[4], b[3], b[2], b[1]], c.devAddrPrefixes)))
              && (join && |b| >= 17 ==>
                    Matched(b, c) ==
                    Ok(c.joinEuiPrefixes == [] ||
                       EuiListed([b[8], b[7], b[6], b[5], b[4], b[3], b[2], b[1]], c.joinEuiPrefixes)))
              && (!(data && |b| >= 5) && !(join && |b| >= 17) ==> Matched(b, c) == Ok(!c.lorawanOnly))
  {
    hide AddrListed, EuiListed, AnyDevAddr, AnyEui;
    if b != [] {
      TypeBits(b[0]);
      if |b| >= 5 {
        AnyDevAddrIff(c.devAddrPrefixes, b[1..5]);
        assert Reverse(b[1..5]) == [b[4], b[3], b[2], b[1]];
      }
      if |b| >= 17 {
        AnyEuiIff(c.joinEuiPrefixes, b[1..9]);
        assert Reverse(b[1..9]) == [b[8], b[7], b[6], b[5], b[4], b[3], b[2], b[1]];
      }
    }
  }

  lemma TypeBits(b: u8)
    ensures b >> 5 == 0x02 <==> 0x40 <= b < 0x60
    ensures b >> 5 == 0x04 <==> 0x80 <= b < 0xa0
    ensures b >> 5 == 0x00 <==> b < 0x20
  {}
}
