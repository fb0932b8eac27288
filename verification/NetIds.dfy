/** NetIDs and device addresses (lrwn/src/netid.rs, lrwn/src/devaddr.rs), most significant byte first. */
module NetIds {
  import opened Bytes
  import opened Words
  import opened Prefixes
  import opened AddrLayout

  // NetIDs

  /** Whole bytes needed for `bits` bits. */
  function ByteLen(bits: u8): (n: nat)
    requires bits <= 32
    ensures n <= 4
  {
    ValMax(bits);
    if Val(bits) % 8 != 0 then Val(bits) / 8 + 1 else Val(bits) / 8
  }

  lemma ValMax(bits: u8)
    requires bits <= 32
    ensures Val(bits) <= 32
  {
    ValIsInt(bits);
    ValIsInt(32);
    if bits < 32 {
      ValMonotone(bits, 32);
    }
  }

  /** The last bytes of a word, and the word read back from them. */
  function LastBytes(x: u32, len: nat): (b: bytes)
    requires len <= 4
    ensures |b| == len
  {
    Be32(x)[4 - len..]
  }

  function FromLastBytes(b: bytes): u32
    requires |b| <= 4
  {
    FromBe32(seq(4 - |b|, _ => 0) + b)
  }

  function NetIdType(n: Bytes3): u8 {
    n[0] >> 5
  }

  /** A shift up and down again, which clears all but the low bits. */
  function Clipped(x: u32, bits: u8): u32
    requires 1 <= bits <= 32
  {
    (x << (32 - bits)) >> (32 - bits)
  }

  function GetId(n: Bytes3, bits: u8): (b: bytes)
    requires 1 <= bits <= 32
    ensures |b| <= 4
  {
    var temp := FromBe32([0] + n);
    LastBytes(Clipped(temp, bits), ByteLen(bits))
  }

  function Id(n: Bytes3): (b: bytes)
    ensures |b| <= 4
  {
    match NetIdType(n)
    case 0 | 1 => GetId(n, 6)
    case 2 => GetId(n, 9)
    case _ => GetId(n, 21)
  }

  function GetDevAddrPrefix(n: Bytes3, prefixLength: u32, nwkIdBits: u32): DevAddrPrefix
    requires 1 <= prefixLength <= 8 && 1 <= nwkIdBits <= 24
  {
    DevAddrPrefix(Be32(PrefixWord(FromLastBytes(Id(n)), prefixLength, nwkIdBits)), prefixLength + nwkIdBits)
  }

  function PrefixOf(n: Bytes3): (p: DevAddrPrefix)
  {
    match NetIdType(n)
    case 0 => GetDevAddrPrefix(n, 1, 6)
    case 1 => GetDevAddrPrefix(n, 2, 6)
    case 2 => GetDevAddrPrefix(n, 3, 9)
    case 3 => GetDevAddrPrefix(n, 4, 11)
    case 4 => GetDevAddrPrefix(n, 5, 12)
    case 5 => GetDevAddrPrefix(n, 6, 13)
    case 6 => GetDevAddrPrefix(n, 7, 15)
    case _ => GetDevAddrPrefix(n, 8, 17)
  }

  // Addresses

  /** The place of the first clear bit of the leading byte, scanning down from bit i. */
  function TypeFrom(b: u8, i: u8): Result<u8>
    requires i < 8
  {
    if b & ((1 as u8) << i) == 0 then Ok(7 - i)
    else if i == 0 then Err
    else TypeFrom(b, i - 1)
  }

  function AddrType(a: Bytes4): Result<u8> {
    TypeFrom(a[0], 7)
  }

  function NwkIdLen(bits: u32): (n: nat)
    requires bits <= 24
    ensures n <= 4
  {
    ByteLen((bits & 0xff) as u8)
  }

  function GetNwkId(a: Bytes4, prefixLength: u32, nwkIdBits: u32): bytes
    requires 1 <= prefixLength <= 8 && 1 <= nwkIdBits <= 24
  {
    LastBytes(NwkIdWord(FromBe32(a), prefixLength, nwkIdBits), NwkIdLen(nwkIdBits))
  }

  function NwkId(a: Bytes4): Result<bytes> {
    var t :- AddrType(a);
    Ok(match t
       case 0 => GetNwkId(a, 1, 6)
       case 1 => GetNwkId(a, 2, 6)
       case 2 => GetNwkId(a, 3, 9)
       case 3 => GetNwkId(a, 4, 11)
       case 4 => GetNwkId(a, 5, 12)
       case 5 => GetNwkId(a, 6, 13)
       case 6 => GetNwkId(a, 7, 15)
       case 7 => GetNwkId(a, 8, 17)
       case _ => [])
  }

  function SetPrefix(a: Bytes4, p: DevAddrPrefix): Result<Bytes4> {
    var mask :- Shl(0xffff_ffff, 32 - p.size);
    Ok(Be32(Or(Clear(FromBe32(a), mask), FromBe32(p.prefix))))
  }

  function IsNetId(a: Bytes4, n: Bytes3): Result<bool> {
    var b :- SetPrefix(a, PrefixOf(n));
    Ok(a == b)
  }

  // What a prefix means

  lemma TypeRange(n: Bytes3)
    ensures NetIdType(n) < 8
  {}

  /** An address belongs to a NetID: same type, and the NwkID is the id cut to the bits there are. */
  predicate Belongs(a: Bytes4, n: Bytes3) {
    var t := NetIdType(n);
    TypeRange(n);
    AddrType(a) == Ok(t) && NwkId(a).Ok? && FromLastBytes(NwkId(a).value) == Cut(IdOf(n), NwkIdBits(t))
  }

  /** The scan finds type t exactly when the byte begins with t ones and a zero. */
  lemma {:induction false} ScanFinds(b: u8, i: u8, t: u8)
    requires i < 8 && t < 8
    requires b | (0xff >> (7 - i)) == 0xff
    ensures TypeFrom(b, i) == Ok(t) <==> t >= 7 - i && b >> (7 - t) == TypeBits(t)
  {
    if b & ((1 as u8) << i) != 0 && i != 0 {
      ScanFinds(b, i - 1, t);
    }
  }

  lemma AddrTypeIs(a: Bytes4, t: u8)
    requires t < 8
    ensures AddrType(a) == Ok(t) <==> Top(FromBe32(a), PrefixLength(t)) == TypeBits(t) as u32
  {
    ScanFinds(a[0], 7, t);
    hide TypeFrom;
  }

  function IdOf(n: Bytes3): u32 {
    FromLastBytes(Id(n))
  }

  /** The prefix of a NetID, as a word. */
  function WordOf(n: Bytes3): u32 {
    FromBe32(PrefixOf(n).prefix)
  }

  lemma PrefixOfIs(n: Bytes3)
    ensures NetIdType(n) < 8
    ensures var t := NetIdType(n);
            PrefixOf(n).size == SizeOf(t) && WordOf(n) == PrefixWord(IdOf(n), PrefixLength(t), NwkIdBits(t))
  {
    TypeRange(n);
    hide NetIdType, Id, FromLastBytes, PrefixWord, FromBe32, Be32;
    Be32RoundTrip(PrefixWord(IdOf(n), PrefixLength(NetIdType(n)), NwkIdBits(NetIdType(n))), [0, 0, 0, 0]);
  }

  lemma PrefixParts(n: Bytes3)
    ensures NetIdType(n) < 8
    ensures var t := NetIdType(n);
            PrefixOf(n).size == SizeOf(t) &&
            TypePart(WordOf(n), t) == TypeBits(t) as u32 &&
            NwkIdPart(WordOf(n), t) == Cut(IdOf(n), NwkIdBits(t)) &&
            Clear(WordOf(n), Mask(SizeOf(t))) == 0
  {
    PrefixOfIs(n);
    var t := NetIdType(n);
    PrefixWordType(IdOf(n), t);
    PrefixNwkId(IdOf(n), t);
    PrefixWordEnds(IdOf(n), t);
    hide FromBe32, Be32, SameBits, Top, Mask, And, Or, Clear, PrefixWord, NwkIdWord, Cut;
    hide TypeBits, PrefixLength, NwkIdBits, NetIdType, Id, FromLastBytes, PrefixOf, AddrType, NwkId, SetPrefix, IdOf;
  }

  lemma BytesOfType(t: u8)
    requires t < 8
    ensures NwkIdLen(NwkIdBits(t)) == NwkIdBytes(t)
  {
    ValIsInt((NwkIdBits(t) & 0xff) as u8);
  }

  lemma LastBytesRoundTrip(x: u32, len: nat)
    requires 1 <= len <= 3 && And(x, Unused(len)) == 0
    ensures FromLastBytes(LastBytes(x, len)) == x
  {
    Be32RoundTrip(x, [0, 0, 0, 0]);
    assert Be32(x) == seq(4 - len, _ => 0) + Be32(x)[4 - len..];
  }

  /** The NwkID bytes of an address read back as the bits between its type and its host part. */
  lemma NwkIdIs(a: Bytes4, t: u8)
    requires t < 8 && AddrType(a) == Ok(t)
    ensures NwkId(a).Ok? && FromLastBytes(NwkId(a).value) == NwkIdPart(FromBe32(a), t)
  {
    NwkIdOfType(a, t);
    BytesOfType(t);
    NwkIdShort(FromBe32(a), t);
    hide NwkId, AddrType, NwkIdLen, NwkIdWord, PrefixLength, NwkIdBits, FromBe32, LastBytes, FromLastBytes, And, Unused;
    LastBytesRoundTrip(NwkIdPart(FromBe32(a), t), NwkIdBytes(t));
  }

  lemma {:induction false} TypeFromRange(b: u8, i: u8)
    requires i < 8
    ensures TypeFrom(b, i).Ok? ==> TypeFrom(b, i).value < 8
  {
    if i > 0 {
      TypeFromRange(b, i - 1);
    }
  }

  lemma AddrTypeRange(a: Bytes4)
    ensures AddrType(a).Ok? ==> AddrType(a).value < 8
  {
    TypeFromRange(a[0], 7);
    hide TypeFrom;
  }

  lemma NwkIdOfType(a: Bytes4, t: u8)
    requires t < 8 && AddrType(a) == Ok(t)
    ensures NwkId(a) == Ok(GetNwkId(a, PrefixLength(t), NwkIdBits(t)))
  {
    TypeTable(t);
    hide AddrType, GetNwkId, PrefixLength;
  }

  /** How many low bits of a NetID of type t are its id. */
  function IdBits(t: u8): (k: u8)
    ensures 6 <= k <= 21
  {
    if t <= 1 then 6 else if t == 2 then 9 else 21
  }

  lemma BytesOfId(t: u8)
    requires t < 8
    ensures ByteLen(IdBits(t)) == if t <= 1 then 1 else if t == 2 then 2 else 3
  {
    ValIsInt(IdBits(t));
  }

  lemma Id6(x: u32)
    ensures Clipped(x, 6) == Cut(x, 6)
  {}

  lemma Short6(x: u32)
    ensures And(Cut(x, 6), 0xffff_ff00) == 0
  {}

  lemma Id9(x: u32)
    ensures Clipped(x, 9) == Cut(x, 9)
  {}

  lemma Short9(x: u32)
    ensures And(Cut(x, 9), 0xffff_0000) == 0
  {}

  lemma Id21(x: u32)
    ensures Clipped(x, 21) == Cut(x, 21)
  {}

  lemma Short21(x: u32)
    ensures And(Cut(x, 21), 0xff00_0000) == 0
  {}

  lemma IdCut(x: u32, t: u8)
    requires t < 8
    ensures Clipped(x, IdBits(t)) == Cut(x, IdBits(t) as u32)
    ensures And(Cut(x, IdBits(t) as u32), Unused(ByteLen(IdBits(t)))) == 0
  {
    BytesOfId(t);
    hide Clipped, Cut, ByteLen, And;
    if t <= 1 {
      Id6(x);
      Short6(x);
    } else if t == 2 {
      Id9(x);
      Short9(x);
    } else {
      Id21(x);
      Short21(x);
    }
  }

  lemma IdIsClipped(n: Bytes3)
    ensures NetIdType(n) < 8
    ensures Id(n) == LastBytes(Clipped(FromBe32([0] + n), IdBits(NetIdType(n))), ByteLen(IdBits(NetIdType(n))))
  {
    TypeRange(n);
    hide FromBe32, NetIdType, LastBytes, Clipped, ByteLen;
  }

  /** The id of a NetID is its low 6, 9 or 21 bits. */
  lemma IdIs(n: Bytes3)
    ensures IdOf(n) == Cut(FromBe32([0] + n), IdBits(NetIdType(n)) as u32)
  {
    IdIsClipped(n);
    var x, t := FromBe32([0] + n), NetIdType(n);
    BytesOfId(t);
    IdCut(x, t);
    hide FromBe32, NetIdType, LastBytes, FromLastBytes, Clipped, Cut, Id, Unused, ByteLen, And;
    LastBytesRoundTrip(Clipped(x, IdBits(t)), ByteLen(IdBits(t)));
  }

  /** An address begins with a NetID's prefix exactly when it has the NetID's type and the low bits of its id. */
  lemma WithinIsBelongs(a: Bytes4, n: Bytes3)
    ensures 1 <= PrefixOf(n).size <= 31
    ensures Within(FromBe32(a), PrefixOf(n)) <==> Belongs(a, n)
  {
    PrefixParts(n);
    var x, y, t := FromBe32(a), WordOf(n), NetIdType(n);
    if AddrType(a) == Ok(t) {
      NwkIdIs(a, t);
    }
    hide FromBe32, Be32, SameBits, Top, Mask, And, Or, Clear, PrefixWord, NwkIdWord, Cut, TypeBits;
    hide PrefixLength, NwkIdBits, NetIdType, Id, FromLastBytes, PrefixOf, AddrType, NwkId, SetPrefix, IdOf, SizeOf;
    hide TypePart, NwkIdPart;
    TopIsBits(x, y, SizeOf(t));
    WholeSplits(x, y, t);
    TypePartIs(a, t);
  }

  lemma TypePartIs(a: Bytes4, t: u8)
    requires t < 8
    ensures AddrType(a) == Ok(t) <==> TypePart(FromBe32(a), t) == TypeBits(t) as u32
  {
    AddrTypeIs(a, t);
  }

  /** The host part of an address: the bits below a prefix of `size` bits. */
  function HostPart(x: u32, size: u32): u32
    requires 1 <= size <= 32
  {
    Clear(x, Mask(size))
  }

  lemma OverwriteTop(x: u32, y: u32, size: u32)
    requires 1 <= size <= 32
    requires Clear(y, Mask(size)) == 0
    ensures Top(Or(Clear(x, Mask(size)), y), size) == Top(y, size)
  {}

  lemma OverwriteHost(x: u32, y: u32, m: u32)
    requires Clear(y, m) == 0
    ensures Clear(Or(Clear(x, m), y), m) == Clear(x, m)
  {}

  lemma OverwriteSame(x: u32, y: u32, m: u32)
    requires Clear(y, m) == 0 && And(x, m) == And(y, m)
    ensures Or(Clear(x, m), y) == x
  {}

  lemma SetPrefixIs(a: Bytes4, n: Bytes3)
    ensures 7 <= PrefixOf(n).size <= 25
    ensures Clear(WordOf(n), Mask(PrefixOf(n).size)) == 0
    ensures var r := SetPrefix(a, PrefixOf(n));
            r.Ok? && FromBe32(r.value) == Or(HostPart(FromBe32(a), PrefixOf(n).size), WordOf(n))
  {
    PrefixParts(n);
    Sizes(PrefixOf(n).size);
    hide PrefixOf, NetIdType, Mask, FromBe32, Be32, Clear, Or, Shl, NwkIdBits, PrefixLength;
    Be32RoundTrip(Or(Clear(FromBe32(a), Mask(PrefixOf(n).size)), WordOf(n)), a);
  }

  /** Setting a NetID's prefix always yields an address of that NetID, and keeps the host part. */
  lemma SetPrefixBelongs(a: Bytes4, n: Bytes3)
    ensures var r := SetPrefix(a, PrefixOf(n));
            r.Ok? && Belongs(r.value, n) &&
            1 <= PrefixOf(n).size <= 31 &&
            HostPart(FromBe32(r.value), PrefixOf(n).size) == HostPart(FromBe32(a), PrefixOf(n).size)
  {
    SetPrefixIs(a, n);
    var r, size := SetPrefix(a, PrefixOf(n)).value, PrefixOf(n).size;
    WithinIsBelongs(r, n);
    hide FromBe32, Be32, SameBits, Top, Mask, And, Or, Clear, PrefixWord, NwkIdWord, Cut;
    hide TypeBits, PrefixLength, NwkIdBits, NetIdType, Id, FromLastBytes, PrefixOf, AddrType, NwkId, SetPrefix, IdOf;
    hide Belongs;
    OverwriteTop(FromBe32(a), WordOf(n), size);
    OverwriteHost(FromBe32(a), WordOf(n), Mask(size));
    TopIsBits(FromBe32(r), WordOf(n), size);
  }

  /** is_net_id accepts exactly the addresses of the NetID, which are those in the range of its prefix. */
  lemma IsNetIdIff(a: Bytes4, n: Bytes3)
    ensures IsNetId(a, n) == Ok(Belongs(a, n))
    ensures var p := PrefixOf(n);
            RangeMin(p).Ok? && RangeMax(p).Ok? &&
            (Belongs(a, n) <==> Num(RangeMin(p).value) <= Num(FromBe32(a)) <= Num(RangeMax(p).value))
  {
    WithinIsBelongs(a, n);
    RangeIsPrefix(PrefixOf(n), FromBe32(a));
    SetPrefixBelongs(a, n);
    if Belongs(a, n) {
      SetPrefixKeeps(a, n);
    }
    hide PrefixOf, FromBe32, SetPrefix, Belongs, RangeMin, RangeMax, Num, HostPart;
  }

  lemma SameWord(a: Bytes4, b: Bytes4)
    requires FromBe32(a) == FromBe32(b)
    ensures a == b
  {
    hide *;
    Be32RoundTrip(0, a);
    Be32RoundTrip(0, b);
  }

  /** An address that belongs to the NetID already is left alone. */
  lemma SetPrefixKeeps(a: Bytes4, n: Bytes3)
    requires Belongs(a, n)
    ensures SetPrefix(a, PrefixOf(n)) == Ok(a)
  {
    SetPrefixIs(a, n);
    BeginsWith(a, n);
    hide FromBe32, Mask, And, Or, Clear, PrefixOf, SetPrefix, WordOf, Belongs;
    OverwriteSame(FromBe32(a), WordOf(n), Mask(PrefixOf(n).size));
    SameWord(SetPrefix(a, PrefixOf(n)).value, a);
  }

  lemma BeginsWith(a: Bytes4, n: Bytes3)
    requires Belongs(a, n)
    ensures 1 <= PrefixOf(n).size <= 31
    ensures And(FromBe32(a), Mask(PrefixOf(n).size)) == And(WordOf(n), Mask(PrefixOf(n).size))
  {
    WithinIsBelongs(a, n);
    hide FromBe32, Be32, SameBits, Top, Mask, And, Or, Clear, PrefixWord, NwkIdWord, Cut;
    hide TypeBits, PrefixLength, NwkIdBits, NetIdType, Id, FromLastBytes, PrefixOf, AddrType, NwkId, SetPrefix, IdOf;
    hide Belongs;
    TopIsBits(FromBe32(a), WordOf(n), PrefixOf(n).size);
    SameMasked(FromBe32(a), WordOf(n), PrefixOf(n).size);
  }

  lemma SizesDiffer(t: u8, u: u8)
    requires t < 8 && u < 8 && SizeOf(t) == SizeOf(u)
    ensures t == u
  {}

  /** NetIDs have the same prefix exactly when they have the same type and the same low id bits. */
  lemma SamePrefix(m: Bytes3, n: Bytes3)
    ensures NetIdType(m) < 8
    ensures PrefixOf(m) == PrefixOf(n) <==>
            NetIdType(m) == NetIdType(n) &&
              Cut(IdOf(m), NwkIdBits(NetIdType(m))) == Cut(IdOf(n), NwkIdBits(NetIdType(m)))
  {
    PrefixOfIs(m);
    PrefixOfIs(n);
    PrefixParts(m);
    PrefixParts(n);
    hide PrefixOf, NetIdType, SizeOf, NwkIdPart, TypePart, Cut, IdOf, PrefixWord, PrefixLength, NwkIdBits, FromBe32;
    hide And, Mask;
    var t := NetIdType(m);
    if PrefixOf(m) == PrefixOf(n) {
      SizesDiffer(t, NetIdType(n));
    } else if t == NetIdType(n) && Cut(IdOf(m), NwkIdBits(t)) == Cut(IdOf(n), NwkIdBits(t)) {
      CutPrefix(IdOf(m), PrefixLength(t), NwkIdBits(t));
      CutPrefix(IdOf(n), PrefixLength(t), NwkIdBits(t));
      SameWord(PrefixOf(m).prefix, PrefixOf(n).prefix);
    }
  }

  /** Two NetIDs share every address or none: an address of both makes their prefixes equal. */
  lemma PrefixesEqualOrDisjoint(m: Bytes3, n: Bytes3, a: Bytes4)
    ensures Belongs(a, m) && Belongs(a, n) ==> PrefixOf(m) == PrefixOf(n)
    ensures PrefixOf(m) == PrefixOf(n) ==> (Belongs(a, m) <==> Belongs(a, n))
  {
    SamePrefix(m, n);
    WithinIsBelongs(a, m);
    WithinIsBelongs(a, n);
    hide PrefixOf, NetIdType, Cut, IdOf, NwkIdBits, NwkId, FromLastBytes, Within;
  }

  /** A NetID of each type, and its prefix, as the source lists them. */
  function KnownNetId(t: u8): Bytes3
    requires t < 8
  {
    match t
    case 0 => [0x00, 0x00, 0x6d]
    case 1 => [0x20, 0x00, 0x6d]
    case 2 => [0x40, 0x03, 0x6d]
    case _ => [(t << 5) | 0x16, 0xdb, 0x6d]
  }

  function KnownPrefix(t: u8): (u32, u32)
    requires t < 8
  {
    match t
    case 0 => (0x5a00_0000, 7)
    case 1 => (0xad00_0000, 8)
    case 2 => (0xd6d0_0000, 12)
    case 3 => (0xe6da_0000, 15)
    case 4 => (0xf5b6_8000, 17)
    case 5 => (0xfb6d_a000, 19)
    case 6 => (0xfd6d_b400, 22)
    case _ => (0xfe6d_b680, 25)
  }

  lemma KnownId(t: u8)
    requires t < 8
    ensures NetIdType(KnownNetId(t)) == t
    ensures Cut(FromBe32([0] + KnownNetId(t)), IdBits(t) as u32) ==
            match t case 0 => 0x2d case 1 => 0x2d case 2 => 0x16d case _ => 0x16_db6d
  {}

  lemma KnownWord(t: u8)
    requires t < 8
    ensures var id := match t case 0 => 0x2d case 1 => 0x2d case 2 => 0x16d case _ => 0x16_db6d;
            KnownPrefix(t) == (PrefixWord(id, PrefixLength(t), NwkIdBits(t)), SizeOf(t))
  {}

  lemma KnownPrefixes(t: u8)
    requires t < 8
    ensures (WordOf(KnownNetId(t)), PrefixOf(KnownNetId(t)).size) == KnownPrefix(t)
  {
    var n := KnownNetId(t);
    KnownId(t);
    KnownWord(t);
    IdIs(n);
    PrefixOfIs(n);
    hide PrefixOf, WordOf, IdOf, NetIdType, KnownNetId, KnownPrefix, PrefixWord, PrefixLength, NwkIdBits, SizeOf, Cut;
    hide FromBe32, IdBits;
  }

  // The operations, step by step

  /** The id of a NetID with `bits` bits of it, as whole bytes. */
  method ReadId(n: Bytes3, bits: u8) returns (b: bytes)
    requires bits == IdBits(NetIdType(n))
    ensures b == Id(n) && FromLastBytes(b) == Cut(FromBe32([0] + n), bits as u32)
  {
    IdIsClipped(n);
    IdIs(n);
    hide FromBe32, LastBytes, ByteLen, Id, Cut, IdBits, NetIdType, FromLastBytes, Clipped;
    var temp := Clip(FromBe32([0] + n), bits);
    return LastBytes(temp, ByteLen(bits));
  }

  method Clip(x: u32, bits: u8) returns (temp: u32)
    requires 1 <= bits <= 32
    ensures temp == Clipped(x, bits)
  {
    temp := x << (32 - bits);
    temp := temp >> (32 - bits);
  }

  method IdBytes(n: Bytes3) returns (b: bytes)
    ensures b == Id(n)
  {
    TypeRange(n);
    hide NetIdType, Id, FromBe32, Cut, FromLastBytes;
    match NetIdType(n)
    case 0 | 1 => b := ReadId(n, 6);
    case 2 => b := ReadId(n, 9);
    case _ => b := ReadId(n, 21);
  }

  method MergePrefix(id: u32, k: u32, bits: u32) returns (prefix: u32)
    requires 1 <= k <= 8 && 1 <= bits <= 24
    ensures prefix == PrefixWord(id, k, bits)
  {
    prefix := MarkType(k);
    var nwkId := PlaceId(id, k, bits);
    PrefixWordIsOr(id, k, bits);
    hide TypeMark, NwkIdPlaced, PrefixWord, Or;
    prefix := Merge(prefix, nwkId);
  }

  lemma PrefixWordIsOr(id: u32, k: u32, bits: u32)
    requires 1 <= k <= 8 && 1 <= bits <= 24
    ensures PrefixWord(id, k, bits) == Or(TypeMark(k), NwkIdPlaced(id, k, bits))
  {
    hide TypeMark, NwkIdPlaced;
  }

  method Merge(x: u32, y: u32) returns (z: u32)
    ensures z == Or(x, y)
  {
    z := x | y;
  }

  method MarkType(k: u32) returns (mark: u32)
    requires 1 <= k <= 8
    ensures mark == TypeMark(k)
  {
    mark := 254 << (32 - k);
  }

  method PlaceId(id: u32, k: u32, bits: u32) returns (placed: u32)
    requires 1 <= k <= 8 && 1 <= bits <= 24
    ensures placed == NwkIdPlaced(id, k, bits)
  {
    placed := id << (32 - bits);
    placed := placed >> k;
  }

  /** A prefix that begins with the bits of its type and goes on with the low bits of the id. */
  method BuildPrefix(n: Bytes3, t: u8, k: u32, bits: u32) returns (p: DevAddrPrefix)
    requires t < 8 && k == PrefixLength(t) && bits == NwkIdBits(t)
    ensures p == GetDevAddrPrefix(n, k, bits) && p.size == SizeOf(t)
    ensures TypePart(FromBe32(p.prefix), t) == TypeBits(t) as u32
    ensures NwkIdPart(FromBe32(p.prefix), t) == Cut(IdOf(n), bits)
  {
    var id := IdBytes(n);
    var prefix := MergePrefix(FromLastBytes(id), k, bits);
    PrefixWordType(IdOf(n), t);
    PrefixNwkId(IdOf(n), t);
    hide Be32, FromBe32, FromLastBytes, Id, PrefixWord, PrefixLength, NwkIdBits, Top, NwkIdWord, Cut, TypeBits;
    Be32RoundTrip(prefix, [0, 0, 0, 0]);
    return DevAddrPrefix(Be32(prefix), k + bits);
  }

  method DevAddrPrefixFor(n: Bytes3) returns (p: DevAddrPrefix)
    ensures p == PrefixOf(n)
  {
    TypeRange(n);
    PrefixTable();
    hide NetIdType, GetDevAddrPrefix, PrefixLength, NwkIdBits, TypeBits, SizeOf, TypePart, NwkIdPart, Cut, IdOf;
    match NetIdType(n)
    case 0 => p := BuildPrefix(n, 0, 1, 6);
    case 1 => p := BuildPrefix(n, 1, 2, 6);
    case 2 => p := BuildPrefix(n, 2, 3, 9);
    case 3 => p := BuildPrefix(n, 3, 4, 11);
    case 4 => p := BuildPrefix(n, 4, 5, 12);
    case 5 => p := BuildPrefix(n, 5, 6, 13);
    case 6 => p := BuildPrefix(n, 6, 7, 15);
    case _ => p := BuildPrefix(n, 7, 8, 17);
  }

  lemma PrefixTable()
    ensures PrefixLength(0) == 1 && PrefixLength(1) == 2 && PrefixLength(2) == 3 && PrefixLength(3) == 4
    ensures PrefixLength(4) == 5 && PrefixLength(5) == 6 && PrefixLength(6) == 7 && PrefixLength(7) == 8
    ensures NwkIdBits(0) == 6 && NwkIdBits(1) == 6 && NwkIdBits(2) == 9 && NwkIdBits(3) == 11
    ensures NwkIdBits(4) == 12 && NwkIdBits(5) == 13 && NwkIdBits(6) == 15 && NwkIdBits(7) == 17
  {}

  lemma NwkIdWordIs(x: u32, k: u32, bits: u32)
    requires k <= 8 && 1 <= bits <= 24
    ensures NwkIdWord(x, k, bits) == (x << k) >> (32 - bits)
  {}

  method ShiftNwkId(x: u32, k: u32, bits: u32) returns (temp: u32)
    requires k <= 8 && 1 <= bits <= 24
    ensures temp == NwkIdWord(x, k, bits)
  {
    NwkIdWordIs(x, k, bits);
    hide NwkIdWord;
    temp := x << k;
    temp := temp >> (32 - bits);
  }

  /** The bits between type and host part, as whole bytes. */
  method ReadNwkId(a: Bytes4, t: u8, k: u32, bits: u32) returns (b: bytes)
    requires t < 8 && k == PrefixLength(t) && bits == NwkIdBits(t)
    ensures b == GetNwkId(a, k, bits) && FromLastBytes(b) == NwkIdPart(FromBe32(a), t)
  {
    BytesOfType(t);
    NwkIdShort(FromBe32(a), t);
    hide FromBe32, LastBytes, FromLastBytes, NwkIdLen, NwkIdWord, PrefixLength, NwkIdBits, And, Unused;
    var temp := ShiftNwkId(FromBe32(a), k, bits);
    LastBytesRoundTrip(temp, NwkIdBytes(t));
    return LastBytes(temp, NwkIdLen(bits));
  }

  class DevAddr {
    var addr: Bytes4

    constructor FromBeBytes(b: Bytes4)
      ensures addr == b
    {
      addr := b;
    }

    /** Fills a buffer from its last place down. */
    constructor FromLeBytes(b: Bytes4)
      ensures addr == Reverse(b)
    {
      var devAddr: bytes := [0, 0, 0, 0];
      for i := 0 to |b|
        invariant |devAddr| == 4
        invariant forall k :: 4 - i <= k < 4 ==> devAddr[k] == b[3 - k]
      {
        devAddr := devAddr[4 - i - 1 := b[i]];
      }
      assert devAddr == Reverse(b);
      addr := devAddr;
    }

    method NetIdType() returns (r: Result<u8>)
      ensures r == AddrType(addr)
    {
      var i: u8 := 7;
      while true
        invariant i < 8 && AddrType(addr) == TypeFrom(addr[0], i)
        decreases i
      {
        if addr[0] & ((1 as u8) << i) == 0 {
          return Ok(7 - i);
        }
        if i == 0 {
          return Err;
        }
        i := i - 1;
      }
    }

    method NwkIdOf() returns (r: Result<bytes>)
      ensures r == NwkId(addr)
    {
      PrefixTable();
      AddrTypeRange(addr);
      hide AddrType, GetNwkId, PrefixLength, NwkIdBits, FromLastBytes, NwkIdPart;
      var t := NetIdType();
      if t.Err? {
        return Err;
      }
      var b;
      match t.value {
      case 0 => b := ReadNwkId(addr, 0, 1, 6);
      case 1 => b := ReadNwkId(addr, 1, 2, 6);
      case 2 => b := ReadNwkId(addr, 2, 3, 9);
      case 3 => b := ReadNwkId(addr, 3, 4, 11);
      case 4 => b := ReadNwkId(addr, 4, 5, 12);
      case 5 => b := ReadNwkId(addr, 5, 6, 13);
      case 6 => b := ReadNwkId(addr, 6, 7, 15);
      case _ => b := ReadNwkId(addr, 7, 8, 17);
      }
      return Ok(b);
    }

    /** Clears the prefix bits and writes the new ones; on overflow the address is left as it was. */
    method SetDevAddrPrefix(p: DevAddrPrefix) returns (r: Result<()>)
      modifies this
      ensures r.Ok? <==> SetPrefix(old(addr), p).Ok?
      ensures addr == if r.Ok? then SetPrefix(old(addr), p).value else old(addr)
    {
      hide FromBe32, Be32;
      var devAddr := FromBe32(addr);
      var mask :- Shl(0xffff_ffff, 32 - p.size);
      devAddr := Clear(devAddr, mask);
      devAddr := Or(devAddr, FromBe32(p.prefix));
      addr := Be32(devAddr);
      return Ok(());
    }

    /** Tries the prefix on a copy and compares. */
    method IsOfNetId(n: Bytes3) returns (r: Result<bool>)
      ensures r == Ok(Belongs(addr, n))
    {
      IsNetIdIff(addr, n);
      hide Belongs, PrefixOf, SetPrefix;
      var copy := new DevAddr.FromBeBytes(addr);
      var p := DevAddrPrefixFor(n);
      var done := copy.SetDevAddrPrefix(p);
      assert done.Ok?;
      return Ok(addr == copy.addr);
    }
  }
}
