/** The layout of a device address: type, NwkID and host part, for each of the eight types of NetID
    (lrwn/src/netid.rs, lrwn/src/devaddr.rs). */
module AddrLayout {
  import opened Bytes
  import opened Words

  function PrefixLength(t: u8): (k: u32)
    requires t < 8
    ensures 1 <= k <= 8
  {
    (t + 1) as u32
  }

  function NwkIdBits(t: u8): (k: u32)
    ensures 6 <= k <= 17
  {
    match t
    case 0 => 6
    case 1 => 6
    case 2 => 9
    case 3 => 11
    case 4 => 12
    case 5 => 13
    case 6 => 15
    case _ => 17
  }

  function TypeBits(t: u8): u8
    requires t < 8
  {
    (1 << (t + 1)) - 2
  }

  /** The low `bits` bits of x: x modulo 2^bits. */
  function Cut(x: u32, bits: u32): u32
    requires 1 <= bits <= 24
  {
    x & ((1 << bits) - 1)
  }

  /** An id, moved so far up that only its low bits are left, and then below a prefix of k bits. */
  function Raised(id: u32, bits: u32): u32
    requires 1 <= bits <= 24
  {
    id << (32 - bits)
  }

  function NwkIdPlaced(id: u32, k: u32, bits: u32): u32
    requires 1 <= k <= 8 && 1 <= bits <= 24
  {
    Raised(id, bits) >> k
  }

  /** As many ones as the type asks for, then a zero. */
  function TypeMark(k: u32): u32
    requires 1 <= k <= 8
  {
    254 << (32 - k)
  }

  /** The prefix of a type with the low bits of a NetID's id below it. */
  function PrefixWord(id: u32, prefixLength: u32, nwkIdBits: u32): u32
    requires 1 <= prefixLength <= 8 && 1 <= nwkIdBits <= 24
  {
    TypeMark(prefixLength) | NwkIdPlaced(id, prefixLength, nwkIdBits)
  }

  function NwkIdWord(x: u32, prefixLength: u32, nwkIdBits: u32): u32
    requires prefixLength <= 8 && nwkIdBits <= 24
  {
    (x << prefixLength) >> (32 - nwkIdBits)
  }

  function Clear(x: u32, mask: u32): u32 {
    x & !mask
  }

  // The three parts of a word under a prefix of type t.

  function SizeOf(t: u8): (k: u32)
    requires t < 8
    ensures 7 <= k <= 25
  {
    PrefixLength(t) + NwkIdBits(t)
  }

  function WholePart(x: u32, t: u8): u32
    requires t < 8
  {
    Top(x, SizeOf(t))
  }

  function TypePart(x: u32, t: u8): u32
    requires t < 8
  {
    Top(x, PrefixLength(t))
  }

  function NwkIdPart(x: u32, t: u8): u32
    requires t < 8
  {
    NwkIdWord(x, PrefixLength(t), NwkIdBits(t))
  }

  lemma TypeTable(t: u8)
    requires t < 8
    ensures PrefixLength(t) == match t case 0 => 1 case 1 => 2 case 2 => 3 case 3 => 4
                                       case 4 => 5 case 5 => 6 case 6 => 7 case _ => 8
  {}

  // What the shifts do, for each of the eight types. Each fact is one about constant shifts.

  /** A NwkID does not depend on the bits below the prefix. */
  lemma NwkIdKept(x: u32, t: u8)
    requires t < 8
    ensures NwkIdPart(And(x, Mask(SizeOf(t))), t) == NwkIdPart(x, t)
  {
    TypeTable(t);
    hide And, Mask, NwkIdWord, PrefixLength;
    match t
    case 0 => NwkIdKept0(x);
    case 1 => NwkIdKept1(x);
    case 2 => NwkIdKept2(x);
    case 3 => NwkIdKept3(x);
    case 4 => NwkIdKept4(x);
    case 5 => NwkIdKept5(x);
    case 6 => NwkIdKept6(x);
    case _ => NwkIdKept7(x);
  }

  lemma NwkIdKept0(x: u32)
    ensures NwkIdWord(And(x, Mask(7)), 1, 6) == NwkIdWord(x, 1, 6)
  {}

  lemma NwkIdKept1(x: u32)
    ensures NwkIdWord(And(x, Mask(8)), 2, 6) == NwkIdWord(x, 2, 6)
  {}

  lemma NwkIdKept2(x: u32)
    ensures NwkIdWord(And(x, Mask(12)), 3, 9) == NwkIdWord(x, 3, 9)
  {}

  lemma NwkIdKept3(x: u32)
    ensures NwkIdWord(And(x, Mask(15)), 4, 11) == NwkIdWord(x, 4, 11)
  {}

  lemma NwkIdKept4(x: u32)
    ensures NwkIdWord(And(x, Mask(17)), 5, 12) == NwkIdWord(x, 5, 12)
  {}

  lemma NwkIdKept5(x: u32)
    ensures NwkIdWord(And(x, Mask(19)), 6, 13) == NwkIdWord(x, 6, 13)
  {}

  lemma NwkIdKept6(x: u32)
    ensures NwkIdWord(And(x, Mask(22)), 7, 15) == NwkIdWord(x, 7, 15)
  {}

  lemma NwkIdKept7(x: u32)
    ensures NwkIdWord(And(x, Mask(25)), 8, 17) == NwkIdWord(x, 8, 17)
  {}

  /** The bits of a prefix are those of the type and, put back in their place, those of the NwkID. */
  lemma PartsJoin(x: u32, t: u8)
    requires t < 8
    ensures And(x, Mask(SizeOf(t))) ==
            Or(And(x, Mask(PrefixLength(t))), NwkIdPlaced(NwkIdPart(x, t), PrefixLength(t), NwkIdBits(t)))
  {
    TypeTable(t);
    hide And, Or, Mask, NwkIdWord, NwkIdPlaced, PrefixLength;
    match t
    case 0 => PartsJoin0(x);
    case 1 => PartsJoin1(x);
    case 2 => PartsJoin2(x);
    case 3 => PartsJoin3(x);
    case 4 => PartsJoin4(x);
    case 5 => PartsJoin5(x);
    case 6 => PartsJoin6(x);
    case _ => PartsJoin7(x);
  }

  lemma PartsJoin0(x: u32)
    ensures And(x, Mask(7)) == Or(And(x, Mask(1)), NwkIdPlaced(NwkIdWord(x, 1, 6), 1, 6))
  {}

  lemma PartsJoin1(x: u32)
    ensures And(x, Mask(8)) == Or(And(x, Mask(2)), NwkIdPlaced(NwkIdWord(x, 2, 6), 2, 6))
  {}

  lemma PartsJoin2(x: u32)
    ensures And(x, Mask(12)) == Or(And(x, Mask(3)), NwkIdPlaced(NwkIdWord(x, 3, 9), 3, 9))
  {}

  lemma PartsJoin3(x: u32)
    ensures And(x, Mask(15)) == Or(And(x, Mask(4)), NwkIdPlaced(NwkIdWord(x, 4, 11), 4, 11))
  {}

  lemma PartsJoin4(x: u32)
    ensures And(x, Mask(17)) == Or(And(x, Mask(5)), NwkIdPlaced(NwkIdWord(x, 5, 12), 5, 12))
  {}

  lemma PartsJoin5(x: u32)
    ensures And(x, Mask(19)) == Or(And(x, Mask(6)), NwkIdPlaced(NwkIdWord(x, 6, 13), 6, 13))
  {}

  lemma PartsJoin6(x: u32)
    ensures And(x, Mask(22)) == Or(And(x, Mask(7)), NwkIdPlaced(NwkIdWord(x, 7, 15), 7, 15))
  {}

  lemma PartsJoin7(x: u32)
    ensures And(x, Mask(25)) == Or(And(x, Mask(8)), NwkIdPlaced(NwkIdWord(x, 8, 17), 8, 17))
  {}

  /** How many bytes the NwkID of an address has, and the bits of a word that so many bytes leave out. */
  function NwkIdBytes(t: u8): nat {
    if t <= 1 then 1 else if t <= 6 then 2 else 3
  }

  function Unused(len: nat): u32 {
    match len
    case 1 => 0xffff_ff00
    case 2 => 0xffff_0000
    case 3 => 0xff00_0000
    case _ => 0
  }

  lemma NwkIdShort(x: u32, t: u8)
    requires t < 8
    ensures And(NwkIdPart(x, t), Unused(NwkIdBytes(t))) == 0
  {
    TypeTable(t);
    hide And, NwkIdWord, PrefixLength;
    match t
    case 0 => NwkIdShort0(x);
    case 1 => NwkIdShort1(x);
    case 2 => NwkIdShort2(x);
    case 3 => NwkIdShort3(x);
    case 4 => NwkIdShort4(x);
    case 5 => NwkIdShort5(x);
    case 6 => NwkIdShort6(x);
    case _ => NwkIdShort7(x);
  }

  lemma NwkIdShort0(x: u32)
    ensures And(NwkIdWord(x, 1, 6), 0xffff_ff00) == 0
  {}

  lemma NwkIdShort1(x: u32)
    ensures And(NwkIdWord(x, 2, 6), 0xffff_ff00) == 0
  {}

  lemma NwkIdShort2(x: u32)
    ensures And(NwkIdWord(x, 3, 9), 0xffff_0000) == 0
  {}

  lemma NwkIdShort3(x: u32)
    ensures And(NwkIdWord(x, 4, 11), 0xffff_0000) == 0
  {}

  lemma NwkIdShort4(x: u32)
    ensures And(NwkIdWord(x, 5, 12), 0xffff_0000) == 0
  {}

  lemma NwkIdShort5(x: u32)
    ensures And(NwkIdWord(x, 6, 13), 0xffff_0000) == 0
  {}

  lemma NwkIdShort6(x: u32)
    ensures And(NwkIdWord(x, 7, 15), 0xffff_0000) == 0
  {}

  lemma NwkIdShort7(x: u32)
    ensures And(NwkIdWord(x, 8, 17), 0xff00_0000) == 0
  {}

  /** The prefix made from an id has the low bits of the id as its NwkID. */
  lemma PrefixNwkId(id: u32, t: u8)
    requires t < 8
    ensures NwkIdPart(PrefixWord(id, PrefixLength(t), NwkIdBits(t)), t) == Cut(id, NwkIdBits(t))
  {
    TypeTable(t);
    hide NwkIdWord, PrefixWord, Cut, PrefixLength;
    match t
    case 0 => PrefixNwkId0(id);
    case 1 => PrefixNwkId1(id);
    case 2 => PrefixNwkId2(id);
    case 3 => PrefixNwkId3(id);
    case 4 => PrefixNwkId4(id);
    case 5 => PrefixNwkId5(id);
    case 6 => PrefixNwkId6(id);
    case _ => PrefixNwkId7(id);
  }

  lemma PrefixNwkId0(id: u32)
    ensures NwkIdWord(PrefixWord(id, 1, 6), 1, 6) == Cut(id, 6)
  {}

  lemma PrefixNwkId1(id: u32)
    ensures NwkIdWord(PrefixWord(id, 2, 6), 2, 6) == Cut(id, 6)
  {}

  lemma PrefixNwkId2(id: u32)
    ensures NwkIdWord(PrefixWord(id, 3, 9), 3, 9) == Cut(id, 9)
  {}

  lemma PrefixNwkId3(id: u32)
    ensures NwkIdWord(PrefixWord(id, 4, 11), 4, 11) == Cut(id, 11)
  {}

  lemma PrefixNwkId4(id: u32)
    ensures NwkIdWord(PrefixWord(id, 5, 12), 5, 12) == Cut(id, 12)
  {}

  lemma PrefixNwkId5(id: u32)
    ensures NwkIdWord(PrefixWord(id, 6, 13), 6, 13) == Cut(id, 13)
  {}

  lemma PrefixNwkId6(id: u32)
    ensures NwkIdWord(PrefixWord(id, 7, 15), 7, 15) == Cut(id, 15)
  {}

  lemma PrefixNwkId7(id: u32)
    ensures NwkIdWord(PrefixWord(id, 8, 17), 8, 17) == Cut(id, 17)
  {}

  lemma PrefixWordType(id: u32, t: u8)
    requires t < 8
    ensures Top(PrefixWord(id, PrefixLength(t), NwkIdBits(t)), PrefixLength(t)) == TypeBits(t) as u32
  {}

  lemma PrefixWordEnds(id: u32, t: u8)
    requires t < 8
    ensures Clear(PrefixWord(id, PrefixLength(t), NwkIdBits(t)), Mask(PrefixLength(t) + NwkIdBits(t))) == 0
  {}

  lemma CutRaised(id: u32, bits: u32)
    requires 1 <= bits <= 24
    ensures Raised(Cut(id, bits), bits) == Raised(id, bits)
  {}

  /** Only the low bits of an id enter its prefix. */
  lemma CutPrefix(id: u32, k: u32, bits: u32)
    requires 1 <= k <= 8 && 1 <= bits <= 24
    ensures PrefixWord(Cut(id, bits), k, bits) == PrefixWord(id, k, bits)
  {
    hide Cut, Raised;
    CutRaised(id, bits);
  }

  lemma SameMasked(x: u32, y: u32, size: u32)
    requires 1 <= size <= 32
    ensures Top(x, size) == Top(y, size) <==> And(x, Mask(size)) == And(y, Mask(size))
  {
    hide Top, Mask, And;
    LowTop(x, size);
    LowTop(y, size);
    if Top(x, size) == Top(y, size) {
      SameLow(x, y, size);
    }
  }

  /** Words with the same first s bits have the same first k, for k up to s. */
  lemma {:induction false} TopShorter(x: u32, y: u32, k: u32, s: u32)
    requires k <= s <= 32 && Top(x, s) == Top(y, s)
    ensures Top(x, k) == Top(y, k)
    decreases s
  {
    hide Top, Half;
    if k < s {
      TopStep(x, s);
      TopStep(y, s);
      TopShorter(x, y, k, s - 1);
    }
  }

  function TypeMasked(x: u32, t: u8): u32
    requires t < 8
  {
    And(x, Mask(PrefixLength(t)))
  }

  function WholeMasked(x: u32, t: u8): u32
    requires t < 8
  {
    And(x, Mask(SizeOf(t)))
  }

  lemma SameTypeMasked(x: u32, y: u32, t: u8)
    requires t < 8
    ensures TypePart(x, t) == TypePart(y, t) <==> TypeMasked(x, t) == TypeMasked(y, t)
  {
    hide Top, Mask, And, PrefixLength;
    SameMasked(x, y, PrefixLength(t));
  }

  lemma SameWholeMasked(x: u32, y: u32, t: u8)
    requires t < 8
    ensures WholePart(x, t) == WholePart(y, t) <==> WholeMasked(x, t) == WholeMasked(y, t)
  {
    hide Top, Mask, And, SizeOf;
    SameMasked(x, y, SizeOf(t));
  }

  lemma SameTypePart(x: u32, y: u32, t: u8)
    requires t < 8 && WholePart(x, t) == WholePart(y, t)
    ensures TypePart(x, t) == TypePart(y, t)
  {
    SizeBounds(t);
    hide Top, PrefixLength, SizeOf;
    TopShorter(x, y, PrefixLength(t), SizeOf(t));
  }

  lemma SizeBounds(t: u8)
    requires t < 8
    ensures PrefixLength(t) <= SizeOf(t)
  {}

  /** The bits of a prefix are those of its type and those of the NwkID. */
  lemma WholeSplits(x: u32, y: u32, t: u8)
    requires t < 8
    ensures WholePart(x, t) == WholePart(y, t) <==>
            TypePart(x, t) == TypePart(y, t) && NwkIdPart(x, t) == NwkIdPart(y, t)
  {
    SameTypeMasked(x, y, t);
    SameWholeMasked(x, y, t);
    NwkIdKept(x, t);
    NwkIdKept(y, t);
    PartsJoin(x, t);
    PartsJoin(y, t);
    if WholePart(x, t) == WholePart(y, t) {
      SameTypePart(x, y, t);
    }
    hide WholePart, TypePart, NwkIdPart, SizeOf, PrefixLength, NwkIdBits, And, Or, Mask, NwkIdPlaced;
  }
}
