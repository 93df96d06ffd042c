/** Which address bits hold the island, with positions and masks written out. */
module CppBits {
  import opened CppWindow
  import opened CppAddress

  /** Lowest of the six bits: 34 or 26, for the memory unit 32 or 24, for the context processor bus 24. */
  function Lowest(x: Translation): (lsb: nat)
    ensures lsb in {24, 26, 32, 34}
  {
    if x.target == MU then if x.addr40 then 32 else 24
    else if x.target == CTXPB then 24
    else if x.addr40 then 34 else 26
  }

  function Six24(a: Word): Word { (a >> 24) & 0x3f }
  function Six26(a: Word): Word { (a >> 26) & 0x3f }
  function Six32(a: Word): Word { (a >> 32) & 0x3f }
  function Six34(a: Word): Word { (a >> 34) & 0x3f }

  /** The six bits from `lsb` on. */
  function Six(a: Word, lsb: nat): Word
    requires lsb in {24, 26, 32, 34}
  {
    match lsb case 24 => Six24(a) case 26 => Six26(a) case 32 => Six32(a) case _ => Six34(a)
  }

  function Rest24(a: Word, mask: Word): Word { Cut(a, mask << 24) }
  function Rest26(a: Word, mask: Word): Word { Cut(a, mask << 26) }
  function Rest32(a: Word, mask: Word): Word { Cut(a, mask << 32) }
  function Rest34(a: Word, mask: Word): Word { Cut(a, mask << 34) }

  /** The address without those of the six bits that are in `mask`. */
  function Rest(a: Word, lsb: nat, mask: Word): Word
    requires lsb in {24, 26, 32, 34}
  {
    match lsb
    case 24 => Rest24(a, mask) case 26 => Rest26(a, mask) case 32 => Rest32(a, mask) case _ => Rest34(a, mask)
  }

  /** The locality: bits 39:38 of a 40-bit address, 31:30 of a 32-bit one. */
  function TwoAbove(a: Word, addr40: bool): Word { if addr40 then (a >> 38) & 3 else (a >> 30) & 3 }

  lemma SixIs(a: Word, x: Translation)
    ensures Six(a, Lowest(x)) == Window(a, BaseOf(x))
  {
    hide Six24, Six26, Six32, Six34, Window24, Window26, Window32, Window34;
    SixesAre(a);
  }

  lemma SixesAre(a: Word)
    ensures Six24(a) == Window24(a) && Six26(a) == Window26(a) && Six32(a) == Window32(a) && Six34(a) == Window34(a)
  {
  }

  lemma RestIs(a: Word, x: Translation, mask: Word)
    ensures Rest(a, Lowest(x), mask) == Outside(a, BaseOf(x), mask)
  {
    hide Rest24, Rest26, Rest32, Rest34, Cut, Up24, Up26, Up32, Up34;
    Rest24Is(a, mask);
    Rest26Is(a, mask);
    Rest32Is(a, mask);
    Rest34Is(a, mask);
  }

  lemma Rest24Is(a: Word, mask: Word)
    ensures Rest24(a, mask) == Cut(a, Up24(mask))
  {
    hide Cut;
    assert mask << 24 == Up24(mask);
  }

  lemma Rest26Is(a: Word, mask: Word)
    ensures Rest26(a, mask) == Cut(a, Up26(mask))
  {
    hide Cut;
    assert mask << 26 == Up26(mask);
  }

  lemma Rest32Is(a: Word, mask: Word)
    ensures Rest32(a, mask) == Cut(a, Up32(mask))
  {
    hide Cut;
    assert mask << 32 == Up32(mask);
  }

  lemma Rest34Is(a: Word, mask: Word)
    ensures Rest34(a, mask) == Cut(a, Up34(mask))
  {
    hide Cut;
    assert mask << 34 == Up34(mask);
  }

  lemma TwoAboveIs(a: Word, addr40: bool)
    ensures TwoAbove(a, addr40) == Locality(a, addr40)
  {
  }

  // ----- The six bits, taken apart -----

  function Top(w: Word): Word { (w >> 5) & 1 }
  function Second(w: Word): Word { (w >> 4) & 1 }
  function NextTwo(w: Word): Word { (w >> 3) & 3 }

  lemma TopIs(w: Word)
    ensures Top(w) == (if Index(w) then 1 else 0) && Second(w) == BitIn(w) && NextTwo(w) == PairIn(w)
  {
  }

  // ----- Encoding -----

  /** Is the whole island number written? Always for the context processor bus, in mode 0, and in the
      memory unit when the locality is 2 or becomes so. */
  predicate Whole(a: Word, dest: Word, x: Translation) {
    x.target == CTXPB || x.mode == 0 || (x.target == MU && (TwoAbove(a, x.addr40) == 2 || MadeDirect(dest, x)))
  }

  /** Mode 3 of the memory unit sets bit 39 or 31 for every positive island but 24, 25 and 26. */
  predicate MadeDirect(dest: Word, x: Translation) {
    x.target == MU && x.mode == 3 && 0 < dest <= 0x7fff_ffff_ffff_ffff && dest != 24 && dest != 25 && dest != 26
  }

  function DirectBit(addr40: bool): Word { if addr40 then 0x80_0000_0000 else 0x8000_0000 }

  /** Modes and widths there are: modes 0 to 3; for the context processor bus mode 1 in 32 bits only. */
  predicate Known(x: Translation) {
    match x.target
    case Unassigned => false
    case CTXPB => x.mode == 1 && !x.addr40
    case _ => x.mode in {0, 1, 2, 3}
  }

  /** Part of the island number that the table entry gives. */
  function Given(mode: nat, island: Word): Word {
    match mode case 2 => Cut(island, 1) case 3 => Cut(island, 3) case _ => island
  }

  /** Island bits written in an index mode: below the topmost, none, one or two. */
  predicate LowBits(mode: nat, w: Word, dest: Word) {
    match mode case 2 => Second(w) == And(dest, 1) case 3 => NextTwo(w) == And(dest, 3) case _ => true
  }

  /** Window bits an index mode writes. */
  function Written(mode: nat): Word { match mode case 2 => 0x30 case 3 => 0x38 case _ => 0x20 }

  lemma SetDirectIsOr(a: Word, addr40: bool)
    ensures SetDirect(a, addr40) == Or(a, DirectBit(addr40))
  {
  }

  lemma MadeDirectIs(dest: Word, x: Translation)
    ensures Forces(dest, x) <==> MadeDirect(dest, x)
    ensures MadeDirect(dest, x) ==> x.target == MU && x.mode == 3
  {
  }

  lemma PartsAre(island: Word)
    ensures Given(2, island) == Even(island) && Given(3, island) == Quad(island) && Given(1, island) == island
    ensures LowBit(island) == And(island, 1) && LowPair(island) == And(island, 3)
  {
    hide Cut, Even, Quad, And, LowBit, LowPair;
    EvenIs(island);
    QuadIs(island);
    LowBitIs(island);
    LowPairIs(island);
  }

  lemma EvenIs(island: Word)
    ensures Cut(island, 1) == Even(island)
  {
  }

  lemma QuadIs(island: Word)
    ensures Cut(island, 3) == Quad(island)
  {
  }

  lemma LowBitIs(island: Word)
    ensures LowBit(island) == And(island, 1)
  {
  }

  lemma LowPairIs(island: Word)
    ensures LowPair(island) == And(island, 3)
  {
  }

  lemma GivenIs(mode: nat, dest: Word, isld: Word)
    requires 1 <= mode <= 3
    ensures Fits(mode, dest, isld) <==> Given(mode, dest) == Given(mode, isld)
    ensures LowBit(dest) == And(dest, 1) && LowPair(dest) == And(dest, 3)
  {
    hide Given, Even, Quad, LowBit, LowPair, And;
    PartsAre(dest);
    PartsAre(isld);
  }

  lemma WrittenIs(mode: nat)
    requires 1 <= mode <= 3
    ensures Written(mode) == Bits(mode)
  {
  }

  lemma WholeIn(a: Word, dest: Word, x: Translation)
    ensures var c := With(a, BaseOf(x), FULL, dest);
      Six(c, Lowest(x)) == And(dest, 0x3f) && Rest(c, Lowest(x), 0x3f) == Rest(a, Lowest(x), 0x3f)
  {
    hide Six, Rest, With, Outside, Window, Or, Cut, BaseOf, Lowest;
    var c := With(a, BaseOf(x), FULL, dest);
    SixIs(c, x);
    RestIs(c, x, FULL);
    RestIs(a, x, FULL);
    BitsWithin(0);
    WindowWith(a, BaseOf(x), FULL, dest);
    WindowSmall(a, BaseOf(x));
    PatchedFull(Window(a, BaseOf(x)), dest);
    OutsideWith(a, BaseOf(x), FULL, dest);
  }

  lemma SteeredIn(a: Word, dest: Word, x: Translation)
    requires 1 <= x.mode <= 3 && Steered(x.mode, dest, x.isld1, x.isld0).Some?
    ensures var c := With(a, BaseOf(x), Bits(x.mode), Steered(x.mode, dest, x.isld1, x.isld0).value);
      && Rest(c, Lowest(x), Written(x.mode)) == Rest(a, Lowest(x), Written(x.mode))
      && LowBits(x.mode, Six(c, Lowest(x)), dest)
      && if Given(x.mode, dest) == Given(x.mode, x.isld0) then Top(Six(c, Lowest(x))) == 0
         else Top(Six(c, Lowest(x))) == 1 && Given(x.mode, dest) == Given(x.mode, x.isld1)
  {
    hide Six, Rest, With, Outside, Window, And, Or, Cut, BaseOf, Lowest, Patched, Within, Top, Second, NextTwo;
    hide Index, BitIn, PairIn, LowBit, LowPair, Even, Quad, Given, Placed1, Placed2, Placed3, Fits, LowBits;
    WrittenIs(x.mode);
    var w, mask := Steered(x.mode, dest, x.isld1, x.isld0).value, Bits(x.mode);
    var c := With(a, BaseOf(x), mask, w);
    var six := Window(c, BaseOf(x));
    GivenIs(x.mode, dest, x.isld0);
    GivenIs(x.mode, dest, x.isld1);
    SixIs(c, x);
    RestIs(c, x, mask);
    RestIs(a, x, mask);
    OutsideWith(a, BaseOf(x), mask, w);
    BitsWithin(x.mode);
    WindowWith(a, BaseOf(x), mask, w);
    SteeredInBits(x.mode, dest, x.isld1, x.isld0);
    PatchedBits(Window(a, BaseOf(x)), w, mask);
    PlacedTop(x.mode, !Fits(x.mode, dest, x.isld0), dest, six);
  }

  lemma PlacedTop(mode: nat, index: bool, dest: Word, w: Word)
    requires 1 <= mode <= 3 && And(w, Bits(mode)) == Placed(mode, index, dest)
    ensures Top(w) == (if index then 1 else 0) && LowBits(mode, w, dest)
  {
    hide And, Placed1, Placed2, Placed3, Index, BitIn, PairIn, LowBit, LowPair, Top, Second, NextTwo, Given, Fits;
    TopIs(w);
    GivenIs(mode, dest, dest);
    match mode
    case 1 => PlacedIs1(index, w);
    case 2 => PlacedIs2(index, dest, w);
    case 3 => PlacedIs3(index, dest, w);
  }

  /** Where the island goes. Written whole it stands in the six bits; in an index mode the topmost of
      them says which table entry fits, entry 0 if both do, the bits directly below are the low bits of
      the island, and the other bits of the address stay. */
  lemma EncodedBits(a: Word, dest: Word, x: Translation)
    requires Encode(a, dest, x).Coded? && !(x.target == VQDR && !x.addr40)
    ensures var c, lsb := Encode(a, dest, x).address, Lowest(x);
      if Whole(a, dest, x) then
        && Six(c, lsb) == And(dest, 0x3f)
        && Rest(c, lsb, 0x3f) == Rest(if MadeDirect(dest, x) then Or(a, DirectBit(x.addr40)) else a, lsb, 0x3f)
      else
        && x.mode in {1, 2, 3} && Rest(c, lsb, Written(x.mode)) == Rest(a, lsb, Written(x.mode))
        && LowBits(x.mode, Six(c, lsb), dest)
        && if Given(x.mode, dest) == Given(x.mode, x.isld0) then Top(Six(c, lsb)) == 0
           else Top(Six(c, lsb)) == 1 && Given(x.mode, dest) == Given(x.mode, x.isld1)
  {
    hide Six, Rest, TwoAbove, With, Locality, SetDirect, Top, LowBits, Steered, Given, BaseOf, Lowest, Decode;
    hide Forces, MadeDirect, And, Or, DirectBit;
    MadeDirectIs(dest, x);
    TwoAboveIs(a, x.addr40);
    SetDirectIsOr(a, x.addr40);
    if Whole(a, dest, x) {
      WholeIn(if Forces(dest, x) then SetDirect(a, x.addr40) else a, dest, x);
    } else {
      SteeredIn(a, dest, x);
    }
  }

  /** Encoding is refused with -EINVAL exactly for modes there are not, and with -ENODEV exactly when
      neither table entry fits. 32-bit SRAM addresses are only checked. */
  lemma RefusedBits(a: Word, dest: Word, x: Translation)
    requires !(x.target == VQDR && !x.addr40)
    ensures Encode(a, dest, x) == Refused(EINVAL) <==> !Known(x)
    ensures Encode(a, dest, x) == Refused(ENODEV)
      <==> && Known(x) && !Whole(a, dest, x)
           && Given(x.mode, dest) != Given(x.mode, x.isld0) && Given(x.mode, dest) != Given(x.mode, x.isld1)
  {
    hide TwoAbove, With, Locality, SetDirect, Given, Placed, Fits, Forces, MadeDirect;
    MadeDirectIs(dest, x);
    TwoAboveIs(a, x.addr40);
    if 1 <= x.mode <= 3 {
      GivenIs(x.mode, dest, x.isld0);
      GivenIs(x.mode, dest, x.isld1);
    }
  }

  /** A 32-bit SRAM address is left alone: accepted when it leads to the island already, or for the
      wildcard -1, and else refused. */
  lemma CheckedOnly(a: Word, dest: Word, x: Translation)
    requires x.target == VQDR && !x.addr40 && Known(x)
    ensures Encode(a, dest, x)
      == if dest == 0xffff_ffff_ffff_ffff || Decode(a, x) == Island(dest) then Coded(a) else Refused(EINVAL)
  {
    hide Decode;
  }

  // ----- Decoding -----

  /** The island an address leads to: the six bits themselves, or the table entry the topmost of them
      selects, its low bits replaced by the bits directly below. */
  lemma DecodedBits(a: Word, x: Translation)
    ensures !Known(x) <==> Decode(a, x) == Undecodable
    ensures Known(x) ==>
      var six := Six(a, Lowest(x));
      var entry := if Top(six) == 1 then x.isld1 else x.isld0;
      Decode(a, x) == Island(
        if x.target == CTXPB || x.mode == 0 || (x.target == MU && TwoAbove(a, x.addr40) == 2) then six
        else if x.mode == 1 then entry
        else if x.mode == 2 then Or(Given(2, entry), Second(six))
        else Or(Given(3, entry), NextTwo(six)))
  {
    hide Six, TwoAbove, Window, Locality, Top, Second, NextTwo, Index, BitIn, PairIn, BaseOf, Lowest;
    hide And, Or, Even, Quad, Given;
    PartsAre(x.isld1);
    PartsAre(x.isld0);
    SixIs(a, x);
    TwoAboveIs(a, x.addr40);
    TopIs(Six(a, Lowest(x)));
  }

  // ----- Clearing -----

  /** Clearing sets exactly the island bits to 0. */
  lemma ClearedBits(a: Word, x: Translation)
    requires Known(x)
    ensures var whole := x.target == CTXPB || x.mode == 0 || (x.target == MU && TwoAbove(a, x.addr40) == 2);
      Clear(a, x) == Coded(Rest(a, Lowest(x), if whole then 0x3f else Written(x.mode)))
  {
    hide Rest, TwoAbove, Locality, Outside, And, Or, Up, BaseOf, Lowest;
    TwoAboveIs(a, x.addr40);
    var mask := Bits(FieldMode(a, x));
    RestIs(a, x, mask);
    NothingPut(Outside(a, BaseOf(x), mask), mask, BaseOf(x));
  }

  lemma NothingPut(o: Word, mask: Word, b: Base)
    ensures Or(o, Up(And(0, mask), b)) == o
  {
    assert And(0, mask) == 0;
    assert Up(0, b) == 0;
    assert Or(o, 0) == o;
  }

  // ----- 32-bit addresses -----

  predicate Short(a: Word) { a <= 0xffff_ffff }

  /** A 32-bit address stays one. */
  lemma ThirtyTwoBitsStay(a: Word, dest: Word, x: Translation)
    requires !x.addr40 && Short(a) && Encode(a, dest, x).Coded?
    ensures Short(Encode(a, dest, x).address)
  {
    hide Six, Rest, Short, And, Or, DirectBit, MadeDirect, With, LowBits, Top, Given, TwoAbove, Written, Whole;
    var c := Encode(a, dest, x).address;
    if x.target != VQDR {
      EncodedBits(a, dest, x);
      DirectStaysShort(a);
      BitsWithin(0);
      if Whole(a, dest, x) {
        OnlyLow(if MadeDirect(dest, x) then Or(a, DirectBit(false)) else a, c, Lowest(x), 0x3f);
      } else {
        WrittenWithin(x.mode);
        OnlyLow(a, c, Lowest(x), Written(x.mode));
      }
    }
  }

  lemma DirectStaysShort(a: Word)
    requires Short(a)
    ensures Short(Or(a, DirectBit(false)))
  {
  }

  lemma WrittenWithin(mode: nat)
    ensures Within(Written(mode))
  {
  }

  lemma OnlyLow(a: Word, c: Word, lsb: nat, mask: Word)
    requires lsb in {24, 26} && Within(mask) && Rest(a, lsb, mask) == Rest(c, lsb, mask) && Short(a)
    ensures Short(c)
  {
    hide Rest24, Rest26, Short, Within;
    OnlyLow24(a, mask);
    OnlyLow24(c, mask);
    OnlyLow26(a, mask);
    OnlyLow26(c, mask);
  }

  lemma OnlyLow24(a: Word, mask: Word)
    requires Within(mask)
    ensures Short(Rest24(a, mask)) <==> Short(a)
  {
  }

  lemma OnlyLow26(a: Word, mask: Word)
    requires Within(mask)
    ensures Short(Rest26(a, mask)) <==> Short(a)
  {
  }

  // ----- Targets by number, entries by bits -----

  /** Number 7 is the memory unit, 14 the context processor bus, 2 the SRAM; 1, 6, 9, 10, 12 and 15 are
      treated alike, and other numbers name no target. */
  lemma TargetsByNumber(number: nat)
    ensures TargetOf(number) == MU <==> number == 7
    ensures TargetOf(number) == CTXPB <==> number == 14
    ensures TargetOf(number) == VQDR <==> number == 2
    ensures TargetOf(number) == Unassigned <==> number !in {1, 2, 6, 7, 9, 10, 12, 14, 15}
  {
  }

  /** An entry with mode, width and islands packed from bit 13, 12, 6 and 0 on is taken apart again. */
  lemma EntryFields(number: nat, mode: ImbEntry, wide: bool, isld1: ImbEntry, isld0: ImbEntry)
    requires mode < 8 && isld1 < 64 && isld0 < 64
    ensures var x := EntryOf(number, Packed(mode, wide, isld1, isld0));
      && x.target == TargetOf(number) && x.mode == mode as nat && x.addr40 == wide
      && x.isld1 == isld1 as Word && x.isld0 == isld0 as Word
  {
    hide Packed;
    PackedMode(mode, wide, isld1, isld0);
    PackedIslands(mode, wide, isld1, isld0);
  }

  function Packed(mode: ImbEntry, wide: bool, isld1: ImbEntry, isld0: ImbEntry): ImbEntry {
    (mode << 13) | (if wide then 0x1000 else 0) | (isld1 << 6) | isld0
  }

  lemma PackedMode(mode: ImbEntry, wide: bool, isld1: ImbEntry, isld0: ImbEntry)
    requires mode < 8 && isld1 < 64 && isld0 < 64
    ensures (Packed(mode, wide, isld1, isld0) >> 13) & 7 == mode
    ensures (Packed(mode, wide, isld1, isld0) >> 12) & 1 == 1 <==> wide
  {
  }

  lemma PackedIslands(mode: ImbEntry, wide: bool, isld1: ImbEntry, isld0: ImbEntry)
    requires mode < 8 && isld1 < 64 && isld0 < 64
    ensures (Packed(mode, wide, isld1, isld0) >> 6) & 0x3f == isld1
    ensures Packed(mode, wide, isld1, isld0) & 0x3f == isld0
  {
  }
}
