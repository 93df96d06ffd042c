/** The six address bits that route a CPP command to an island, and what the translation modes make
    of them. C integers are modelled by their 64-bit sign extension. */
module CppWindow {

  type Word = bv64

  const FULL: Word := 0x3f

  function Or(x: Word, y: Word): Word { x | y }
  function And(x: Word, y: Word): Word { x & y }
  function Cut(x: Word, mask: Word): Word { x & !mask }

  /** `v` with the bits `mask` replaced by those of `w`. */
  function Patched(v: Word, mask: Word, w: Word): Word { Or(Cut(v, mask), And(w, mask)) }

  /** A mask of window bits. */
  predicate Within(mask: Word) { And(mask, FULL) == mask }

  lemma CutPatched(a: Word, mask: Word, x: Word)
    requires Cut(x, mask) == 0
    ensures Cut(Or(Cut(a, mask), x), mask) == Cut(a, mask)
  {
  }

  lemma OrZero(w: Word)
    ensures Or(w, 0) == w
  {
  }

  lemma CutWider(a: Word, mask: Word, wide: Word, x: Word)
    requires And(mask, wide) == mask && Cut(x, wide) == 0
    ensures Cut(Or(Cut(a, mask), x), wide) == Cut(a, wide)
  {
  }

  // ----- The window at each of its four places: bits 29:24, 31:26, 37:32 and 39:34 -----

  function Up24(w: Word): Word { w << 24 }
  function Window24(a: Word): Word { And(a >> 24, FULL) }

  function Up26(w: Word): Word { w << 26 }
  function Window26(a: Word): Word { And(a >> 26, FULL) }

  function Up32(w: Word): Word { w << 32 }
  function Window32(a: Word): Word { And(a >> 32, FULL) }

  function Up34(w: Word): Word { w << 34 }
  function Window34(a: Word): Word { And(a >> 34, FULL) }

  lemma Place24(a: Word, mask: Word, w: Word)
    requires Within(mask)
    ensures Window24(Or(Cut(a, Up24(mask)), Up24(And(w, mask)))) == Patched(Window24(a), mask, w)
  {
  }

  lemma Own24(a: Word, mask: Word)
    requires Within(mask)
    ensures Or(Cut(a, Up24(mask)), Up24(And(Window24(a), mask))) == a
  {
  }

  lemma Wider24(mask: Word, w: Word)
    requires Within(mask)
    ensures And(Up24(mask), Up24(FULL)) == Up24(mask) && Cut(Up24(And(w, mask)), Up24(FULL)) == 0
  {
  }

  lemma Inside24(w: Word, mask: Word)
    ensures Cut(Up24(And(w, mask)), Up24(mask)) == 0
  {
  }

  lemma Place26(a: Word, mask: Word, w: Word)
    requires Within(mask)
    ensures Window26(Or(Cut(a, Up26(mask)), Up26(And(w, mask)))) == Patched(Window26(a), mask, w)
  {
  }

  lemma Own26(a: Word, mask: Word)
    requires Within(mask)
    ensures Or(Cut(a, Up26(mask)), Up26(And(Window26(a), mask))) == a
  {
  }

  lemma Wider26(mask: Word, w: Word)
    requires Within(mask)
    ensures And(Up26(mask), Up26(FULL)) == Up26(mask) && Cut(Up26(And(w, mask)), Up26(FULL)) == 0
  {
  }

  lemma Inside26(w: Word, mask: Word)
    ensures Cut(Up26(And(w, mask)), Up26(mask)) == 0
  {
  }

  lemma Place32(a: Word, mask: Word, w: Word)
    requires Within(mask)
    ensures Window32(Or(Cut(a, Up32(mask)), Up32(And(w, mask)))) == Patched(Window32(a), mask, w)
  {
  }

  lemma Own32(a: Word, mask: Word)
    requires Within(mask)
    ensures Or(Cut(a, Up32(mask)), Up32(And(Window32(a), mask))) == a
  {
  }

  lemma Wider32(mask: Word, w: Word)
    requires Within(mask)
    ensures And(Up32(mask), Up32(FULL)) == Up32(mask) && Cut(Up32(And(w, mask)), Up32(FULL)) == 0
  {
  }

  lemma Inside32(w: Word, mask: Word)
    ensures Cut(Up32(And(w, mask)), Up32(mask)) == 0
  {
  }

  lemma Place34(a: Word, mask: Word, w: Word)
    requires Within(mask)
    ensures Window34(Or(Cut(a, Up34(mask)), Up34(And(w, mask)))) == Patched(Window34(a), mask, w)
  {
  }

  lemma Own34(a: Word, mask: Word)
    requires Within(mask)
    ensures Or(Cut(a, Up34(mask)), Up34(And(Window34(a), mask))) == a
  {
  }

  lemma Wider34(mask: Word, w: Word)
    requires Within(mask)
    ensures And(Up34(mask), Up34(FULL)) == Up34(mask) && Cut(Up34(And(w, mask)), Up34(FULL)) == 0
  {
  }

  lemma Inside34(w: Word, mask: Word)
    ensures Cut(Up34(And(w, mask)), Up34(mask)) == 0
  {
  }

  /** Least significant bit of the window. */
  datatype Base = At24 | At26 | At32 | At34

  /** The window of an address. */
  function Window(a: Word, b: Base): Word {
    match b case At24 => Window24(a) case At26 => Window26(a) case At32 => Window32(a) case At34 => Window34(a)
  }

  function Up(w: Word, b: Base): Word {
    match b case At24 => Up24(w) case At26 => Up26(w) case At32 => Up32(w) case At34 => Up34(w)
  }

  /** The address without the bits `mask` of its window. */
  function Outside(a: Word, b: Base, mask: Word): Word { Cut(a, Up(mask, b)) }

  /** The address with the bits `mask` of its window replaced by those of `w`. */
  function With(a: Word, b: Base, mask: Word, w: Word): Word { Or(Outside(a, b, mask), Up(And(w, mask), b)) }

  lemma WindowWith(a: Word, b: Base, mask: Word, w: Word)
    requires Within(mask)
    ensures Window(With(a, b, mask, w), b) == Patched(Window(a, b), mask, w)
  {
    hide Or, And, Cut, Patched, Within, Window24, Window26, Window32, Window34, Up24, Up26, Up32, Up34;
    match b
    case At24 => Place24(a, mask, w);
    case At26 => Place26(a, mask, w);
    case At32 => Place32(a, mask, w);
    case At34 => Place34(a, mask, w);
  }

  lemma WithOwn(a: Word, b: Base, mask: Word)
    requires Within(mask)
    ensures With(a, b, mask, Window(a, b)) == a
  {
    hide Or, And, Cut, Within, Window24, Window26, Window32, Window34, Up24, Up26, Up32, Up34;
    match b
    case At24 => Own24(a, mask);
    case At26 => Own26(a, mask);
    case At32 => Own32(a, mask);
    case At34 => Own34(a, mask);
  }

  lemma OutsideWith(a: Word, b: Base, mask: Word, w: Word)
    ensures Outside(With(a, b, mask, w), b, mask) == Outside(a, b, mask)
  {
    hide Or, And, Cut, Up24, Up26, Up32, Up34;
    CutPatched(a, Up(mask, b), Up(And(w, mask), b)) by {
      match b
      case At24 => Inside24(w, mask);
      case At26 => Inside26(w, mask);
      case At32 => Inside32(w, mask);
      case At34 => Inside34(w, mask);
    }
  }

  /** Changes inside the window do not show outside the whole of it. */
  lemma OutsideFullWith(a: Word, b: Base, mask: Word, w: Word)
    requires Within(mask)
    ensures Outside(With(a, b, mask, w), b, FULL) == Outside(a, b, FULL)
  {
    hide Or, And, Cut, Within, Up24, Up26, Up32, Up34;
    CutWider(a, Up(mask, b), Up(FULL, b), Up(And(w, mask), b)) by {
      match b
      case At24 => Wider24(mask, w);
      case At26 => Wider26(mask, w);
      case At32 => Wider32(mask, w);
      case At34 => Wider34(mask, w);
    }
  }

  lemma WithTwice(a: Word, b: Base, mask: Word, v: Word, w: Word)
    ensures With(With(a, b, mask, v), b, mask, w) == With(a, b, mask, w)
  {
    hide Or, And, Outside, Up;
    OutsideWith(a, b, mask, v);
  }

  /** An address that differs only inside the window bits `mask` is `With` its own bits. */
  lemma AgreeOutside(a: Word, c: Word, b: Base, mask: Word)
    requires Within(mask) && Outside(a, b, mask) == Outside(c, b, mask)
    ensures c == With(a, b, mask, Window(c, b))
  {
    hide Or, And, Outside, Up, Within, Window;
    WithOwn(c, b, mask);
  }

  lemma WindowSmall(a: Word, b: Base)
    ensures Window(a, b) <= FULL
  {
  }

  lemma PatchedFull(v: Word, w: Word)
    requires v <= FULL
    ensures Patched(v, FULL, w) == And(w, FULL)
  {
  }

  lemma PatchedBits(v: Word, w: Word, mask: Word)
    requires And(w, mask) == w
    ensures And(Patched(v, mask, w), mask) == w
  {
  }

  lemma PatchedZero(v: Word, mask: Word)
    ensures And(Patched(v, mask, 0), mask) == 0
  {
  }

  lemma SixBits(d: Word)
    ensures And(d, FULL) == d <==> d <= FULL
    ensures And(And(d, FULL), FULL) == And(d, FULL)
  {
  }

  // ----- Index modes: one bit chooses between two islands, whose low bits the address may replace -----

  /** Bits of the window that a mode uses: the whole island number, or an index bit above the low
      bits of the island number. */
  function Bits(mode: nat): Word {
    match mode case 1 => 0x20 case 2 => 0x30 case 3 => 0x38 case _ => FULL
  }

  predicate Index(w: Word) { w & 0x20 != 0 }

  function Even(island: Word): Word { island & !1 }
  function LowBit(island: Word): Word { island & 1 }
  function BitIn(w: Word): Word { (w >> 4) & 1 }

  function Quad(island: Word): Word { island & !3 }
  function LowPair(island: Word): Word { island & 3 }
  function PairIn(w: Word): Word { (w >> 3) & 3 }

  /** The island an index-mode window selects. */
  function Selected(mode: nat, w: Word, isld1: Word, isld0: Word): Word {
    var island := if Index(w) then isld1 else isld0;
    match mode
    case 2 => Or(Even(island), BitIn(w))
    case 3 => Or(Quad(island), PairIn(w))
    case _ => island
  }

  /** The window of mode 1, 2 or 3 with this index bit and the low bits of this island. */
  function Placed1(index: bool): Word { if index then 0x20 else 0 }
  function Placed2(index: bool, dest: Word): Word { (if index then 0x20 else 0) | (LowBit(dest) << 4) }
  function Placed3(index: bool, dest: Word): Word { (if index then 0x20 else 0) | (LowPair(dest) << 3) }

  function Placed(mode: nat, index: bool, dest: Word): Word {
    match mode case 2 => Placed2(index, dest) case 3 => Placed3(index, dest) case _ => Placed1(index)
  }

  /** Can this table entry stand for `dest`? */
  predicate Fits(mode: nat, dest: Word, isld: Word) {
    match mode
    case 2 => Even(dest) == Even(isld)
    case 3 => Quad(dest) == Quad(isld)
    case _ => dest == isld
  }

  datatype Option<T> = None | Some(value: T)

  /** The window bits that select `dest`; entry 0 is preferred. */
  function Steered(mode: nat, dest: Word, isld1: Word, isld0: Word): Option<Word> {
    if Fits(mode, dest, isld0) then Some(Placed(mode, false, dest))
    else if Fits(mode, dest, isld1) then Some(Placed(mode, true, dest))
    else None
  }

  lemma JoinedEven(isld: Word, w: Word)
    ensures Even(Or(Even(isld), BitIn(w))) == Even(isld) && LowBit(Or(Even(isld), BitIn(w))) == BitIn(w)
  {
  }

  lemma JoinedQuad(isld: Word, w: Word)
    ensures Quad(Or(Quad(isld), PairIn(w))) == Quad(isld) && LowPair(Or(Quad(isld), PairIn(w))) == PairIn(w)
  {
  }

  lemma SplitEven(dest: Word)
    ensures Or(Even(dest), LowBit(dest)) == dest
  {
  }

  lemma SplitQuad(dest: Word)
    ensures Or(Quad(dest), LowPair(dest)) == dest
  {
  }

  lemma PlacedIs1(index: bool, w: Word)
    requires And(w, 0x20) == Placed1(index)
    ensures Index(w) == index
  {
  }

  lemma PlacedIs2(index: bool, dest: Word, w: Word)
    requires And(w, 0x30) == Placed2(index, dest)
    ensures Index(w) == index && BitIn(w) == LowBit(dest)
  {
  }

  lemma PlacedIs3(index: bool, dest: Word, w: Word)
    requires And(w, 0x38) == Placed3(index, dest)
    ensures Index(w) == index && PairIn(w) == LowPair(dest)
  {
  }

  lemma PlacedInBits(mode: nat, index: bool, dest: Word)
    requires 1 <= mode <= 3
    ensures And(Placed(mode, index, dest), Bits(mode)) == Placed(mode, index, dest)
  {
  }

  lemma BitsWithin(mode: nat)
    ensures Within(Bits(mode)) && Within(FULL)
  {
  }

  /** Steering reaches the island, whatever the rest of the window is. */
  lemma SteeredSelects(mode: nat, dest: Word, isld1: Word, isld0: Word, w: Word)
    requires 1 <= mode <= 3 && Steered(mode, dest, isld1, isld0).Some?
    requires And(w, Bits(mode)) == Steered(mode, dest, isld1, isld0).value
    ensures Selected(mode, w, isld1, isld0) == dest
  {
    hide And, Or, Index, BitIn, LowBit, PairIn, LowPair, Placed1, Placed2, Placed3, Even, Quad;
    var index := !Fits(mode, dest, isld0);
    if mode == 1 { PlacedIs1(index, w); }
    else if mode == 2 { PlacedIs2(index, dest, w); }
    else { PlacedIs3(index, dest, w); }
    SplitEven(dest);
    SplitQuad(dest);
  }

  /** No window selects an island that cannot be steered to. */
  lemma UnsteeredSelectsNot(mode: nat, dest: Word, isld1: Word, isld0: Word, w: Word)
    requires 1 <= mode <= 3 && Steered(mode, dest, isld1, isld0).None?
    ensures Selected(mode, w, isld1, isld0) != dest
  {
    hide And, Or, Index, BitIn, LowBit, PairIn, LowPair, Placed, Even, Quad;
    var island := if Index(w) then isld1 else isld0;
    JoinedEven(island, w);
    JoinedQuad(island, w);
  }

  /** What a window whose field is zero selects. */
  function Cleared(mode: nat, isld0: Word): Word {
    match mode case 0 => 0 case 2 => Even(isld0) case 3 => Quad(isld0) case _ => isld0
  }

  lemma ZeroIndex(w: Word)
    ensures And(w, 0x20) == 0 ==> !Index(w)
    ensures And(w, 0x30) == 0 ==> !Index(w) && BitIn(w) == 0
    ensures And(w, 0x38) == 0 ==> !Index(w) && PairIn(w) == 0
  {
  }

  lemma ZeroSelects(mode: nat, w: Word, isld1: Word, isld0: Word)
    requires 1 <= mode <= 3 && And(w, Bits(mode)) == 0
    ensures Selected(mode, w, isld1, isld0) == Cleared(mode, isld0)
  {
    hide And, Or, Index, BitIn, PairIn, Even, Quad;
    ZeroIndex(w);
    OrZero(Even(isld0));
    OrZero(Quad(isld0));
  }

  lemma SelectedSmall(mode: nat, w: Word, isld1: Word, isld0: Word)
    requires isld1 <= FULL && isld0 <= FULL
    ensures Selected(mode, w, isld1, isld0) <= FULL
  {
    EntrySmall(if Index(w) then isld1 else isld0, w);
    hide Or, Index, Even, BitIn, Quad, PairIn;
  }

  lemma EntrySmall(isld: Word, w: Word)
    requires isld <= FULL
    ensures Or(Even(isld), BitIn(w)) <= FULL && Or(Quad(isld), PairIn(w)) <= FULL
  {
  }

  lemma SelectedOfWindow(w: Word, isld1: Word, isld0: Word)
    ensures Selected(3, And(w, FULL), isld1, isld0) == Selected(3, w, isld1, isld0)
  {
    SameInWindow(w);
    hide And, Index, PairIn, Quad, Or;
  }

  lemma SameInWindow(w: Word)
    ensures Index(And(w, FULL)) == Index(w) && PairIn(And(w, FULL)) == PairIn(w)
  {
  }

  // ----- Locality bits of memory-unit addresses: the two bits above the window -----

  const DIRECT: Word := 2

  function Locality40(a: Word): Word { And(a >> 38, 3) }
  function Locality32(a: Word): Word { And(a >> 30, 3) }
  function SetDirect40(a: Word): Word { Or(a, DIRECT << 38) }
  function SetDirect32(a: Word): Word { Or(a, DIRECT << 30) }

  function Locality(a: Word, addr40: bool): Word { if addr40 then Locality40(a) else Locality32(a) }

  function SetDirect(a: Word, addr40: bool): Word { if addr40 then SetDirect40(a) else SetDirect32(a) }

  function MuBase(addr40: bool): Base { if addr40 then At32 else At24 }

  lemma Locality40With(a: Word, mask: Word, w: Word)
    requires Within(mask)
    ensures Locality40(Or(Cut(a, Up32(mask)), Up32(And(w, mask)))) == Locality40(a)
  {
  }

  lemma Locality32With(a: Word, mask: Word, w: Word)
    requires Within(mask)
    ensures Locality32(Or(Cut(a, Up24(mask)), Up24(And(w, mask)))) == Locality32(a)
  {
  }

  lemma LocalityWith(a: Word, addr40: bool, mask: Word, w: Word)
    requires Within(mask)
    ensures Locality(With(a, MuBase(addr40), mask, w), addr40) == Locality(a, addr40)
  {
    hide Or, And, Cut, Within, Up24, Up32, Locality40, Locality32;
    if addr40 { Locality40With(a, mask, w); } else { Locality32With(a, mask, w); }
  }

  lemma SetDirectIs40(a: Word)
    ensures Locality40(SetDirect40(a)) == Or(Locality40(a), DIRECT) && Window32(SetDirect40(a)) == Window32(a)
    ensures Locality40(a) == DIRECT ==> SetDirect40(a) == a
  {
  }

  lemma SetDirectIs32(a: Word)
    ensures Locality32(SetDirect32(a)) == Or(Locality32(a), DIRECT) && Window24(SetDirect32(a)) == Window24(a)
    ensures Locality32(a) == DIRECT ==> SetDirect32(a) == a
  {
  }

  lemma SetDirectIs(a: Word, addr40: bool)
    ensures Locality(SetDirect(a, addr40), addr40) == Or(Locality(a, addr40), DIRECT)
    ensures Window(SetDirect(a, addr40), MuBase(addr40)) == Window(a, MuBase(addr40))
    ensures Locality(a, addr40) == DIRECT ==> SetDirect(a, addr40) == a
  {
    hide Or, SetDirect40, SetDirect32, Window32, Window24, Locality40, Locality32;
    if addr40 { SetDirectIs40(a); } else { SetDirectIs32(a); }
  }

  lemma SetDirectOutside40(a: Word)
    ensures Cut(SetDirect40(a), Up32(FULL)) == SetDirect40(Cut(a, Up32(FULL)))
  {
  }

  lemma SetDirectOutside32(a: Word)
    ensures Cut(SetDirect32(a), Up24(FULL)) == SetDirect32(Cut(a, Up24(FULL)))
  {
  }

  lemma SetDirectOutside(a: Word, addr40: bool)
    ensures Outside(SetDirect(a, addr40), MuBase(addr40), FULL)
      == SetDirect(Outside(a, MuBase(addr40), FULL), addr40)
  {
    hide SetDirect40, SetDirect32, Cut, Up32, Up24;
    if addr40 { SetDirectOutside40(a); } else { SetDirectOutside32(a); }
  }

  lemma LocalityCases(a: Word, addr40: bool)
    ensures var l := Locality(a, addr40);
      && (Or(l, DIRECT) == DIRECT <==> And(l, 1) == 0)
      && (And(l, 1) == 0 || And(l, 1) == 1)
      && (l == DIRECT ==> And(l, 1) == 0)
  {
    SmallCases(if addr40 then a >> 38 else a >> 30);
  }

  lemma SmallCases(x: Word)
    ensures var l := And(x, 3);
      && (Or(l, DIRECT) == DIRECT <==> And(l, 1) == 0)
      && (And(l, 1) == 0 || And(l, 1) == 1)
      && (l == DIRECT ==> And(l, 1) == 0)
  {
  }
}
