/** The address encoder and decoder as they compute: masks and shifts, and loops over the table
    entries. Every call does what `CppAddress` says. */
module CppCoder {
  import opened CppWindow
  import opened CppAddress

  /** Mask of the bits msb:lsb. */
  function NicMask64(msb: nat, lsb: nat, at0: bool): Word
    requires lsb <= msb < 64
  {
    var w := msb - lsb + 1;
    if w == 64 then !0 else if at0 then (1 << w) - 1 else ((1 << w) - 1) << lsb
  }

  function Shl(w: Word, n: nat): Word
    requires n < 64
  {
    w << n
  }

  function Lsb(b: Base): nat {
    match b case At24 => 24 case At26 => 26 case At32 => 32 case At34 => 34
  }

  // ----- Masks and shifts where they are used -----

  lemma FullMask(b: Base)
    ensures NicMask64(Lsb(b) + 5, Lsb(b), false) == Up(FULL, b)
  {
  }

  lemma IndexMask(b: Base)
    ensures NicMask64(Lsb(b) + 5, Lsb(b) + 5, false) == Up(0x20, b) && Shl(1, Lsb(b) + 5) == Up(0x20, b)
  {
  }

  lemma PairMask(b: Base)
    ensures NicMask64(Lsb(b) + 5, Lsb(b) + 4, false) == Up(0x30, b)
  {
  }

  lemma TripleMask(b: Base)
    ensures NicMask64(Lsb(b) + 5, Lsb(b) + 3, false) == Up(0x38, b)
  {
  }

  function OneIf(bit: bool): Word { if bit then 1 else 0 }

  lemma SetIndex24(a: Word)
    ensures And(Window24(Or(a, Up24(0x20))), 0x20) == 0x20
  {
  }

  lemma CutIndex24(a: Word)
    ensures Cut(Or(a, Up24(0x20)), Up24(0x20)) == Cut(a, Up24(0x20))
  {
  }

  lemma Shift24(dest: Word)
    ensures And(Shl(dest, 24), Up24(FULL)) == Up24(And(dest, FULL))
  {
  }

  lemma Pair24(index: bool, dest: Word)
    ensures Or(Shl(OneIf(index), 29), Shl(LowBit(dest), 28)) == Up24(And(Placed2(index, dest), 0x30))
  {
  }

  lemma Triple24(index: bool, dest: Word)
    ensures Or(Shl(OneIf(index), 29), Shl(LowPair(dest), 27)) == Up24(And(Placed3(index, dest), 0x38))
  {
  }

  lemma SetIndex26(a: Word)
    ensures And(Window26(Or(a, Up26(0x20))), 0x20) == 0x20
  {
  }

  lemma CutIndex26(a: Word)
    ensures Cut(Or(a, Up26(0x20)), Up26(0x20)) == Cut(a, Up26(0x20))
  {
  }

  lemma Shift26(dest: Word)
    ensures And(Shl(dest, 26), Up26(FULL)) == Up26(And(dest, FULL))
  {
  }

  lemma Pair26(index: bool, dest: Word)
    ensures Or(Shl(OneIf(index), 31), Shl(LowBit(dest), 30)) == Up26(And(Placed2(index, dest), 0x30))
  {
  }

  lemma Triple26(index: bool, dest: Word)
    ensures Or(Shl(OneIf(index), 31), Shl(LowPair(dest), 29)) == Up26(And(Placed3(index, dest), 0x38))
  {
  }

  lemma SetIndex32(a: Word)
    ensures And(Window32(Or(a, Up32(0x20))), 0x20) == 0x20
  {
  }

  lemma CutIndex32(a: Word)
    ensures Cut(Or(a, Up32(0x20)), Up32(0x20)) == Cut(a, Up32(0x20))
  {
  }

  lemma Shift32(dest: Word)
    ensures And(Shl(dest, 32), Up32(FULL)) == Up32(And(dest, FULL))
  {
  }

  lemma Pair32(index: bool, dest: Word)
    ensures Or(Shl(OneIf(index), 37), Shl(LowBit(dest), 36)) == Up32(And(Placed2(index, dest), 0x30))
  {
  }

  lemma Triple32(index: bool, dest: Word)
    ensures Or(Shl(OneIf(index), 37), Shl(LowPair(dest), 35)) == Up32(And(Placed3(index, dest), 0x38))
  {
  }

  lemma SetIndex34(a: Word)
    ensures And(Window34(Or(a, Up34(0x20))), 0x20) == 0x20
  {
  }

  lemma CutIndex34(a: Word)
    ensures Cut(Or(a, Up34(0x20)), Up34(0x20)) == Cut(a, Up34(0x20))
  {
  }

  lemma Shift34(dest: Word)
    ensures And(Shl(dest, 34), Up34(FULL)) == Up34(And(dest, FULL))
  {
  }

  lemma Pair34(index: bool, dest: Word)
    ensures Or(Shl(OneIf(index), 39), Shl(LowBit(dest), 38)) == Up34(And(Placed2(index, dest), 0x30))
  {
  }

  lemma Triple34(index: bool, dest: Word)
    ensures Or(Shl(OneIf(index), 39), Shl(LowPair(dest), 37)) == Up34(And(Placed3(index, dest), 0x38))
  {
  }

  lemma ShiftMask(b: Base, dest: Word)
    ensures And(Shl(dest, Lsb(b)), Up(FULL, b)) == Up(And(dest, FULL), b)
  {
    hide And, Shl, Up24, Up26, Up32, Up34;
    match b case At24 => Shift24(dest); case At26 => Shift26(dest); case At32 => Shift32(dest); case At34 => Shift34(dest);
  }

  /** Setting the index bit is replacing it by one. */
  lemma SetIndex(b: Base, a: Word)
    ensures Or(a, Up(0x20, b)) == Or(Cut(a, Up(0x20, b)), Up(0x20, b))
  {
    hide Or, Cut, And, Up24, Up26, Up32, Up34, Window24, Window26, Window32, Window34, Within;
    BitsWithin(1);
    WithOwn(Or(a, Up(0x20, b)), b, 0x20);
    match b
    case At24 => SetIndex24(a); CutIndex24(a);
    case At26 => SetIndex26(a); CutIndex26(a);
    case At32 => SetIndex32(a); CutIndex32(a);
    case At34 => SetIndex34(a); CutIndex34(a);
  }

  lemma IndexField(b: Base)
    ensures Up(And(Placed1(false), 0x20), b) == 0 && Up(And(Placed1(true), 0x20), b) == Up(0x20, b)
  {
  }

  lemma PairField(b: Base, index: bool, dest: Word)
    ensures Or(Shl(OneIf(index), Lsb(b) + 5), Shl(LowBit(dest), Lsb(b) + 4)) == Up(And(Placed2(index, dest), 0x30), b)
  {
    hide And, Or, Shl, OneIf, LowBit, Placed2, Up24, Up26, Up32, Up34;
    match b
    case At24 => Pair24(index, dest);
    case At26 => Pair26(index, dest);
    case At32 => Pair32(index, dest);
    case At34 => Pair34(index, dest);
  }

  lemma TripleField(b: Base, index: bool, dest: Word)
    ensures Or(Shl(OneIf(index), Lsb(b) + 5), Shl(LowPair(dest), Lsb(b) + 3)) == Up(And(Placed3(index, dest), 0x38), b)
  {
    hide And, Or, Shl, OneIf, LowPair, Placed3, Up24, Up26, Up32, Up34;
    match b
    case At24 => Triple24(index, dest);
    case At26 => Triple26(index, dest);
    case At32 => Triple32(index, dest);
    case At34 => Triple34(index, dest);
  }

  lemma OrAssociates(x: Word, y: Word, z: Word)
    ensures Or(Or(x, y), z) == Or(x, Or(y, z))
  {
  }

  // ----- Encoding -----

  /** Put a whole island number into the window. */
  method WriteFull(addr: Word, dest: Word, lsb: nat, b: Base) returns (r: Word)
    requires lsb == Lsb(b)
    ensures r == With(addr, b, FULL, dest)
  {
    hide And, Or, Cut, Shl, Up, NicMask64;
    FullMask(b);
    ShiftMask(b, dest);
    var mask := NicMask64(lsb + 5, lsb, false);
    r := Cut(addr, mask);
    r := Or(r, And(Shl(dest, lsb), mask));
  }

  /** Mode 1: only the index bit says which of two islands. */
  method SteerIndex(addr: Word, dest: Word, lsb: nat, b: Base, isld1: Word, isld0: Word) returns (r: Coded)
    requires lsb == Lsb(b)
    ensures r == match Steered(1, dest, isld1, isld0)
                 case Some(w) => Coded(With(addr, b, 0x20, w)) case None => CppAddress.Refused(ENODEV)
  {
    hide And, Or, Cut, Shl, Up, NicMask64, Placed1;
    IndexMask(b);
    IndexField(b);
    SetIndex(b, addr);
    OrZero(Cut(addr, Up(0x20, b)));
    var idxLsb := lsb + 5;
    if dest == isld0 { return Coded(Cut(addr, NicMask64(idxLsb, idxLsb, false))); }
    if dest == isld1 { return Coded(Or(addr, Shl(1, idxLsb))); }
    return CppAddress.Refused(ENODEV);
  }

  /** The low bits of an island that modes 2 and 3 try, in turn. */
  function Try(v: nat): Word
    requires v < 4
  {
    match v case 0 => 0 case 1 => 1 case 2 => 2 case 3 => 3
  }

  lemma LowBitIs(d: Word)
    ensures LowBit(d) == Try(0) || LowBit(d) == Try(1)
    ensures LowPair(d) == Try(0) || LowPair(d) == Try(1) || LowPair(d) == Try(2) || LowPair(d) == Try(3)
  {
  }

  lemma TryLow(v: nat)
    requires v < 4
    ensures And(Try(v), 3) == Try(v) && (v < 2 ==> And(Try(v), 1) == Try(v))
  {
  }

  lemma JoinBit(isld: Word, x: Word)
    ensures Even(Or(Even(isld), And(x, 1))) == Even(isld) && LowBit(Or(Even(isld), And(x, 1))) == And(x, 1)
  {
  }

  lemma JoinPair(isld: Word, x: Word)
    ensures Quad(Or(Quad(isld), And(x, 3))) == Quad(isld) && LowPair(Or(Quad(isld), And(x, 3))) == And(x, 3)
  {
  }

  lemma TriedEven(isld: Word, v: nat, dest: Word)
    requires v < 2
    ensures dest == Or(Even(isld), Try(v)) <==> Even(dest) == Even(isld) && LowBit(dest) == Try(v)
  {
    hide And, Or, Even, LowBit, Try;
    TryLow(v);
    JoinBit(isld, Try(v));
    SplitEven(dest);
  }

  lemma TriedQuad(isld: Word, v: nat, dest: Word)
    requires v < 4
    ensures dest == Or(Quad(isld), Try(v)) <==> Quad(dest) == Quad(isld) && LowPair(dest) == Try(v)
  {
    hide And, Or, Quad, LowPair, Try;
    TryLow(v);
    JoinPair(isld, Try(v));
    SplitQuad(dest);
  }

  /** Replace index bit and low island bits of the window at `lsb` (modes 2 and 3): the address
      then carries the bits that select `dest`, and is otherwise what it was. */
  method Replace(addr: Word, mode: nat, lsb: nat, b: Base, index: bool, low: Word, ghost dest: Word) returns (c: Word)
    requires lsb == Lsb(b) && (mode == 2 || mode == 3)
    requires low == if mode == 2 then LowBit(dest) else LowPair(dest)
    ensures c == With(addr, b, Bits(mode), Placed(mode, index, dest))
  {
    hide And, Or, Cut, Shl, Up, NicMask64, OneIf, LowBit, LowPair, Placed2, Placed3;
    PairMask(b);
    TripleMask(b);
    PairField(b, index, dest);
    TripleField(b, index, dest);
    var idxLsb, iidLsb := lsb + 5, lsb + 6 - mode;
    c := Cut(addr, NicMask64(idxLsb, iidLsb, false));
    OrAssociates(c, Shl(OneIf(index), idxLsb), Shl(low, iidLsb));
    c := Or(c, Shl(OneIf(index), idxLsb));
    c := Or(c, Shl(low, iidLsb));
  }

  /** The first of the n low parts that completes `entry` to `dest`, or n. */
  method MatchLow(entry: Word, dest: Word, n: nat) returns (v: nat)
    requires n <= 4
    ensures v <= n && (v < n ==> dest == Or(entry, Try(v)))
    ensures v == n ==> forall u | 0 <= u < n :: dest != Or(entry, Try(u))
  {
    hide Or, Try;
    v := 0;
    while v < n && dest != Or(entry, Try(v))
      invariant v <= n && forall u | 0 <= u < v :: dest != Or(entry, Try(u))
    {
      v := v + 1;
    }
  }

  lemma NoPairFits(isld: Word, dest: Word)
    requires forall u | 0 <= u < 2 :: dest != Or(Even(isld), Try(u))
    ensures !Fits(2, dest, isld)
  {
    hide Or, Even, LowBit, Try;
    LowBitIs(dest);
    TriedEven(isld, 0, dest);
    TriedEven(isld, 1, dest);
  }

  lemma NoTripleFits(isld: Word, dest: Word)
    requires forall u | 0 <= u < 4 :: dest != Or(Quad(isld), Try(u))
    ensures !Fits(3, dest, isld)
  {
    hide Or, Quad, LowPair, Try;
    LowBitIs(dest);
    TriedQuad(isld, 0, dest);
    TriedQuad(isld, 1, dest);
    TriedQuad(isld, 2, dest);
    TriedQuad(isld, 3, dest);
  }

  /** Mode 2: the lowest island bit comes from the address too. The first entry that fits is taken. */
  method SteerPair(addr: Word, dest: Word, lsb: nat, b: Base, isld1: Word, isld0: Word) returns (r: Coded)
    requires lsb == Lsb(b)
    ensures r == match Steered(2, dest, isld1, isld0)
                 case Some(w) => Coded(With(addr, b, 0x30, w)) case None => CppAddress.Refused(ENODEV)
  {
    hide And, Or, Cut, Shl, Up, NicMask64, Placed2, Even, LowBit, Try, OneIf;
    for i := 0 to 2
      invariant i > 0 ==> !Fits(2, dest, isld0)
      invariant i > 1 ==> !Fits(2, dest, isld1)
    {
      var isld := if i == 0 then isld0 else isld1;
      var v := MatchLow(Even(isld), dest, 2);
      if v < 2 {
        TriedEven(isld, v, dest);
        var c := Replace(addr, 2, lsb, b, i == 1, Try(v), dest);
        return Coded(c);
      }
      NoPairFits(isld, dest);
    }
    return CppAddress.Refused(ENODEV);
  }

  /** Mode 3: the two lowest island bits come from the address. */
  method SteerTriple(addr: Word, dest: Word, lsb: nat, b: Base, isld1: Word, isld0: Word) returns (r: Coded)
    requires lsb == Lsb(b)
    ensures r == match Steered(3, dest, isld1, isld0)
                 case Some(w) => Coded(With(addr, b, 0x38, w)) case None => CppAddress.Refused(ENODEV)
  {
    hide And, Or, Cut, Shl, Up, NicMask64, Placed3, Quad, LowPair, Try, OneIf;
    for i := 0 to 2
      invariant i > 0 ==> !Fits(3, dest, isld0)
      invariant i > 1 ==> !Fits(3, dest, isld1)
    {
      var isld := if i == 0 then isld0 else isld1;
      var v := MatchLow(Quad(isld), dest, 4);
      if v < 4 {
        TriedQuad(isld, v, dest);
        var c := Replace(addr, 3, lsb, b, i == 1, Try(v), dest);
        return Coded(c);
      }
      NoTripleFits(isld, dest);
    }
    return CppAddress.Refused(ENODEV);
  }

  /** Write the island as `mode` demands (0: in full) into the window at `lsb`. */
  method WriteField(addr: Word, dest: Word, mode: nat, lsb: nat, b: Base, x: Translation) returns (r: Coded)
    requires lsb == Lsb(b) && b == BaseOf(x) && mode <= 3
    ensures r == Write(addr, dest, x, mode)
  {
    hide With, Steered, Lsb, BaseOf;
    match mode
    case 0 =>
      var c := WriteFull(addr, dest, lsb, b);
      r := Coded(c);
    case 1 => r := SteerIndex(addr, dest, lsb, b, x.isld1, x.isld0);
    case 2 => r := SteerPair(addr, dest, lsb, b, x.isld1, x.isld0);
    case 3 => r := SteerTriple(addr, dest, lsb, b, x.isld1, x.isld0);
  }

  method EncodeBasic(addr: Word, dest: Word, x: Translation) returns (r: Coded)
    requires Basic(x.target)
    ensures r == Encode(addr, dest, x)
  {
    hide Write, Decode;
    if x.mode > 3 { return CppAddress.Refused(EINVAL); }
    if x.target == VQDR && !x.addr40 {
      if dest != WILDCARD && Decode(addr, x) != Island(dest) { return CppAddress.Refused(EINVAL); }
      return Coded(addr);
    }
    r := WriteField(addr, dest, x.mode, if x.addr40 then 34 else 26, BaseOf(x), x);
  }

  method EncodeMu(addr: Word, dest: Word, x: Translation) returns (r: Coded)
    requires x.target == MU
    ensures r == Encode(addr, dest, x)
  {
    hide Write, Decode, Locality, SetDirect;
    if x.mode > 3 { return CppAddress.Refused(EINVAL); }
    var direct := Locality(addr, x.addr40) == DIRECT;
    var a := addr;
    if x.mode == 3 && 0 < dest < 0x8000_0000_0000_0000 && (dest < 24 || dest > 26) {
      a := SetDirect(a, x.addr40);
      direct := true;
    }
    r := WriteField(a, dest, if direct then 0 else x.mode, if x.addr40 then 32 else 24, BaseOf(x), x);
  }

  method AddrEncode(addr: Word, dest: Word, x: Translation) returns (r: Coded)
    ensures r == Encode(addr, dest, x)
  {
    if x.target == Unassigned { return CppAddress.Refused(EINVAL); }
    if x.target == MU {
      r := EncodeMu(addr, dest, x);
    } else if x.target == CTXPB {
      if x.mode != 1 || x.addr40 { return CppAddress.Refused(EINVAL); }
      r := WriteField(addr, dest, 0, 24, At24, x);
    } else {
      r := EncodeBasic(addr, dest, x);
    }
  }

  // ----- Decoding -----

  function Shr(w: Word, n: nat): Word
    requires n < 64
  {
    w >> n
  }

  lemma Index24(a: Word)
    ensures And(a, Shl(1, 29)) != 0 <==> Index(Window24(a))
  {
  }

  lemma Parts24(a: Word)
    ensures And(Shr(a, 24), FULL) == Window24(a)
    ensures And(Shr(a, 28), 1) == BitIn(Window24(a)) && And(Shr(a, 27), 3) == PairIn(Window24(a))
  {
  }

  lemma Index26(a: Word)
    ensures And(a, Shl(1, 31)) != 0 <==> Index(Window26(a))
  {
  }

  lemma Parts26(a: Word)
    ensures And(Shr(a, 26), FULL) == Window26(a)
    ensures And(Shr(a, 30), 1) == BitIn(Window26(a)) && And(Shr(a, 29), 3) == PairIn(Window26(a))
  {
  }

  lemma Index32(a: Word)
    ensures And(a, Shl(1, 37)) != 0 <==> Index(Window32(a))
  {
  }

  lemma Parts32(a: Word)
    ensures And(Shr(a, 32), FULL) == Window32(a)
    ensures And(Shr(a, 36), 1) == BitIn(Window32(a)) && And(Shr(a, 35), 3) == PairIn(Window32(a))
  {
  }

  lemma Index34(a: Word)
    ensures And(a, Shl(1, 39)) != 0 <==> Index(Window34(a))
  {
  }

  lemma Parts34(a: Word)
    ensures And(Shr(a, 34), FULL) == Window34(a)
    ensures And(Shr(a, 38), 1) == BitIn(Window34(a)) && And(Shr(a, 37), 3) == PairIn(Window34(a))
  {
  }

  lemma ReadPositions(b: Base, a: Word)
    ensures And(a, NicMask64(Lsb(b) + 5, Lsb(b) + 5, false)) != 0 <==> Index(Window(a, b))
    ensures And(Shr(a, Lsb(b)), FULL) == Window(a, b)
    ensures And(Shr(a, Lsb(b) + 4), 1) == BitIn(Window(a, b)) && And(Shr(a, Lsb(b) + 3), 3) == PairIn(Window(a, b))
  {
    hide And, Shl, Shr, NicMask64, Index, BitIn, PairIn, Up24, Up26, Up32, Up34, Window24, Window26, Window32, Window34;
    IndexMask(b);
    match b
    case At24 => Index24(a); Parts24(a);
    case At26 => Index26(a); Parts26(a);
    case At32 => Index32(a); Parts32(a);
    case At34 => Index34(a); Parts34(a);
  }

  /** Read the island as `mode` demands (0: in full) from the window at `lsb`. */
  method ReadField(addr: Word, mode: nat, lsb: nat, b: Base, x: Translation) returns (id: Word)
    requires lsb == Lsb(b) && b == BaseOf(x) && mode <= 3
    ensures id == Read(addr, x, mode)
  {
    hide And, Or, Shr, NicMask64, Index, BitIn, PairIn, Even, Quad, Lsb, BaseOf, Window;
    assert 24 <= lsb <= 34 by { LsbBounded(b); }
    ReadPositions(b, addr);
    if mode == 0 { return And(Shr(addr, lsb), FULL); }
    var island := if And(addr, NicMask64(lsb + 5, lsb + 5, false)) != 0 then x.isld1 else x.isld0;
    if mode == 2 { return Or(Even(island), And(Shr(addr, lsb + 4), 1)); }
    if mode == 3 { return Or(Quad(island), And(Shr(addr, lsb + 3), 3)); }
    return island;
  }

  lemma LsbBounded(b: Base)
    ensures 24 <= Lsb(b) <= 34
  {
  }

  method AddrDecode(addr: Word, x: Translation) returns (r: Decoded)
    ensures r == Decode(addr, x)
  {
    hide Read, Locality;
    var id;
    if x.target == Unassigned { return Undecodable; }
    if x.target == CTXPB {
      if x.mode != 1 || x.addr40 { return Undecodable; }
      id := ReadField(addr, 0, 24, At24, x);
      return Island(id);
    }
    if x.mode > 3 { return Undecodable; }
    if x.target == MU {
      var direct := Locality(addr, x.addr40) == DIRECT;
      id := ReadField(addr, if direct then 0 else x.mode, if x.addr40 then 32 else 24, BaseOf(x), x);
      return Island(id);
    }
    id := ReadField(addr, x.mode, if x.addr40 then 34 else 26, BaseOf(x), x);
    return Island(id);
  }

  // ----- Clearing -----

  lemma CutField(b: Base, a: Word, mask: Word)
    ensures With(a, b, mask, 0) == Cut(a, Up(mask, b))
  {
    hide Or, Cut, Up24, Up26, Up32, Up34;
    UpZero();
    AndZero(mask);
    OrZero(Cut(a, Up(mask, b)));
  }

  lemma UpZero()
    ensures Up24(0) == 0 && Up26(0) == 0 && Up32(0) == 0 && Up34(0) == 0
  {
  }

  lemma AndZero(mask: Word)
    ensures And(0, mask) == 0
  {
  }

  /** Clear the bits that `mode` uses (0: the whole island number) in the window at `lsb`. */
  method ClearField(addr: Word, mode: nat, lsb: nat, b: Base) returns (r: Word)
    requires lsb == Lsb(b) && mode <= 3
    ensures r == With(addr, b, Bits(mode), 0)
  {
    hide Cut, With, Up, NicMask64, Shl;
    CutField(b, addr, Bits(mode));
    match mode
    case 0 =>
      FullMask(b);
      r := Cut(addr, NicMask64(lsb + 5, lsb, false));
    case 1 =>
      IndexMask(b);
      r := Cut(addr, NicMask64(lsb + 5, lsb + 5, false));
    case 2 =>
      PairMask(b);
      r := Cut(addr, NicMask64(lsb + 5, lsb + 4, false));
    case 3 =>
      TripleMask(b);
      r := Cut(addr, NicMask64(lsb + 5, lsb + 3, false));
  }

  /** Clear the island bits. Unsupported modes fall through from one target's cases to the next
      and end without touching the address. */
  method IidClear(addr: Word, x: Translation) returns (r: Coded)
    ensures r == Clear(addr, x)
  {
    hide With, Bits, Locality;
    if x.target == Unassigned { return CppAddress.Refused(EINVAL); }
    var c := addr;
    if Basic(x.target) && x.mode <= 3 {
      c := ClearField(addr, x.mode, if x.addr40 then 34 else 26, BaseOf(x));
      return Coded(c);
    }
    if x.target == MU && x.mode <= 3 {
        var direct := Locality(addr, x.addr40) == DIRECT;
      c := ClearField(addr, if direct then 0 else x.mode, if x.addr40 then 32 else 24, BaseOf(x));
      return Coded(c);
    }
    if x.target != CTXPB || x.mode != 1 || x.addr40 { return Coded(addr); }
    c := ClearField(addr, 0, 24, At24);
    return Coded(c);
  }
}
