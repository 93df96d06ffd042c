/** Island numbers in CPP addresses: encoding, decoding and clearing, for every target, translation
    mode and address width. */
module CppAddress {
  import opened CppWindow

  datatype Target = NBI | VQDR | ILA | MU | PCIE | ARM | CRYPTO | CTXPB | CLS | Unassigned

  datatype Errno = EINVAL | ENODEV

  datatype Coded = Coded(address: Word) | Refused(errno: Errno)

  datatype Decoded = Island(id: Word) | Undecodable

  /** The translation in force for a target: its entry of the IMB table. */
  datatype Translation = Translation(target: Target, mode: nat, addr40: bool, isld1: Word, isld0: Word)

  const WILDCARD: Word := 0xffff_ffff_ffff_ffff

  predicate Basic(t: Target) { t != MU && t != CTXPB && t != Unassigned }

  predicate Supported(x: Translation) {
    if x.target == CTXPB then x.mode == 1 && !x.addr40 else x.target != Unassigned && x.mode <= 3
  }

  /** 32-bit addresses of the SRAM target are checked, never changed. */
  predicate Fixed(x: Translation) { x.target == VQDR && !x.addr40 }

  function BaseOf(x: Translation): Base {
    match x.target
    case MU => MuBase(x.addr40)
    case CTXPB => At24
    case _ => if x.addr40 then At34 else At26
  }

  predicate Direct(a: Word, addr40: bool) { Locality(a, addr40) == DIRECT }

  /** Does the whole window hold the island number (0), or which index mode applies? */
  function FieldMode(a: Word, x: Translation): nat {
    match x.target
    case MU => if Direct(a, x.addr40) then 0 else x.mode
    case CTXPB => 0
    case _ => x.mode
  }

  function Read(a: Word, x: Translation, mode: nat): Word {
    if mode == 0 then Window(a, BaseOf(x)) else Selected(mode, Window(a, BaseOf(x)), x.isld1, x.isld0)
  }

  function Decode(a: Word, x: Translation): Decoded {
    if Supported(x) then Island(Read(a, x, FieldMode(a, x))) else Undecodable
  }

  function Write(a: Word, dest: Word, x: Translation, mode: nat): Coded {
    if mode == 0 then Coded(With(a, BaseOf(x), FULL, dest))
    else
      match Steered(mode, dest, x.isld1, x.isld0)
      case Some(w) => Coded(With(a, BaseOf(x), Bits(mode), w))
      case None => Refused(ENODEV)
  }

  /** In mode 3 the memory unit addresses every island but 0 and 24 to 26 directly. */
  predicate Forces(dest: Word, x: Translation) {
    x.target == MU && x.mode == 3 && 0 < dest < 0x8000_0000_0000_0000 && (dest < 24 || dest > 26)
  }

  function Encode(a: Word, dest: Word, x: Translation): Coded {
    if !Supported(x) then Refused(EINVAL)
    else if Fixed(x) then
      if dest == WILDCARD || Decode(a, x) == Island(dest) then Coded(a) else Refused(EINVAL)
    else if Forces(dest, x) then Write(SetDirect(a, x.addr40), dest, x, 0)
    else Write(a, dest, x, FieldMode(a, x))
  }

  /** Clear the island bits; index modes of unsupported numbers leave the address alone. */
  function Clear(a: Word, x: Translation): Coded {
    if x.target == Unassigned then Refused(EINVAL)
    else if !Supported(x) then Coded(a)
    else Coded(With(a, BaseOf(x), Bits(FieldMode(a, x)), 0))
  }

  // ----- Decoding what was encoded -----

  lemma FieldModeWith(a: Word, x: Translation, mask: Word, w: Word)
    requires Within(mask)
    ensures FieldMode(With(a, BaseOf(x), mask, w), x) == FieldMode(a, x)
  {
    hide With, Locality, Within, Or, And, Cut;
    if x.target == MU { LocalityWith(a, x.addr40, mask, w); }
  }

  lemma SteeredInBits(mode: nat, dest: Word, isld1: Word, isld0: Word)
    requires 1 <= mode <= 3 && Steered(mode, dest, isld1, isld0).Some?
    ensures And(Steered(mode, dest, isld1, isld0).value, Bits(mode)) == Steered(mode, dest, isld1, isld0).value
  {
    hide And, Placed, Bits, Fits;
    PlacedInBits(mode, false, dest);
    PlacedInBits(mode, true, dest);
  }

  /** What is read where `dest` was written: `dest`, cut to six bits if written in full. */
  lemma WriteThenRead(a: Word, dest: Word, x: Translation, mode: nat)
    requires mode <= 3 && Write(a, dest, x, mode).Coded?
    ensures Read(Write(a, dest, x, mode).address, x, mode) == if mode == 0 then And(dest, FULL) else dest
  {
    hide Window, With, Selected, Steered, Bits, BaseOf, Within, And, Patched;
    var v := Window(a, BaseOf(x));
    BitsWithin(mode);
    if mode == 0 {
      WindowWith(a, BaseOf(x), FULL, dest);
      WindowSmall(a, BaseOf(x));
      PatchedFull(v, dest);
    } else {
      var w := Steered(mode, dest, x.isld1, x.isld0).value;
      WindowWith(a, BaseOf(x), Bits(mode), w);
      SteeredInBits(mode, dest, x.isld1, x.isld0);
      PatchedBits(v, w, Bits(mode));
      SteeredSelects(mode, dest, x.isld1, x.isld0, Patched(v, Bits(mode), w));
    }
  }

  /** Writing does not change where and how the island is read. */
  lemma WriteKeepsFieldMode(a: Word, dest: Word, x: Translation, mode: nat)
    requires Write(a, dest, x, mode).Coded?
    ensures FieldMode(Write(a, dest, x, mode).address, x) == FieldMode(a, x)
  {
    hide With, Steered, Bits, FieldMode, BaseOf, Within;
    BitsWithin(mode);
    FieldModeWith(a, x, FULL, dest);
    if mode != 0 { FieldModeWith(a, x, Bits(mode), Steered(mode, dest, x.isld1, x.isld0).value); }
  }

  /** Is the whole island number written? */
  predicate Full(a: Word, dest: Word, x: Translation) { Forces(dest, x) || FieldMode(a, x) == 0 }

  /** When an encoded address decodes to the island asked for: it must be an island number (of six
      bits) where it is written in full; and where the direct locality is forced on an address whose
      lower locality bit is set, so that it does not become direct, the number must happen to be
      what mode 3 reads back. */
  predicate Faithful(a: Word, dest: Word, x: Translation) {
    if Fixed(x) then dest != WILDCARD
    else if Forces(dest, x) && And(Locality(a, x.addr40), 1) == 1 then Selected(3, dest, x.isld1, x.isld0) == dest
    else Full(a, dest, x) ==> dest <= FULL
  }

  lemma ForcedDecode(a: Word, dest: Word, x: Translation)
    requires Supported(x) && Forces(dest, x)
    ensures var c := Write(SetDirect(a, x.addr40), dest, x, 0).address;
      Decode(c, x) == Island(if And(Locality(a, x.addr40), 1) == 1 then Selected(3, dest, x.isld1, x.isld0)
                             else And(dest, FULL))
  {
    hide Window, With, Selected, SetDirect, Locality, And, Or, Within, Patched;
    var s := SetDirect(a, x.addr40);
    SetDirectIs(a, x.addr40);
    LocalityCases(a, x.addr40);
    WriteKeepsFieldMode(s, dest, x, 0);
    WriteThenRead(s, dest, x, 0);
    SelectedOfWindow(dest, x.isld1, x.isld0);
  }

  lemma VqdrIslands(a: Word, x: Translation)
    requires Fixed(x) && Supported(x) && x.isld1 <= FULL && x.isld0 <= FULL
    ensures Decode(a, x) != Island(WILDCARD)
  {
    hide Window, Selected;
    WindowSmall(a, BaseOf(x));
    SelectedSmall(x.mode, Window(a, BaseOf(x)), x.isld1, x.isld0);
  }

  /** Round trip, for every target, mode, width and island: an address that could be encoded
      decodes to the island asked for exactly when `Faithful`. */
  lemma EncodeThenDecode(a: Word, dest: Word, x: Translation)
    requires x.isld1 <= FULL && x.isld0 <= FULL && Encode(a, dest, x).Coded?
    ensures Decode(Encode(a, dest, x).address, x) == Island(dest) <==> Faithful(a, dest, x)
  {
    hide Window, With, Selected, SetDirect, Locality, Read, Write, And;
    SixBits(dest);
    if Fixed(x) {
      VqdrIslands(a, x);
    } else if Forces(dest, x) {
      ForcedDecode(a, dest, x);
    } else {
      WriteKeepsFieldMode(a, dest, x, FieldMode(a, x));
      WriteThenRead(a, dest, x, FieldMode(a, x));
    }
  }

  // ----- What encoding leaves alone, and when it is refused -----

  /** The addresses agree outside the bits that hold the island in `a`. */
  predicate Agrees(a: Word, c: Word, x: Translation) {
    Outside(a, BaseOf(x), Bits(FieldMode(a, x))) == Outside(c, BaseOf(x), Bits(FieldMode(a, x)))
  }

  /** Only the island bits change; forcing the direct locality changes that too. */
  lemma EncodeKeepsPayload(a: Word, dest: Word, x: Translation)
    requires Encode(a, dest, x).Coded?
    ensures var c := Encode(a, dest, x).address;
      if Fixed(x) then c == a
      else if Forces(dest, x) then
        Outside(c, MuBase(x.addr40), FULL) == SetDirect(Outside(a, MuBase(x.addr40), FULL), x.addr40)
      else Agrees(a, c, x)
  {
    hide With, Outside, SetDirect, Steered, Decode, FieldMode, Locality, Bits;
    if !Fixed(x) {
      if Forces(dest, x) {
        OutsideWith(SetDirect(a, x.addr40), MuBase(x.addr40), FULL, dest);
        SetDirectOutside(a, x.addr40);
      } else {
        WriteAgrees(a, dest, x);
      }
    }
  }

  lemma WriteAgrees(a: Word, dest: Word, x: Translation)
    requires Write(a, dest, x, FieldMode(a, x)).Coded?
    ensures Agrees(a, Write(a, dest, x, FieldMode(a, x)).address, x)
  {
    hide With, Outside, Steered, FieldMode, BaseOf;
    var m := FieldMode(a, x);
    OutsideWith(a, BaseOf(x), FULL, dest);
    if m != 0 { OutsideWith(a, BaseOf(x), Bits(m), Steered(m, dest, x.isld1, x.isld0).value); }
  }

  lemma AgreeFieldMode(a: Word, c: Word, x: Translation)
    requires Agrees(a, c, x)
    ensures FieldMode(c, x) == FieldMode(a, x)
  {
    hide With, Outside, FieldMode, BaseOf, Within, Bits, Window;
    var m := FieldMode(a, x);
    BitsWithin(m);
    AgreeOutside(a, c, BaseOf(x), Bits(m));
    FieldModeWith(a, x, Bits(m), Window(c, BaseOf(x)));
  }

  /** In an index mode an island can be reached from `a` exactly when it can be steered to. */
  lemma Reachable(a: Word, dest: Word, x: Translation)
    requires Supported(x) && FieldMode(a, x) != 0
    ensures (exists c :: Agrees(a, c, x) && Decode(c, x) == Island(dest))
      <==> Steered(FieldMode(a, x), dest, x.isld1, x.isld0).Some?
  {
    hide Outside, Steered, Window, Selected, FieldMode, Agrees, With, Bits;
    var m := FieldMode(a, x);
    assert m <= 3 by { FieldModeBounded(a, x); }
    if Steered(m, dest, x.isld1, x.isld0).Some? {
      var c := Write(a, dest, x, m).address;
      WriteAgrees(a, dest, x);
      WriteKeepsFieldMode(a, dest, x, m);
      WriteThenRead(a, dest, x, m);
      assert Agrees(a, c, x) && Decode(c, x) == Island(dest);
    } else {
      forall c | Agrees(a, c, x) ensures Decode(c, x) != Island(dest) {
        AgreeFieldMode(a, c, x);
        UnsteeredSelectsNot(m, dest, x.isld1, x.isld0, Window(c, BaseOf(x)));
      }
    }
  }

  lemma FieldModeBounded(a: Word, x: Translation)
    requires Supported(x)
    ensures FieldMode(a, x) <= 3
  {
  }

  /** Completeness: outside 32-bit SRAM addresses, encoding a six-bit island is refused exactly when
      no address that agrees outside the island bits decodes to it; except that mode 3 of the
      memory unit, by forcing the direct locality, also serves islands it could not reach. */
  lemma RefusedExactlyWhenUnreachable(a: Word, dest: Word, x: Translation)
    requires Supported(x) && !Fixed(x) && dest <= FULL
    ensures Encode(a, dest, x).Refused? ==> Encode(a, dest, x).errno == ENODEV
    ensures !Forces(dest, x) ==>
      (Encode(a, dest, x).Coded? <==> exists c :: Agrees(a, c, x) && Decode(c, x) == Island(dest))
    ensures Forces(dest, x) ==> Encode(a, dest, x).Coded?
    ensures Forces(dest, x) ==>
      ((exists c :: Agrees(a, c, x) && Decode(c, x) == Island(dest))
       <==> FieldMode(a, x) == 0 || Steered(3, dest, x.isld1, x.isld0).Some?)
  {
    hide Outside, Steered, Window, Selected, Agrees, With, Bits, Decode, SetDirect, Locality;
    var m := FieldMode(a, x);
    if m != 0 {
      Reachable(a, dest, x);
    } else {
      hide FieldMode;
      WriteAgrees(a, dest, x);
      FullReachable(a, dest, x);
    }
  }

  lemma FullReachable(a: Word, dest: Word, x: Translation)
    requires Supported(x) && FieldMode(a, x) == 0 && dest <= FULL
    ensures exists c :: Agrees(a, c, x) && Decode(c, x) == Island(dest)
  {
    hide FieldMode, Agrees, With, Read, And;
    var c := Write(a, dest, x, 0).address;
    WriteAgrees(a, dest, x);
    WriteKeepsFieldMode(a, dest, x, 0);
    WriteThenRead(a, dest, x, 0);
    SixBits(dest);
    assert Agrees(a, c, x) && Decode(c, x) == Island(dest);
  }

  // ----- Clearing -----

  /** Encoding does not depend on the island bits that were there. */
  lemma ClearThenEncode(a: Word, dest: Word, x: Translation)
    requires Supported(x) && !Fixed(x)
    ensures Clear(a, x).Coded? && Encode(Clear(a, x).address, dest, x) == Encode(a, dest, x)
  {
    hide With, Outside, Steered, FieldMode, Locality, SetDirect, Within, Bits, Decode;
    var m, b := FieldMode(a, x), BaseOf(x);
    var c := With(a, b, Bits(m), 0);
    BitsWithin(m);
    FieldModeWith(a, x, Bits(m), 0);
    if Forces(dest, x) {
      ClearForced(a, dest, x, Bits(m));
    } else if m == 0 {
      assert Bits(0) == FULL by { FullBits(); }
      WithTwice(a, b, FULL, 0, dest);
    } else if Steered(m, dest, x.isld1, x.isld0).Some? {
      WithTwice(a, b, Bits(m), 0, Steered(m, dest, x.isld1, x.isld0).value);
    }
  }

  lemma FullBits()
    ensures Bits(0) == FULL && And(0, FULL) == 0
  {
  }

  lemma ClearForced(a: Word, dest: Word, x: Translation, mask: Word)
    requires x.target == MU && Within(mask)
    ensures var b := MuBase(x.addr40);
      With(SetDirect(With(a, b, mask, 0), x.addr40), b, FULL, dest) == With(SetDirect(a, x.addr40), b, FULL, dest)
  {
    hide Or, And, Outside, Up, SetDirect, Within;
    var b := MuBase(x.addr40);
    var c := Or(Outside(a, b, mask), Up(And(0, mask), b));
    SetDirectOutside(c, x.addr40);
    SetDirectOutside(a, x.addr40);
    OutsideFullWith(a, b, mask, 0);
  }

  /** A cleared address leads to island 0 where the number stands in full, else to entry 0. */
  lemma ClearedDecodes(a: Word, x: Translation)
    requires Supported(x)
    ensures Clear(a, x).Coded? && Decode(Clear(a, x).address, x) == Island(Cleared(FieldMode(a, x), x.isld0))
  {
    hide With, Window, Selected, FieldMode, Within, BaseOf, And, Patched, Bits;
    var m, b := FieldMode(a, x), BaseOf(x);
    var c := With(a, b, Bits(m), 0);
    FieldModeBounded(a, x);
    BitsWithin(m);
    FieldModeWith(a, x, Bits(m), 0);
    WindowWith(a, b, Bits(m), 0);
    PatchedZero(Window(a, b), Bits(m));
    if m == 0 {
      FullBits();
      WindowSmall(a, b);
      PatchedFull(Window(a, b), 0);
    } else {
      ZeroSelects(m, Window(c, b), x.isld1, x.isld0);
    }
  }

  /** For 32-bit SRAM addresses clearing is no preparation: afterwards only the island a cleared
      address leads to is accepted. */
  lemma ClearThenEncodeFixed(a: Word, dest: Word, x: Translation)
    requires Supported(x) && Fixed(x)
    ensures Clear(a, x).Coded?
    ensures Encode(Clear(a, x).address, dest, x).Coded? <==> dest == WILDCARD || dest == Cleared(x.mode, x.isld0)
  {
    hide Clear, Decode, Cleared;
    ClearedDecodes(a, x);
  }

  // ----- Translating an address that names its island -----

  /** The fields of a CPP identifier. */
  datatype CppId = CppId(target: nat, action: nat, token: nat, island: nat)

  function TargetOf(number: nat): Target {
    match number
    case 1 => NBI case 2 => VQDR case 6 => ILA case 7 => MU case 9 => PCIE case 10 => ARM
    case 12 => CRYPTO case 14 => CTXPB case 15 => CLS case _ => Unassigned
  }

  /** An entry of the IMB table: mode, width and the two islands, three, one and six bits each. */
  type ImbEntry = bv32

  function ModeOf(e: ImbEntry): nat { ((e >> 13) & 7) as nat }
  predicate Addr40(e: ImbEntry) { (e >> 12) & 1 == 1 }
  function Isld1(e: ImbEntry): Word { ((e >> 6) & 0x3f) as Word }
  function Isld0(e: ImbEntry): Word { (e & 0x3f) as Word }

  function EntryOf(number: nat, e: ImbEntry): Translation {
    Translation(TargetOf(number), ModeOf(e), Addr40(e), Isld1(e), Isld0(e))
  }

  datatype Translated = Translated(id: CppId, address: Word) | Untranslated(error: Errno)

  /** Translate: island 0 means that this has been done already; a missing table is an error. */
  function TargetCpp(id: CppId, a: Word, table: seq<ImbEntry>): Translated
    requires table == [] || |table| == 16
  {
    if id.target >= 16 then Untranslated(EINVAL)
    else if id.island == 0 then Translated(id, a)
    else if table == [] then Untranslated(EINVAL)
    else
      match Encode(a, Number(id.island), EntryOf(id.target, table[id.target]))
      case Coded(c) => Translated(id.(island := 0), c)
      case Refused(e) => Untranslated(e)
  }

  /** An island number as a machine word. */
  function Number(n: nat): Word { if n < 0x1_0000_0000_0000_0000 then n as Word else 0 }

  lemma EntryIslandsSmall(e: ImbEntry)
    ensures Isld1(e) <= FULL && Isld0(e) <= FULL
  {
  }

  /** A translated identifier names no island, so translating again changes nothing; and the address
      leads to the island exactly when `Faithful`. */
  lemma TranslationReachesIsland(id: CppId, a: Word, table: seq<ImbEntry>)
    requires |table| == 16 && 0 < id.island < 256
    requires TargetCpp(id, a, table).Translated?
    ensures var t := TargetCpp(id, a, table);
      && t.id == id.(island := 0) && TargetCpp(t.id, t.address, table) == t
      && var x, dest := EntryOf(id.target, table[id.target]), Number(id.island);
         (Decode(t.address, x) == Island(dest) <==> Faithful(a, dest, x))
  {
    hide Encode, Decode, Faithful, Isld1, Isld0, ModeOf, Addr40, Number;
    EntryIslandsSmall(table[id.target]);
    EncodeThenDecode(a, Number(id.island), EntryOf(id.target, table[id.target]));
  }

  // ----- Bits above the 40 of the bus -----

  const BUS40: Word := 0xff_ffff_ffff

  /** The address bits from the 40th up. */
  function Above40(a: Word): Word { Cut(a, BUS40) }

  lemma CutKeepsAbove(a: Word, m: Word)
    requires Cut(m, BUS40) == 0
    ensures Above40(Cut(a, m)) == Above40(a)
  {
  }

  lemma WindowBelow40(mask: Word, b: Base)
    requires Within(mask)
    ensures Cut(Up(mask, b), BUS40) == 0
  {
    match b
    case At24 => assert Cut(Up24(mask), BUS40) == 0;
    case At26 => assert Cut(Up26(mask), BUS40) == 0;
    case At32 => assert Cut(Up32(mask), BUS40) == 0;
    case At34 => assert Cut(Up34(mask), BUS40) == 0;
  }

  lemma SetDirectKeepsAbove(a: Word, addr40: bool)
    ensures Above40(SetDirect(a, addr40)) == Above40(a)
  {
  }

  lemma OutsideKeepsAbove(a: Word, b: Base, mask: Word)
    requires Within(mask)
    ensures Above40(Outside(a, b, mask)) == Above40(a)
  {
    hide Cut, Up, Above40, Within;
    WindowBelow40(mask, b);
    CutKeepsAbove(a, Up(mask, b));
  }

  /** Translation changes only bus address bits. */
  lemma TranslationKeepsAbove40(id: CppId, a: Word, table: seq<ImbEntry>)
    requires (table == [] || |table| == 16) && TargetCpp(id, a, table).Translated?
    ensures Above40(TargetCpp(id, a, table).address) == Above40(a)
  {
    hide Encode, Above40, Outside, SetDirect, Within, Bits, FieldMode, EntryOf, Number;
    if id.island != 0 {
      var x, dest := EntryOf(id.target, table[id.target]), Number(id.island);
      var c := Encode(a, dest, x).address;
      EncodeKeepsPayload(a, dest, x);
      if !Fixed(x) {
        if Forces(dest, x) {
          BitsWithin(0);
          OutsideKeepsAbove(c, MuBase(x.addr40), FULL);
          SetDirectKeepsAbove(Outside(a, MuBase(x.addr40), FULL), x.addr40);
          OutsideKeepsAbove(a, MuBase(x.addr40), FULL);
        } else {
          BitsWithin(FieldMode(a, x));
          OutsideKeepsAbove(c, BaseOf(x), Bits(FieldMode(a, x)));
          OutsideKeepsAbove(a, BaseOf(x), Bits(FieldMode(a, x)));
        }
      }
    }
  }
}
