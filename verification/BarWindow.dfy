/** PCIe BARs as windows on CPP addresses: the configuration word that is written, the window it
    opens, and the offset into it. Words are unsigned numbers with masks, shifts and ors; C's widths
    are written out. */
module BarWindow {
  import opened BitArithmetic
  import RingGeometry

  const ADDRESS40: nat := 0x100_0000_0000
  const ACTION_RW: nat := 32

  /** A specific action is mapped alone; reads and writes are mapped together. */
  predicate Fixed(act: nat) { act != ACTION_RW && act != 0 }

  datatype Option<T> = None | Some(value: T)

  function LengthSelect(width: int): Option<nat> {
    match width case 8 => Some(1) case 4 => Some(0) case 0 => Some(3) case _ => None
  }

  // The fields of the configuration word.
  function ActionField(x: nat): nat { Shl(BitAnd(x, 0x1f), 16) }
  function TokenField(x: nat): nat { Shl(BitAnd(x, 0x3), 21) }
  function TargetField(x: nat): nat { Shl(BitAnd(x, 0xf), 23) }
  function LengthField(x: nat): nat { Shl(BitAnd(x, 0x3), 27) }
  function MapTypeField(x: nat): nat { Shl(BitAnd(x, 0x7), 29) }

  const MAPTYPE_FIXED: nat := 0
  const MAPTYPE_BULK: nat := 1
  const MAPTYPE_GENERAL: nat := 3

  /** The word before the base is added: fields joined by `or`, in the order of the code. */
  function FixedHeader(len: nat, tgt: nat, tok: nat, act: nat): nat {
    BitOr(BitOr(BitOr(BitOr(LengthField(len), MapTypeField(MAPTYPE_FIXED)), TargetField(tgt)), ActionField(act)),
          TokenField(tok))
  }

  function BulkHeader(len: nat, tgt: nat, tok: nat): nat {
    BitOr(BitOr(BitOr(LengthField(len), MapTypeField(MAPTYPE_BULK)), TargetField(tgt)), TokenField(tok))
  }

  /** Add what is left of the base and cut to 32 bits. */
  function WithBase(header: nat, shifted: nat): nat { BitOr(header, shifted) % 0x1_0000_0000 }

  datatype Setting = Setting(config: nat, base: nat)

  /** Last address of a range, in 64-bit arithmetic. */
  function Last(offset: nat, size: nat): nat { (offset + size + WORD64 - 1) % WORD64 }

  const FIXED_SHIFT: nat := 24
  const BULK_SHIFT: nat := 19

  /** Mask of the bits above the window of a BAR, and of those inside it. */
  function BaseMask(bitsize: nat): nat
    requires bitsize < 31
  {
    SizeBelow(bitsize);
    Not64(Shl(1, bitsize) - 1)
  }

  function OffsetMask(bitsize: nat): nat
    requires bitsize < 31
  {
    SizeBelow(bitsize);
    Shl(1, bitsize) - 1
  }

  lemma SizeBelow(bitsize: nat)
    requires bitsize < 31
    ensures 0 < Shl(1, bitsize) == Pow2(bitsize) <= Pow2(30) < WORD64
  {
    ShlIs(1, bitsize);
    PowMonotone(bitsize, 30);
    PowersUsed();
  }

  /** The window position and configuration for a range, if one BAR of `bitsize` bits can show it. */
  function ComputeBar(bitsize: nat, tgt: nat, act: nat, tok: nat, offset: nat, size: nat, width: int): Option<Setting>
    requires bitsize < 31
  {
    var mask := BaseMask(bitsize);
    var base := BitAnd(offset, mask);
    if tgt >= 16 || LengthSelect(width).None? then None
    else if base != BitAnd(Last(offset, size), mask) then None
    else if Fixed(act) then
      if bitsize < FIXED_SHIFT then None
      else Some(Setting(WithBase(FixedHeader(LengthSelect(width).value, tgt, tok, act), Shr(base, FIXED_SHIFT)), base))
    else
      if bitsize < BULK_SHIFT then None
      else Some(Setting(WithBase(BulkHeader(LengthSelect(width).value, tgt, tok), Shr(base, BULK_SHIFT)), base))
  }

  // ----- What the hardware reads from the word -----

  function MapType(config: nat): nat { BitAnd(Shr(config, 29), 0x7) }
  function LengthOf(config: nat): nat { BitAnd(Shr(config, 27), 0x3) }
  function TargetOf(config: nat): nat { BitAnd(Shr(config, 23), 0xf) }
  function TokenOf(config: nat): nat { BitAnd(Shr(config, 21), 0x3) }
  function ActionOf(config: nat): nat { BitAnd(Shr(config, 16), 0x1f) }

  /** First address of the window: 16 bits of base in fixed mapping, 21 in bulk mapping. */
  function WindowBase(config: nat, act: nat): nat {
    if Fixed(act) then Shl(BitAnd(config, 0xffff), FIXED_SHIFT) else Shl(BitAnd(config, 0x1f_ffff), BULK_SHIFT)
  }

  // ----- Masks, shifts and ors as arithmetic -----

  /** Round down to a multiple of the window. */
  function Aligned(offset: nat, window: nat): nat
    requires window > 0
  {
    offset - offset % window
  }

  /** Masking rounds down, and leaves the rest. */
  lemma MasksAre(offset: nat, bitsize: nat)
    requires bitsize < 31 && offset < WORD64
    ensures BitAnd(offset, BaseMask(bitsize)) == Aligned(offset, Pow2(bitsize))
    ensures BitAnd(offset, OffsetMask(bitsize)) == offset % Pow2(bitsize)
  {
    hide BitAnd, Shl, Pow2;
    SizeBelow(bitsize);
    PowersUsed();
    AndHigh(offset, bitsize, 64);
    AndLow(offset, bitsize);
  }

  lemma SmallMasks(x: nat)
    ensures BitAnd(x, 0x3) == x % 4 && BitAnd(x, 0x7) == x % 8 && BitAnd(x, 0xf) == x % 16
    ensures BitAnd(x, 0x1f) == x % 32 && BitAnd(x, 0xffff) == x % 0x1_0000 && BitAnd(x, 0x1f_ffff) == x % 0x20_0000
  {
    hide BitAnd;
    SmallPowers();
    PowersUsed();
    AndLow(x, 2);
    AndLow(x, 3);
    AndLow(x, 4);
    AndLow(x, 5);
    AndLow(x, 16);
    AndLow(x, 21);
  }

  lemma SmallPowers()
    ensures Pow2(2) == 4 && Pow2(3) == 8 && Pow2(4) == 16 && Pow2(5) == 32
  {
  }

  /** The fields of the header do not overlap: joined by `or` they stand beside each other. */
  lemma FixedHeaderIs(len: nat, tgt: nat, tok: nat, act: nat)
    requires len < 4
    ensures FixedHeader(len, tgt, tok, act)
      == Shl(len * 0x800 + (tgt % 16) * 0x80 + (tok % 4) * 0x20 + act % 32, 16)
  {
    hide BitOr, BitAnd, Shl, Pow2;
    PowersUsed();
    SmallPowers();
    SmallMasks(len);
    SmallMasks(tgt);
    SmallMasks(tok);
    SmallMasks(act);
    SmallMasks(0);
    var t, k, a := tgt % 16, tok % 4, act % 32;
    ShlIs(len, 27);
    ShlIs(t, 23);
    ShlIs(a, 16);
    OrApart(0, Shl(len, 27), 29);
    ShlZero(29);
    OrApart(len, Shl(t, 23), 27);
    var h := len * 16 + t;
    ShlIs(h, 23);
    OrApart(h, Shl(a, 16), 23);
    ShlIs(h * 4, 21);
    OrSplit(h * 4, Shl(a, 16), k, 0, 21);
    ShlIs(h, 2);
    OrApart(h, k, 2);
    OrZero(Shl(a, 16));
    ShlIs(h * 4 + k, 21);
    ShlIs(len * 0x800 + t * 0x80 + k * 0x20 + a, 16);
  }

  lemma BulkHeaderIs(len: nat, tgt: nat, tok: nat)
    requires len < 4
    ensures BulkHeader(len, tgt, tok) == Shl(0x100 + len * 0x40 + (tgt % 16) * 4 + tok % 4, 21)
  {
    hide BitOr, BitAnd, Shl, Pow2;
    PowersUsed();
    SmallMasks(len);
    SmallMasks(tgt);
    SmallMasks(tok);
    SmallMasks(1);
    var t, k := tgt % 16, tok % 4;
    ShlIs(len, 27);
    ShlIs(1, 29);
    OrApart(1, Shl(len, 27), 29);
    ShlIs(4 + len, 27);
    ShlIs(t, 23);
    OrApart(4 + len, Shl(t, 23), 27);
    var h := (4 + len) * 16 + t;
    ShlIs(h, 23);
    ShlIs(k, 21);
    OrApart(h, Shl(k, 21), 23);
    ShlIs(0x100 + len * 0x40 + t * 4 + k, 21);
  }

  /** The base is joined to a header whose lowest `k` bits are free; what exceeds them overlays the
      header. */
  lemma WithBaseIs(header: nat, n: nat, k: nat)
    requires k <= 32 && header < Pow2(32 - k)
    ensures WithBase(Shl(header, k), n) == Joined(header, n, k)
  {
    hide BitOr, Shl, Pow2;
    var q, r := n / Pow2(k), n % Pow2(k);
    QuotientForm(n, Pow2(k));
    ShlIs(q, k);
    OrSplit(header, 0, q, r, k);
    OrZero(r);
    ShlIs(BitOr(header, q), k);
    OrCut(header, q, 32 - k);
    CutHigh(BitOr(header, q), r, k);
  }

  /** Cutting an `or` to the width of one operand cuts the other. */
  lemma OrCut(h: nat, q: nat, k: nat)
    requires h < Pow2(k)
    ensures BitOr(h, q) % Pow2(k) == BitOr(h, q % Pow2(k))
  {
    hide BitOr, Shl, Pow2;
    var w := Pow2(k);
    QuotientForm(q, w);
    ShlIs(q / w, k);
    ShlZero(k);
    OrSplit(0, h, q / w, q % w, k);
    OrZero(q / w);
    OrBound(h, q % w, k);
    UniqueQuotient(BitOr(h, q), w, q / w, BitOr(h, q % w));
  }

  lemma CutHigh(x: nat, r: nat, k: nat)
    requires k <= 32 && r < Pow2(k)
    ensures (x * Pow2(k) + r) % 0x1_0000_0000 == (x % Pow2(32 - k)) * Pow2(k) + r
  {
    hide Pow2;
    PowersUsed();
    PowSplit(k, 32);
    var v, w := Pow2(32 - k), Pow2(k);
    QuotientForm(x, v);
    var q, m := x / v, x % v;
    Spread(q, v, m, w);
    RingGeometry.MulStrict(m, v, w);
    UniqueQuotient(x * w + r, v * w, q, m * w + r);
  }

  lemma Spread(q: nat, v: nat, m: nat, w: nat)
    ensures (q * v + m) * w == q * (v * w) + m * w
  {
  }
  // ----- The window -----

  lemma AlignedIs(n: nat, w: nat)
    requires w > 0
    ensures Aligned(n, w) == (n / w) * w && Aligned(n, w) <= n < Aligned(n, w) + w
  {
    QuotientForm(n, w);
  }

  predicate InWindow(a: nat, base: nat, w: nat) { base <= a < base + w }

  lemma AlignedInWindow(offset: nat, e: nat, w: nat)
    requires w > 0
    ensures Aligned(e, w) == Aligned(offset, w) <==> InWindow(e, Aligned(offset, w), w)
  {
    AlignedIs(offset, w);
    AlignedIs(e, w);
    if InWindow(e, Aligned(offset, w), w) { UniqueQuotient(e, w, offset / w, e - Aligned(offset, w)); }
  }

  /** The test on the first and the last address decides whether all addresses of the range lie in
      one window; the range is not empty and does not wrap. */
  lemma OneWindow(offset: nat, size: nat, w: nat)
    requires w > 0 && size >= 1 && offset + size <= WORD64
    ensures Aligned(offset, w) == Aligned(Last(offset, size), w)
      <==> forall a: nat | offset <= a < offset + size :: InWindow(a, Aligned(offset, w), w)
  {
    hide Aligned;
    var e := offset + size - 1;
    LastIs(offset, size);
    AlignedInWindow(offset, e, w);
    AlignedIs(offset, w);
    if Aligned(offset, w) == Aligned(e, w) {
      forall a: nat | offset <= a < offset + size ensures InWindow(a, Aligned(offset, w), w) {
      }
    } else {
      assert !InWindow(e, Aligned(offset, w), w);
    }
  }

  lemma LastIs(offset: nat, size: nat)
    requires size >= 1 && offset + size <= WORD64
    ensures Last(offset, size) == offset + size - 1
  {
  }

  /** An aligned address is a multiple of every smaller window. */
  lemma AlignedFiner(offset: nat, bitsize: nat, k: nat)
    requires k <= bitsize
    ensures Aligned(offset, Pow2(bitsize)) % Pow2(k) == 0
  {
    hide Pow2, Aligned;
    PowSplit(k, bitsize);
    AlignedIs(offset, Pow2(bitsize));
    var q, m := offset / Pow2(bitsize), Pow2(bitsize - k);
    ProductOfThree(q, m, Pow2(k));
    UniqueQuotient(Aligned(offset, Pow2(bitsize)), Pow2(k), q * m, 0);
  }

  lemma ProductOfThree(a: nat, b: nat, c: nat)
    ensures a * (b * c) == (a * b) * c
  {
  }

  /** Aligning does not cross a multiple of a larger power of two. */
  lemma AlignedBelow(offset: nat, bitsize: nat, k: nat)
    requires bitsize <= k
    ensures Aligned(offset, Pow2(bitsize)) < Pow2(k) <==> offset < Pow2(k)
  {
    PowSplit(bitsize, k);
    var w, m := Pow2(bitsize), Pow2(k - bitsize);
    AlignedIs(offset, w);
    if offset / w < m { RingGeometry.MulStrict(offset / w, m, w); } else { MulMonotone(m, offset / w, w); }
  }

  lemma MulMonotone(a: nat, b: nat, w: nat)
    requires a <= b
    ensures a * w <= b * w
  {
  }

  // ----- The configuration word in arithmetic -----

  function Shift(act: nat): nat { if Fixed(act) then FIXED_SHIFT else BULK_SHIFT }

  /** Number of base bits the word has room for. */
  function BaseBits(act: nat): nat { if Fixed(act) then 16 else 21 }

  /** The header above the base: fields beside each other. */
  function HeaderBits(len: nat, tgt: nat, tok: nat, act: nat): (h: nat)
    ensures len < 4 ==> h < Pow2(32 - BaseBits(act))
  {
    var h := if Fixed(act) then len * 0x800 + (tgt % 16) * 0x80 + (tok % 4) * 0x20 + act % 32
             else 0x100 + len * 0x40 + (tgt % 16) * 4 + tok % 4;
    assert len < 4 ==> h < Pow2(32 - BaseBits(act)) by { PowersUsed(); assert Pow2(11) == 0x800; }
    h
  }

  function Header(len: nat, tgt: nat, tok: nat, act: nat): nat {
    if Fixed(act) then FixedHeader(len, tgt, tok, act) else BulkHeader(len, tgt, tok)
  }

  lemma HeaderIs(len: nat, tgt: nat, tok: nat, act: nat)
    requires len < 4
    ensures Header(len, tgt, tok, act) == Shl(HeaderBits(len, tgt, tok, act), BaseBits(act))
  {
    hide FixedHeader, BulkHeader, Shl, Pow2;
    if Fixed(act) { FixedHeaderIs(len, tgt, tok, act); } else { BulkHeaderIs(len, tgt, tok); }
  }

  /** The base bits stand in the low `k` bits of the word; those beyond overlay the header. */
  function Joined(header: nat, n: nat, k: nat): nat
    requires k <= 32
  {
    BitOr(header, (n / Pow2(k)) % Pow2(32 - k)) * Pow2(k) + n % Pow2(k)
  }

  function Word(len: nat, tgt: nat, tok: nat, act: nat, n: nat): nat {
    Joined(HeaderBits(len, tgt, tok, act), n, BaseBits(act))
  }

  function Scaled(n: nat, k: nat): nat { Div(n, Pow2(k)) }

  /** The same translation in arithmetic. */
  function Plan(bitsize: nat, tgt: nat, act: nat, tok: nat, offset: nat, size: nat, width: int): Option<Setting> {
    var base := Aligned(offset, Pow2(bitsize));
    if tgt >= 16 || LengthSelect(width).None? || bitsize < Shift(act) then None
    else if base != Aligned(Last(offset, size), Pow2(bitsize)) then None
    else Some(Setting(Word(LengthSelect(width).value, tgt, tok, act, Scaled(base, Shift(act))), base))
  }

  lemma ComputeBarIs(bitsize: nat, tgt: nat, act: nat, tok: nat, offset: nat, size: nat, width: int)
    requires bitsize < 31 && offset < WORD64
    ensures ComputeBar(bitsize, tgt, act, tok, offset, size, width) == Plan(bitsize, tgt, act, tok, offset, size, width)
  {
    hide FixedHeader, BulkHeader, BitAnd, BitOr, Shl, Shr, Pow2, Aligned, BaseMask, HeaderBits, WithBase;
    MasksAre(offset, bitsize);
    MasksAre(Last(offset, size), bitsize);
    if LengthSelect(width).Some? {
      var len, n := LengthSelect(width).value, Aligned(offset, Pow2(bitsize)) / Pow2(Shift(act));
      ShrIs(Aligned(offset, Pow2(bitsize)), Shift(act));
      HeaderIs(len, tgt, tok, act);
      WithBaseIs(HeaderBits(len, tgt, tok, act), n, BaseBits(act));
    }
  }

  /** The translation step by step: the word grows by one field at a time. */
  method Compute(bitsize: nat, tgt: nat, act: nat, tok: nat, offset: nat, size: nat, width: int)
    returns (r: Option<Setting>)
    requires bitsize < 31 && offset < WORD64
    ensures r == ComputeBar(bitsize, tgt, act, tok, offset, size, width)
    ensures r == Plan(bitsize, tgt, act, tok, offset, size, width)
  {
    hide BitAnd, BitOr, Shl, Shr, Plan, BaseMask;
    ComputeBarIs(bitsize, tgt, act, tok, offset, size, width);
    if tgt >= 16 { return None; }
    var newcfg: nat, shift: nat;
    match width {
      case 8 => newcfg := LengthField(1);
      case 4 => newcfg := LengthField(0);
      case 0 => newcfg := LengthField(3);
      case _ => return None;
    }
    var mask, base := BaseMask(bitsize), offset;
    if Fixed(act) {
      newcfg := BitOr(newcfg, MapTypeField(MAPTYPE_FIXED));
      newcfg := BitOr(newcfg, TargetField(tgt));
      newcfg := BitOr(newcfg, ActionField(act));
      newcfg := BitOr(newcfg, TokenField(tok));
      if BitAnd(base, mask) != BitAnd(Last(offset, size), mask) { return None; }
      base := BitAnd(base, mask);
      shift := 40 - 16;
    } else {
      newcfg := BitOr(newcfg, MapTypeField(MAPTYPE_BULK));
      newcfg := BitOr(newcfg, TargetField(tgt));
      newcfg := BitOr(newcfg, TokenField(tok));
      if BitAnd(base, mask) != BitAnd(Last(offset, size), mask) { return None; }
      base := BitAnd(base, mask);
      shift := 40 - 21;
    }
    if bitsize < shift { return None; }
    newcfg := BitOr(newcfg, Shr(base, shift)) % 0x1_0000_0000;
    return Some(Setting(newcfg, base));
  }

  // ----- The translation as a whole -----

  /** A range can be shown exactly when target and width are legal, the BAR is large enough for its
      kind of mapping, and every address of the range lies in the window. */
  lemma ShownExactlyWhenInOneWindow(bitsize: nat, tgt: nat, act: nat, tok: nat, offset: nat, size: nat, width: int)
    requires bitsize < 31 && size >= 1 && offset + size <= WORD64
    ensures ComputeBar(bitsize, tgt, act, tok, offset, size, width).Some?
      <==> && tgt < 16 && width in {0, 4, 8} && bitsize >= (if act == 0 || act == 32 then 19 else 24)
           && forall a: nat | offset <= a < offset + size :: InWindow(a, Aligned(offset, Pow2(bitsize)), Pow2(bitsize))
  {
    hide ComputeBar, Aligned, Last, Word, InWindow, Pow2;
    ComputeBarIs(bitsize, tgt, act, tok, offset, size, width);
    OneWindow(offset, size, Pow2(bitsize));
    assert LengthSelect(width).Some? <==> width in {0, 4, 8};
    assert Plan(bitsize, tgt, act, tok, offset, size, width).Some?
      <==> && tgt < 16 && width in {0, 4, 8} && bitsize >= Shift(act)
           && Aligned(offset, Pow2(bitsize)) == Aligned(Last(offset, size), Pow2(bitsize));
  }

  /** A range longer than the largest window is never shown, even if its end wraps. */
  lemma LongRangesNeverShown(bitsize: nat, tgt: nat, act: nat, tok: nat, offset: nat, size: nat, width: int)
    requires bitsize < 31 && offset < WORD64 && Pow2(30) < size <= WORD64 - Pow2(30)
    ensures ComputeBar(bitsize, tgt, act, tok, offset, size, width).None?
  {
    hide ComputeBar, Aligned, Pow2;
    ComputeBarIs(bitsize, tgt, act, tok, offset, size, width);
    PowersUsed();
    PowMonotone(bitsize, 30);
    AlignedIs(offset, Pow2(bitsize));
    AlignedIs(Last(offset, size), Pow2(bitsize));
    FarEnd(offset, size);
  }

  lemma FarEnd(offset: nat, size: nat)
    requires offset < WORD64 && 0x4000_0000 < size <= WORD64 - 0x4000_0000
    ensures Last(offset, size) >= offset + 0x4000_0000 || Last(offset, size) + 0x4000_0000 <= offset
  {
  }

  /** The base has no bits of the window, and the masked offset that an acquired area uses leads
      from it to the address; that offset fits the BAR. */
  lemma BasePlusOffset(bitsize: nat, tgt: nat, act: nat, tok: nat, offset: nat, size: nat, width: int)
    requires bitsize < 31 && offset < WORD64
    requires ComputeBar(bitsize, tgt, act, tok, offset, size, width).Some?
    ensures var base := ComputeBar(bitsize, tgt, act, tok, offset, size, width).value.base;
      && base + BitAnd(offset, OffsetMask(bitsize)) == offset && base % Pow2(bitsize) == 0
      && BitAnd(offset, OffsetMask(bitsize)) < Pow2(bitsize) <= Pow2(30)
  {
    hide ComputeBar, Last, Word, OffsetMask, BaseMask, BitAnd, Pow2;
    ComputeBarIs(bitsize, tgt, act, tok, offset, size, width);
    MasksAre(offset, bitsize);
    QuotientForm(offset, Pow2(bitsize));
    AlignedFiner(offset, bitsize, bitsize);
    PowMonotone(bitsize, 30);
  }

  /** The hardware's window starts at the base bits the word has room for. */
  lemma WindowBaseIs(len: nat, tgt: nat, tok: nat, act: nat, n: nat)
    ensures WindowBase(Word(len, tgt, tok, act, n), act) == (n % Pow2(BaseBits(act))) * Pow2(Shift(act))
  {
    hide BitOr, BitAnd, Shl, Pow2, HeaderBits;
    var k := BaseBits(act);
    var c := Word(len, tgt, tok, act, n);
    PowersUsed();
    SmallMasks(c);
    QuotientForm(n, Pow2(k));
    UniqueQuotient(c, Pow2(k), BitOr(HeaderBits(len, tgt, tok, act), (n / Pow2(k)) % Pow2(32 - k)), n % Pow2(k));
    ShlIs(n % Pow2(k), Shift(act));
  }

  /** The window the hardware opens is the one the driver assumes, for every range that can be
      shown, exactly when the address has no more than 40 bits. */
  lemma WindowIsBaseExactlyBelow40(bitsize: nat, tgt: nat, act: nat, tok: nat, offset: nat, size: nat, width: int)
    requires bitsize < 31 && offset < WORD64
    requires ComputeBar(bitsize, tgt, act, tok, offset, size, width).Some?
    ensures var s := ComputeBar(bitsize, tgt, act, tok, offset, size, width).value;
      WindowBase(s.config, act) == s.base <==> offset < ADDRESS40
  {
    hide ComputeBar, Last, Pow2, Aligned, Word, WindowBase, LengthSelect;
    ComputeBarIs(bitsize, tgt, act, tok, offset, size, width);
    PowersUsed();
    var base, k := Aligned(offset, Pow2(bitsize)), Shift(act);
    AlignedFiner(offset, bitsize, k);
    AlignedBelow(offset, bitsize, 40);
    var n := base / Pow2(k);
    QuotientForm(base, Pow2(k));
    WindowBaseIs(LengthSelect(width).value, tgt, tok, act, n);
    if Fixed(act) { RoomExactlyBelow40(n, 0x1_0000, 0x100_0000); } else { RoomExactlyBelow40(n, 0x20_0000, 0x8_0000); }
  }

  lemma RoomExactlyBelow40(n: nat, room: nat, w: nat)
    requires room > 0 && w > 0
    ensures (n % room) * w == n * w <==> n * w < room * w
  {
    QuotientForm(n, room);
    if n < room {
      UniqueQuotient(n, room, 0, n);
      RingGeometry.MulStrict(n, room, w);
    } else {
      MulMonotone(room, n, w);
      RingGeometry.MulStrict(n % room, n, w);
    }
  }

  // ----- The fields read back -----

  lemma FieldsRead(c: nat)
    ensures MapType(c) == (c / 0x2000_0000) % 8 && LengthOf(c) == (c / 0x800_0000) % 4
    ensures TargetOf(c) == (c / 0x80_0000) % 16 && TokenOf(c) == (c / 0x20_0000) % 4
    ensures ActionOf(c) == (c / 0x1_0000) % 32
  {
    hide BitAnd, Shr, Pow2;
    PowersUsed();
    ShrIs(c, 29);
    ShrIs(c, 27);
    ShrIs(c, 23);
    ShrIs(c, 21);
    ShrIs(c, 16);
    SmallMasks(c / 0x2000_0000);
    SmallMasks(c / 0x800_0000);
    SmallMasks(c / 0x80_0000);
    SmallMasks(c / 0x20_0000);
    SmallMasks(c / 0x1_0000);
  }

  /** Fields packed beside each other read back, most significant first. */
  lemma FixedFields(len: nat, t: nat, k: nat, a: nat, low: nat)
    requires len < 4 && t < 16 && k < 4 && a < 32 && low < 0x1_0000
    ensures var c := (len * 0x800 + t * 0x80 + k * 0x20 + a) * 0x1_0000 + low;
      && c < 0x2000_0000 && MapType(c) == 0 && LengthOf(c) == len && TargetOf(c) == t && TokenOf(c) == k
      && ActionOf(c) == a
  {
    hide MapType, LengthOf, TargetOf, TokenOf, ActionOf;
    var c := (len * 0x800 + t * 0x80 + k * 0x20 + a) * 0x1_0000 + low;
    assert c / 0x800_0000 == len;
    assert c / 0x80_0000 == len * 16 + t;
    assert c / 0x20_0000 == (len * 16 + t) * 4 + k;
    assert c / 0x1_0000 == ((len * 16 + t) * 4 + k) * 32 + a;
    FieldsRead(c);
  }

  lemma BulkFields(len: nat, t: nat, k: nat, low: nat)
    requires len < 4 && t < 16 && k < 4 && low < 0x20_0000
    ensures var c := (0x100 + len * 0x40 + t * 4 + k) * 0x20_0000 + low;
      && c < 0x4000_0000 && MapType(c) == 1 && LengthOf(c) == len && TargetOf(c) == t && TokenOf(c) == k
  {
    hide MapType, LengthOf, TargetOf, TokenOf;
    var c := (0x100 + len * 0x40 + t * 4 + k) * 0x20_0000 + low;
    assert c / 0x2000_0000 == 1;
    assert c / 0x800_0000 == 4 + len;
    assert c / 0x80_0000 == (4 + len) * 16 + t;
    assert c / 0x20_0000 == ((4 + len) * 16 + t) * 4 + k;
    FieldsRead(c);
  }

  /** The fields of a word are those of a request. */
  predicate AsAsked(c: nat, tgt: nat, act: nat, tok: nat, width: int) {
    && c < 0x1_0000_0000
    && MapType(c) == (if Fixed(act) then MAPTYPE_FIXED else MAPTYPE_BULK) && Some(LengthOf(c)) == LengthSelect(width)
    && TargetOf(c) == tgt && TokenOf(c) == tok % 4 && (Fixed(act) ==> ActionOf(c) == act % 32)
  }

  /** A base that fits its room leaves the header alone. */
  lemma JoinedFits(header: nat, n: nat, k: nat)
    requires k <= 32 && n < Pow2(k)
    ensures Joined(header, n, k) == header * Pow2(k) + n
  {
    hide BitOr, Pow2;
    UniqueQuotient(n, Pow2(k), 0, n);
    UniqueQuotient(0, Pow2(32 - k), 0, 0);
    OrZero(header);
  }

  lemma WordAsAsked(tgt: nat, act: nat, tok: nat, width: int, n: nat)
    requires LengthSelect(width).Some? && tgt < 16 && n < Pow2(BaseBits(act))
    ensures AsAsked(Word(LengthSelect(width).value, tgt, tok, act, n), tgt, act, tok, width)
  {
    hide MapType, LengthOf, TargetOf, TokenOf, ActionOf, Joined, Pow2;
    PowersUsed();
    var len := LengthSelect(width).value;
    JoinedFits(HeaderBits(len, tgt, tok, act), n, BaseBits(act));
    if Fixed(act) { FixedFields(len, tgt, tok % 4, act % 32, n); } else { BulkFields(len, tgt, tok % 4, n); }
  }

  /** For such addresses the fields of the word do not overlap and are what was asked for. */
  lemma FieldsAreAsAsked(bitsize: nat, tgt: nat, act: nat, tok: nat, offset: nat, size: nat, width: int)
    requires bitsize < 31 && offset < ADDRESS40
    requires ComputeBar(bitsize, tgt, act, tok, offset, size, width).Some?
    ensures AsAsked(ComputeBar(bitsize, tgt, act, tok, offset, size, width).value.config, tgt, act, tok, width)
  {
    hide ComputeBar, Last, Pow2, Aligned, Word, AsAsked, LengthSelect;
    ComputeBarIs(bitsize, tgt, act, tok, offset, size, width);
    PowersUsed();
    AlignedBelow(offset, bitsize, 40);
    var base, k := Aligned(offset, Pow2(bitsize)), Shift(act);
    QuotientForm(base, Pow2(k));
    WordAsAsked(tgt, act, tok, width, Scaled(base, k));
  }

  /** The word and the base, bit by bit. Plain reads and writes (action 0 or 32) get a bulk mapping: map
      type 1 and 21 base bits of 512 KiB; any other action a fixed one: map type 0, the action, and 16
      base bits of 16 MiB. */
  lemma WordBits(bitsize: nat, tgt: nat, act: nat, tok: nat, offset: nat, size: nat, width: int)
    requires bitsize < 31 && offset < 0x100_0000_0000
    requires ComputeBar(bitsize, tgt, act, tok, offset, size, width).Some?
    ensures var s := ComputeBar(bitsize, tgt, act, tok, offset, size, width).value;
      var c := s.config;
      && c < 0x1_0000_0000 && tgt < 16 && (c / 0x80_0000) % 16 == tgt && (c / 0x20_0000) % 4 == tok % 4
      && width in {0, 4, 8} && (c / 0x800_0000) % 4 == (if width == 4 then 0 else if width == 8 then 1 else 3)
      && s.base % Pow2(bitsize) == 0 && s.base <= offset < s.base + Pow2(bitsize)
      && if act == 0 || act == 32 then
           bitsize >= 19 && c / 0x2000_0000 == 1 && (c % 0x20_0000) * 0x8_0000 == s.base
         else
           && bitsize >= 24 && c / 0x2000_0000 == 0 && (c / 0x1_0000) % 32 == act % 32
           && (c % 0x1_0000) * 0x100_0000 == s.base
  {
    hide ComputeBar, Last, Pow2, Aligned, Joined, WithBase, BitAnd, Shl, MapType, LengthOf, TargetOf, TokenOf, ActionOf;
    var s := ComputeBar(bitsize, tgt, act, tok, offset, size, width).value;
    FieldsAreAsAsked(bitsize, tgt, act, tok, offset, size, width);
    FieldsRead(s.config);
    WindowIsBaseExactlyBelow40(bitsize, tgt, act, tok, offset, size, width);
    ComputeBarIs(bitsize, tgt, act, tok, offset, size, width);
    AlignedIs(offset, Pow2(bitsize));
    AlignedFiner(offset, bitsize, bitsize);
    BaseRead(s.config, act);
  }

  lemma BaseRead(c: nat, act: nat)
    ensures WindowBase(c, act)
      == if act == 0 || act == 32 then (c % 0x20_0000) * 0x8_0000 else (c % 0x1_0000) * 0x100_0000
  {
    hide BitAnd, Shl, Pow2;
    PowersUsed();
    SmallMasks(c);
    ShlIs(c % 0x20_0000, 19);
    ShlIs(c % 0x1_0000, 24);
  }

  // ----- Which ranges get this far -----

  /** The check on a range before it is translated and shown, in 64-bit arithmetic: the bus has 40
      address bits. */
  predicate Admitted(address: nat, size: nat) { (address + size) % WORD64 <= ADDRESS40 }

  /** Base bits that are all ones swallow the header. */
  lemma JoinedOnes(header: nat, n: nat, k: nat)
    requires k <= 32 && header < Pow2(32 - k) && (n / Pow2(k)) % Pow2(32 - k) == Pow2(32 - k) - 1
    ensures Joined(header, n, k) == (Pow2(32 - k) - 1) * Pow2(k) + n % Pow2(k)
  {
    hide BitOr, Pow2;
    OrOnes(header, 32 - k);
  }

  /** The word of an address with all its bits above the 40th set. */
  lemma TopWord(header: nat, n: nat, k: nat)
    requires k in {16, 21} && header < Pow2(32 - k) && n / Pow2(k) == 0xff_ffff
    ensures MapType(Joined(header, n, k)) == 7
  {
    hide MapType, Joined, Pow2;
    PowersUsed();
    HeaderPowers();
    JoinedOnes(header, n, k);
    FieldsRead(Joined(header, n, k));
    if k == 16 {
      HighPart(0xffff, n % 0x1_0000, 0x1_0000, 0x2000);
    } else {
      HighPart(0x7ff, n % 0x20_0000, 0x20_0000, 0x100);
    }
  }

  lemma HighPart(h: nat, low: nat, w: nat, m: nat)
    requires w > 0 && m > 0 && low < w
    ensures (h * w + low) / (m * w) == h / m
  {
    QuotientForm(h, m);
    Spread(h / m, m, h % m, w);
    RingGeometry.MulStrict(h % m, m, w);
    MulMonotone(h % m + 1, m, w);
    assert (h % m + 1) * w == (h % m) * w + w;
    UniqueQuotient(h * w + low, m * w, h / m, (h % m) * w + low);
  }

  lemma HeaderPowers()
    ensures Pow2(9) == 0x200 && Pow2(11) == 0x800 && Pow2(13) == 0x2000
  {
    SmallPowers();
    PowSplit(4, 8);
    PowSplit(5, 13);
    assert Pow2(9) == 2 * Pow2(8) && Pow2(11) == 4 * Pow2(9);
  }

  /** Only by wrapping to 0 does an admitted range of addresses above 40 bits pass the test on its
      first and last address. */
  lemma AdmittedBelow40(bitsize: nat, offset: nat, size: nat)
    requires bitsize < 31 && offset < WORD64 && size < WORD64 && Admitted(offset, size)
    requires Aligned(offset, Pow2(bitsize)) == Aligned(Last(offset, size), Pow2(bitsize))
    ensures offset < ADDRESS40 <==> offset + size != WORD64
    ensures offset >= ADDRESS40 ==> Aligned(offset, Pow2(bitsize)) >= WORD64 - Pow2(30)
  {
    hide Aligned, Last, Admitted, Pow2;
    var e := Last(offset, size);
    PowersUsed();
    PowMonotone(bitsize, 30);
    AlignedIs(e, Pow2(bitsize));
    AlignedBelow(offset, bitsize, 40);
    AlignedBelow(e, bitsize, 40);
    LastAdmitted(offset, size);
  }

  /** The last address of an admitted range has 40 bits, unless the range ends at 0. */
  lemma LastAdmitted(offset: nat, size: nat)
    requires offset < WORD64 && size < WORD64 && Admitted(offset, size)
    ensures Last(offset, size) < WORD64
    ensures Last(offset, size) >= ADDRESS40 <==> (offset + size) % WORD64 == 0
    ensures (offset + size) % WORD64 == 0 ==> Last(offset, size) == WORD64 - 1 && (offset + size in {0, WORD64})
  {
  }

  /** An admitted range that needs no translation is shown in the window the driver assumes, by a
      word with the fields asked for, exactly when its end is not the end of the 64-bit range;
      otherwise the base bits fill the header with ones. */
  lemma AdmittedExactlyShown(bitsize: nat, tgt: nat, act: nat, tok: nat, offset: nat, size: nat, width: int)
    requires bitsize < 31 && offset < WORD64 && size < WORD64 && Admitted(offset, size)
    requires ComputeBar(bitsize, tgt, act, tok, offset, size, width).Some?
    ensures var s := ComputeBar(bitsize, tgt, act, tok, offset, size, width).value;
      && (WindowBase(s.config, act) == s.base <==> offset + size != WORD64)
      && (AsAsked(s.config, tgt, act, tok, width) <==> offset + size != WORD64)
      && (offset + size == WORD64 ==> MapType(s.config) == 7)
  {
    hide ComputeBar, Last, Aligned, Joined, HeaderBits, Admitted, WindowBase, Pow2;
    hide MapType, LengthOf, TargetOf, TokenOf, ActionOf;
    WindowIsBaseExactlyBelow40(bitsize, tgt, act, tok, offset, size, width);
    ComputeBarIs(bitsize, tgt, act, tok, offset, size, width);
    AdmittedBelow40(bitsize, offset, size);
    if offset < ADDRESS40 {
      FieldsAreAsAsked(bitsize, tgt, act, tok, offset, size, width);
    } else {
      PowersUsed();
      AlignedIs(offset, Pow2(bitsize));
      var header := HeaderBits(LengthSelect(width).value, tgt, tok, act);
      TopWord(header, Scaled(Aligned(offset, Pow2(bitsize)), Shift(act)), BaseBits(act));
    }
  }

  /** Such a range: the last page of the 64-bit range, read and written through a BAR of 16 MiB. */
  lemma LastPageIsMisshown()
    ensures var offset, size := WORD64 - 0x1000, 0x1000;
      && Admitted(offset, size) && ComputeBar(24, 7, ACTION_RW, 0, offset, size, 4).Some?
      && var s := ComputeBar(24, 7, ACTION_RW, 0, offset, size, 4).value;
         WindowBase(s.config, ACTION_RW) != s.base && MapType(s.config) == 7
  {
    hide ComputeBar, Word, WindowBase, MapType;
    var offset, size := WORD64 - 0x1000, 0x1000;
    PowersUsed();
    ComputeBarIs(24, 7, ACTION_RW, 0, offset, size, 4);
    AdmittedExactlyShown(24, 7, ACTION_RW, 0, offset, size, 4);
  }

  /** The word of an address with no bit, or only the lowest, above the 40th. */
  lemma LowWord(header: nat, n: nat, k: nat)
    requires (k == 16 && header < 0x2000) || (k == 21 && header < 0x200)
    requires n / Pow2(k) <= 1
    ensures MapType(Joined(header, n, k)) <= 1
  {
    hide MapType, BitOr, Pow2;
    PowersUsed();
    HeaderPowers();
    var q := n / Pow2(k);
    UniqueQuotient(q, Pow2(32 - k), 0, q);
    FieldsRead(Joined(header, n, k));
    if k == 16 {
      OrBound(header, q, 13);
      HighPart(BitOr(header, q), n % 0x1_0000, 0x1_0000, 0x2000);
    } else {
      OrBound(header, q, 9);
      HighPart(BitOr(header, q), n % 0x20_0000, 0x20_0000, 0x100);
    }
  }

  lemma AlignedOfSum(q: nat, m: nat, w: nat, r: nat)
    requires w > 0
    ensures Aligned(q * (m * w) + r, w) == q * (m * w) + Aligned(r, w)
  {
    QuotientForm(r, w);
    ProductOfThree(q, m, w);
    Spread(r / w, 1, q * m, w);
    assert q * (m * w) + r == (r / w + q * m) * w + r % w;
    UniqueQuotient(q * (m * w) + r, w, r / w + q * m, r % w);
  }

  /** Aligning leaves the bits above a larger power of two. */
  lemma AlignedKeeps(offset: nat, bitsize: nat, k: nat)
    requires bitsize <= k
    ensures Aligned(offset, Pow2(bitsize)) / Pow2(k) == offset / Pow2(k)
  {
    hide Pow2, Aligned;
    var v := Pow2(k);
    PowSplit(bitsize, k);
    QuotientForm(offset, v);
    AlignedOfSum(offset / v, Pow2(k - bitsize), Pow2(bitsize), offset % v);
    AlignedIs(offset % v, Pow2(bitsize));
    UniqueQuotient(Aligned(offset, Pow2(bitsize)), v, offset / v, Aligned(offset % v, Pow2(bitsize)));
  }

  /** The bits above the 40th of an admitted range that passes the test: none, one, or all. */
  lemma TranslatedBits(bitsize: nat, address: nat, offset: nat, size: nat)
    requires bitsize < 31 && address < WORD64 && offset < WORD64 && size < WORD64 && Admitted(address, size)
    requires address / ADDRESS40 == offset / ADDRESS40
    requires Aligned(offset, Pow2(bitsize)) == Aligned(Last(offset, size), Pow2(bitsize))
    ensures offset / ADDRESS40 in {0, 1, 0xff_ffff}
    ensures Aligned(offset, Pow2(bitsize)) / ADDRESS40 == offset / ADDRESS40
  {
    hide Aligned, Pow2;
    PowersUsed();
    AlignedKeeps(offset, bitsize, 40);
    AlignedKeeps(Last(offset, size), bitsize, 40);
    assert Last(offset, size) / ADDRESS40 == offset / ADDRESS40;
    LastByte(address, offset, size);
  }

  lemma LastByte(address: nat, offset: nat, size: nat)
    requires address < WORD64 && offset < WORD64 && size < WORD64 && Admitted(address, size)
    requires address / ADDRESS40 == offset / ADDRESS40
    ensures Last(offset, size) < 2 * ADDRESS40 || Last(offset, size) >= WORD64 - ADDRESS40
  {
    QuotientForm(address, ADDRESS40);
    QuotientForm(offset, ADDRESS40);
    assert offset - ADDRESS40 < address < offset + ADDRESS40;
    QuotientForm(address + size, WORD64);
    QuotientForm(offset + size + WORD64 - 1, WORD64);
  }

  /** When the range is translated first, which leaves the address bits from the 40th up, the window
      is the base exactly when the address asked for has 40 bits; and the map type is never the
      general one. */
  lemma TranslatedShown(bitsize: nat, tgt: nat, act: nat, tok: nat, address: nat, offset: nat, size: nat, width: int)
    requires bitsize < 31 && address < WORD64 && offset < WORD64 && size < WORD64 && Admitted(address, size)
    requires address / ADDRESS40 == offset / ADDRESS40
    requires ComputeBar(bitsize, tgt, act, tok, offset, size, width).Some?
    ensures var s := ComputeBar(bitsize, tgt, act, tok, offset, size, width).value;
      (WindowBase(s.config, act) == s.base <==> address < ADDRESS40) && MapType(s.config) != MAPTYPE_GENERAL
  {
    hide ComputeBar, Last, Aligned, Joined, Admitted, WindowBase, MapType, Pow2;
    WindowIsBaseExactlyBelow40(bitsize, tgt, act, tok, offset, size, width);
    ComputeBarIs(bitsize, tgt, act, tok, offset, size, width);
    PowersUsed();
    AlignedIs(offset, Pow2(bitsize));
    TranslatedBits(bitsize, address, offset, size);
    var header := HeaderBits(LengthSelect(width).value, tgt, tok, act);
    var n := Scaled(Aligned(offset, Pow2(bitsize)), Shift(act));
    if offset / ADDRESS40 == 0xff_ffff {
      TopWord(header, n, BaseBits(act));
    } else {
      LowWord(header, n, BaseBits(act));
    }
  }
}
