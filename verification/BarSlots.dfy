/** Handing out BARs to areas: each BAR serves one area at a time. */
module BarSlots {
  import opened BarWindow
  import opened BitArithmetic

  const BARS: nat := 7

  class Bar {
    const index: nat
    const bitsize: nat
    var config: nat
    var base: nat
    var locked: bool
    var mapped: bool

    constructor (index: nat, bitsize: nat)
      ensures this.index == index && this.bitsize == bitsize && !locked && mapped && config == 0 && base == 0
    {
      this.index, this.bitsize := index, bitsize;
      config, base, locked, mapped := 0, 0, false, true;
    }
  }

  /** A process uses three of the seven BARs; the primary process those at positions 3, 2 and 1. */
  function First(primary: bool): nat { if primary then 3 else 6 }

  predicate Mine(primary: bool, i: nat) { First(primary) - 2 <= i <= First(primary) }

  class Area {
    var bar: Bar?
    var target: nat
    var action: nat
    var token: nat
    var offset: nat
    var size: nat
    var readWidth: int
    var writeWidth: int
    var width: int
    var barOffset: nat
    var mapped: bool

    constructor ()
      ensures bar == null && !mapped
    {
      bar, mapped := null, false;
      target, action, token, offset, size, barOffset := 0, 0, 0, 0, 0, 0;
      readWidth, writeWidth, width := 0, 0, 0;
    }
  }

  /** Areas that hold a BAR hold different ones, and these are locked. */
  ghost predicate Exclusive(areas: set<Area>)
    reads areas, set a | a in areas && a.bar != null :: a.bar
  {
    && (forall a | a in areas && a.bar != null :: a.bar.locked)
    && (forall a, b | a in areas && b in areas && a != b && a.bar != null :: a.bar != b.bar)
  }

  /** An initialised area's BAR shows it: base and configuration are those computed for it. */
  ghost predicate Shown(a: Area)
    reads a, a.bar
  {
    a.bar != null && a.bar.bitsize < 31 && a.offset < WORD64
    && ComputeBar(a.bar.bitsize, a.target, a.action, a.token, a.offset, a.size, a.width)
         == Some(Setting(a.bar.config, a.bar.base))
  }

  /** The offset in a BAR of general mapping, in 32 bits: a sixteenth of the BAR for each target and
      token. */
  function GeneralOffset(a: Area): nat
    requires Shown(a)
    reads a, a.bar
  {
    BarBits(a);
    SizeBelow(a.bar.bitsize - 4);
    var k := a.bar.bitsize;
    (BitAnd(a.offset, Shl(1, k - 4) - 1) + Shl(a.target, k - 2) + Shl(a.token, k - 4)) % 0x1_0000_0000
  }

  lemma BarBits(a: Area)
    requires Shown(a)
    ensures a.bar.bitsize >= BULK_SHIFT
  {
    hide FixedHeader, BulkHeader, BitAnd, BaseMask, WithBase, Shr;
  }

  /** A push or pull width from its half of a `pushpull` code. */
  function WidthOf(code: nat): int { if code % 16 == 0 then -1 else 2 * Pow2(code % 16) }

  /** Code 1 means 32 bits, code 2 means 64; 0 means no access, and -1 is a width no BAR can have. */
  lemma WidthsInOctets(pp: nat)
    ensures WidthOf(0x10 * pp + 0) == -1 && WidthOf(0x10 * pp + 1) == 4 && WidthOf(0x10 * pp + 2) == 8
  {
    assert Pow2(1) == 2 && Pow2(2) == 4;
  }

  /** Codes the target table answers for an action: negative when it has none; reads and writes of
      different widths cannot share a BAR. */
  predicate Accessible(pp: int) {
    pp >= 0 && !(WidthOf(pp) > 0 && WidthOf(pp / 16) > 0 && WidthOf(pp) != WidthOf(pp / 16))
  }

  function BarWidth(pp: int): int
    requires pp >= 0
  {
    if WidthOf(pp) > 0 then WidthOf(pp) else WidthOf(pp / 16)
  }

  class Pcie {
    const bars: seq<Bar>
    const primary: bool
    const cfgMapped: bool

    ghost predicate Valid() {
      && |bars| == BARS && (forall i, j :: 0 <= i < j < BARS ==> bars[i] != bars[j])
      && forall i :: 0 <= i < BARS ==> bars[i].bitsize < 31
    }

    constructor (bars: seq<Bar>, primary: bool, cfgMapped: bool)
      requires |bars| == BARS && (forall i, j :: 0 <= i < j < BARS ==> bars[i] != bars[j])
      requires forall i :: 0 <= i < BARS ==> bars[i].bitsize < 31
      ensures Valid() && this.bars == bars && this.primary == primary && this.cfgMapped == cfgMapped
    {
      this.bars, this.primary, this.cfgMapped := bars, primary, cfgMapped;
    }

    /** Lock the highest free BAR of this process, if there is one. */
    method AllocBar() returns (bar: Bar?)
      requires Valid()
      modifies bars
      ensures bar == null <==> forall i | 0 <= i < BARS && Mine(primary, i) :: old(bars[i].locked)
      ensures bar == null ==> forall b | b in bars :: b.locked == old(b.locked)
      ensures bar != null ==> exists i :: (if primary then 1 <= i <= 3 else 4 <= i <= 6) && bars[i] == bar
      ensures bar == null ==> forall i | (if primary then 1 <= i <= 3 else 4 <= i <= 6) :: old(bars[i].locked)
      ensures bar != null ==>
        && bar in bars && !old(bar.locked) && bar.locked
        && (exists i :: 0 <= i < BARS && Mine(primary, i) && bars[i] == bar
              && forall j | i < j < BARS && Mine(primary, j) :: old(bars[j].locked))
      ensures forall b | b in bars && b != bar :: b.locked == old(b.locked)
      ensures forall b | b in bars ::
        b.config == old(b.config) && b.base == old(b.base) && b.mapped == old(b.mapped)
    {
      var x := First(primary) + 1;
      while x > First(primary) - 2
        invariant First(primary) - 2 <= x <= First(primary) + 1
        invariant forall b | b in bars :: b.locked == old(b.locked)
        invariant forall i | x <= i < BARS && Mine(primary, i) :: old(bars[i].locked)
      {
        x := x - 1;
        if !bars[x].locked {
          bars[x].locked := true;
          return bars[x];
        }
      }
      return null;
    }

    /** Point a BAR at a range; nothing changes when the range cannot be shown, and only the recorded
        base when the configuration space is not mapped. */
    method Reconfigure(bar: Bar, tgt: nat, act: nat, tok: nat, offset: nat, size: nat, width: int) returns (ok: bool)
      requires bar.bitsize < 31 && offset < WORD64
      modifies bar`config, bar`base
      ensures var s := ComputeBar(bar.bitsize, tgt, act, tok, offset, size, width);
        && ok == (s.Some? && cfgMapped)
        && bar.base == (if s.Some? then s.value.base else old(bar.base))
        && bar.config == (if ok then s.value.config else old(bar.config))
    {
      var s := Compute(bar.bitsize, tgt, act, tok, offset, size, width);
      if s.None? { return false; }
      bar.base := s.value.base;
      if !cfgMapped { return false; }
      bar.config := s.value.config;
      return true;
    }

    /** Hand a BAR that no area has to an area and point it at the area's range. */
    method Assign(area: Area, bar: Bar, tgt: nat, act: nat, tok: nat, offset: nat, size: nat, ghost areas: set<Area>)
      returns (ok: bool)
      requires bar.bitsize < 31 && offset < WORD64 && area.bar == null && area in areas && Exclusive(areas)
      requires bar.locked && forall a | a in areas :: a.bar != bar
      modifies area`bar, area`target, area`action, area`token, area`offset, area`size, bar`config, bar`base
      ensures Exclusive(areas) && area.bar == bar && bar.locked
      ensures ok <==> cfgMapped && ComputeBar(bar.bitsize, tgt, act, tok, offset, size, area.width).Some?
      ensures area.offset == offset && area.size == size
      ensures area.target == tgt && area.action == act && area.token == tok
      ensures ok ==> Shown(area)
      ensures forall a | a in areas && a != area :: old(Shown(a)) ==> Shown(a)
    {
      hide ComputeBar;
      area.bar := bar;
      area.target, area.action, area.token := tgt, act, tok;
      area.offset, area.size := offset, size;
      ok := Reconfigure(bar, tgt, act, tok, offset, size, area.width);
    }

    /** Give an area a BAR and point it at the area's range. If that fails, the area keeps the locked
        BAR. */
    method AreaInit(area: Area, tgt: nat, act: nat, tok: nat, offset: nat, size: nat, pp: int,
                    ghost areas: set<Area>) returns (ok: bool)
      requires Valid() && offset < WORD64 && area.bar == null && area in areas && Exclusive(areas)
      modifies area, bars
      ensures Exclusive(areas) && area.mapped == old(area.mapped)
      ensures area.bar == null
        <==> !Accessible(pp) || forall i | 0 <= i < BARS && Mine(primary, i) :: old(bars[i].locked)
      ensures area.bar == null ==> !ok && forall b | b in bars :: b.locked == old(b.locked)
      ensures area.bar != null ==> exists i :: 0 <= i < BARS && area.bar == bars[i] && !old(bars[i].locked)
      ensures area.bar != null ==>
        && (ok <==> cfgMapped && ComputeBar(area.bar.bitsize, tgt, act, tok, offset, size, BarWidth(pp)).Some?)
        && area.offset == offset && area.size == size && area.target == tgt && area.action == act && area.token == tok
        && area.readWidth == WidthOf(pp) && area.writeWidth == WidthOf(pp / 16) && area.width == BarWidth(pp)
      ensures ok ==> Shown(area)
      ensures forall a | a in areas && a != area :: old(Shown(a)) ==> Shown(a)
    {
      hide ComputeBar, WidthOf;
      if pp < 0 { return false; }
      area.readWidth, area.writeWidth := WidthOf(pp), WidthOf(pp / 16);
      if area.readWidth > 0 && area.writeWidth > 0 && area.readWidth != area.writeWidth { return false; }
      area.width := if area.readWidth > 0 then area.readWidth else area.writeWidth;
      var bar := AllocBar();
      if bar == null { return false; }
      assert forall a | a in areas && a != area :: a.bar != bar;
      ok := Assign(area, bar, tgt, act, tok, offset, size, areas);
    }

    /** Compute where in its BAR the area begins. */
    method AreaAcquire(area: Area) returns (ok: bool)
      requires Shown(area)
      modifies area`barOffset, area`mapped
      ensures ok == area.bar.mapped && (ok ==> area.mapped) && Shown(area)
      ensures area.barOffset == if MapType(area.bar.config) == MAPTYPE_GENERAL then GeneralOffset(area)
                                else BitAnd(area.offset, OffsetMask(area.bar.bitsize))
      ensures MapType(area.bar.config) != MAPTYPE_GENERAL ==>
        area.bar.base + area.barOffset == area.offset && area.barOffset < Pow2(30)
    {
      hide ComputeBar, MapType, BitAnd, OffsetMask, Pow2;
      BasePlusOffset(area.bar.bitsize, area.target, area.action, area.token, area.offset, area.size, area.width);
      if MapType(area.bar.config) == MAPTYPE_GENERAL {
        area.barOffset := GeneralOffset(area);
      } else {
        area.barOffset := BitAnd(area.offset, OffsetMask(area.bar.bitsize));
      }
      if !area.bar.mapped { return false; }
      area.mapped := true;
      return true;
    }

    /** The BAR becomes free, the area loses it. */
    method AreaRelease(area: Area, ghost areas: set<Area>)
      requires area.bar != null && area in areas && Exclusive(areas)
      modifies area, area.bar
      ensures Exclusive(areas) && area.bar == null && !area.mapped && !old(area.bar).locked
      ensures forall a | a in areas && a != area :: old(Shown(a)) ==> Shown(a)
    {
      area.bar.locked := false;
      area.bar := null;
      area.mapped := false;
    }
  }
}
