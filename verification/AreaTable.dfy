/** Offsets handed out for mapping areas of the device into a process. */
module AreaTable {

  const WORD64: nat := 0x1_0000_0000_0000_0000
  const PAGE: nat := 4096
  /** The offset that asks for automatic placement. */
  const ANYWHERE: nat := WORD64 - 1

  /** A live area; a mapped one cannot be released. */
  datatype Area = Area(offset: nat, size: nat, mapped: bool)

  datatype Status = Done | Invalid | Colliding | Missing | Busy | Exhausted

  datatype Option<T> = None | Some(value: T)

  /** End of a range, in 64-bit arithmetic. */
  function End(offset: nat, size: nat): nat { (offset + size) % WORD64 }

  predicate Collides(offset: nat, size: nat, a: Area) {
    offset < End(a.offset, a.size) && End(offset, size) > a.offset
  }

  predicate Clear(areas: seq<Area>, offset: nat, size: nat) {
    forall i :: 0 <= i < |areas| ==> !Collides(offset, size, areas[i])
  }

  /** The first area, from number `i` on, behind which the range fits. */
  function FirstFit(areas: seq<Area>, size: nat, i: nat): (r: Option<nat>)
    requires i <= |areas|
    ensures r.Some? ==> Clear(areas, r.value, size)
    decreases |areas| - i
  {
    if i == |areas| then None
    else if Clear(areas, End(areas[i].offset, areas[i].size), size) then Some(End(areas[i].offset, areas[i].size))
    else FirstFit(areas, size, i + 1)
  }

  /** Where a range may go: where it was asked for, else at 0, else behind an area. */
  function Place(areas: seq<Area>, offset: nat, size: nat): Option<nat> {
    if offset != ANYWHERE then if Clear(areas, offset, size) then Some(offset) else None
    else if Clear(areas, 0, size) then Some(0)
    else FirstFit(areas, size, 0)
  }

  datatype Reply = Reply(status: Status, offset: nat)

  predicate Acceptable(offset: nat, size: nat) {
    (size == 0 || size == PAGE) && (offset == ANYWHERE || offset % PAGE == 0)
  }

  /** `available`: memory and device can provide the area. */
  function RequestReply(areas: seq<Area>, offset: nat, size: nat, available: bool): Reply {
    if !Acceptable(offset, size) then Reply(Invalid, offset)
    else
      match Place(areas, offset, size)
      case None => Reply(Colliding, offset)
      case Some(place) => Reply(if available then Done else Exhausted, place)
  }

  function Request(areas: seq<Area>, offset: nat, size: nat, available: bool): seq<Area> {
    var r := RequestReply(areas, offset, size, available);
    if r.status == Done then areas + [Area(r.offset, size, false)] else areas
  }

  /** The first area at `offset` decides. */
  function ReleaseStatus(areas: seq<Area>, offset: nat): Status {
    if areas == [] then Missing
    else if areas[0].offset == offset then if areas[0].mapped then Busy else Done
    else ReleaseStatus(areas[1..], offset)
  }

  function Release(areas: seq<Area>, offset: nat): (r: seq<Area>) {
    if areas == [] then []
    else if areas[0].offset == offset then if areas[0].mapped then areas else areas[1..]
    else [areas[0]] + Release(areas[1..], offset)
  }

  // ----- Pages -----

  predicate OnGrid(a: Area) { a.offset < WORD64 && a.offset % PAGE == 0 && (a.size == 0 || a.size == PAGE) }

  /** The last page of the address space: its end is 0. */
  predicate Top(a: Area) { a.size == PAGE && a.offset + PAGE == WORD64 }

  /** Do the areas share an address? */
  predicate Overlap(a: Area, b: Area) { a.offset < b.offset + b.size && b.offset < a.offset + a.size }

  /** Areas overlap only if both are the last page. */
  ghost predicate Separate(areas: seq<Area>) {
    && (forall i :: 0 <= i < |areas| ==> OnGrid(areas[i]))
    && (forall i, j :: 0 <= i < j < |areas| ==> (Overlap(areas[i], areas[j]) <==> Top(areas[i]) && Top(areas[j])))
  }

  /** What the collision test misses: two ranges that both end at the end of the address space. */
  lemma CollisionMissesOnlyTop(x: Area, a: Area)
    requires OnGrid(x) && OnGrid(a) && !Collides(x.offset, x.size, a)
    ensures Overlap(a, x) <==> Top(a) && Top(x)
  {
    hide End;
    EndOnGrid(a);
    EndOnGrid(x);
  }

  // ----- Runs -----

  /** A request, a release, or the mapping state of an area changing. */
  datatype Event =
    | Ask(offset: nat, size: nat, available: bool)
    | Drop(offset: nat)
    | SetMapped(index: nat, mapped: bool)

  function Next(areas: seq<Area>, ev: Event): seq<Area> {
    match ev
    case Ask(offset, size, available) => if offset < WORD64 then Request(areas, offset, size, available) else areas
    case Drop(offset) => Release(areas, offset)
    case SetMapped(i, m) => if i < |areas| then areas[i := areas[i].(mapped := m)] else areas
  }

  function After(areas: seq<Area>, run: seq<Event>): seq<Area>
    decreases |run|
  {
    if run == [] then areas else After(Next(areas, run[0]), run[1..])
  }

  lemma FitOnGrid(areas: seq<Area>, size: nat, i: nat)
    requires Separate(areas) && i <= |areas| && FirstFit(areas, size, i).Some?
    ensures FirstFit(areas, size, i).value < WORD64 && FirstFit(areas, size, i).value % PAGE == 0
    decreases |areas| - i
  {
    EndOnGrid(areas[i]);
    if !Clear(areas, End(areas[i].offset, areas[i].size), size) { FitOnGrid(areas, size, i + 1); }
  }

  lemma EndOnGrid(a: Area)
    requires OnGrid(a)
    ensures End(a.offset, a.size) < WORD64 && End(a.offset, a.size) % PAGE == 0
    ensures End(a.offset, a.size) == if Top(a) then 0 else a.offset + a.size
  {
  }

  lemma RequestKeeps(areas: seq<Area>, offset: nat, size: nat, available: bool)
    requires Separate(areas) && offset < WORD64
    ensures Separate(Request(areas, offset, size, available))
  {
    var r := RequestReply(areas, offset, size, available);
    if r.status == Done {
      if offset == ANYWHERE && !Clear(areas, 0, size) { FitOnGrid(areas, size, 0); }
      var x := Area(r.offset, size, false);
      forall i | 0 <= i < |areas| ensures Overlap(areas[i], x) <==> Top(areas[i]) && Top(x) {
        assert !Collides(r.offset, size, areas[i]);
        CollisionMissesOnlyTop(x, areas[i]);
      }
    }
  }

  lemma {:induction false} ReleaseKeeps(areas: seq<Area>, offset: nat)
    requires Separate(areas)
    ensures Separate(Release(areas, offset))
    ensures forall a :: a in Release(areas, offset) ==> a in areas
  {
    if areas != [] && areas[0].offset != offset {
      var rest := Release(areas[1..], offset);
      ReleaseKeeps(areas[1..], offset);
      forall j | 0 <= j < |rest| ensures Overlap(areas[0], rest[j]) <==> Top(areas[0]) && Top(rest[j]) {
        assert rest[j] in areas[1..];
      }
    }
  }

  /** In every run, live areas overlap exactly when both are the last page of the address space. */
  lemma {:induction false} RunKeeps(areas: seq<Area>, run: seq<Event>)
    requires Separate(areas)
    ensures Separate(After(areas, run))
    decreases |run|
  {
    if run != [] {
      match run[0] {
        case Ask(offset, size, available) =>
          if offset < WORD64 { RequestKeeps(areas, offset, size, available); }
        case Drop(offset) => ReleaseKeeps(areas, offset);
        case SetMapped(_, _) =>
      }
      RunKeeps(Next(areas, run[0]), run[1..]);
    }
  }

  /** Requested twice, the last page is given twice. */
  lemma TopGivenTwice()
    ensures var areas := After([], [Ask(WORD64 - PAGE, PAGE, true), Ask(WORD64 - PAGE, PAGE, true)]);
      |areas| == 2 && Overlap(areas[0], areas[1])
  {
    var first, run := Ask(WORD64 - PAGE, PAGE, true), [Ask(WORD64 - PAGE, PAGE, true)];
    var one := [Area(WORD64 - PAGE, PAGE, false)];
    assert Next([], first) == one;
    assert Next(one, first) == one + one;
    assert After(one, run) == After(one + one, []) by { assert run[1..] == []; }
    assert ([first] + run)[1..] == run;
  }

  // ----- Automatic placement -----

  lemma {:induction false} HighestEnd(areas: seq<Area>) returns (m: nat)
    requires |areas| > 0
    ensures m < |areas|
    ensures forall i :: 0 <= i < |areas| ==>
      End(areas[i].offset, areas[i].size) <= End(areas[m].offset, areas[m].size)
  {
    m := 0;
    if |areas| > 1 {
      var k := HighestEnd(areas[1..]);
      assert forall i :: 1 <= i < |areas| ==> areas[i] == areas[1..][i - 1];
      if End(areas[0].offset, areas[0].size) < End(areas[k + 1].offset, areas[k + 1].size) { m := k + 1; }
    }
  }

  lemma {:induction false} FitFound(areas: seq<Area>, size: nat, i: nat, m: nat)
    requires i <= m < |areas| && Clear(areas, End(areas[m].offset, areas[m].size), size)
    ensures FirstFit(areas, size, i).Some?
    decreases m - i
  {
    if i < m { FitFound(areas, size, i + 1, m); }
  }

  /** A request that leaves the place open is never refused for want of an offset, whatever areas
      are live: the end of the highest one always passes. */
  lemma AutomaticPlacementSucceeds(areas: seq<Area>, size: nat, available: bool)
    requires size == 0 || size == PAGE
    ensures RequestReply(areas, ANYWHERE, size, available).status == if available then Done else Exhausted
  {
    if !Clear(areas, 0, size) {
      var m := HighestEnd(areas);
      FitFound(areas, size, 0, m);
    }
  }

  // ----- What a request answers -----

  /** Ranges that overlap, unless both are the last page, of which the test is blind. */
  predicate Conflicts(x: Area, a: Area) { Overlap(x, a) && !(Top(x) && Top(a)) }

  ghost predicate Free(areas: seq<Area>, offset: nat, size: nat) {
    forall i :: 0 <= i < |areas| ==> !Conflicts(Area(offset, size, false), areas[i])
  }

  lemma ClearExactly(areas: seq<Area>, offset: nat, size: nat)
    requires Separate(areas) && OnGrid(Area(offset, size, false))
    ensures Clear(areas, offset, size) <==> Free(areas, offset, size)
  {
    hide End;
    var x := Area(offset, size, false);
    EndOnGrid(x);
    forall i | 0 <= i < |areas| ensures Collides(offset, size, areas[i]) <==> Conflicts(x, areas[i]) {
      EndOnGrid(areas[i]);
    }
  }

  /** Only nothing or one page of 4096 octets at a multiple of 4096 can be asked for, else the answer is
      `Invalid`. An offset asked for is given exactly there, if no live area conflicts with it and the
      area can be provided; it is refused as `Colliding` exactly when one does. */
  lemma AnswerExactly(areas: seq<Area>, offset: nat, size: nat, available: bool)
    requires Separate(areas) && offset < 0xffff_ffff_ffff_ffff
    ensures var r := RequestReply(areas, offset, size, available);
      && r.offset == offset
      && (r.status == Invalid <==> size !in {0, 4096} || offset % 4096 != 0)
      && (r.status == Colliding <==> size in {0, 4096} && offset % 4096 == 0 && !Free(areas, offset, size))
      && (r.status == Done <==> size in {0, 4096} && offset % 4096 == 0 && Free(areas, offset, size) && available)
      && (r.status == Exhausted <==> size in {0, 4096} && offset % 4096 == 0 && Free(areas, offset, size) && !available)
  {
    hide Clear, Free;
    if Acceptable(offset, size) { ClearExactly(areas, offset, size); }
  }

  /** With the place left open, the size alone can be invalid; 0 is given if it is free, else the end of
      the first live area behind which the range is. */
  lemma OpenAnswer(areas: seq<Area>, size: nat, available: bool)
    requires Separate(areas)
    ensures var r := RequestReply(areas, 0xffff_ffff_ffff_ffff, size, available);
      if size !in {0, 4096} then r.status == Invalid
      else
        && r.status == (if available then Done else Exhausted) && r.offset % 4096 == 0 && Free(areas, r.offset, size)
        && (Free(areas, 0, size) ==> r.offset == 0)
        && (!Free(areas, 0, size) ==>
              exists i :: 0 <= i < |areas| && EndsAt(areas[i], r.offset)
                && forall j :: 0 <= j < i ==> NoRoomBehind(areas, j, size))
  {
    hide Clear, Free, End, EndsAt, NoRoomBehind;
    if size in {0, 4096} {
      AutomaticPlacementSucceeds(areas, size, available);
      ClearExactly(areas, 0, size);
      if Free(areas, 0, size) {
      } else {
        var i := FitIsFirst(areas, size, 0);
        FitOnGrid(areas, size, 0);
        ClearExactly(areas, FirstFit(areas, size, 0).value, size);
      }
    }
  }

  /** The end of an area; that of the last page is 0. */
  predicate EndsAt(a: Area, offset: nat) { offset == if Top(a) then 0 else a.offset + a.size }

  ghost predicate NoRoomBehind(areas: seq<Area>, j: nat, size: nat)
    requires j < |areas|
  {
    exists e: nat :: EndsAt(areas[j], e) && !Free(areas, e, size)
  }

  lemma FitIsFirst(areas: seq<Area>, size: nat, i: nat) returns (k: nat)
    requires Separate(areas) && (size == 0 || size == PAGE) && i <= |areas| && FirstFit(areas, size, i).Some?
    ensures i <= k < |areas| && EndsAt(areas[k], FirstFit(areas, size, i).value)
    ensures forall j :: i <= j < k ==> NoRoomBehind(areas, j, size)
    decreases |areas| - i
  {
    hide Clear, Free, End;
    var e := End(areas[i].offset, areas[i].size);
    EndOnGrid(areas[i]);
    ClearExactly(areas, e, size);
    if Clear(areas, e, size) { return i; }
    assert EndsAt(areas[i], e) && !Free(areas, e, size);
    k := FitIsFirst(areas, size, i + 1);
  }

  // ----- Releasing what was given -----

  /** Number of the first area at an offset. */
  function FirstAt(areas: seq<Area>, offset: nat): (r: Option<nat>)
    ensures r.Some? ==> r.value < |areas| && areas[r.value].offset == offset
    ensures forall i :: 0 <= i < (if r.Some? then r.value else |areas|) ==> areas[i].offset != offset
  {
    if areas == [] then None
    else if areas[0].offset == offset then Some(0)
    else
      var r := FirstAt(areas[1..], offset);
      assert forall i :: 1 <= i < |areas| ==> areas[i] == areas[1..][i - 1];
      match r case None => None case Some(i) => Some(i + 1)
  }

  lemma WithoutBehind(areas: seq<Area>, i: nat)
    requires i + 1 < |areas|
    ensures [areas[0]] + (areas[1..][..i] + areas[1..][i + 1..]) == areas[..i + 1] + areas[i + 2..]
    ensures [areas[0]] + areas[1..] == areas
  {
  }

  /** A release takes away the first area at the offset unless it is mapped, and nothing else. */
  lemma {:induction false} ReleaseTakesFirst(areas: seq<Area>, offset: nat)
    ensures match FirstAt(areas, offset)
            case None => ReleaseStatus(areas, offset) == Missing && Release(areas, offset) == areas
            case Some(i) =>
              if areas[i].mapped then ReleaseStatus(areas, offset) == Busy && Release(areas, offset) == areas
              else ReleaseStatus(areas, offset) == Done && Release(areas, offset) == areas[..i] + areas[i + 1..]
  {
    if areas != [] && areas[0].offset != offset {
      ReleaseTakesFirst(areas[1..], offset);
      if FirstAt(areas[1..], offset).Some? { WithoutBehind(areas, FirstAt(areas[1..], offset).value); }
    }
  }

  lemma Without(areas: seq<Area>, x: Area, i: nat)
    requires i <= |areas|
    ensures (areas + [x])[..i] + (areas + [x])[i + 1..]
      == if i == |areas| then areas else areas[..i] + areas[i + 1..] + [x]
  {
  }

  lemma {:induction false} FirstAppended(areas: seq<Area>, x: Area)
    ensures FirstAt(areas + [x], x.offset)
      == (match FirstAt(areas, x.offset) case None => Some(|areas|) case Some(i) => Some(i))
  {
    if areas != [] && areas[0].offset != x.offset {
      FirstAppended(areas[1..], x);
      assert (areas + [x])[1..] == areas[1..] + [x];
    }
  }

  /** Releasing what was just given hits it, and undoes the request, exactly when nothing live was at
      its offset; otherwise an older area goes, or keeps it from going. */
  lemma ReleaseUndoesRequest(areas: seq<Area>, x: Area)
    requires !x.mapped
    ensures FirstAt(areas + [x], x.offset) == Some(|areas|)
      <==> forall i :: 0 <= i < |areas| ==> areas[i].offset != x.offset
    ensures match FirstAt(areas, x.offset)
            case None => ReleaseStatus(areas + [x], x.offset) == Done && Release(areas + [x], x.offset) == areas
            case Some(i) =>
              if areas[i].mapped then
                ReleaseStatus(areas + [x], x.offset) == Busy && Release(areas + [x], x.offset) == areas + [x]
              else
                && ReleaseStatus(areas + [x], x.offset) == Done
                && Release(areas + [x], x.offset) == areas[..i] + areas[i + 1..] + [x]
  {
    hide FirstAt, Release, ReleaseStatus;
    ReleaseTakesFirst(areas + [x], x.offset);
    FirstAppended(areas, x);
    match FirstAt(areas, x.offset)
    case None => Without(areas, x, |areas|);
    case Some(i) => Without(areas, x, i);
  }

  /** At the offset of a live area a range is refused exactly when both are pages, and not the last
      one. */
  lemma SharedOffsetExactly(x: Area, a: Area)
    requires OnGrid(x) && OnGrid(a) && x.offset == a.offset
    ensures Collides(x.offset, x.size, a) <==> x.size == PAGE && a.size == PAGE && !Top(x)
  {
    hide End;
    EndOnGrid(a);
    EndOnGrid(x);
  }

  /** So an area given at the offset of a live one is empty, or meets an empty one or the last page
      there; a page elsewhere, with no empty area live, is undone by its release. */
  lemma GrantThenRelease(areas: seq<Area>, offset: nat, size: nat)
    requires Separate(areas) && offset < WORD64 && RequestReply(areas, offset, size, true).status == Done
    ensures var place := RequestReply(areas, offset, size, true).offset;
      && (forall i :: 0 <= i < |areas| && areas[i].offset == place ==>
            size == 0 || areas[i].size == 0 || place == WORD64 - PAGE)
      && ((forall i :: 0 <= i < |areas| ==> areas[i].offset != place)
            <==> FirstAt(Request(areas, offset, size, true), place) == Some(|areas|))
      && ((forall i :: 0 <= i < |areas| ==> areas[i].offset != place)
            ==> Release(Request(areas, offset, size, true), place) == areas)
  {
    var r := RequestReply(areas, offset, size, true);
    var x := Area(r.offset, size, false);
    if offset == ANYWHERE && !Clear(areas, 0, size) { FitOnGrid(areas, size, 0); }
    ReleaseUndoesRequest(areas, x);
    forall i | 0 <= i < |areas| && areas[i].offset == r.offset
      ensures size == 0 || areas[i].size == 0 || r.offset == WORD64 - PAGE
    {
      assert !Collides(r.offset, size, areas[i]);
      SharedOffsetExactly(x, areas[i]);
    }
  }

  /** An empty area given at the offset of a page: releasing it takes the page away. */
  lemma EmptyAreaMisreleased()
    ensures var page, empty := Area(0, PAGE, false), Area(0, 0, false);
      && RequestReply([page], 0, 0, true) == Reply(Done, 0) && Request([page], 0, 0, true) == [page, empty]
      && Release([page, empty], 0) == [empty]
  {
    var page, empty := Area(0, PAGE, false), Area(0, 0, false);
    assert [page] + [empty] == [page, empty] && [page, empty][1..] == [empty];
  }

  // ----- The calls -----

  class AreaList {
    var areas: seq<Area>

    constructor ()
      ensures areas == []
    {
      areas := [];
    }

    method RangeCheck(offset: nat, size: nat) returns (clear: bool)
      ensures clear == Clear(areas, offset, size)
    {
      for i := 0 to |areas|
        invariant forall j :: 0 <= j < i ==> !Collides(offset, size, areas[j])
      {
        var a := areas[i];
        if offset < End(a.offset, a.size) && End(offset, size) > a.offset { return false; }
      }
      return true;
    }

    /** Try 0, then the end of each area in turn. */
    method FindPlace(size: nat) returns (r: Option<nat>)
      ensures r == Place(areas, ANYWHERE, size)
    {
      var clear := RangeCheck(0, size);
      if clear { return Some(0); }
      for i := 0 to |areas|
        invariant FirstFit(areas, size, 0) == FirstFit(areas, size, i)
      {
        var offset := End(areas[i].offset, areas[i].size);
        clear := RangeCheck(offset, size);
        if clear { return Some(offset); }
      }
      return None;
    }

    method DoRequest(wanted: nat, size: nat, available: bool) returns (r: Reply)
      requires wanted < WORD64
      modifies this
      ensures r == RequestReply(old(areas), wanted, size, available)
      ensures areas == Request(old(areas), wanted, size, available)
    {
      if size != 0 && size != PAGE { return Reply(Invalid, wanted); }
      if wanted != ANYWHERE && wanted % PAGE != 0 { return Reply(Invalid, wanted); }
      var offset := wanted;
      if wanted == ANYWHERE {
        var place := FindPlace(size);
        if place.None? { return Reply(Colliding, wanted); }
        offset := place.value;
      }
      var clear := RangeCheck(offset, size);
      if !clear { return Reply(Colliding, offset); }
      if !available { return Reply(Exhausted, offset); }
      areas := areas + [Area(offset, size, false)];
      return Reply(Done, offset);
    }

    method DoRelease(offset: nat) returns (status: Status)
      modifies this
      ensures status == ReleaseStatus(old(areas), offset) && areas == Release(old(areas), offset)
    {
      hide FirstAt, Release, ReleaseStatus;
      ReleaseTakesFirst(areas, offset);
      for i := 0 to |areas|
        invariant areas == old(areas)
        invariant forall j :: 0 <= j < i ==> areas[j].offset != offset
      {
        if areas[i].offset == offset {
          assert FirstAt(areas, offset) == Some(i);
          if areas[i].mapped { return Busy; }
          areas := areas[..i] + areas[i + 1..];
          return Done;
        }
      }
      return Missing;
    }
  }
}
