/** The circular doubly linked list whose nodes are embedded in other structures. A list is a ring:
    its head followed by its items. */
module IntrusiveList {

  class Node {
    var next: Node?
    var prev: Node?

    constructor ()
      ensures next == this && prev == this
    {
      next, prev := this, this;
    }
  }

  ghost predicate Adjacent(a: Node, b: Node)
    reads a, b
  {
    a.next == b && b.prev == a
  }

  ghost predicate Path(s: seq<Node>)
    reads s
  {
    forall i :: 0 <= i < |s| - 1 ==> Adjacent(s[i], s[i + 1])
  }

  predicate Distinct(s: seq<Node>) { forall i, j :: 0 <= i < j < |s| ==> s[i] != s[j] }

  ghost predicate Ring(s: seq<Node>)
    reads s
  {
    s != [] && Distinct(s) && Path(s) && Adjacent(s[|s| - 1], s[0])
  }

  lemma PathJoin(a: seq<Node>, b: seq<Node>)
    requires a != [] && b != []
    ensures Path(a + b) <==> Path(a) && Path(b) && Adjacent(a[|a| - 1], b[0])
  {
    var s := a + b;
    if Path(s) {
      assert Adjacent(s[|a| - 1], s[|a|]);
      forall i | 0 <= i < |a| - 1 ensures Adjacent(a[i], a[i + 1]) { assert Adjacent(s[i], s[i + 1]); }
      forall i | 0 <= i < |b| - 1 ensures Adjacent(b[i], b[i + 1]) { assert Adjacent(s[|a| + i], s[|a| + i + 1]); }
    } else {
      var i :| 0 <= i < |s| - 1 && !Adjacent(s[i], s[i + 1]);
      if i >= |a| { assert s[i] == b[i - |a|] && s[i + 1] == b[i - |a| + 1]; }
    }
  }

  lemma DistinctJoin(a: seq<Node>, b: seq<Node>)
    ensures Distinct(a + b) <==> Distinct(a) && Distinct(b) && forall x | x in a :: x !in b
  {
    var s := a + b;
    if Distinct(s) {
      forall i, j | 0 <= i < |a| && 0 <= j < |b| ensures a[i] != b[j] { assert s[i] != s[|a| + j]; }
      forall i, j | 0 <= i < j < |b| ensures b[i] != b[j] { assert s[|a| + i] != s[|a| + j]; }
      forall i, j | 0 <= i < j < |a| ensures a[i] != a[j] { assert s[i] != s[j]; }
    }
    if Distinct(a) && Distinct(b) && forall x | x in a :: x !in b {
      forall i, j | 0 <= i < j < |s| ensures s[i] != s[j] {
        if j >= |a| {
          assert s[j] == b[j - |a|] && b[j - |a|] in b;
          if i < |a| { assert a[i] in a; } else { assert s[i] == b[i - |a|]; }
        }
      }
    }
  }

  /** A ring may be read from any of its nodes. */
  lemma Turn(a: seq<Node>, b: seq<Node>)
    requires Ring(a + b)
    ensures Ring(b + a)
  {
    if a == [] || b == [] {
      assert a + b == b + a;
    } else {
      PathJoin(a, b);
      PathJoin(b, a);
      DistinctJoin(a, b);
      DistinctJoin(b, a);
    }
  }

  /** A ring made of two pieces. */
  lemma RingOfTwo(a: seq<Node>, b: seq<Node>)
    requires a != [] && b != []
    ensures Ring(a + b) <==>
      && Distinct(a + b) && Path(a) && Path(b) && Adjacent(a[|a| - 1], b[0]) && Adjacent(b[|b| - 1], a[0])
  {
    PathJoin(a, b);
  }

  /** A path whose inner links were not written is still a path. */
  twostate lemma PathKept(s: seq<Node>)
    requires old(Path(s))
    requires forall i :: 0 <= i < |s| - 1 ==> s[i].next == old(s[i].next)
    requires forall i :: 0 < i < |s| ==> s[i].prev == old(s[i].prev)
    ensures Path(s)
  {
    forall i | 0 <= i < |s| - 1 ensures Adjacent(s[i], s[i + 1]) {
      assert old(Adjacent(s[i], s[i + 1]));
    }
  }

  /** A ring none of whose nodes was written is still a ring. */
  twostate lemma RingKept(s: seq<Node>)
    requires old(Ring(s))
    requires forall i :: 0 <= i < |s| ==> s[i].next == old(s[i].next) && s[i].prev == old(s[i].prev)
    ensures Ring(s)
  {
    PathKept(s);
  }

  // ----- Insertion and removal -----

  method InitListHead(list: Node)
    modifies list
    ensures Ring([list])
  {
    list.next := list;
    list.prev := list;
  }

  /** Insert between neighbours: `r` is the ring read from `q` round to `p`. */
  method AddBetween(n: Node, p: Node, q: Node, ghost r: seq<Node>)
    requires Ring(r) && r[|r| - 1] == p && r[0] == q && n !in r
    modifies n, p`next, q`prev
    ensures Ring(r + [n])
  {
    q.prev := n;
    n.next := q;
    n.prev := p;
    p.next := n;
    PathKept(r);
    DistinctJoin(r, [n]);
    RingOfTwo(r, [n]);
  }

  /** Insert first. */
  method ListAdd(n: Node, head: Node, ghost items: seq<Node>)
    requires Ring([head] + items) && n !in [head] + items
    modifies n, [head] + items
    ensures Ring([head, n] + items)
  {
    Turn([head], items);
    assert (items + [head])[0] == if items == [] then head else items[0];
    assert items != [] ==> ([head] + items)[1] == items[0];
    AddBetween(n, head, head.next, items + [head]);
    assert (items + [head]) + [n] == items + [head, n];
    Turn(items, [head, n]);
  }

  /** Insert last. */
  method ListAddTail(n: Node, head: Node, ghost items: seq<Node>)
    requires Ring([head] + items) && n !in [head] + items
    modifies n, [head] + items
    ensures Ring([head] + items + [n])
  {
    AddBetween(n, head.prev, head, [head] + items);
  }

  /** Make the neighbours of a node point at each other; `rest` is the ring behind it. */
  method Unlink(p: Node, q: Node, ghost e: Node, ghost rest: seq<Node>)
    requires Ring([e] + rest) && rest != [] && p == rest[|rest| - 1] && q == rest[0]
    modifies p`next, q`prev
    ensures Ring(rest) && e !in rest
  {
    PathJoin([e], rest);
    DistinctJoin([e], rest);
    q.prev := p;
    p.next := q;
    PathKept(rest);
  }

  /** The ring read from `e`, and its neighbours. */
  lemma ReadFrom(before: seq<Node>, e: Node, ys: seq<Node>)
    requires before != [] && Ring(before + [e] + ys)
    ensures Ring([e] + (ys + before)) && e !in ys + before
    ensures e.prev == before[|before| - 1] && e.next == (ys + before)[0]
  {
    assert before + [e] + ys == before + ([e] + ys);
    Turn(before, [e] + ys);
    assert ([e] + ys) + before == [e] + (ys + before);
    RingOfTwo([e], ys + before);
    DistinctJoin([e], ys + before);
  }

  /** Remove `e` from its list and poison its pointers. */
  method ListDel(e: Node, ghost before: seq<Node>, ghost ys: seq<Node>)
    requires before != [] && Ring(before + [e] + ys)
    modifies before, e, ys
    ensures Ring(before + ys) && e.next == null && e.prev == null
  {
    ReadFrom(before, e, ys);
    Unlink(e.prev, e.next, e, ys + before);
    e.next, e.prev := null, null;
    Turn(ys, before);
  }

  /** Remove `e` and leave it an empty list. */
  method ListDelInit(e: Node, ghost before: seq<Node>, ghost ys: seq<Node>)
    requires before != [] && Ring(before + [e] + ys)
    modifies before, e, ys
    ensures Ring(before + ys) && Ring([e])
  {
    ReadFrom(before, e, ys);
    Unlink(e.prev, e.next, e, ys + before);
    InitListHead(e);
    Turn(ys, before);
  }

  /** Put `n` in the place of `o`, of which nothing is changed; an empty list is overwritten. */
  method ListReplace(o: Node, n: Node, ghost rest: seq<Node>)
    requires Ring([o] + rest) && n !in [o] + rest
    modifies n, [o] + rest
    ensures Ring([n] + rest)
    ensures rest != [] ==> o.next == old(o.next) && o.prev == old(o.prev)
  {
    DistinctJoin([o], rest);
    if rest != [] {
      RingOfTwo([o], rest);
      assert ([o] + rest)[1] == rest[0] && ([o] + rest)[|rest|] == rest[|rest| - 1];
    }
    n.next := o.next;
    n.next.prev := n;
    n.prev := o.prev;
    n.prev.next := n;
    if rest != [] {
      PathKept(rest);
      DistinctJoin([n], rest);
      RingOfTwo([n], rest);
    }
  }

  /** Exchange two nodes of a ring, adjacent or not, in either order. */
  method ListSwap(e1: Node, e2: Node, ghost xs: seq<Node>, ghost ys: seq<Node>)
    requires Ring([e1] + xs + [e2] + ys)
    modifies e1, e2, xs, ys
    ensures Ring([e2] + xs + [e1] + ys)
  {
    hide Ring, Distinct, Path;
    SwapApart(e1, e2, xs, ys);
    var pos := e2.prev;
    ListDel(e2, [e1] + xs, ys);
    assert [e1] + xs + ys == [e1] + (xs + ys);
    ListReplace(e1, e2, xs + ys);
    if pos == e1 { pos := e2; }
    assert [e2] + (xs + ys) == ([e2] + xs) + ys;
    Turn([e2] + xs, ys);
    RingEnds(ys, [e2] + xs);
    AddBetween(e1, pos, pos.next, ys + ([e2] + xs));
    assert (ys + ([e2] + xs)) + [e1] == ys + ([e2] + xs + [e1]);
    Turn(ys, [e2] + xs + [e1]);
  }

  predicate Disjoint(a: seq<Node>, b: seq<Node>) { forall x | x in a :: x !in b }

  /** Exchange nodes of two lists. */
  method ListSwapAcross(e1: Node, e2: Node, ghost xs: seq<Node>, ghost ys: seq<Node>)
    requires ys != [] && Ring([e1] + xs) && Ring([e2] + ys) && Disjoint([e1] + xs, [e2] + ys)
    modifies e1, e2, xs, ys
    ensures Ring([e2] + xs) && Ring([e1] + ys)
  {
    hide Ring, Distinct, Path;
    AcrossApart(e1, e2, xs, ys);
    ghost var r := [e1] + xs;
    var pos := e2.prev;
    Turn([e2], ys);
    assert ys + [e2] + [] == ys + [e2];
    ListDel(e2, ys, []);
    assert ys + [] == ys;
    RingKept(r);
    label deleted:
    ListReplace(e1, e2, xs);
    if pos == e1 { pos := e2; }
    RingKept@deleted(ys);
    assert [] + ys == ys;
    RingEnds([], ys);
    label replaced:
    AddBetween(e1, pos, pos.next, ys);
    RingKept@replaced([e2] + xs);
    Turn(ys, [e1]);
  }

  lemma AcrossApart(e1: Node, e2: Node, xs: seq<Node>, ys: seq<Node>)
    requires ys != [] && Ring([e1] + xs) && Ring([e2] + ys) && Disjoint([e1] + xs, [e2] + ys)
    ensures e1 != e2 && e1 !in ys && e2 !in xs && e1 !in xs && e2 !in ys && Disjoint(xs, ys)
    ensures e2.prev == ys[|ys| - 1] && e2.prev != e1
    ensures var r := [e1] + xs; forall i :: 0 <= i < |r| ==> r[i] !in ys && r[i] != e2
    ensures forall i :: 0 <= i < |ys| ==> ys[i] !in xs && ys[i] != e1 && ys[i] != e2
  {
    assert e1 in [e1] + xs && e2 in [e2] + ys;
    DistinctJoin([e1], xs);
    DistinctJoin([e2], ys);
    assert e1 in [e1] && e2 in [e2];
    forall y | y in ys ensures y in [e2] + ys {
    }
    forall x | x in xs ensures x in [e1] + xs {
    }
    RingEnds([e2], ys);
    assert ys[|ys| - 1] in ys;
  }

  lemma SwapApart(e1: Node, e2: Node, xs: seq<Node>, ys: seq<Node>)
    requires Ring([e1] + xs + [e2] + ys)
    ensures e1 != e2 && e1 !in xs + ys && e2 !in xs + ys
    ensures e2.prev == ([e1] + xs)[|xs|] && (xs != [] ==> e2.prev != e1)
  {
    ReadFrom([e1] + xs, e2, ys);
    assert [e1] + xs + [e2] + ys == [e1] + (xs + [e2] + ys);
    DistinctJoin([e1], xs + [e2] + ys);
    assert e1 in [e1];
    assert e2 in xs + [e2] + ys && e2 !in xs && e2 !in ys;
    if xs != [] { assert ([e1] + xs)[|xs|] == xs[|xs| - 1] && xs[|xs| - 1] in xs; }
  }

  /** The last node of a ring points at its first. */
  lemma RingEnds(a: seq<Node>, b: seq<Node>)
    requires b != [] && Ring(a + b)
    ensures b[|b| - 1].next == (a + b)[0] && (a + b)[0].prev == b[|b| - 1]
    ensures (a + b)[0] in a + b && b[|b| - 1] in a + b
  {
    assert (a + b)[|a + b| - 1] == b[|b| - 1];
  }

  // ----- Moving -----

  /** Move a node to the front of its list. */
  method ListMove(e: Node, head: Node, ghost xs: seq<Node>, ghost ys: seq<Node>)
    requires Ring([head] + xs + [e] + ys)
    modifies head, xs, e, ys
    ensures Ring([head, e] + xs + ys)
  {
    hide Ring;
    ReadFrom([head] + xs, e, ys);
    Unlink(e.prev, e.next, e, ys + ([head] + xs));
    Turn(ys, [head] + xs);
    assert [head] + xs + ys == [head] + (xs + ys);
    ListAdd(e, head, xs + ys);
    assert [head, e] + (xs + ys) == [head, e] + xs + ys;
  }

  /** Move a node to the end of its list. */
  method ListMoveTail(e: Node, head: Node, ghost xs: seq<Node>, ghost ys: seq<Node>)
    requires Ring([head] + xs + [e] + ys)
    modifies head, xs, e, ys
    ensures Ring([head] + xs + ys + [e])
  {
    hide Ring;
    ReadFrom([head] + xs, e, ys);
    Unlink(e.prev, e.next, e, ys + ([head] + xs));
    Turn(ys, [head] + xs);
    assert [head] + xs + ys == [head] + (xs + ys);
    ListAddTail(e, head, xs + ys);
  }

  /** Move a node to the end of another list. */
  method ListMoveTailTo(e: Node, head: Node, ghost items: seq<Node>, ghost before: seq<Node>, ghost ys: seq<Node>)
    requires before != [] && Ring(before + [e] + ys) && Ring([head] + items)
    requires Disjoint([head] + items, before + [e] + ys)
    modifies head, items, before, e, ys
    ensures Ring(before + ys) && Ring([head] + items + [e])
  {
    ReadFrom(before, e, ys);
    var p, q := e.prev, e.next;
    assert p == before[|before| - 1] && q == (ys + before)[0];
    assert (before + [e] + ys)[|before| - 1] == p;
    assert q in ys + before && q in before + [e] + ys && e in before + [e] + ys;
    assert p !in [head] + items && q !in [head] + items && e !in [head] + items;
    Unlink(p, q, e, ys + before);
    Turn(ys, before);
    ghost var r := before + ys;
    assert forall i :: 0 <= i < |r| ==> r[i] in before + [e] + ys && r[i] in ys + before;
    assert forall i :: 0 <= i < |r| ==> r[i] !in [head] + items && r[i] != e;
    label moved:
    ListAddTail(e, head, items);
    RingKept@moved(r);
  }

  /** Move a node to the front of another list. */
  method ListMoveTo(e: Node, head: Node, ghost items: seq<Node>, ghost before: seq<Node>, ghost ys: seq<Node>)
    requires before != [] && Ring(before + [e] + ys) && Ring([head] + items)
    requires Disjoint([head] + items, before + [e] + ys)
    modifies head, items, before, e, ys
    ensures Ring(before + ys) && Ring([head, e] + items)
  {
    ReadFrom(before, e, ys);
    var p, q := e.prev, e.next;
    assert p == before[|before| - 1] && q == (ys + before)[0];
    assert (before + [e] + ys)[|before| - 1] == p;
    assert q in ys + before && q in before + [e] + ys && e in before + [e] + ys;
    assert p !in [head] + items && q !in [head] + items && e !in [head] + items;
    Unlink(p, q, e, ys + before);
    Turn(ys, before);
    ghost var r := before + ys;
    assert forall i :: 0 <= i < |r| ==> r[i] in before + [e] + ys && r[i] in ys + before;
    assert forall i :: 0 <= i < |r| ==> r[i] !in [head] + items && r[i] != e;
    label moved:
    ListAdd(e, head, items);
    RingKept@moved(r);
  }

  /** Rotate by one. */
  method ListRotateLeft(head: Node, ghost items: seq<Node>)
    requires Ring([head] + items)
    modifies head, items
    ensures Ring([head] + if items == [] then [] else items[1..] + [items[0]])
  {
    Follow([head], items);
    if head.next != head {
      var first: Node := head.next;
      assert [head] + items == [head] + [] + [first] + items[1..];
      ListMoveTail(first, head, [], items[1..]);
      assert [head] + [] + items[1..] + [first] == [head] + (items[1..] + [items[0]]);
    }
  }

  /** Rotate until `e` is first: the head moves, not the items. */
  method ListRotateToFront(e: Node, head: Node, ghost xs: seq<Node>, ghost ys: seq<Node>)
    requires Ring([head] + xs + [e] + ys)
    modifies head, xs, e, ys
    ensures Ring([head, e] + ys + xs)
  {
    assert [head] + xs + [e] + ys == ([head] + xs) + ([e] + ys);
    Turn([head] + xs, [e] + ys);
    assert ([e] + ys) + ([head] + xs) == [e] + ys + [head] + xs;
    ListMoveTail(head, e, ys, xs);
    assert [e] + ys + xs + [head] == ([e] + ys + xs) + [head];
    Turn([e] + ys + xs, [head]);
    assert [head] + ([e] + ys + xs) == [head, e] + ys + xs;
  }

  /** Where the pointers of a ring lead, read from `a`. */
  lemma Follow(a: seq<Node>, b: seq<Node>)
    requires a != [] && Ring(a + b)
    ensures a[|a| - 1].next == (if b != [] then b[0] else a[0])
    ensures a[0].prev == if b != [] then b[|b| - 1] else a[|a| - 1]
    ensures b != [] ==> b[0] != a[0] && b[|b| - 1] != a[0]
  {
    if b == [] { assert a + b == a; } else { RingOfTwo(a, b); DistinctJoin(a, b); assert a[0] in a && b[0] in b; }
  }

  lemma RingOfThree(a: seq<Node>, b: seq<Node>, c: seq<Node>)
    requires a != [] && b != [] && c != []
    ensures Ring(a + b + c) <==>
      && Distinct(a + b + c) && Path(a) && Path(b) && Path(c)
      && Adjacent(a[|a| - 1], b[0]) && Adjacent(b[|b| - 1], c[0]) && Adjacent(c[|c| - 1], a[0])
  {
    RingOfTwo(a + b, c);
    PathJoin(a, b);
  }

  /** Two pieces of a ring share no node. */
  predicate Apart(a: seq<Node>, b: seq<Node>) { forall i, j :: 0 <= i < |a| && 0 <= j < |b| ==> a[i] != b[j] }

  lemma PiecesApart(a: seq<Node>, b: seq<Node>, c: seq<Node>)
    requires Distinct(a + b + c)
    ensures Distinct(a) && Distinct(b) && Distinct(c) && Apart(a, b) && Apart(a, c) && Apart(b, c)
  {
    DistinctJoin(a + b, c);
    DistinctJoin(a, b);
    assert forall i :: 0 <= i < |a| ==> a[i] in a && a[i] in a + b;
    assert forall i :: 0 <= i < |b| ==> b[i] in b && b[i] in a + b;
    assert forall i :: 0 <= i < |c| ==> c[i] in c;
  }

  /** Exchanging pieces keeps nodes distinct. */
  lemma DistinctExchange(a: seq<Node>, b: seq<Node>, c: seq<Node>)
    requires Distinct(a + b + c)
    ensures Distinct(a + c + b)
  {
    DistinctJoin(a + b, c);
    DistinctJoin(a, b);
    DistinctJoin(a, c);
    DistinctJoin(a + c, b);
  }

  /** Move the nodes `first` to `last` to the end of their list; nothing happens if they are there. */
  method ListBulkMoveTail(head: Node, first: Node, last: Node,
                          ghost xs: seq<Node>, ghost seg: seq<Node>, ghost ys: seq<Node>)
    requires seg != [] && first == seg[0] && last == seg[|seg| - 1] && Ring([head] + xs + seg + ys)
    modifies head, xs, seg, ys
    ensures Ring([head] + xs + ys + seg)
  {
    ghost var a := [head] + xs;
    PiecesApart(a, seg, ys);
    DistinctExchange(a, seg, ys);
    assert a + [] + seg == a + seg && a + seg + [] == a + seg;
    if ys == [] { RingOfTwo(a, seg); } else { RingOfThree(a, seg, ys); }
    first.prev.next := last.next;
    last.next.prev := first.prev;
    head.prev.next := first;
    first.prev := head.prev;
    last.next := head;
    head.prev := last;
    PathKept(a);
    PathKept(seg);
    PathKept(ys);
    if ys == [] { RingOfTwo(a, seg); } else { RingOfThree(a, ys, seg); }
  }

  // ----- Cutting and joining -----

  /** Move the items `xs`, which end with `entry`, from `head` to `list`. */
  method CutPosition(list: Node, head: Node, entry: Node, ghost xs: seq<Node>, ghost ys: seq<Node>)
    requires xs != [] && entry == xs[|xs| - 1] && Ring([head] + xs + ys) && list !in [head] + xs + ys
    modifies list, head, xs, ys
    ensures Ring([list] + xs) && Ring([head] + ys)
  {
    CutPoints(list, head, xs, ys);
    var newFirst: Node := entry.next;
    list.next := head.next;
    list.next.prev := list;
    list.prev := entry;
    entry.next := list;
    head.next := newFirst;
    newFirst.prev := head;
    PathKept(xs);
    PathKept(ys);
    ClosedUp(list, head, xs, ys);
  }

  /** Cut a list behind the node number `k` of its ring (0: the head). On an empty list, and on a
      list of one item to which `entry` does not belong, nothing happens. */
  method ListCutPosition(list: Node, head: Node, entry: Node, ghost items: seq<Node>, ghost k: nat)
    requires Ring([head] + items) && list !in [head] + items
    requires |items| <= 1 || (k <= |items| && entry == ([head] + items)[k])
    requires entry in [head] + items ==> k <= |items| && entry == ([head] + items)[k]
    modifies list, head, items
    ensures var s := [head] + items;
      if items == [] || entry !in s then Ring(s) && list.next == old(list.next) && list.prev == old(list.prev)
      else Ring([list] + items[..k]) && Ring([head] + items[k..])
  {
    Follow([head], items);
    Singular(head, items);
    if head.next == head { return; }
    if head.next == head.prev && head.next != entry && head != entry { return; }
    assert items[..k] + items[k..] == items;
    if entry == head {
      FirstOnly(head, items);
      InitListHead(list);
      assert [list] + items[..k] == [list] && items[k..] == items;
    } else {
      assert [head] + items[..k] + items[k..] == [head] + items;
      CutPosition(list, head, entry, items[..k], items[k..]);
    }
  }

  /** The head stands in its ring once. */
  lemma FirstOnly(head: Node, items: seq<Node>)
    requires Distinct([head] + items)
    ensures forall k | 0 < k <= |items| :: ([head] + items)[k] != head
  {
    var s := [head] + items;
    forall k | 0 < k <= |items| ensures s[k] != head { assert s[0] != s[k]; }
  }

  /** One item is both first and last; of several, the first is not the last. */
  lemma Singular(head: Node, items: seq<Node>)
    requires Ring([head] + items)
    ensures items != [] && head.next == head.prev <==> |items| == 1
    ensures |items| == 1 ==> head.next == items[0]
  {
    Follow([head], items);
    if |items| > 1 { DistinctJoin([head], items); }
  }

  /** The nodes around two cuts, and that none of them is `list`. */
  lemma CutPoints(list: Node, head: Node, xs: seq<Node>, ys: seq<Node>)
    requires xs != [] && Ring([head] + xs + ys) && list !in [head] + xs + ys
    ensures Distinct(xs) && Distinct(ys) && Distinct([head] + ys) && Apart(xs, ys) && Path(xs) && Path(ys)
    ensures Apart([list], xs) && Apart([list], ys) && Apart([head], xs) && Apart([head], ys) && list != head
    ensures head.next == xs[0] && xs[0].prev == head
    ensures ys == [] ==> head.prev == xs[|xs| - 1] && xs[|xs| - 1].next == head
    ensures ys != [] ==> ys[0].prev == xs[|xs| - 1] && xs[|xs| - 1].next == ys[0]
    ensures ys != [] ==> Adjacent(ys[|ys| - 1], head)
  {
    PiecesApart([head], xs, ys);
    assert forall i :: 0 <= i < |xs| ==> xs[i] in [head] + xs + ys;
    assert forall i :: 0 <= i < |ys| ==> ys[i] in [head] + xs + ys;
    assert head in [head] + xs + ys;
    assert [head] + xs + [] == [head] + xs && [head] + [] == [head];
    if ys == [] { RingOfTwo([head], xs); } else { RingOfThree([head], xs, ys); }
    DistinctJoin([head], ys);
    assert forall i :: 0 <= i < |ys| ==> ys[i] != [head][0];
  }

  method CutBefore(list: Node, head: Node, entry: Node, ghost xs: seq<Node>, ghost ys: seq<Node>)
    requires xs != [] && Ring([head] + xs + ys) && list !in [head] + xs + ys
    requires entry == if ys == [] then head else ys[0]
    modifies list, head, xs, ys
    ensures Ring([list] + xs) && Ring([head] + ys)
  {
    CutPoints(list, head, xs, ys);
    list.next := head.next;
    list.next.prev := list;
    list.prev := entry.prev;
    list.prev.next := list;
    head.next := entry;
    entry.prev := head;
    PathKept(xs);
    PathKept(ys);
    ClosedUp(list, head, xs, ys);
  }

  /** Both halves of a cut list are rings again. */
  lemma ClosedUp(list: Node, head: Node, xs: seq<Node>, ys: seq<Node>)
    requires xs != [] && Distinct(xs) && Apart([list], xs) && Path(xs) && Path(ys) && Distinct([head] + ys)
    requires Adjacent(list, xs[0]) && Adjacent(xs[|xs| - 1], list)
    requires if ys == [] then Adjacent(head, head) else Adjacent(head, ys[0]) && Adjacent(ys[|ys| - 1], head)
    ensures Ring([list] + xs) && Ring([head] + ys)
  {
    assert forall i :: 0 <= i < |xs| ==> [list][0] != xs[i];
    DistinctJoin([list], xs);
    RingOfTwo([list], xs);
    if ys != [] { RingOfTwo([head], ys); }
  }

  /** Cut a list before `entry`, the first of the nodes `ys` or, if these are none, the head. */
  method ListCutBefore(list: Node, head: Node, entry: Node, ghost xs: seq<Node>, ghost ys: seq<Node>)
    requires Ring([head] + xs + ys) && list !in [head] + xs + ys
    requires entry == if ys == [] then head else ys[0]
    modifies list, head, xs, ys
    ensures Ring([list] + xs) && Ring([head] + ys)
  {
    if xs != [] { CutPoints(list, head, xs, ys); }
    assert [head] + [] + ys == [head] + ys && [list] + [] == [list];
    if xs == [] { Follow([head], ys); }
    if head.next == entry {
      InitListHead(list);
      return;
    }
    CutBefore(list, head, entry, xs, ys);
  }

  /** Put the items of `list` between neighbours: `r` is the ring read from `q` round to `p`. */
  method SpliceBetween(list: Node, p: Node, q: Node, ghost xs: seq<Node>, ghost r: seq<Node>)
    requires Ring([list] + xs) && xs != [] && Ring(r) && r[|r| - 1] == p && r[0] == q
    requires Disjoint(r, [list] + xs)
    modifies xs, p`next, q`prev
    ensures Ring(r + xs)
    ensures list.next == old(list.next) && list.prev == old(list.prev)
  {
    DistinctJoin([list], xs);
    RingOfTwo([list], xs);
    assert forall i :: 0 <= i < |r| ==> r[i] in r;
    assert forall i :: 0 <= i < |xs| ==> xs[i] in [list] + xs && xs[i] in xs;
    assert list in [list] + xs && list in [list];
    var first: Node, last: Node := list.next, list.prev;
    first.prev := p;
    p.next := first;
    last.next := q;
    q.prev := last;
    PathKept(xs);
    PathKept(r);
    DistinctJoin(r, xs);
    RingOfTwo(r, xs);
  }

  /** Put the items of `list` in front of those of `head`. `list` itself is left as it is. */
  method ListSplice(list: Node, head: Node, ghost xs: seq<Node>, ghost ys: seq<Node>)
    requires Ring([list] + xs) && Ring([head] + ys) && Disjoint([head] + ys, [list] + xs)
    modifies xs, head, ys
    ensures Ring([head] + xs + ys)
    ensures list.next == old(list.next) && list.prev == old(list.prev)
  {
    Follow([list], xs);
    assert [head] + [] + ys == [head] + ys;
    if list.next != list {
      Turn([head], ys);
      Follow([head], ys);
      assert ys != [] ==> ([head] + ys)[1] == ys[0];
      assert forall x | x in ys + [head] :: x in [head] + ys;
      SpliceBetween(list, head, head.next, xs, ys + [head]);
      assert (ys + [head]) + xs == ys + ([head] + xs);
      Turn(ys, [head] + xs);
    }
  }

  /** Put the items of `list` behind those of `head`. */
  method ListSpliceTail(list: Node, head: Node, ghost xs: seq<Node>, ghost ys: seq<Node>)
    requires Ring([list] + xs) && Ring([head] + ys) && Disjoint([head] + ys, [list] + xs)
    modifies xs, head, ys
    ensures Ring([head] + ys + xs)
    ensures list.next == old(list.next) && list.prev == old(list.prev)
  {
    Follow([list], xs);
    assert [head] + ys + [] == [head] + ys;
    if list.next != list {
      Follow([head], ys);
      assert ys != [] ==> ([head] + ys)[|ys|] == ys[|ys| - 1];
      SpliceBetween(list, head.prev, head, xs, [head] + ys);
    }
  }

  /** The same, leaving `list` empty. */
  method ListSpliceTailInit(list: Node, head: Node, ghost xs: seq<Node>, ghost ys: seq<Node>)
    requires Ring([list] + xs) && Ring([head] + ys) && Disjoint([head] + ys, [list] + xs)
    modifies list, xs, head, ys
    ensures Ring([head] + ys + xs) && Ring([list])
  {
    Follow([list], xs);
    DistinctJoin([list], xs);
    assert list in [list] && list in [list] + xs;
    assert list !in [head] + ys + xs;
    ghost var items := xs;
    if list.next != list {
      ListSpliceTail(list, head, xs, ys);
      InitListHead(list);
    } else {
      assert [list] + xs == [list] && [head] + ys + xs == [head] + ys;
    }
  }

  // ----- Questions -----

  /** What the tests on pointers mean. */
  lemma Questions(head: Node, items: seq<Node>, k: nat)
    requires Ring([head] + items) && k < |items|
    ensures head.next != head && (items[k].prev == head <==> k == 0) && (items[k].next == head <==> k == |items| - 1)
    ensures head.next == head.prev <==> |items| == 1
  {
    var s := [head] + items;
    Follow([head], items);
    Singular(head, items);
    DistinctJoin([head], items);
    assert items[k] == s[k + 1];
    assert Adjacent(s[k], s[k + 1]);
    if k < |items| - 1 { assert Adjacent(s[k + 1], s[k + 2]); }
    assert forall i :: 0 <= i < |items| ==> items[i] in items;
    assert head in [head];
  }

  lemma EmptyList(head: Node, items: seq<Node>)
    requires Ring([head] + items)
    ensures head.next == head <==> items == []
  {
    Follow([head], items);
  }
}
