/** The multi-context firmware refines the single-context one: seen through a ring's pointers and
    the packets between them, a publication is one single-context iteration and every other
    firmware event is no event at all. */
module EchoRefinement {
  import opened RingGeometry
  import opened PacketEcho
  import opened EchoDevice
  import opened EchoHistory
  import opened RxInvariant
  import opened TxInvariant
  import opened EchoInvariant
  import opened EchoTheorems

  datatype RingView = RingView(head: nat, tail: nat, unread: seq<Packet>)

  function View(g: Geometry, mem: seq<Byte>, head: nat, tail: nat): RingView
    requires g.Valid()
  {
    RingView(head, tail, Unread(g, mem, head, tail))
  }

  function RxView(d: Device): RingView
    requires d.g.Valid()
  {
    View(d.g, d.rx.mem, d.rx.head, d.rx.tail)
  }

  function TxView(d: Device): RingView
    requires d.g.Valid()
  {
    View(d.g, d.tx.mem, d.tx.head, d.tx.tail)
  }

  /** A single producer's iteration: only with room left, one packet at the end. */
  predicate Produces(g: Geometry, v: RingView, v': RingView, pkt: Packet) {
    Advance(g, v.tail) != v.head && v' == RingView(v.head, Advance(g, v.tail), v.unread + [pkt])
  }

  /** A single consumer's iteration: only with something there, the packet at the front. */
  predicate Consumes(g: Geometry, v: RingView, v': RingView, pkt: Packet) {
    && v.head != v.tail && v.unread != [] && pkt == v.unread[0]
    && v' == RingView(Advance(g, v.head), v.tail, v.unread[1..])
  }

  /** A pointer some number of advances away from the head of a ring. */
  ghost predicate Between(g: Geometry, i: nat, j: nat) {
    g.Valid() && i <= j < i + g.Slots()
  }

  /** The first `j` slots the pointer visits, as packets. */
  function Visited(g: Geometry, mem: seq<Byte>, j: nat): (v: seq<Packet>)
    requires g.Valid() && |mem| == g.capacity
    ensures |v| == j
  {
    if j == 0 then []
    else OffsetFits(g, j - 1); Visited(g, mem, j - 1) + [Load(g, mem, Offset(g, j - 1))]
  }

  lemma {:induction false} VisitedAt(g: Geometry, mem: seq<Byte>, j: nat, k: nat)
    requires g.Valid() && |mem| == g.capacity && k < j
    ensures Offset(g, k) + g.size <= |mem| && Visited(g, mem, j)[k] == Load(g, mem, Offset(g, k))
  {
    OffsetFits(g, k);
    if k < j - 1 { VisitedAt(g, mem, j - 1, k); }
  }

  lemma UnreadIsVisited(g: Geometry, mem: seq<Byte>, i: nat, j: nat)
    requires Between(g, i, j) && |mem| == g.capacity
    ensures Unread(g, mem, Offset(g, i), Offset(g, j)) == Visited(g, mem, j)[i..j]
  {
    forall k | i <= k < j
      ensures Offset(g, k) + g.size <= |mem| && Load(g, mem, Offset(g, k)) == Visited(g, mem, j)[k]
    {
      VisitedAt(g, mem, j, k);
    }
    WalkReads(g, mem, i, j, Visited(g, mem, j), g.Slots());
  }

  /** What a successful single-context receive iteration does to memory and tail (see
      `SingleContext.Ring.RxProcess`) is `Produces` on the ring's view. */
  lemma RxIterationProduces(g: Geometry, mem: seq<Byte>, i: nat, j: nat, pkt: Packet)
    requires Between(g, i, j) && |mem| == g.capacity && |pkt| == g.size
    requires Advance(g, Offset(g, j)) != Offset(g, i)
    ensures Offset(g, j) + g.size <= |mem|
    ensures Produces(g, View(g, mem, Offset(g, i), Offset(g, j)),
                     View(g, Store(g, mem, Offset(g, j), pkt), Offset(g, i), Offset(g, j + 1)), pkt)
  {
    hide Advance, Load, Geometry.Slots, Visited, Walk;
    OffsetFits(g, j);
    SameOffset(g, i, j + 1);
    var mem' := Store(g, mem, Offset(g, j), pkt);
    var all := Visited(g, mem, j) + [pkt];
    UnreadIsVisited(g, mem, i, j);
    forall k | i <= k < j + 1
      ensures Offset(g, k) + g.size <= |mem'| && Load(g, mem', Offset(g, k)) == all[k]
    {
      StoreSlot(g, mem, j, k, pkt);
      if k < j { VisitedAt(g, mem, j, k); }
    }
    WalkReads(g, mem', i, j + 1, all, g.Slots());
    assert all[i..j + 1] == Visited(g, mem, j)[i..j] + [pkt];
  }

  /** What a successful single-context transmit iteration takes and does to the head (see
      `SingleContext.Ring.TxProcess`) is `Consumes` on the ring's view. */
  lemma TxIterationConsumes(g: Geometry, mem: seq<Byte>, i: nat, j: nat)
    requires Between(g, i, j) && |mem| == g.capacity && Offset(g, i) != Offset(g, j)
    ensures Offset(g, i) + g.size <= |mem|
    ensures Consumes(g, View(g, mem, Offset(g, i), Offset(g, j)),
                     View(g, mem, Offset(g, i + 1), Offset(g, j)), Load(g, mem, Offset(g, i)))
  {
    VisitedAt(g, mem, j, i);
    UnreadIsVisited(g, mem, i, j);
    UnreadIsVisited(g, mem, i + 1, j);
  }

  /** The view of a ring whose slots i..j hold `packets[i..j]`. */
  ghost function Slice(g: Geometry, i: nat, j: nat, packets: seq<Packet>): RingView
    requires i <= j <= |packets|
  {
    RingView(Offset(g, i), Offset(g, j), packets[i..j])
  }

  lemma SliceProduces(g: Geometry, i: nat, j: nat, packets: seq<Packet>)
    requires g.Valid() && i <= j < |packets| && j + 1 < i + g.Slots()
    ensures Produces(g, Slice(g, i, j, packets), Slice(g, i, j + 1, packets), packets[j])
  {
    SameOffset(g, i, j + 1);
    assert packets[i..j + 1] == packets[i..j] + [packets[j]];
  }

  lemma SliceConsumes(g: Geometry, i: nat, j: nat, packets: seq<Packet>)
    requires g.Valid() && i < j <= |packets| && j < i + g.Slots()
    ensures Consumes(g, Slice(g, i, j, packets), Slice(g, i + 1, j, packets), packets[i])
  {
    SameOffset(g, i, j);
  }

  lemma RxViewIs(s: State, reserved: seq<Packet>)
    requires Inv(s) && s.log.rx.reserved <= reserved
    ensures RxView(s.dev) == Slice(s.dev.g, s.log.rx.freed, s.log.rx.published, reserved)
  {
    RxUnread(s, s.log.rx.freed);
  }

  lemma TxViewIs(s: State, copied: seq<Packet>)
    requires Inv(s) && s.log.host.copied <= copied
    ensures TxView(s.dev) == Slice(s.dev.g, |s.log.tx.taken|, s.log.tx.posted, copied)
  {
    TxUnread(s, s.log.tx.posted);
  }

  /** The counters an event moves. */
  lemma EventMoves(s: State, ev: Event)
    requires Sized(s) && Enabled(s.dev, ev, true)
    ensures Next(s, ev, true).dev.g == s.dev.g
    ensures var l, l' := s.log, Next(s, ev, true).log;
      && l'.rx.published == l.rx.published + (if ev.RxPublishBy? then 1 else 0)
      && l'.rx.freed == (if ev.HostPostRxHead? then |l.host.copied| else l.rx.freed)
      && l'.tx.posted == (if ev.HostPostTxTail? then |l.host.copied| else l.tx.posted)
      && l'.tx.taken == l.tx.taken + (if ev.TxPublishBy? then [s.dev.tx.ctx[ev.c].pkt] else [])
      && l.rx.reserved <= l'.rx.reserved && l.host.copied <= l'.host.copied
  {
  }

  /** Receive side: a publication by any context is one iteration of the single-context loop, for
      the packet reserved longest ago; the worker's head update consumes the oldest packet; nothing
      else is visible. */
  lemma MultiRxRefinesSingle(s: State, ev: Event)
    requires Reachable(s) && Sized(s) && Enabled(s.dev, ev, true)
    ensures var v, v' := RxView(s.dev), RxView(Next(s, ev, true).dev);
      if ev.RxPublishBy? then
        s.log.rx.published < |s.log.rx.reserved|
        && Produces(s.dev.g, v, v', s.log.rx.reserved[s.log.rx.published])
      else if ev.HostPostRxHead? then
        s.log.rx.freed < |s.log.rx.reserved| && Consumes(s.dev.g, v, v', s.log.rx.reserved[s.log.rx.freed])
      else
        v' == v
  {
    hide Do, Record, Next, RxView, TxView, Slice, Produces, Consumes, Offset, Advance, Load, Geometry.Slots, Geometry.Valid;
    ReachableInv(s);
    NextKeeps(s, ev);
    EventMoves(s, ev);
    var g, l, all := s.dev.g, s.log.rx, Next(s, ev, true).log.rx.reserved;
    RxViewIs(s, all);
    RxViewIs(Next(s, ev, true), all);
    if ev.RxPublishBy? {
      assert RxHolderOk(g, s.dev.rx, l, ev.c);
      SliceProduces(g, l.freed, l.published, all);
    } else if ev.HostPostRxHead? {
      SliceConsumes(g, l.freed, l.published, all);
    }
  }

  /** Transmit side, with producer and consumer exchanged. */
  lemma MultiTxRefinesSingle(s: State, ev: Event)
    requires Reachable(s) && Sized(s) && Enabled(s.dev, ev, true)
    ensures var v, v' := TxView(s.dev), TxView(Next(s, ev, true).dev);
      if ev.TxPublishBy? then
        Consumes(s.dev.g, v, v', s.dev.tx.ctx[ev.c].pkt)
      else if ev.HostPostTxTail? then
        s.log.tx.posted < |s.log.host.copied|
        && Produces(s.dev.g, v, v', s.log.host.copied[s.log.tx.posted])
      else
        v' == v
  {
    hide Do, Record, Next, RxView, TxView, Slice, Produces, Consumes, Offset, Advance, Load, Geometry.Slots, Geometry.Valid;
    ReachableInv(s);
    NextKeeps(s, ev);
    EventMoves(s, ev);
    var g, l, all := s.dev.g, s.log.tx, Next(s, ev, true).log.host.copied;
    TxViewIs(s, all);
    TxViewIs(Next(s, ev, true), all);
    if ev.TxPublishBy? {
      assert TxHolderOk(g, s.dev.tx, l, s.log.host.copied, ev.c);
      SliceConsumes(g, |l.taken|, l.posted, all);
    } else if ev.HostPostTxTail? {
      SliceProduces(g, |l.taken|, l.posted, all);
    }
  }
}
