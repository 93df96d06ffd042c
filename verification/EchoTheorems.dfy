/** What holds in every state the echo path can reach, with CLS replies resumed in order. */
module EchoTheorems {
  import opened RingGeometry
  import opened PacketEcho
  import opened EchoDevice
  import opened EchoHistory
  import opened RxInvariant
  import opened TxInvariant
  import opened EchoInvariant

  // ----- Reading a ring through its pointers -----

  /** The entries a reader finds from pointer `p` up to pointer `q`, walking at most `steps`. */
  function Walk(g: Geometry, mem: seq<Byte>, p: nat, q: nat, steps: nat): seq<Packet>
    decreases steps
  {
    if p == q || steps == 0 || p + g.size > |mem| then []
    else [Load(g, mem, p)] + Walk(g, mem, Advance(g, p), q, steps - 1)
  }

  function Unread(g: Geometry, mem: seq<Byte>, head: nat, tail: nat): seq<Packet>
    requires g.Valid()
  {
    Walk(g, mem, head, tail, g.Slots())
  }

  /** A ring whose slots i..j hold `packets[i..j]` reads as exactly these packets. */
  lemma {:induction false} WalkReads(g: Geometry, mem: seq<Byte>, i: nat, j: nat, packets: seq<Packet>, steps: nat)
    requires g.Valid() && |mem| == g.capacity
    requires i <= j <= |packets| && j - i <= steps && j - i < g.Slots()
    requires forall k :: i <= k < j ==>
      Offset(g, k) + g.size <= |mem| && Load(g, mem, Offset(g, k)) == packets[k]
    ensures Walk(g, mem, Offset(g, i), Offset(g, j), steps) == packets[i..j]
    decreases j - i
  {
    hide Advance, Geometry.Slots, Geometry.Valid, Store, Load;
    SameOffset(g, i, j);
    if i < j {
      WalkReads(g, mem, i + 1, j, packets, steps - 1);
      assert Load(g, mem, Offset(g, i)) == packets[i];
      assert packets[i..j] == [packets[i]] + packets[i + 1..j];
    }
  }

  lemma RxUnread(s: State, from: nat)
    requires Inv(s) && s.log.rx.freed <= from <= s.log.rx.published
    ensures Unread(s.dev.g, s.dev.rx.mem, Offset(s.dev.g, from), s.dev.rx.tail)
         == s.log.rx.reserved[from..s.log.rx.published]
  {
    var g, l := s.dev.g, s.log.rx;
    forall k | from <= k < l.published
      ensures Offset(g, k) + g.size <= |s.dev.rx.mem| && Load(g, s.dev.rx.mem, Offset(g, k)) == l.reserved[k]
    {
      assert RxSlotReady(g, s.dev.rx, l, k);
    }
    WalkReads(g, s.dev.rx.mem, from, l.published, l.reserved, g.Slots());
  }

  lemma TxUnread(s: State, upTo: nat)
    requires Inv(s) && |s.log.tx.taken| <= upTo <= |s.log.host.copied|
    ensures Unread(s.dev.g, s.dev.tx.mem, s.dev.tx.head, Offset(s.dev.g, upTo))
         == s.log.host.copied[|s.log.tx.taken|..upTo]
  {
    var g, copied := s.dev.g, s.log.host.copied;
    forall k | |s.log.tx.taken| <= k < upTo
      ensures Offset(g, k) + g.size <= |s.dev.tx.mem| && Load(g, s.dev.tx.mem, Offset(g, k)) == copied[k]
    {
      assert TxSlotReady(g, s.dev.tx, copied, k);
    }
    WalkReads(g, s.dev.tx.mem, |s.log.tx.taken|, upTo, copied, g.Slots());
  }

  // ----- End to end -----

  /** In every interleaving the packets taken by transmission, then those lying in the transmit
      ring, then those lying in the receive ring are the published packets in the order in which
      their slots were reserved: nothing lost, repeated, reordered or altered. */
  lemma EndToEnd(s: State)
    requires Reachable(s)
    ensures var d, l := s.dev, s.log;
      && d.g.Valid()
      && l.rx.published <= |l.rx.reserved|
      && l.tx.taken + Unread(d.g, d.tx.mem, d.tx.head, d.host.txTail)
           + Unread(d.g, d.rx.mem, d.host.rxHead, d.rx.tail) == l.rx.reserved[..l.rx.published]
  {
    ReachableInv(s);
    TxUnread(s, |s.log.host.copied|);
    RxUnread(s, |s.log.host.copied|);
    SplitThree(s.log.rx.reserved, s.log.host.copied, s.log.tx.taken, s.log.rx.published);
  }

  lemma SplitThree<T>(all: seq<T>, middle: seq<T>, first: seq<T>, n: nat)
    requires |first| <= |middle| <= n <= |all|
    requires middle == all[..|middle|] && first == middle[..|first|]
    ensures first + middle[|first|..|middle|] + all[|middle|..n] == all[..n]
  {
  }

  /** Every packet taken has been handed to the NBI, or exactly one context is about to hand it
      over; no context ever hands over a packet a second time. */
  lemma HandedOverOnce(s: State)
    requires Reachable(s) && Sized(s)
    ensures forall i | 0 <= i < |s.log.tx.taken| ::
      i in s.log.tx.sent <==> !exists c :: 0 <= c < |s.dev.tx.ctx| && AboutToSend(s, c, i)
    ensures forall b, c, i | 0 <= b < |s.dev.tx.ctx| && 0 <= c < |s.dev.tx.ctx| ::
      AboutToSend(s, b, i) && AboutToSend(s, c, i) ==> b == c
    ensures forall c | 0 <= c < |s.dev.tx.ctx| && s.dev.tx.ctx[c].TxSending? ::
      s.log.tx.count[c] < |s.log.tx.taken| && AboutToSend(s, c, s.log.tx.count[c])
  {
    ReachableInv(s);
    var e, l, copied := s.dev.tx, s.log.tx, s.log.host.copied;
    forall c | 0 <= c < |e.ctx| && e.ctx[c].TxSending?
      ensures l.count[c] < |l.taken| && AboutToSend(s, c, l.count[c])
      ensures l.owner[l.count[c]] == c && l.count[c] !in l.sent
    {
      assert TxHolderOk(s.dev.g, e, l, copied, c);
    }
    forall i | 0 <= i < |l.taken| && i !in l.sent ensures exists c :: 0 <= c < |e.ctx| && AboutToSend(s, c, i) {
      assert TxOwner(e, l, i);
      assert AboutToSend(s, l.owner[i], i);
    }
  }

  /** Context `c` is about to hand packet number `i` to the NBI. */
  predicate AboutToSend(s: State, c: nat, i: nat)
    requires Sized(s) && c < |s.dev.tx.ctx|
  {
    i < |s.log.tx.taken| && s.dev.tx.ctx[c] == TxSending(s.log.tx.taken[i]) && s.log.tx.count[c] == i
  }

  // ----- Safety of the two rings -----

  /** Two slots do not share a byte. */
  predicate Apart(g: Geometry, p: nat, q: nat) { p + g.size <= q || q + g.size <= p }

  lemma CountersApart(g: Geometry, i: nat, j: nat)
    requires g.Valid() && i != j && i < j + g.Slots() && j < i + g.Slots()
    ensures Apart(g, Offset(g, i), Offset(g, j))
  {
    if i < j { OffsetsApart(g, i, j); } else { OffsetsApart(g, j, i); }
  }

  /** Receive ring: the wrapped pointers stand for counters that never overrun each other; a slot
      held by a context is shared with no other context and with no slot still to be read; the
      slot the host copies holds the complete packet. */
  lemma RxSafety(s: State)
    requires Reachable(s)
    ensures var g, e, l := s.dev.g, s.dev.rx, s.log.rx;
      && l.freed <= l.published <= |l.reserved| <= l.freed + g.Slots() - 1
      && e.head == Offset(g, l.freed) && e.tail == Offset(g, l.published)
      && e.shadowTail == Offset(g, |l.reserved|)
      && (forall b, c :: 0 <= b < c < |e.ctx| && RxHolds(e.ctx[b]) && RxHolds(e.ctx[c]) ==>
            Apart(g, e.ctx[b].tail, e.ctx[c].tail))
      && (forall c, i :: 0 <= c < |e.ctx| && RxHolds(e.ctx[c]) && l.freed <= i < l.published ==>
            Apart(g, e.ctx[c].tail, Offset(g, i)))
      && (s.dev.host.stage == Copying ==>
            && e.head == s.dev.host.rxHead && |s.log.host.copied| < l.published
            && s.dev.host.rxHead + g.size <= |e.mem|
            && Load(g, e.mem, s.dev.host.rxHead) == l.reserved[|s.log.host.copied|])
  {
    hide Offset, Advance, Load, Apart, TxInv, Geometry.Slots;
    ReachableInv(s);
    var g, e, l := s.dev.g, s.dev.rx, s.log.rx;
    forall b, c | 0 <= b < c < |e.ctx| && RxHolds(e.ctx[b]) && RxHolds(e.ctx[c])
      ensures Apart(g, e.ctx[b].tail, e.ctx[c].tail)
    {
      assert RxHolderOk(g, e, l, b) && RxHolderOk(g, e, l, c);
      CountersApart(g, l.count[b], l.count[c]);
    }
    forall c, i | 0 <= c < |e.ctx| && RxHolds(e.ctx[c]) && l.freed <= i < l.published
      ensures Apart(g, e.ctx[c].tail, Offset(g, i))
    {
      assert RxHolderOk(g, e, l, c);
      CountersApart(g, l.count[c], i);
    }
    if s.dev.host.stage == Copying {
      assert RxSlotReady(g, e, l, |s.log.host.copied|);
    }
  }

  /** Transmit ring: no slot is claimed before the host has posted it; a claimed slot is shared
      with no other context and holds its packet unchanged until its commit, whatever the host
      is writing. */
  lemma TxSafety(s: State)
    requires Reachable(s)
    ensures var g, e, l, n := s.dev.g, s.dev.tx, s.log.tx, |s.log.host.copied|;
      && |l.taken| <= |l.owner| <= l.posted <= n <= |l.taken| + g.Slots() - 1
      && e.head == Offset(g, |l.taken|) && e.shadowHead == Offset(g, |l.owner|)
      && e.tail == Offset(g, l.posted)
      && (forall b, c :: 0 <= b < c < |e.ctx| && TxHolds(e.ctx[b]) && TxHolds(e.ctx[c]) ==>
            Apart(g, e.ctx[b].head, e.ctx[c].head))
      && (forall c :: 0 <= c < |e.ctx| && TxHolds(e.ctx[c]) ==>
            && e.ctx[c].head + g.size <= |e.mem| && l.count[c] < n
            && Load(g, e.mem, e.ctx[c].head) == s.log.host.copied[l.count[c]]
            && (!e.ctx[c].TxFetching? ==> e.ctx[c].pkt == s.log.host.copied[l.count[c]])
            && (s.dev.host.stage == Copying ==> Apart(g, e.ctx[c].head, s.dev.host.txTail)))
  {
    hide Offset, Advance, Load, Apart, RxInv, Geometry.Slots;
    ReachableInv(s);
    var g, e, l, copied := s.dev.g, s.dev.tx, s.log.tx, s.log.host.copied;
    forall b, c | 0 <= b < c < |e.ctx| && TxHolds(e.ctx[b]) && TxHolds(e.ctx[c])
      ensures Apart(g, e.ctx[b].head, e.ctx[c].head)
    {
      assert TxHolderOk(g, e, l, copied, b) && TxHolderOk(g, e, l, copied, c);
      CountersApart(g, l.count[b], l.count[c]);
    }
    forall c | 0 <= c < |e.ctx| && TxHolds(e.ctx[c])
      ensures e.ctx[c].head + g.size <= |e.mem| && l.count[c] < |copied|
      ensures Load(g, e.mem, e.ctx[c].head) == copied[l.count[c]]
      ensures !e.ctx[c].TxFetching? ==> e.ctx[c].pkt == copied[l.count[c]]
      ensures s.dev.host.stage == Copying ==> Apart(g, e.ctx[c].head, s.dev.host.txTail)
    {
      assert TxHolderOk(g, e, l, copied, c);
      assert TxSlotReady(g, e, copied, l.count[c]);
      if s.dev.host.stage == Copying {
        CountersApart(g, l.count[c], |copied|);
      }
    }
  }

  // ----- Tickets -----

  /** Some context holds the ticket equal to the published tail exactly when reservations are
      outstanding, and then only one does: the wrapped comparison is never mistaken. */
  lemma RxTicketUnambiguous(s: State)
    requires Reachable(s)
    ensures var e := s.dev.rx;
      && (e.tail != e.shadowTail <==>
            exists c :: 0 <= c < |e.ctx| && RxHolds(e.ctx[c]) && e.ctx[c].tail == e.tail)
      && (forall b, c | 0 <= b < |e.ctx| && 0 <= c < |e.ctx| && RxHolds(e.ctx[b]) && RxHolds(e.ctx[c]) ::
            e.ctx[b].tail == e.ctx[c].tail ==> b == c)
  {
    ReachableInv(s);
    RxSafety(s);
    var g, e, l := s.dev.g, s.dev.rx, s.log.rx;
    SameOffset(g, l.published, |l.reserved|);
    if l.published < |l.reserved| {
      assert RxOwner(e, l, l.published);
      assert RxHolderOk(g, e, l, l.owner[l.published]);
    } else {
      forall c | 0 <= c < |e.ctx| ensures !RxHolds(e.ctx[c]) {
        assert RxHolderOk(g, e, l, c);
      }
    }
  }

  /** Context `c` has the slot of reservation number `i`, and in hand or in the slot its packet. */
  predicate Carries(s: State, c: nat, i: nat)
    requires s.dev.g.Valid()
  {
    var g, e, l := s.dev.g, s.dev.rx, s.log.rx;
    && c < |e.ctx| && RxHolds(e.ctx[c]) && l.published <= i < |l.reserved| && e.ctx[c].tail == Offset(g, i)
    && if e.ctx[c].RxSending? then e.ctx[c].pkt == l.reserved[i]
       else Offset(g, i) + g.size <= |e.mem| && Load(g, e.mem, Offset(g, i)) == l.reserved[i]
  }

  ghost predicate Carried(s: State, i: nat)
    requires s.dev.g.Valid()
  {
    exists c :: Carries(s, c, i)
  }

  /** A context with a slot carries the reservation it counts, and no other. */
  lemma HolderCarries(s: State, c: nat)
    requires Inv(s) && c < |s.dev.rx.ctx| && RxHolds(s.dev.rx.ctx[c])
    ensures Carries(s, c, s.log.rx.count[c]) && s.log.rx.owner[s.log.rx.count[c]] == c
    ensures forall i: nat | Carries(s, c, i) :: i == s.log.rx.count[c]
  {
    hide Offset, Load, TxInv, Geometry.Slots, Geometry.Valid;
    var g, e, l := s.dev.g, s.dev.rx, s.log.rx;
    var k := l.count[c];
    assert RxHolderOk(g, e, l, c);
    assert !e.ctx[c].RxSending? ==> RxSlotReady(g, e, l, k);
    forall i: nat | Carries(s, c, i) ensures i == k {
      if i < k { SameOffset(g, i, k); } else { SameOffset(g, k, i); }
    }
  }

  /** The packets reserved but not yet published, which `EndToEnd` leaves open, are each carried
      unaltered by exactly one context, and a context with a slot carries exactly one. */
  lemma ReservedAreCarried(s: State)
    requires Reachable(s)
    ensures s.dev.g.Valid()
    ensures forall i | s.log.rx.published <= i < |s.log.rx.reserved| :: Carried(s, i)
    ensures forall b: nat, c: nat, i: nat | Carries(s, b, i) && Carries(s, c, i) :: b == c
    ensures forall c | 0 <= c < |s.dev.rx.ctx| && RxHolds(s.dev.rx.ctx[c]) :: exists i: nat :: Carries(s, c, i)
    ensures forall c: nat, i: nat, j: nat | Carries(s, c, i) && Carries(s, c, j) :: i == j
  {
    hide Carries, RxHolds, RxHolderOk, RxLatchedOk, RxSlotReady, TxInv;
    ReachableInv(s);
    var e, l := s.dev.rx, s.log.rx;
    forall c | 0 <= c < |e.ctx| && RxHolds(e.ctx[c]) ensures exists i: nat :: Carries(s, c, i) {
      HolderCarries(s, c);
    }
    forall i | l.published <= i < |l.reserved| ensures Carried(s, i) {
      assert RxOwner(e, l, i);
      HolderCarries(s, l.owner[i]);
    }
    forall c: nat, i: nat | Carries(s, c, i) ensures OwnerOf(s, i) == c && CountOf(s, c) == i {
      CarrierOwns(s, c, i);
    }
  }

  function OwnerOf(s: State, i: nat): nat { if i < |s.log.rx.owner| then s.log.rx.owner[i] else 0 }

  function CountOf(s: State, c: nat): nat { if c < |s.log.rx.count| then s.log.rx.count[c] else 0 }

  lemma CarrierOwns(s: State, c: nat, i: nat)
    requires Inv(s) && Carries(s, c, i)
    ensures OwnerOf(s, i) == c && CountOf(s, c) == i
  {
    hide Offset, Load, TxInv, Geometry.Slots, Geometry.Valid;
    HolderCarries(s, c);
  }

  lemma TxTicketUnambiguous(s: State)
    requires Reachable(s)
    ensures var e := s.dev.tx;
      && (e.head != e.shadowHead <==>
            exists c :: 0 <= c < |e.ctx| && TxHolds(e.ctx[c]) && e.ctx[c].head == e.head)
      && (forall b, c | 0 <= b < |e.ctx| && 0 <= c < |e.ctx| && TxHolds(e.ctx[b]) && TxHolds(e.ctx[c]) ::
            e.ctx[b].head == e.ctx[c].head ==> b == c)
  {
    ReachableInv(s);
    TxSafety(s);
    var g, e, l, copied := s.dev.g, s.dev.tx, s.log.tx, s.log.host.copied;
    SameOffset(g, |l.taken|, |l.owner|);
    if |l.taken| < |l.owner| {
      assert TxOwner(e, l, |l.taken|);
      assert TxHolderOk(g, e, l, copied, l.owner[|l.taken|]);
    } else {
      forall c | 0 <= c < |e.ctx| ensures !TxHolds(e.ctx[c]) {
        assert TxHolderOk(g, e, l, copied, c);
      }
    }
  }

  /** Publications still to come before it is the turn of context `c`. */
  function RxDistance(s: State, c: nat): int
    requires Sized(s) && c < |s.dev.rx.ctx|
  {
    s.log.rx.count[c] - s.log.rx.published
  }

  /** A waiting context's distance to its turn is never negative, shrinks by one with every
      publication and changes with nothing else; distance 0 is what its comparison tests. */
  lemma RxDistanceShrinks(s: State, ev: Event, c: nat)
    requires Reachable(s) && Sized(s) && Enabled(s.dev, ev, true)
    requires c < |s.dev.rx.ctx| && RxHolds(s.dev.rx.ctx[c])
    ensures RxDistance(s, c) >= 0
    ensures RxDistance(s, c) == 0 <==> s.dev.rx.ctx[c].tail == s.dev.rx.tail
    ensures ev != RxPublishBy(c) ==>
      && RxHolds(Next(s, ev, true).dev.rx.ctx[c])
      && RxDistance(Next(s, ev, true), c) == RxDistance(s, c) - (if ev.RxPublishBy? then 1 else 0)
  {
    hide Advance, Offset, Load, Store;
    ReachableInv(s);
    var g, e, l := s.dev.g, s.dev.rx, s.log.rx;
    assert RxHolderOk(g, e, l, c);
    SameOffset(g, l.published, l.count[c]);
    if ev != RxPublishBy(c) { RxHolderStays(s, ev, c); }
  }

  lemma RxHolderStays(s: State, ev: Event, c: nat)
    requires Sized(s) && Enabled(s.dev, ev, true) && ev != RxPublishBy(c)
    requires c < |s.dev.rx.ctx| && RxHolds(s.dev.rx.ctx[c])
    ensures var t := Next(s, ev, true);
      && RxHolds(t.dev.rx.ctx[c]) && t.log.rx.count[c] == s.log.rx.count[c]
      && t.log.rx.published == s.log.rx.published + (if ev.RxPublishBy? then 1 else 0)
  {
    hide Advance, Load, Store;
  }

  /** The same for transmission: contexts waiting to commit their slot. */
  function TxDistance(s: State, c: nat): int
    requires Sized(s) && c < |s.dev.tx.ctx|
  {
    s.log.tx.count[c] - |s.log.tx.taken|
  }

  lemma TxDistanceShrinks(s: State, ev: Event, c: nat)
    requires Reachable(s) && Sized(s) && Enabled(s.dev, ev, true)
    requires c < |s.dev.tx.ctx| && TxHolds(s.dev.tx.ctx[c])
    ensures TxDistance(s, c) >= 0
    ensures TxDistance(s, c) == 0 <==> s.dev.tx.ctx[c].head == s.dev.tx.head
    ensures ev != TxPublishBy(c) ==>
      && TxHolds(Next(s, ev, true).dev.tx.ctx[c])
      && TxDistance(Next(s, ev, true), c) == TxDistance(s, c) - (if ev.TxPublishBy? then 1 else 0)
  {
    hide Advance, Offset, Load, Store;
    ReachableInv(s);
    var g, e, l := s.dev.g, s.dev.tx, s.log.tx;
    assert TxHolderOk(g, e, l, s.log.host.copied, c);
    SameOffset(g, |l.taken|, l.count[c]);
    if ev != TxPublishBy(c) { TxHolderStays(s, ev, c); }
  }

  lemma TxHolderStays(s: State, ev: Event, c: nat)
    requires Sized(s) && Enabled(s.dev, ev, true) && ev != TxPublishBy(c)
    requires c < |s.dev.tx.ctx| && TxHolds(s.dev.tx.ctx[c])
    ensures var t := Next(s, ev, true);
      && TxHolds(t.dev.tx.ctx[c]) && t.log.tx.count[c] == s.log.tx.count[c]
      && |t.log.tx.taken| == |s.log.tx.taken| + (if ev.TxPublishBy? then 1 else 0)
  {
    hide Advance, Load, Store;
  }

  /** The worker pops only from a ring that is not empty and pushes only to one that is not full,
      so the checks in the ring buffer library that would abort it never fail. */
  lemma WorkerNeverAborts(s: State)
    requires Reachable(s) && s.dev.g.Valid() && s.dev.host.stage == Copying
    ensures HostMayCopy(s.dev.g, s.dev.host)
  {
    ReachableInv(s);
    DecideIsSafe(s.dev.g, s.dev.host, s.log);
  }
}
