/** What becomes of every frame that passes the filter: a slot is given whenever the ring has room,
    and from every reachable state some continuation sends out the reply to each frame. */
module EchoDelivery {
  import opened RingGeometry
  import opened PacketEcho
  import opened EchoDevice
  import opened EchoHistory
  import opened RxInvariant
  import opened TxInvariant
  import opened EchoInvariant
  import opened EchoProgress

  // ----- Slots are given exactly when there is room -----

  /** A context whose latched head stands for the counter `count[c]` gets a slot exactly when fewer
      than n - 1 slots beyond that counter are reserved; else it keeps its packet and starts over. */
  lemma RoomGivesSlot(s: State, c: nat)
    requires Inv(s) && Enabled(s.dev, RxReserveBy(c), true)
    ensures var l, t := s.log.rx, Next(s, RxReserveBy(c), true);
      && l.count[c] <= l.freed
      && (|t.log.rx.reserved| == |l.reserved| + 1 <==> |l.reserved| < l.count[c] + s.dev.g.Slots() - 1)
      && if |l.reserved| < l.count[c] + s.dev.g.Slots() - 1 then
           && t.log.rx.reserved == l.reserved + [s.dev.rx.ctx[c].pkt]
           && t.dev.rx.ctx == s.dev.rx.ctx[c := RxSending(s.dev.rx.ctx[c].pkt, Offset(s.dev.g, |l.reserved|))]
           && t.dev.rx.shadowTail == Offset(s.dev.g, |l.reserved| + 1)
         else t.log.rx == l && t.dev.rx.ctx == s.dev.rx.ctx[c := RxWaiting(s.dev.rx.ctx[c].pkt)]
  {
    hide Advance, TxInv, Geometry.Slots;
    var g, l := s.dev.g, s.log.rx;
    assert RxLatchedOk(g, s.dev.rx, l, c);
    SameOffset(g, l.count[c], |l.reserved| + 1);
  }

  lemma LatchedHead(s: State, c: nat)
    requires Inv(s) && Enabled(s.dev, RxLatchBy(c), true)
    ensures var t := Next(s, RxLatchBy(c), true);
      && t.log.rx.count[c] == s.log.rx.freed
      && t.dev.rx.ctx[c] == RxLatched(s.dev.rx.ctx[c].pkt, Offset(s.dev.g, s.log.rx.freed))
  {
  }

  /** In every reachable state, for the context whose reply is next. */
  lemma SlotGivenExactly(s: State, c: nat)
    requires Reachable(s) && Sized(s) && Enabled(s.dev, RxReserveBy(c), true)
    ensures var l, t := s.log.rx, Next(s, RxReserveBy(c), true);
      && (|t.log.rx.reserved| == |l.reserved| + 1 <==> |l.reserved| < l.count[c] + s.dev.g.Slots() - 1)
      && (|t.log.rx.reserved| == |l.reserved| + 1 <==> t.dev.rx.ctx[c].RxSending?)
      && (t.dev.rx.ctx[c].RxSending? || t.dev.rx.ctx[c] == RxWaiting(s.dev.rx.ctx[c].pkt))
  {
    hide Advance, Offset;
    ReachableInv(s);
    RoomGivesSlot(s, c);
  }

  /** A context whose latched tail stands for `count[c]` claims a slot exactly when a posted slot
      before that counter has not been claimed. */
  lemma PostedGivesClaim(s: State, c: nat)
    requires Inv(s) && Enabled(s.dev, TxClaimBy(c), true)
    ensures var l, t := s.log.tx, Next(s, TxClaimBy(c), true);
      && l.count[c] <= l.posted
      && (|t.log.tx.owner| == |l.owner| + 1 <==> |l.owner| < l.count[c])
      && if |l.owner| < l.count[c] then
           && t.log.tx.owner == l.owner + [c]
           && t.dev.tx.ctx == s.dev.tx.ctx[c := TxFetching(Offset(s.dev.g, |l.owner|))]
           && t.dev.tx.shadowHead == Offset(s.dev.g, |l.owner| + 1)
         else t.log.tx == l && t.dev.tx.ctx == s.dev.tx.ctx[c := TxIdle]
  {
    hide Advance, RxInv, Geometry.Slots;
    var g, l := s.dev.g, s.log.tx;
    assert TxLatchedOk(g, s.dev.tx, l, c);
    SameOffset(g, |l.owner|, l.count[c]);
  }

  lemma ClaimGivenExactly(s: State, c: nat)
    requires Reachable(s) && Sized(s) && Enabled(s.dev, TxClaimBy(c), true)
    ensures var l, t := s.log.tx, Next(s, TxClaimBy(c), true);
      && (|t.log.tx.owner| == |l.owner| + 1 <==> |l.owner| < l.count[c])
      && (|t.log.tx.owner| == |l.owner| + 1 <==> t.dev.tx.ctx[c].TxFetching?)
      && (t.dev.tx.ctx[c].TxFetching? || t.dev.tx.ctx[c] == TxIdle)
  {
    hide Advance, Offset;
    ReachableInv(s);
    PostedGivesClaim(s, c);
  }

  // ----- Packets not yet reserved -----

  /** Packets accepted by contexts that have no slot yet. */
  function Pending(ctx: seq<RxContext>): multiset<Packet> {
    if ctx == [] then multiset{} else multiset(HeldBack(ctx[0])) + Pending(ctx[1..])
  }

  lemma {:induction false} PendingSame(a: seq<RxContext>, b: seq<RxContext>)
    requires SameHeldBack(a, b)
    ensures Pending(a) == Pending(b)
  {
    if a != [] {
      assert forall c :: 0 <= c < |a| - 1 ==> a[1..][c] == a[c + 1] && b[1..][c] == b[c + 1];
      PendingSame(a[1..], b[1..]);
    }
  }

  /** Multisets of packets under addition. */
  lemma AddFront(z: multiset<Packet>, p: multiset<Packet>, o: multiset<Packet>,
                 q: multiset<Packet>, n: multiset<Packet>)
    requires p + o == q + n
    ensures (z + p) + o == (z + q) + n
  {
    assert (z + p) + o == z + (p + o);
  }

  lemma AddBack(z: multiset<Packet>, o: multiset<Packet>, n: multiset<Packet>)
    ensures (n + z) + o == (o + z) + n
  {
  }

  lemma Cancel(p: multiset<Packet>, q: multiset<Packet>, o: multiset<Packet>)
    requires p + o == q + o
    ensures p == q
  {
    assert p == (p + o) - o;
    assert q == (q + o) - o;
  }

  lemma {:induction false} PendingUpdate(ctx: seq<RxContext>, c: nat, x: RxContext)
    requires c < |ctx|
    ensures Pending(ctx[c := x]) + multiset(HeldBack(ctx[c])) == Pending(ctx) + multiset(HeldBack(x))
  {
    hide HeldBack;
    if c == 0 {
      assert ctx[0 := x][1..] == ctx[1..];
      AddBack(Pending(ctx[1..]), multiset(HeldBack(ctx[0])), multiset(HeldBack(x)));
    } else {
      PendingUpdate(ctx[1..], c - 1, x);
      assert ctx[c := x][1..] == ctx[1..][c - 1 := x];
      AddFront(multiset(HeldBack(ctx[0])), Pending(ctx[1..][c - 1 := x]), multiset(HeldBack(ctx[c])),
               Pending(ctx[1..]), multiset(HeldBack(x)));
    }
  }

  lemma {:induction false} PendingSome(ctx: seq<RxContext>) returns (c: nat)
    requires Pending(ctx) != multiset{}
    ensures c < |ctx| && HeldBack(ctx[c]) != []
  {
    if HeldBack(ctx[0]) != [] { return 0; }
    c := PendingSome(ctx[1..]);
    c := c + 1;
  }

  // ----- Every pending packet can be delivered -----

  /** The host lets go of the slots it has copied. */
  lemma Settle(s: State) returns (t: State)
    requires Inv(s) && s.log.tx.taken == s.log.rx.reserved
    ensures Inv(t) && Leads(s, t) && t.log.rx.freed == |t.log.rx.reserved|
    ensures t.log.rx.reserved == s.log.rx.reserved && t.log.tx == s.log.tx && t.log.host == s.log.host
    ensures t.dev.tx == s.dev.tx && t.dev.g == s.dev.g && t.dev.rx.ctx == s.dev.rx.ctx
  {
    hide Advance, Load, Store, Leads;
    if s.dev.host.stage == PostRxHead {
      NextKeeps(s, HostPostRxHead);
      t := Next(s, HostPostRxHead, true);
      LeadsNowhere(t);
      LeadsOn(s, HostPostRxHead, t);
    } else {
      t := s;
      LeadsNowhere(s);
    }
  }

  /** The next event for a pending packet: resume the context waiting longest for its reply, or let
      context `c` read the head. */
  function NextReserve(e: RxEngine, c: nat): Event {
    if e.replies != [] then RxReserveBy(e.replies[0]) else RxLatchBy(c)
  }

  lemma RxFrame(s: State, ev: Event)
    requires Sized(s) && Enabled(s.dev, ev, true) && (ev.RxReserveBy? || ev.RxLatchBy?)
    ensures var t := Next(s, ev, true);
      && t.log.tx == s.log.tx && t.log.host == s.log.host && t.dev.tx == s.dev.tx && t.dev.g == s.dev.g
      && t.log.rx.freed == s.log.rx.freed && |t.dev.rx.ctx| == |s.dev.rx.ctx|
      && t.dev.rx.replies == (if ev.RxLatchBy? then s.dev.rx.replies + [ev.c] else Without(s.dev.rx.replies, ev.c))
      && (ev.RxLatchBy? ==> t.log.rx.reserved == s.log.rx.reserved)
  {
    hide Advance;
  }

  /** A reservation made by the context whose reply is first, or not. */
  lemma ReserveStep(s: State, c: nat)
    requires Inv(s) && Enabled(s.dev, RxReserveBy(c), true)
    ensures var l, t, p := s.log.rx, Next(s, RxReserveBy(c), true), s.dev.rx.ctx[c].pkt;
      if |l.reserved| < l.count[c] + s.dev.g.Slots() - 1 then
        t.log.rx.reserved == l.reserved + [p] && Pending(t.dev.rx.ctx) + multiset{p} == Pending(s.dev.rx.ctx)
      else
        && t.log.rx == l && Pending(t.dev.rx.ctx) == Pending(s.dev.rx.ctx)
        && HeldBack(t.dev.rx.ctx[c]) != [] && |t.dev.rx.replies| < |s.dev.rx.replies|
  {
    hide Next, Inv, Pending, Offset, Geometry.Slots;
    InvSized(s);
    var x := s.dev.rx.ctx[c];
    var t := Next(s, RxReserveBy(c), true);
    RoomGivesSlot(s, c);
    RxFrame(s, RxReserveBy(c));
    PendingUpdate(s.dev.rx.ctx, c, t.dev.rx.ctx[c]);
    assert multiset([x.pkt]) == multiset{x.pkt};
    if !t.dev.rx.ctx[c].RxSending? {
      Cancel(Pending(t.dev.rx.ctx), Pending(s.dev.rx.ctx), multiset{x.pkt});
    }
  }

  lemma LatchStep(s: State, c: nat)
    requires Inv(s) && Enabled(s.dev, RxLatchBy(c), true) && s.dev.rx.replies == []
    ensures var t := Next(s, RxLatchBy(c), true);
      && t.log.rx.count[c] == t.log.rx.freed && t.dev.rx.replies == [c] && HeldBack(t.dev.rx.ctx[c]) != []
      && Pending(t.dev.rx.ctx) == Pending(s.dev.rx.ctx)
  {
    hide Inv, Pending, Offset, Geometry.Slots;
    var x := s.dev.rx.ctx[c];
    InvSized(s);
    LatchedHead(s, c);
    PendingUpdate(s.dev.rx.ctx, c, RxLatched(x.pkt, s.dev.rx.head));
    Cancel(Pending(Next(s, RxLatchBy(c), true).dev.rx.ctx), Pending(s.dev.rx.ctx), multiset([x.pkt]));
  }

  /** What the invariant says about a pending packet. */
  lemma PendingContext(s: State, c: nat)
    requires Inv(s) && c < |s.dev.rx.ctx| && HeldBack(s.dev.rx.ctx[c]) != []
    ensures Sized(s) && Enabled(s.dev, NextReserve(s.dev.rx, c), true)
    ensures s.dev.rx.replies != [] ==> var d := s.dev.rx.replies[0]; RxAt(s.dev.rx, d) && s.dev.rx.ctx[d].RxLatched?
  {
    hide TxInv, HostInv, Geometry.Slots, Offset;
    assert RxLatchedOk(s.dev.g, s.dev.rx, s.log.rx, c);
  }

  /** With the ring empty and of two slots or more, some pending packet gets the next slot, however
      many stale replies are under way. */
  lemma ReserveOne(s: State, c: nat, latched: bool) returns (t: State, p: Packet)
    requires Inv(s) && s.log.rx.freed == |s.log.rx.reserved| && s.dev.g.Slots() >= 2
    requires c < |s.dev.rx.ctx| && HeldBack(s.dev.rx.ctx[c]) != []
    requires latched ==> s.dev.rx.replies == [c] && s.log.rx.count[c] == s.log.rx.freed
    ensures Inv(t) && Leads(s, t) && t.log.rx.reserved == s.log.rx.reserved + [p]
    ensures Pending(t.dev.rx.ctx) + multiset{p} == Pending(s.dev.rx.ctx)
    ensures t.log.tx == s.log.tx && t.log.host == s.log.host && t.dev.tx == s.dev.tx && t.dev.g == s.dev.g
    decreases !latched, |s.dev.rx.replies|
  {
    hide Next, Inv, Enabled, Leads, Pending, HeldBack, Geometry.Slots;
    PendingContext(s, c);
    var ev := NextReserve(s.dev.rx, c);
    NextKeeps(s, ev);
    RxFrame(s, ev);
    t := Next(s, ev, true);
    if ev.RxReserveBy? {
      ReserveStep(s, ev.c);
      if |s.log.rx.reserved| < s.log.rx.count[ev.c] + s.dev.g.Slots() - 1 {
        p := s.dev.rx.ctx[ev.c].pkt;
        LeadsNowhere(t);
      } else {
        t, p := ReserveOne(t, ev.c, false);
      }
    } else {
      LatchStep(s, c);
      t, p := ReserveOne(t, c, true);
    }
    LeadsOn(s, ev, t);
  }

  /** Every accepted packet can be reserved and brought to transmission. */
  lemma {:induction false} DeliverAll(s: State) returns (t: State)
    requires Inv(s) && |s.dev.tx.ctx| > 0 && (s.dev.g.Slots() >= 2 || Pending(s.dev.rx.ctx) == multiset{})
    ensures Inv(t) && Leads(s, t) && t.log.tx.taken == t.log.rx.reserved && s.log.rx.reserved <= t.log.rx.reserved
    ensures Pending(t.dev.rx.ctx) == multiset{}
    ensures multiset(t.log.rx.reserved[|s.log.rx.reserved|..]) == Pending(s.dev.rx.ctx)
    decreases |Pending(s.dev.rx.ctx)|
  {
    hide Inv, Leads, Geometry.Slots, Geometry.Valid, SameHeldBack, Pending;
    InvSized(s);
    var m := Drain(s);
    InvSized(m);
    PendingSame(s.dev.rx.ctx, m.dev.rx.ctx);
    if Pending(m.dev.rx.ctx) == multiset{} {
      assert m.log.rx.reserved[|s.log.rx.reserved|..] == [];
      return m;
    }
    var r := Settle(m);
    InvSized(r);
    LeadsFarther(s, m, r);
    var c := PendingSome(r.dev.rx.ctx);
    var one, p := ReserveOne(r, c, false);
    InvSized(one);
    LeadsFarther(s, r, one);
    t := DeliverAll(one);
    InvSized(t);
    LeadsFarther(s, one, t);
    OneMore(s.log.rx.reserved, p, t.log.rx.reserved);
  }

  lemma OneMore(before: seq<Packet>, p: Packet, all: seq<Packet>)
    requires before + [p] <= all
    ensures before <= all && multiset(all[|before|..]) == multiset(all[|before| + 1..]) + multiset{p}
  {
    assert all[|before|] == (before + [p])[|before|] == p;
    assert all[|before|..] == [p] + all[|before| + 1..];
  }

  lemma InvSized(s: State)
    requires Inv(s)
    ensures Sized(s)
  {
  }

  /** Every taken packet can be handed to the NBI. */
  lemma {:induction false} SendUpTo(s: State, k: nat) returns (t: State)
    requires Inv(s) && k <= |s.log.tx.taken|
    ensures Inv(t) && Leads(s, t) && t.log.rx == s.log.rx && t.dev.rx == s.dev.rx
    ensures t.log.tx.taken == s.log.tx.taken && forall i :: 0 <= i < k ==> i in t.log.tx.sent
  {
    hide Advance, Load, Store, Leads, RxInv;
    if k == 0 {
      LeadsNowhere(s);
      return s;
    }
    t := SendUpTo(s, k - 1);
    if k - 1 !in t.log.tx.sent {
      assert TxOwner(t.dev.tx, t.log.tx, k - 1);
      var m, ev := t, TxSendBy(t.log.tx.owner[k - 1]);
      NextKeeps(m, ev);
      t := Next(m, ev, true);
      LeadsNowhere(t);
      LeadsOn(m, ev, t);
      LeadsFarther(s, m, t);
    }
  }

  /** From `s` to `t`, every packet reserved or pending in `s` has been taken and handed over, those
      reserved first and in their order; no receive context still has one. */
  predicate Delivered(s: State, t: State) {
    && s.log.rx.reserved <= t.log.tx.taken
    && multiset(t.log.tx.taken[|s.log.rx.reserved|..]) == Pending(s.dev.rx.ctx)
    && (forall i :: 0 <= i < |t.log.tx.taken| ==> i in t.log.tx.sent)
    && Pending(t.dev.rx.ctx) == multiset{}
  }

  ghost predicate Deliverable(s: State)
    requires Sized(s)
  {
    exists run: seq<Event> :: IsRun(s, run, true) && Delivered(s, After(s, run, true))
  }

  /** A ring of one slot is always full: nothing is ever reserved. */
  lemma {:induction false} OneSlotReservesNothing(s: State, run: seq<Event>)
    requires Inv(s) && s.dev.g.Slots() == 1 && IsRun(s, run, true)
    ensures After(s, run, true).log.rx.reserved == s.log.rx.reserved
    decreases |run|
  {
    hide Advance, Load, Store, TxInv, Geometry.Slots;
    if run != [] {
      NextKeeps(s, run[0]);
      if run[0].RxReserveBy? {
        RoomGivesSlot(s, run[0].c);
      }
      OneSlotReservesNothing(Next(s, run[0], true), run[1..]);
    }
  }

  /** With at least one transmit context, every packet accepted so far can still be sent out, from
      every reachable state, exactly when the ring has two slots or nothing is pending. */
  lemma DeliverableExactly(s: State)
    requires Reachable(s) && Sized(s) && |s.dev.tx.ctx| > 0
    ensures Deliverable(s) <==> s.dev.g.Slots() >= 2 || Pending(s.dev.rx.ctx) == multiset{}
  {
    hide Inv, Delivered, Geometry.Slots;
    ReachableInv(s);
    if s.dev.g.Slots() >= 2 || Pending(s.dev.rx.ctx) == multiset{} {
      var m := DeliverAll(s);
      var t := SendUpTo(m, |m.log.tx.taken|);
      LeadsFarther(s, m, t);
      DeliveredBy(s, m, t);
      var run: seq<Event> :| IsRun(s, run, true) && After(s, run, true) == t;
    } else if Deliverable(s) {
      var run: seq<Event> :| IsRun(s, run, true) && Delivered(s, After(s, run, true));
      OneSlotNotDelivered(s, run);
    }
  }

  lemma DeliveredBy(s: State, m: State, t: State)
    requires m.log.tx.taken == m.log.rx.reserved && s.log.rx.reserved <= m.log.rx.reserved
    requires multiset(m.log.rx.reserved[|s.log.rx.reserved|..]) == Pending(s.dev.rx.ctx)
    requires Pending(m.dev.rx.ctx) == multiset{} && t.dev.rx == m.dev.rx && t.log.tx.taken == m.log.tx.taken
    requires forall i :: 0 <= i < |m.log.tx.taken| ==> i in t.log.tx.sent
    ensures Delivered(s, t)
  {
  }

  lemma OneSlotNotDelivered(s: State, run: seq<Event>)
    requires Inv(s) && s.dev.g.Slots() < 2 && IsRun(s, run, true) && Delivered(s, After(s, run, true))
    ensures Pending(s.dev.rx.ctx) == multiset{}
  {
    var t := After(s, run, true);
    SlotsTimesSize(s.dev.g);
    OneSlotReservesNothing(s, run);
    RunKeeps(s, run);
    assert |t.log.tx.taken| <= |t.log.rx.reserved|;
    assert t.log.tx.taken[|s.log.rx.reserved|..] == [];
  }

  // ----- Frames and packets -----

  /** The packet a frame becomes, if it passes the filter. */
  function ReplyTo(f: Frame, size: nat): seq<Packet> {
    if f.Valid() && size < WORD32 - 2 * MAC_PREPEND_BYTES && Allowed(f, size) then
      AllowedFits(f, size);
      [EchoOf(f, size)]
    else []
  }

  /** The replies to the frames received in a run, in order of reception. */
  function Replies(run: seq<Event>, size: nat): seq<Packet> {
    if run == [] then []
    else (if run[0].RxReceiveBy? then ReplyTo(run[0].frame, size) else []) + Replies(run[1..], size)
  }

  /** A frame has a reply exactly when its EtherType is 0x0800, its protocol UDP or ICMP and its
      length the configured one with the 8 octets the MAC prepends; and the reply is the frame sent
      back. */
  lemma ReplyExactly(f: Frame, size: nat)
    requires f.Valid() && size < 0xffff_fff8
    ensures ReplyTo(f, size) != []
      <==> Wire(f)[12..14] == [0x08, 0x00] && Wire(f)[23] in {1, 17} && f.len == size + 8
    ensures forall p | p in ReplyTo(f, size) :: |p| == size <= |Wire(f)| && SentBack(Wire(f), p)
  {
    hide Wire, SentBack, Allowed;
    AllowedExactly(f, size);
    if Allowed(f, size) {
      AllowedFits(f, size);
      EchoIsSentBack(f, size);
    }
  }

  /** One event: a frame becomes a pending packet, a pending packet a reserved one. */
  lemma EventKeepsPackets(s: State, ev: Event)
    requires Inv(s) && Enabled(s.dev, ev, true)
    ensures var t := Next(s, ev, true);
      multiset(t.log.rx.reserved) + Pending(t.dev.rx.ctx)
        == multiset(s.log.rx.reserved) + Pending(s.dev.rx.ctx)
           + multiset(if ev.RxReceiveBy? then ReplyTo(ev.frame, s.dev.g.size) else [])
  {
    hide Inv, Pending, Advance, Load, Store, Geometry.Slots, Next;
    InvSized(s);
    match ev {
      case RxReserveBy(c) =>
        ReserveStep(s, c);
        assert multiset(s.log.rx.reserved + [s.dev.rx.ctx[c].pkt])
            == multiset(s.log.rx.reserved) + multiset{s.dev.rx.ctx[c].pkt};
      case RxReceiveBy(c, f) => ReceiveStep(s, c, f);
      case _ => OtherEvent(s, ev);
    }
  }

  lemma ReceiveStep(s: State, c: nat, f: Frame)
    requires Sized(s) && Enabled(s.dev, RxReceiveBy(c, f), true)
    ensures var t := Next(s, RxReceiveBy(c, f), true);
      && t.log.rx.reserved == s.log.rx.reserved
      && Pending(t.dev.rx.ctx) == Pending(s.dev.rx.ctx) + multiset(ReplyTo(f, s.dev.g.size))
  {
    hide Pending, Allowed, EchoOf, Geometry.Slots;
    var e, t := s.dev.rx, Next(s, RxReceiveBy(c, f), true);
    PendingUpdate(e.ctx, c, t.dev.rx.ctx[c]);
    if Allowed(f, s.dev.g.size) {
      AllowedFits(f, s.dev.g.size);
      assert multiset(HeldBack(e.ctx[c])) == multiset{};
    }
  }

  lemma OtherEvent(s: State, ev: Event)
    requires Sized(s) && Enabled(s.dev, ev, true) && !ev.RxReserveBy? && !ev.RxReceiveBy?
    ensures var t := Next(s, ev, true);
      t.log.rx.reserved == s.log.rx.reserved && Pending(t.dev.rx.ctx) == Pending(s.dev.rx.ctx)
  {
    hide Pending, Advance, Load, Store, Geometry.Slots;
    assert SameHeldBack(s.dev.rx.ctx, Next(s, ev, true).dev.rx.ctx);
    PendingSame(s.dev.rx.ctx, Next(s, ev, true).dev.rx.ctx);
  }

  lemma {:induction false} RunKeepsPackets(s: State, run: seq<Event>)
    requires Inv(s) && IsRun(s, run, true)
    ensures var t := After(s, run, true);
      multiset(t.log.rx.reserved) + Pending(t.dev.rx.ctx)
        == multiset(s.log.rx.reserved) + Pending(s.dev.rx.ctx) + multiset(Replies(run, s.dev.g.size))
    decreases |run|
  {
    hide Inv, Do, Record, Enabled, ReplyTo, Pending;
    if run != [] {
      InvSized(s);
      EventKeepsPackets(s, run[0]);
      NextKeeps(s, run[0]);
      RunKeepsPackets(Next(s, run[0], true), run[1..]);
      KeepsSize(s, run[0]);
    }
  }

  lemma KeepsSize(s: State, ev: Event)
    requires Sized(s) && Enabled(s.dev, ev, true)
    ensures Next(s, ev, true).dev.g == s.dev.g
  {
  }

  lemma {:induction false} NothingPending(n: nat)
    ensures Pending(seq(n, _ => RxIdle)) == multiset{}
  {
    var ctx := seq(n, _ => RxIdle);
    if n > 0 {
      NothingPending(n - 1);
      assert ctx[1..] == seq(n - 1, _ => RxIdle);
    }
  }

  /** In every run of the configured device, the packets reserved and pending are the replies to the
      frames received that pass the filter, each once: no other packet ever enters the ring. */
  lemma FramesAccountedFor(g: Geometry, rxContexts: nat, txContexts: nat, run: seq<Event>)
    requires g.Valid() && IsRun(Start(g, rxContexts, txContexts), run, true)
    ensures var t := After(Start(g, rxContexts, txContexts), run, true);
      multiset(t.log.rx.reserved) + Pending(t.dev.rx.ctx) == multiset(Replies(run, g.size))
  {
    hide Inv;
    StartKeeps(g, rxContexts, txContexts);
    RunKeepsPackets(Start(g, rxContexts, txContexts), run);
    NothingPending(rxContexts);
  }
}
