/** No reachable state is stuck: from each one some continuation delivers every reserved packet. */
module EchoProgress {
  import opened RingGeometry
  import opened EchoDevice
  import opened EchoHistory
  import opened RxInvariant
  import opened TxInvariant
  import opened EchoInvariant

  ghost predicate Leads(s: State, t: State)
    requires Sized(s)
  {
    exists run: seq<Event> :: IsRun(s, run, true) && After(s, run, true) == t
  }

  lemma LeadsNowhere(s: State)
    requires Sized(s)
    ensures Leads(s, s)
  {
    assert IsRun(s, [], true) && After(s, [], true) == s;
  }

  lemma LeadsOn(s: State, ev: Event, t: State)
    requires Sized(s) && Enabled(s.dev, ev, true) && Leads(Next(s, ev, true), t)
    ensures Leads(s, t)
  {
    hide Do, Record, Enabled;
    var run: seq<Event> :| IsRun(Next(s, ev, true), run, true) && After(Next(s, ev, true), run, true) == t;
    assert ([ev] + run)[1..] == run;
    assert IsRun(s, [ev] + run, true) && After(s, [ev] + run, true) == t;
  }

  lemma LeadsFarther(s: State, t: State, u: State)
    requires Sized(s) && Sized(t) && Leads(s, t) && Leads(t, u)
    ensures Leads(s, u)
  {
    hide Do, Record, Enabled;
    var first: seq<Event> :| IsRun(s, first, true) && After(s, first, true) == t;
    var second: seq<Event> :| IsRun(t, second, true) && After(t, second, true) == u;
    RunsCompose(s, first, second, true);
  }

  /** The packet a context has accepted but not yet reserved a slot for. */
  function HeldBack(x: RxContext): seq<Packet> { if x.RxWaiting? || x.RxLatched? then [x.pkt] else [] }

  predicate SameHeldBack(a: seq<RxContext>, b: seq<RxContext>) {
    |a| == |b| && forall c :: 0 <= c < |a| ==> HeldBack(a[c]) == HeldBack(b[c])
  }

  function RxPhase(x: RxContext): nat {
    if x.RxSending? then 3 else if x.RxTicket? then 2 else 1
  }

  /** The event that takes the holder of the oldest unpublished reservation on. */
  function RxTurn(s: State): Event
    requires Sized(s) && s.log.rx.published < |s.log.rx.owner|
    requires s.log.rx.owner[s.log.rx.published] < |s.dev.rx.ctx|
  {
    var c := s.log.rx.owner[s.log.rx.published];
    var x := s.dev.rx.ctx[c];
    if x.RxSending? then RxTransferDoneBy(c) else if x.RxTicket? then RxCheckBy(c) else RxPublishBy(c)
  }

  /** Every reservation can be published. */
  lemma RxFlush(s: State) returns (t: State)
    requires Inv(s)
    ensures Inv(t) && Leads(s, t)
    ensures t.log.rx.reserved == s.log.rx.reserved && t.log.rx.published == |s.log.rx.reserved|
    ensures t.log.host == s.log.host && t.log.tx == s.log.tx && t.dev.tx == s.dev.tx && t.dev.host == s.dev.host
    ensures t.dev.g == s.dev.g && SameHeldBack(s.dev.rx.ctx, t.dev.rx.ctx)
    decreases |s.log.rx.reserved| - s.log.rx.published,
      if s.log.rx.published < |s.log.rx.owner| && s.log.rx.owner[s.log.rx.published] < |s.dev.rx.ctx|
      then RxPhase(s.dev.rx.ctx[s.log.rx.owner[s.log.rx.published]]) else 0
  {
    hide Advance, Load, Store, Leads, TxInv, HostInv, Geometry.Slots;
    var g, e, l := s.dev.g, s.dev.rx, s.log.rx;
    if l.published == |l.reserved| {
      LeadsNowhere(s);
      return s;
    }
    assert RxOwner(e, l, l.published);
    assert RxHolderOk(g, e, l, l.owner[l.published]);
    OffsetFits(g, l.published);
    var ev := RxTurn(s);
    NextKeeps(s, ev);
    t := RxFlush(Next(s, ev, true));
    LeadsOn(s, ev, t);
  }

  function TxPhase(x: TxContext): nat {
    if x.TxFetching? then 3 else if x.TxTicket? then 2 else 1
  }

  /** A slot that has been claimed can be committed. */
  lemma TxCommit(s: State) returns (t: State)
    requires Inv(s) && |s.log.tx.taken| < |s.log.tx.owner|
    ensures Inv(t) && Leads(s, t)
    ensures |t.log.tx.taken| == |s.log.tx.taken| + 1 && |t.dev.tx.ctx| == |s.dev.tx.ctx|
    ensures t.log.rx == s.log.rx && t.log.host == s.log.host && t.dev.rx == s.dev.rx && t.dev.g == s.dev.g
    decreases if s.log.tx.owner[|s.log.tx.taken|] < |s.dev.tx.ctx|
              then TxPhase(s.dev.tx.ctx[s.log.tx.owner[|s.log.tx.taken|]]) else 0
  {
    hide Advance, Load, Store, Leads;
    var g, e, l := s.dev.g, s.dev.tx, s.log.tx;
    assert TxOwner(e, l, |l.taken|);
    var c := l.owner[|l.taken|];
    assert TxHolderOk(g, e, l, s.log.host.copied, c);
    OffsetFits(g, |l.taken|);
    var x := e.ctx[c];
    var ev := if x.TxFetching? then TxFetchedBy(c) else if x.TxTicket? then TxCheckBy(c) else TxPublishBy(c);
    NextKeeps(s, ev);
    t := Next(s, ev, true);
    if x.TxCleared? {
      LeadsNowhere(t);
    } else {
      t := TxCommit(t);
    }
    LeadsOn(s, ev, t);
  }

  /** The next event when no slot is claimed: resume the context waiting longest for its reply,
      or let context 0 start over. */
  function TxNextClaim(e: TxEngine): Event
    requires |e.ctx| > 0
  {
    if e.replies != [] then TxClaimBy(e.replies[0])
    else if e.ctx[0].TxSending? then TxSendBy(0)
    else TxLatchBy(0)
  }

  lemma NoHolder(s: State, c: nat)
    requires Inv(s) && |s.log.tx.taken| == |s.log.tx.owner| && c < |s.dev.tx.ctx|
    ensures !TxHolds(s.dev.tx.ctx[c])
    ensures s.dev.tx.replies == [] ==> s.dev.tx.ctx[c].TxIdle? || s.dev.tx.ctx[c].TxSending?
  {
    assert TxHolderOk(s.dev.g, s.dev.tx, s.log.tx, s.log.host.copied, c);
    assert TxLatchedOk(s.dev.g, s.dev.tx, s.log.tx, c);
  }

  /** A posted slot can be claimed, however many stale replies are under way. */
  lemma TxReach(s: State, latched: bool) returns (t: State)
    requires Inv(s) && |s.log.tx.taken| == |s.log.tx.owner| < s.log.tx.posted && |s.dev.tx.ctx| > 0
    requires latched ==> s.dev.tx.replies == [0] && s.log.tx.count[0] == s.log.tx.posted
    ensures Inv(t) && Leads(s, t)
    ensures t.log.tx.taken == s.log.tx.taken && |s.log.tx.taken| < |t.log.tx.owner|
    ensures |t.dev.tx.ctx| == |s.dev.tx.ctx| && t.log.rx == s.log.rx && t.log.host == s.log.host
    ensures t.dev.rx == s.dev.rx && t.dev.g == s.dev.g
    decreases !latched, |s.dev.tx.replies|, s.dev.tx.ctx[0].TxSending?
  {
    hide Advance, Load, Store, Leads;
    var g, e, l := s.dev.g, s.dev.tx, s.log.tx;
    NoHolder(s, 0);
    var ev := TxNextClaim(e);
    NextKeeps(s, ev);
    t := Next(s, ev, true);
    if ev.TxClaimBy? {
      assert TxLatchedOk(g, e, l, ev.c);
      SameOffset(g, |l.owner|, l.count[ev.c]);
      if TxRingEmpty(e, ev.c) {
        t := TxReach(t, false);
      } else {
        LeadsNowhere(t);
      }
    } else {
      t := TxReach(t, ev.TxLatchBy?);
    }
    LeadsOn(s, ev, t);
  }

  lemma TxTake(s: State) returns (t: State)
    requires Inv(s) && |s.log.tx.taken| < s.log.tx.posted && |s.dev.tx.ctx| > 0
    ensures Inv(t) && Leads(s, t)
    ensures |t.log.tx.taken| == |s.log.tx.taken| + 1 && |t.dev.tx.ctx| == |s.dev.tx.ctx|
    ensures t.log.rx == s.log.rx && t.log.host == s.log.host && t.dev.rx == s.dev.rx && t.dev.g == s.dev.g
  {
    if |s.log.tx.taken| < |s.log.tx.owner| {
      t := TxCommit(s);
    } else {
      var m := TxReach(s, false);
      t := TxCommit(m);
      LeadsFarther(s, m, t);
    }
  }

  /** How many steps the worker is from copying, when there is a packet and an empty ring. */
  function WorkerRank(s: State): nat
    requires Sized(s)
  {
    var n := |s.log.host.copied|;
    match s.dev.host.stage
    case Copying => 0
    case Decide => if n < s.log.host.seenTail && n < s.log.host.seenHead + s.dev.g.Slots() - 1 then 1 else 4
    case ReadTxHead => if n < s.log.host.seenTail then 2 else 5
    case ReadRxTail => 3
    case PostRxHead => 4
    case PostTxTail => 5
  }

  lemma RoomToCopy(s: State)
    requires Inv(s) && |s.log.host.copied| < s.log.rx.published
    ensures HostFits(s.dev) && s.dev.g.Slots() >= 2
    ensures |s.log.rx.reserved| <= s.log.rx.freed + s.dev.g.Slots() - 1 && |s.log.tx.taken| <= |s.log.host.copied|
  {
    OffsetFits(s.dev.g, |s.log.host.copied|);
  }

  /** A published packet can be copied once the transmit ring has been emptied. */
  lemma WorkerCopies(s: State) returns (t: State)
    requires Inv(s) && |s.log.tx.taken| == |s.log.host.copied| < s.log.rx.published
    ensures Inv(t) && Leads(s, t)
    ensures |t.log.host.copied| == |s.log.host.copied| + 1 && t.log.tx.taken == s.log.tx.taken
    ensures t.log.rx.reserved == s.log.rx.reserved && t.dev.tx.ctx == s.dev.tx.ctx
    ensures t.dev.host.stage == PostTxTail && t.dev.rx.ctx == s.dev.rx.ctx && t.dev.g == s.dev.g
    decreases WorkerRank(s)
  {
    hide Advance, Offset, Load, Store, Leads, RxInv, TxInv;
    var ev := WorkerEvent(s.dev.host.stage);
    RoomToCopy(s);
    if ev.HostDecide? { DecideIsSafe(s.dev.g, s.dev.host, s.log); }
    NextKeeps(s, ev);
    t := Next(s, ev, true);
    if ev.HostCopyDone? {
      LeadsNowhere(t);
    } else {
      t := WorkerCopies(t);
    }
    LeadsOn(s, ev, t);
  }

  lemma WorkerPosts(s: State) returns (t: State)
    requires Inv(s) && s.dev.host.stage == PostTxTail
    ensures Inv(t) && Leads(s, t)
    ensures t.log.tx == s.log.tx.(posted := |s.log.host.copied|)
    ensures t.log.host == s.log.host && t.log.rx == s.log.rx && t.dev.tx.ctx == s.dev.tx.ctx
    ensures t.dev.rx == s.dev.rx && t.dev.g == s.dev.g
  {
    NextKeeps(s, HostPostTxTail);
    t := Next(s, HostPostTxTail, true);
    LeadsNowhere(t);
    LeadsOn(s, HostPostTxTail, t);
  }

  /** One more packet can be brought to transmission. */
  lemma DeliverOne(s: State) returns (t: State)
    requires Inv(s) && |s.dev.tx.ctx| > 0
    requires |s.log.tx.taken| < |s.log.rx.reserved| == s.log.rx.published
    ensures Inv(t) && Leads(s, t)
    ensures |t.log.tx.taken| == |s.log.tx.taken| + 1 && |t.dev.tx.ctx| == |s.dev.tx.ctx|
    ensures t.log.rx.reserved == s.log.rx.reserved && t.dev.rx.ctx == s.dev.rx.ctx && t.dev.g == s.dev.g
  {
    var m := s;
    LeadsNowhere(s);
    if |s.log.tx.taken| == |s.log.host.copied| {
      m := WorkerCopies(s);
    }
    if m.log.tx.posted < |m.log.host.copied| {
      var p := WorkerPosts(m);
      LeadsFarther(s, m, p);
      m := p;
    }
    t := TxTake(m);
    LeadsFarther(s, m, t);
  }

  lemma {:induction false} Drain(s: State) returns (t: State)
    requires Inv(s) && |s.dev.tx.ctx| > 0
    ensures Inv(t) && Leads(s, t) && t.log.tx.taken == t.log.rx.reserved == s.log.rx.reserved
    ensures |t.dev.tx.ctx| == |s.dev.tx.ctx| && t.dev.g == s.dev.g && SameHeldBack(s.dev.rx.ctx, t.dev.rx.ctx)
    decreases |s.log.rx.reserved| - |s.log.tx.taken|
  {
    if |s.log.tx.taken| == |s.log.rx.reserved| {
      LeadsNowhere(s);
      return s;
    }
    var flushed := RxFlush(s);
    var one := DeliverOne(flushed);
    LeadsFarther(s, flushed, one);
    t := Drain(one);
    LeadsFarther(s, one, t);
  }

  /** With at least one transmit context, whatever the interleaving so far, the packets reserved
      up to now can all still be delivered, and in their order: no state is a deadlock. */
  lemma NeverStuck(s: State)
    requires Reachable(s) && Sized(s) && |s.dev.tx.ctx| > 0
    ensures exists run: seq<Event> ::
      IsRun(s, run, true) && After(s, run, true).log.tx.taken == s.log.rx.reserved
  {
    ReachableInv(s);
    var t := Drain(s);
    var run: seq<Event> :| IsRun(s, run, true) && After(s, run, true) == t;
  }
}
