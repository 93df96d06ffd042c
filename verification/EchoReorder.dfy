/** Why the in-order return of CLS replies is needed: with two slots and two receive contexts,
    one overtaking the other, the receive ring loses packets. */
module EchoReorder {
  import opened RingGeometry
  import opened PacketEcho
  import opened EchoDevice
  import opened EchoHistory

  const TWO_SLOTS := Geometry(64, 128)

  /** A UDP frame with a 64-byte payload. */
  function SampleFrame(): Frame {
    Frame(seq(256, k => if k == PKT_NBI_OFFSET + ETH_TYPE then 8
                        else if k == PKT_NBI_OFFSET + IP_PROTO then PROTO_UDP else 0),
          seq(256, _ => 0), 72)
  }

  lemma SampleIsAllowed()
    ensures TWO_SLOTS.Valid() && TWO_SLOTS.Slots() == 2
    ensures SampleFrame().Valid() && Allowed(SampleFrame(), 64)
  {
  }

  /** What matters of a state: the receive engine, the worker, and how far the counters are. */
  ghost predicate Snapshot(s: State, ctx: seq<RxContext>, replies: seq<nat>, head: nat, tail: nat, shadow: nat,
                           host: Host, reserved: nat, published: nat, freed: nat, copied: nat)
  {
    && Sized(s) && s.dev.g == TWO_SLOTS
    && |s.dev.rx.mem| == 128 && |s.dev.tx.mem| == 128
    && s.dev.rx.ctx == ctx && |ctx| == 2 && s.dev.rx.replies == replies
    && s.dev.rx.head == head && s.dev.rx.tail == tail && s.dev.rx.shadowTail == shadow
    && s.dev.host == host && s.dev.tx.head == 0
    && |s.log.rx.reserved| == reserved && s.log.rx.published == published && s.log.rx.freed == freed
    && |s.log.host.copied| == copied
  }

  lemma {:induction false} Extended(s: State, run: seq<Event>, t: State, ev: Event)
    requires Sized(s) && IsRun(s, run, false) && t == After(s, run, false) && Enabled(t.dev, ev, false)
    ensures IsRun(s, run + [ev], false) && After(s, run + [ev], false) == Next(t, ev, false)
  {
    RunExtends(s, run, ev, false);
  }

  lemma Single(s: State, ev: Event)
    requires Sized(s) && Enabled(s.dev, ev, false)
    ensures IsRun(s, [ev], false) && After(s, [ev], false) == Next(s, ev, false)
  {
    hide Do, Record, Enabled;
    var t := Next(s, ev, false);
    assert IsRun(t, [], false) && After(t, [], false) == t;
    assert [ev][1..] == [];
  }

  /** Context 1 receives a packet and reserves the slot at `at`. */
  lemma Claim(s: State, x: RxContext, replies: seq<nat>, head: nat, at: nat, host: Host, n: nat, freed: nat)
    returns (run: seq<Event>, t: State, p: Packet)
    requires Snapshot(s, [x, RxIdle], replies, head, at, at, host, n, n, freed, freed)
    requires 1 !in replies && Advance(TWO_SLOTS, at) != head
    ensures IsRun(s, run, false) && t == After(s, run, false) && |p| == 64
    ensures Snapshot(t, [x, RxSending(p, at)], replies, head, at, Advance(TWO_SLOTS, at), host, n + 1, n, freed, freed)
  {
    hide Allowed, EchoOf, SampleFrame, EchoHistory.IsRun, EchoHistory.After, Load, Store;
    SampleIsAllowed();
    var ev := RxReceiveBy(1, SampleFrame());
    Single(s, ev);
    t, run := Next(s, ev, false), [ev];
    p := EchoOf(SampleFrame(), 64);
    assert Snapshot(t, [x, RxWaiting(p)], replies, head, at, at, host, n, n, freed, freed);
    Extended(s, run, t, RxLatchBy(1));
    t, run := Next(t, RxLatchBy(1), false), run + [RxLatchBy(1)];
    assert Snapshot(t, [x, RxLatched(p, head)], replies + [1], head, at, at, host, n, n, freed, freed);
    WithoutLast(replies, 1);
    Extended(s, run, t, RxReserveBy(1));
    t, run := Next(t, RxReserveBy(1), false), run + [RxReserveBy(1)];
  }

  /** Context 1 transfers its packet and publishes it. */
  lemma Complete(s: State, x: RxContext, replies: seq<nat>, head: nat, at: nat, up: nat, host: Host,
                 n: nat, freed: nat, p: Packet)
    returns (run: seq<Event>, t: State)
    requires |p| == 64 && at + 64 <= 128 && up == Advance(TWO_SLOTS, at)
    requires Snapshot(s, [x, RxSending(p, at)], replies, head, at, up, host, n + 1, n, freed, freed)
    ensures IsRun(s, run, false) && t == After(s, run, false)
    ensures Snapshot(t, [x, RxIdle], replies, head, up, up, host, n + 1, n + 1, freed, freed)
  {
    hide EchoHistory.IsRun, EchoHistory.After;
    Single(s, RxTransferDoneBy(1));
    t, run := Next(s, RxTransferDoneBy(1), false), [RxTransferDoneBy(1)];
    assert Snapshot(t, [x, RxTicket(at)], replies, head, at, up, host, n + 1, n, freed, freed);
    Extended(s, run, t, RxCheckBy(1));
    t, run := Next(t, RxCheckBy(1), false), run + [RxCheckBy(1)];
    assert Snapshot(t, [x, RxCleared(at)], replies, head, at, up, host, n + 1, n, freed, freed);
    Extended(s, run, t, RxPublishBy(1));
    t, run := Next(t, RxPublishBy(1), false), run + [RxPublishBy(1)];
  }

  lemma Deliver(s: State, x: RxContext, replies: seq<nat>, head: nat, at: nat, host: Host, n: nat, freed: nat)
    returns (run: seq<Event>, t: State)
    requires Snapshot(s, [x, RxIdle], replies, head, at, at, host, n, n, freed, freed)
    requires 1 !in replies && at + 64 <= 128 && Advance(TWO_SLOTS, at) != head
    ensures IsRun(s, run, false) && t == After(s, run, false)
    ensures Snapshot(t, [x, RxIdle], replies, head, Advance(TWO_SLOTS, at), Advance(TWO_SLOTS, at),
                     host, n + 1, n + 1, freed, freed)
  {
    var first, m, p := Claim(s, x, replies, head, at, host, n, freed);
    run, t := Complete(m, x, replies, head, at, Advance(TWO_SLOTS, at), host, n, freed, p);
    RunsCompose(s, first, run, false);
    run := first + run;
  }

  lemma {:induction false} WithoutLast(s: seq<nat>, c: nat)
    requires c !in s
    ensures Without(s + [c], c) == s
  {
    if s != [] {
      WithoutLast(s[1..], c);
      assert (s + [c])[1..] == s[1..] + [c];
    }
  }

  /** The worker moves the only packet of the receive ring to the empty transmit ring. */
  lemma WorkerPass(s: State, x: RxContext, replies: seq<nat>)
    returns (run: seq<Event>, t: State)
    requires Snapshot(s, [x, RxIdle], replies, 0, 64, 64, Host(ReadRxTail, 0, 0, 0, 0), 1, 1, 0, 0)
    ensures IsRun(s, run, false) && t == After(s, run, false)
    ensures Snapshot(t, [x, RxIdle], replies, 64, 64, 64, Host(ReadRxTail, 64, 64, 0, 64), 1, 1, 1, 1)
  {
    hide EchoOf, SampleFrame, Allowed;
    SampleIsAllowed();
    t, run := Next(s, HostReadRxTail, false), [HostReadRxTail];
    Extended(s, run, t, HostReadTxHead);
    t, run := Next(t, HostReadTxHead, false), run + [HostReadTxHead];
    assert Snapshot(t, [x, RxIdle], replies, 0, 64, 64, Host(Decide, 0, 64, 0, 0), 1, 1, 0, 0);
    Extended(s, run, t, HostDecide);
    t, run := Next(t, HostDecide, false), run + [HostDecide];
    assert Snapshot(t, [x, RxIdle], replies, 0, 64, 64, Host(Copying, 0, 64, 0, 0), 1, 1, 0, 0);
    Extended(s, run, t, HostCopyDone);
    t, run := Next(t, HostCopyDone, false), run + [HostCopyDone];
    assert Snapshot(t, [x, RxIdle], replies, 0, 64, 64, Host(PostTxTail, 64, 64, 0, 64), 1, 1, 0, 1);
    Extended(s, run, t, HostPostTxTail);
    t, run := Next(t, HostPostTxTail, false), run + [HostPostTxTail];
    assert Snapshot(t, [x, RxIdle], replies, 0, 64, 64, Host(PostRxHead, 64, 64, 0, 64), 1, 1, 0, 1);
    Extended(s, run, t, HostPostRxHead);
    t, run := Next(t, HostPostRxHead, false), run + [HostPostRxHead];
  }

  /** Context 0 latches the head of the still empty ring, then is not resumed. */
  lemma LatchEarly() returns (run: seq<Event>, t: State, p: Packet)
    ensures var s := Start(TWO_SLOTS, 2, 0); IsRun(s, run, false) && t == After(s, run, false)
    ensures |p| == 64
    ensures Snapshot(t, [RxLatched(p, 0), RxIdle], [0], 0, 0, 0, Host(ReadRxTail, 0, 0, 0, 0), 0, 0, 0, 0)
  {
    hide Allowed, EchoOf, SampleFrame, Load, Store, Advance;
    SampleIsAllowed();
    var s := Start(TWO_SLOTS, 2, 0);
    var ev := RxReceiveBy(0, SampleFrame());
    p := EchoOf(SampleFrame(), 64);
    t, run := Next(s, ev, false), [ev];
    assert Snapshot(t, [RxWaiting(p), RxIdle], [], 0, 0, 0, Host(ReadRxTail, 0, 0, 0, 0), 0, 0, 0, 0);
    Extended(s, run, t, RxLatchBy(0));
    t, run := Next(t, RxLatchBy(0), false), run + [RxLatchBy(0)];
  }

  /** Context 0 resumes with the stale head and takes a slot although the ring is full. */
  lemma ResumeLate(s: State, p: Packet, host: Host) returns (run: seq<Event>, t: State)
    requires |p| == 64
    requires Snapshot(s, [RxLatched(p, 0), RxIdle], [0], 64, 0, 0, host, 2, 2, 1, 1)
    ensures IsRun(s, run, false) && t == After(s, run, false)
    ensures Snapshot(t, [RxIdle, RxIdle], [], 64, 64, 64, host, 3, 3, 1, 1)
  {
    hide Allowed, EchoOf, SampleFrame;
    SampleIsAllowed();
    t, run := Next(s, RxReserveBy(0), false), [RxReserveBy(0)];
    assert Snapshot(t, [RxSending(p, 0), RxIdle], [], 64, 0, 64, host, 3, 2, 1, 1);
    Extended(s, run, t, RxTransferDoneBy(0));
    t, run := Next(t, RxTransferDoneBy(0), false), run + [RxTransferDoneBy(0)];
    assert Snapshot(t, [RxTicket(0), RxIdle], [], 64, 0, 64, host, 3, 2, 1, 1);
    Extended(s, run, t, RxCheckBy(0));
    t, run := Next(t, RxCheckBy(0), false), run + [RxCheckBy(0)];
    assert Snapshot(t, [RxCleared(0), RxIdle], [], 64, 0, 64, host, 3, 2, 1, 1);
    Extended(s, run, t, RxPublishBy(0));
    t, run := Next(t, RxPublishBy(0), false), run + [RxPublishBy(0)];
  }

  /** Without the in-order return of replies there is a run after which two published packets are
      unread, yet head and tail are equal: the ring reads as empty and both packets are lost. */
  lemma OvertakingLosesPackets()
    ensures exists run: seq<Event> ::
      var s := Start(TWO_SLOTS, 2, 0);
      && IsRun(s, run, false)
      && var t := After(s, run, false);
         && t.dev.rx.head == t.dev.rx.tail
         && t.log.rx.published == t.log.rx.freed + 2
         && |t.log.rx.reserved| > t.log.rx.freed + TWO_SLOTS.Slots() - 1
  {
    hide EchoOf, SampleFrame, Allowed, Do, Record, Enabled, EchoHistory.IsRun, EchoHistory.After;
    SampleIsAllowed();
    var s := Start(TWO_SLOTS, 2, 0);
    var run1, t1, p := LatchEarly();
    var run2, t2 := Deliver(t1, RxLatched(p, 0), [0], 0, 0, Host(ReadRxTail, 0, 0, 0, 0), 0, 0);
    RunsCompose(s, run1, run2, false);
    var run3, t3 := WorkerPass(t2, RxLatched(p, 0), [0]);
    RunsCompose(s, run1 + run2, run3, false);
    var run4, t4 := Deliver(t3, RxLatched(p, 0), [0], 64, 64, Host(ReadRxTail, 64, 64, 0, 64), 1, 1);
    RunsCompose(s, run1 + run2 + run3, run4, false);
    var run5, t5 := ResumeLate(t4, p, Host(ReadRxTail, 64, 64, 0, 64));
    RunsCompose(s, run1 + run2 + run3 + run4, run5, false);
    assert After(s, run1 + run2 + run3 + run4 + run5, false) == t5;
  }
}
