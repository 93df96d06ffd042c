/** The invariant of the whole echo path, kept by every event, and what it means for every run. */
module EchoInvariant {
  import opened RingGeometry
  import opened PacketEcho
  import opened EchoDevice
  import opened EchoHistory
  import opened RxInvariant
  import opened TxInvariant

  /** The worker has copied what was reserved, in order, and its pointers lag the rings by at
      most the copy it is completing. */
  ghost predicate HostInv(g: Geometry, h: Host, l: History)
    requires g.Valid()
  {
    var n := |l.host.copied|;
    && n <= l.host.seenTail <= l.rx.published <= |l.rx.reserved|
    && l.host.copied == l.rx.reserved[..n]
    && n == l.rx.freed + (if h.stage == PostTxTail || h.stage == PostRxHead then 1 else 0)
    && n == l.tx.posted + (if h.stage == PostTxTail then 1 else 0)
    && l.host.seenHead <= |l.tx.taken| && n <= l.host.seenHead + g.Slots() - 1
    && h.rxHead == Offset(g, n) && h.rxTail == Offset(g, l.host.seenTail)
    && h.txTail == Offset(g, n) && h.txHead == Offset(g, l.host.seenHead)
    && (h.stage == Copying ==> n < l.host.seenTail && n < l.host.seenHead + g.Slots() - 1)
  }

  ghost predicate Inv(s: State) {
    && Sized(s)
    && RxInv(s.dev.g, s.dev.rx, s.log.rx)
    && TxInv(s.dev.g, s.dev.tx, s.log.tx, s.log.host.copied)
    && HostInv(s.dev.g, s.dev.host, s.log)
  }

  lemma StartKeeps(g: Geometry, rxContexts: nat, txContexts: nat)
    requires g.Valid()
    ensures Inv(Start(g, rxContexts, txContexts))
  {
    SlotsTimesSize(g);
  }

  lemma RxEventKeeps(s: State, ev: Event)
    requires Inv(s) && Enabled(s.dev, ev, true)
    requires ev.RxReceiveBy? || ev.RxLatchBy? || ev.RxReserveBy? || ev.RxTransferBy?
          || ev.RxTransferDoneBy? || ev.RxCheckBy? || ev.RxPublishBy?
    ensures Inv(Next(s, ev, true))
  {
    hide TxInv, RxInv, Advance, Offset, Load, Store;
    var g, e, l := s.dev.g, s.dev.rx, s.log.rx;
    var s' := Next(s, ev, true);
    assert s'.dev.tx == s.dev.tx && s'.log.tx == s.log.tx && s'.log.host == s.log.host;
    match ev
    case RxReceiveBy(c, f) => RxReceiveKeeps(g, e, l, c, f);
    case RxLatchBy(c) => RxLatchKeeps(g, e, l, c);
    case RxReserveBy(c) => RxReserveKeeps(g, e, l, c);
    case RxTransferBy(c, data) => RxTransferKeeps(g, e, l, c, data);
    case RxTransferDoneBy(c) => RxTransferDoneKeeps(g, e, l, c);
    case RxCheckBy(c) => RxCheckKeeps(g, e, l, c);
    case RxPublishBy(c) =>
      RxPublishKeeps(g, e, l, c);
      RxClearedIsOldest(g, e, l, c);
  }

  predicate IsTxEvent(ev: Event) {
    ev.TxLatchBy? || ev.TxClaimBy? || ev.TxFetchedBy? || ev.TxCheckBy? || ev.TxPublishBy? || ev.TxSendBy?
  }

  lemma TxEventKeeps(s: State, ev: Event)
    requires Inv(s) && Enabled(s.dev, ev, true) && IsTxEvent(ev)
    ensures Inv(Next(s, ev, true))
  {
    hide RxInv, Advance, Load, Store;
    var g, e, l, copied := s.dev.g, s.dev.tx, s.log.tx, s.log.host.copied;
    match ev
    case TxLatchBy(c) => TxLatchKeeps(g, e, l, copied, c);
    case TxClaimBy(c) => TxClaimKeeps(g, e, l, copied, c);
    case TxFetchedBy(c) => TxFetchedKeeps(g, e, l, copied, c);
    case TxCheckBy(c) => TxCheckKeeps(g, e, l, copied, c);
    case TxPublishBy(c) => TxPublishKeeps(g, e, l, copied, c);
    case TxSendBy(c) => TxSendKeeps(g, e, l, copied, c);
  }

  /** The worker's tests, on pointers that may be stale, are exact enough to be safe. */
  lemma DecideIsSafe(g: Geometry, h: Host, l: History)
    requires g.Valid() && HostInv(g, h, l)
    requires |l.rx.reserved| <= l.rx.freed + g.Slots() - 1 && |l.tx.taken| <= |l.host.copied|
    ensures HostMayCopy(g, h)
      <==> |l.host.copied| < l.host.seenTail && |l.host.copied| < l.host.seenHead + g.Slots() - 1
  {
    hide Offset, Advance, Geometry.Slots;
    var n := |l.host.copied|;
    SameOffset(g, n, l.host.seenTail);
    ModuloAdvance(g, n);
    SameOffset(g, l.host.seenHead, n + 1);
  }

  lemma HostCopyDoneKeeps(s: State)
    requires Inv(s) && Enabled(s.dev, HostCopyDone, true)
    ensures Inv(Next(s, HostCopyDone, true))
  {
    hide TxInv, Advance, Load, Store, Geometry.Slots, Geometry.Valid;
    var g, l := s.dev.g, s.log;
    var n := |l.host.copied|;
    assert RxSlotReady(g, s.dev.rx, l.rx, n);
    TxFillKeeps(g, s.dev.tx, l.tx, l.host.copied, l.rx.reserved[n]);
    assert l.rx.reserved[..n] + [l.rx.reserved[n]] == l.rx.reserved[..n + 1];
  }

  lemma HostEventKeeps(s: State, ev: Event)
    requires Inv(s) && Enabled(s.dev, ev, true)
    requires ev.HostReadRxTail? || ev.HostReadTxHead? || ev.HostDecide? || ev.HostCopy?
          || ev.HostCopyDone? || ev.HostPostTxTail? || ev.HostPostRxHead?
    ensures Inv(Next(s, ev, true))
  {
    var g, l := s.dev.g, s.log;
    match ev
    case HostReadRxTail =>
    case HostReadTxHead =>
    case HostDecide => DecideIsSafe(g, s.dev.host, l);
    case HostCopy(data) => TxScribbleKeeps(g, s.dev.tx, l.tx, l.host.copied, data);
    case HostCopyDone => HostCopyDoneKeeps(s);
    case HostPostTxTail => TxPostKeeps(g, s.dev.tx, l.tx, l.host.copied);
    case HostPostRxHead => RxFreeKeeps(g, s.dev.rx, l.rx, |l.host.copied|);
  }

  lemma NextKeeps(s: State, ev: Event)
    requires Inv(s) && Enabled(s.dev, ev, true)
    ensures Inv(Next(s, ev, true))
  {
    match ev
    case RxReceiveBy(_, _) => RxEventKeeps(s, ev);
    case RxLatchBy(_) => RxEventKeeps(s, ev);
    case RxReserveBy(_) => RxEventKeeps(s, ev);
    case RxTransferBy(_, _) => RxEventKeeps(s, ev);
    case RxTransferDoneBy(_) => RxEventKeeps(s, ev);
    case RxCheckBy(_) => RxEventKeeps(s, ev);
    case RxPublishBy(_) => RxEventKeeps(s, ev);
    case TxLatchBy(_) => TxEventKeeps(s, ev);
    case TxClaimBy(_) => TxEventKeeps(s, ev);
    case TxFetchedBy(_) => TxEventKeeps(s, ev);
    case TxCheckBy(_) => TxEventKeeps(s, ev);
    case TxPublishBy(_) => TxEventKeeps(s, ev);
    case TxSendBy(_) => TxEventKeeps(s, ev);
    case _ => HostEventKeeps(s, ev);
  }

  lemma {:induction false} RunKeeps(s: State, run: seq<Event>)
    requires Inv(s) && IsRun(s, run, true)
    ensures Inv(After(s, run, true))
    decreases |run|
  {
    if run != [] {
      NextKeeps(s, run[0]);
      RunKeeps(Next(s, run[0], true), run[1..]);
    }
  }

  /** `s` can be reached by some interleaving of any number of contexts with the worker. */
  ghost predicate Reachable(s: State) {
    exists g: Geometry, rxContexts: nat, txContexts: nat, run: seq<Event> ::
      g.Valid() && IsRun(Start(g, rxContexts, txContexts), run, true)
      && s == After(Start(g, rxContexts, txContexts), run, true)
  }

  lemma ReachableInv(s: State)
    requires Reachable(s)
    ensures Inv(s)
  {
    var g: Geometry, rxContexts: nat, txContexts: nat, run: seq<Event> :|
      g.Valid() && IsRun(Start(g, rxContexts, txContexts), run, true)
      && s == After(Start(g, rxContexts, txContexts), run, true);
    StartKeeps(g, rxContexts, txContexts);
    RunKeeps(Start(g, rxContexts, txContexts), run);
  }
}
