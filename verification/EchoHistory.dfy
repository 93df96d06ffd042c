/** What has happened so far, recorded beside the device and never read by it: packets in the
    order of reservation, of copying and of publication, and pointers as unwrapped counters. */
module EchoHistory {
  import opened RingGeometry
  import opened PacketEcho
  import opened EchoDevice

  /** `reserved`: packets in reservation order; `owner`: the context that made each reservation;
      `count[c]`: for a latched context the head it latched, for one holding a slot its ticket,
      both unwrapped; `published`, `freed`: slots published by the firmware, freed by the host. */
  datatype RxLog = RxLog(reserved: seq<Packet>, owner: seq<nat>, count: seq<nat>,
                         published: nat, freed: nat)

  /** `copied`: packets in the order the worker copied them; the counters are those it has seen. */
  datatype HostLog = HostLog(copied: seq<Packet>, seenTail: nat, seenHead: nat)

  /** `owner`, `count` as for reception; `posted`: slots handed over by the host; `taken`: packets
      in the order of head updates; `sent`: indices into `taken` of the packets handed to the NBI. */
  datatype TxLog = TxLog(posted: nat, owner: seq<nat>, count: seq<nat>, taken: seq<Packet>,
                         sent: set<nat>)

  datatype History = History(rx: RxLog, host: HostLog, tx: TxLog)

  datatype State = State(dev: Device, log: History)

  function RxReserveLog(g: Geometry, e: RxEngine, l: RxLog, c: nat): RxLog
    requires RxAt(e, c) && e.ctx[c].RxLatched? && |l.count| == |e.ctx|
  {
    if RxRingFull(g, e, c) then l
    else l.(reserved := l.reserved + [e.ctx[c].pkt], owner := l.owner + [c],
            count := l.count[c := |l.reserved|])
  }

  function TxClaimLog(e: TxEngine, l: TxLog, c: nat): TxLog
    requires TxAt(e, c) && e.ctx[c].TxLatched? && |l.count| == |e.ctx|
  {
    if TxRingEmpty(e, c) then l
    else l.(owner := l.owner + [c], count := l.count[c := |l.owner|])
  }

  predicate Sized(s: State) {
    && s.dev.g.Valid()
    && |s.log.rx.count| == |s.dev.rx.ctx|
    && |s.log.tx.count| == |s.dev.tx.ctx|
  }

  function Record(s: State, ev: Event, inOrder: bool): History
    requires Sized(s) && Enabled(s.dev, ev, inOrder)
  {
    var d, l := s.dev, s.log;
    match ev
    case RxLatchBy(c) => l.(rx := l.rx.(count := l.rx.count[c := l.rx.freed]))
    case RxReserveBy(c) => l.(rx := RxReserveLog(d.g, d.rx, l.rx, c))
    case RxPublishBy(c) => l.(rx := l.rx.(published := l.rx.published + 1))
    case HostReadRxTail => l.(host := l.host.(seenTail := l.rx.published))
    case HostReadTxHead => l.(host := l.host.(seenHead := |l.tx.taken|))
    case HostCopyDone => l.(host := l.host.(copied := l.host.copied + [Load(d.g, d.rx.mem, d.host.rxHead)]))
    case HostPostTxTail => l.(tx := l.tx.(posted := |l.host.copied|))
    case HostPostRxHead => l.(rx := l.rx.(freed := |l.host.copied|))
    case TxLatchBy(c) => l.(tx := l.tx.(count := l.tx.count[c := l.tx.posted]))
    case TxClaimBy(c) => l.(tx := TxClaimLog(d.tx, l.tx, c))
    case TxPublishBy(c) => l.(tx := l.tx.(taken := l.tx.taken + [d.tx.ctx[c].pkt]))
    case TxSendBy(c) => l.(tx := l.tx.(sent := l.tx.sent + {l.tx.count[c]}))
    case _ => l
  }

  function Next(s: State, ev: Event, inOrder: bool): (s': State)
    requires Sized(s) && Enabled(s.dev, ev, inOrder)
    ensures Sized(s')
    ensures s'.dev == Do(s.dev, ev, inOrder)
  {
    State(Do(s.dev, ev, inOrder), Record(s, ev, inOrder))
  }

  function Start(g: Geometry, rxContexts: nat, txContexts: nat): (s: State)
    requires g.Valid()
    ensures Sized(s)
  {
    State(Configured(g, rxContexts, txContexts),
          History(RxLog([], [], seq(rxContexts, _ => 0), 0, 0),
                  HostLog([], 0, 0),
                  TxLog(0, [], seq(txContexts, _ => 0), [], {})))
  }

  /** `run` can be executed from `s`. */
  predicate IsRun(s: State, run: seq<Event>, inOrder: bool)
    requires Sized(s)
    decreases |run|
  {
    run == [] || (Enabled(s.dev, run[0], inOrder) && IsRun(Next(s, run[0], inOrder), run[1..], inOrder))
  }

  /** The state `run` leads to. */
  function After(s: State, run: seq<Event>, inOrder: bool): (s': State)
    requires Sized(s) && IsRun(s, run, inOrder)
    ensures Sized(s')
    decreases |run|
  {
    if run == [] then s else After(Next(s, run[0], inOrder), run[1..], inOrder)
  }

  /** Runs compose. */
  lemma {:induction false} RunsCompose(s: State, first: seq<Event>, second: seq<Event>, inOrder: bool)
    requires Sized(s) && IsRun(s, first, inOrder) && IsRun(After(s, first, inOrder), second, inOrder)
    ensures IsRun(s, first + second, inOrder)
    ensures After(s, first + second, inOrder) == After(After(s, first, inOrder), second, inOrder)
    decreases |first|
  {
    hide Do, Record, Enabled;
    if first == [] {
      assert first + second == second;
    } else {
      RunsCompose(Next(s, first[0], inOrder), first[1..], second, inOrder);
      assert (first + second)[0] == first[0] && (first + second)[1..] == first[1..] + second;
    }
  }

  lemma RunExtends(s: State, run: seq<Event>, ev: Event, inOrder: bool)
    requires Sized(s) && IsRun(s, run, inOrder) && Enabled(After(s, run, inOrder).dev, ev, inOrder)
    ensures IsRun(s, run + [ev], inOrder)
    ensures After(s, run + [ev], inOrder) == Next(After(s, run, inOrder), ev, inOrder)
  {
    RunsCompose(s, run, [ev], inOrder);
  }
}
