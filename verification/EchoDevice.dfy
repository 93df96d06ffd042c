/** The echo path as a step system: the contexts of the receive microengine, the host worker
    and the contexts of the transmit microengine, sharing two rings of packet slots. One event
    is one access to memory another party can see. */
module EchoDevice {
  import opened RingGeometry
  import opened PacketEcho

  type Packet = seq<Byte>

  // ----- Receive engine -----

  /** Where a receive context stands in its processing of one packet. */
  datatype RxContext =
    | RxIdle                                // waiting for a frame
    | RxWaiting(pkt: Packet)                // about to read the host's head pointer
    | RxLatched(pkt: Packet, head: nat)     // the reply carrying the head pointer is under way
    | RxSending(pkt: Packet, tail: nat)     // slot reserved, transfer to the host running
    | RxTicket(tail: nat)                   // transfer complete, spinning on the tail pointer
    | RxCleared(tail: nat)                  // own turn seen, about to publish

  /** `head`, `tail`: the pointers in CLS; `shadowTail`: the reservation pointer in local memory;
      `mem`: the host's receive buffer; `replies`: contexts with a CLS reply, in service order. */
  datatype RxEngine = RxEngine(head: nat, tail: nat, shadowTail: nat, mem: seq<Byte>,
                               ctx: seq<RxContext>, replies: seq<nat>)

  predicate RxAt(e: RxEngine, c: nat) { c < |e.ctx| }

  function RxReceive(g: Geometry, e: RxEngine, c: nat, f: Frame): RxEngine
    requires RxAt(e, c) && f.Valid() && g.size < WORD32 - 2 * MAC_PREPEND_BYTES
  {
    if Allowed(f, g.size) then
      AllowedFits(f, g.size);
      e.(ctx := e.ctx[c := RxWaiting(EchoOf(f, g.size))])
    else
      e
  }

  function RxLatch(e: RxEngine, c: nat): RxEngine
    requires RxAt(e, c) && e.ctx[c].RxWaiting?
  {
    e.(ctx := e.ctx[c := RxLatched(e.ctx[c].pkt, e.head)], replies := e.replies + [c])
  }

  /** `s` without the first occurrence of `c`. */
  function Without(s: seq<nat>, c: nat): seq<nat> {
    if s == [] then [] else if s[0] == c then s[1..] else [s[0]] + Without(s[1..], c)
  }

  predicate RxRingFull(g: Geometry, e: RxEngine, c: nat)
    requires RxAt(e, c) && e.ctx[c].RxLatched?
  {
    Advance(g, e.shadowTail) == e.ctx[c].head
  }

  function RxReserve(g: Geometry, e: RxEngine, c: nat): RxEngine
    requires RxAt(e, c) && e.ctx[c].RxLatched?
  {
    var rest := e.(replies := Without(e.replies, c));
    if RxRingFull(g, e, c) then
      rest.(ctx := e.ctx[c := RxWaiting(e.ctx[c].pkt)])
    else
      rest.(ctx := e.ctx[c := RxSending(e.ctx[c].pkt, e.shadowTail)],
            shadowTail := Advance(g, e.shadowTail))
  }

  predicate RxFitsSlot(g: Geometry, e: RxEngine, c: nat, data: Packet)
    requires RxAt(e, c)
  {
    e.ctx[c].RxSending? && |data| == g.size && e.ctx[c].tail + g.size <= |e.mem|
  }

  /** While the transfer runs the slot may hold anything. */
  function RxTransfer(g: Geometry, e: RxEngine, c: nat, data: Packet): RxEngine
    requires RxAt(e, c) && RxFitsSlot(g, e, c, data)
  {
    e.(mem := Store(g, e.mem, e.ctx[c].tail, data))
  }

  function RxTransferDone(g: Geometry, e: RxEngine, c: nat): RxEngine
    requires RxAt(e, c) && e.ctx[c].RxSending? && RxFitsSlot(g, e, c, e.ctx[c].pkt)
  {
    RxTransfer(g, e, c, e.ctx[c].pkt).(ctx := e.ctx[c := RxTicket(e.ctx[c].tail)])
  }

  function RxCheck(e: RxEngine, c: nat): RxEngine
    requires RxAt(e, c) && e.ctx[c].RxTicket?
  {
    if e.tail != e.ctx[c].tail then e else e.(ctx := e.ctx[c := RxCleared(e.tail)])
  }

  function RxPublish(g: Geometry, e: RxEngine, c: nat): RxEngine
    requires RxAt(e, c) && e.ctx[c].RxCleared?
  {
    e.(tail := Advance(g, e.ctx[c].tail), ctx := e.ctx[c := RxIdle])
  }

  // ----- Transmit engine -----

  datatype TxContext =
    | TxIdle                                // packet buffer allocated, about to read the tail
    | TxLatched(tail: nat)                  // the reply carrying the tail pointer is under way
    | TxFetching(head: nat)                 // slot claimed, transfer from the host running
    | TxTicket(pkt: Packet, head: nat)      // transfer complete, spinning on the head pointer
    | TxCleared(pkt: Packet, head: nat)     // own turn seen, about to publish
    | TxSending(pkt: Packet)                // about to hand the packet to the NBI

  datatype TxEngine = TxEngine(head: nat, tail: nat, shadowHead: nat, mem: seq<Byte>,
                               ctx: seq<TxContext>, replies: seq<nat>)

  predicate TxAt(e: TxEngine, c: nat) { c < |e.ctx| }

  function TxLatch(e: TxEngine, c: nat): TxEngine
    requires TxAt(e, c) && e.ctx[c].TxIdle?
  {
    e.(ctx := e.ctx[c := TxLatched(e.tail)], replies := e.replies + [c])
  }

  predicate TxRingEmpty(e: TxEngine, c: nat)
    requires TxAt(e, c) && e.ctx[c].TxLatched?
  {
    e.shadowHead == e.ctx[c].tail
  }

  function TxClaim(g: Geometry, e: TxEngine, c: nat): TxEngine
    requires TxAt(e, c) && e.ctx[c].TxLatched?
  {
    var rest := e.(replies := Without(e.replies, c));
    if TxRingEmpty(e, c) then
      rest.(ctx := e.ctx[c := TxIdle])
    else
      rest.(ctx := e.ctx[c := TxFetching(e.shadowHead)], shadowHead := Advance(g, e.shadowHead))
  }

  function TxFetched(g: Geometry, e: TxEngine, c: nat): TxEngine
    requires TxAt(e, c) && e.ctx[c].TxFetching? && e.ctx[c].head + g.size <= |e.mem|
  {
    e.(ctx := e.ctx[c := TxTicket(Load(g, e.mem, e.ctx[c].head), e.ctx[c].head)])
  }

  function TxCheck(e: TxEngine, c: nat): TxEngine
    requires TxAt(e, c) && e.ctx[c].TxTicket?
  {
    if e.head != e.ctx[c].head then e else e.(ctx := e.ctx[c := TxCleared(e.ctx[c].pkt, e.head)])
  }

  function TxPublish(g: Geometry, e: TxEngine, c: nat): TxEngine
    requires TxAt(e, c) && e.ctx[c].TxCleared?
  {
    e.(head := Advance(g, e.ctx[c].head), ctx := e.ctx[c := TxSending(e.ctx[c].pkt)])
  }

  function TxSend(e: TxEngine, c: nat): TxEngine
    requires TxAt(e, c) && e.ctx[c].TxSending?
  {
    e.(ctx := e.ctx[c := TxIdle])
  }

  // ----- Host worker -----

  datatype Stage = ReadRxTail | ReadTxHead | Decide | Copying | PostTxTail | PostRxHead

  /** The worker's own copies of the ring pointers. */
  datatype Host = Host(stage: Stage, rxHead: nat, rxTail: nat, txHead: nat, txTail: nat)

  predicate HostMayCopy(g: Geometry, h: Host)
    requires g.Valid()
  {
    h.rxHead != h.rxTail && ((h.txTail + g.size) % WORD32) % g.capacity != h.txHead
  }

  // ----- The whole device -----

  datatype Device = Device(g: Geometry, rx: RxEngine, host: Host, tx: TxEngine)

  datatype Event =
    | RxReceiveBy(c: nat, frame: Frame)
    | RxLatchBy(c: nat)
    | RxReserveBy(c: nat)
    | RxTransferBy(c: nat, data: Packet)
    | RxTransferDoneBy(c: nat)
    | RxCheckBy(c: nat)
    | RxPublishBy(c: nat)
    | HostReadRxTail
    | HostReadTxHead
    | HostDecide
    | HostCopy(data: Packet)
    | HostCopyDone
    | HostPostTxTail
    | HostPostRxHead
    | TxLatchBy(c: nat)
    | TxClaimBy(c: nat)
    | TxFetchedBy(c: nat)
    | TxCheckBy(c: nat)
    | TxPublishBy(c: nat)
    | TxSendBy(c: nat)

  /** What the worker does next in each stage of its loop. */
  function WorkerEvent(stage: Stage): Event {
    match stage
    case Copying => HostCopyDone
    case Decide => HostDecide
    case ReadTxHead => HostReadTxHead
    case ReadRxTail => HostReadRxTail
    case PostRxHead => HostPostRxHead
    case PostTxTail => HostPostTxTail
  }

  /** May `ev` happen next? With `inOrder`, contexts resume in the order CLS served them. */
  predicate Enabled(d: Device, ev: Event, inOrder: bool)
    requires d.g.Valid()
  {
    match ev
    case RxReceiveBy(c, f) =>
      RxAt(d.rx, c) && d.rx.ctx[c].RxIdle? && f.Valid() && d.g.size < WORD32 - 2 * MAC_PREPEND_BYTES
    case RxLatchBy(c) => RxAt(d.rx, c) && d.rx.ctx[c].RxWaiting?
    case RxReserveBy(c) =>
      && RxAt(d.rx, c) && d.rx.ctx[c].RxLatched?
      && (inOrder ==> d.rx.replies != [] && d.rx.replies[0] == c)
    case RxTransferBy(c, data) => RxAt(d.rx, c) && RxFitsSlot(d.g, d.rx, c, data)
    case RxTransferDoneBy(c) =>
      RxAt(d.rx, c) && d.rx.ctx[c].RxSending? && RxFitsSlot(d.g, d.rx, c, d.rx.ctx[c].pkt)
    case RxCheckBy(c) => RxAt(d.rx, c) && d.rx.ctx[c].RxTicket?
    case RxPublishBy(c) => RxAt(d.rx, c) && d.rx.ctx[c].RxCleared?
    case HostReadRxTail => d.host.stage == ReadRxTail
    case HostReadTxHead => d.host.stage == ReadTxHead
    case HostDecide => d.host.stage == Decide
    case HostCopy(data) => d.host.stage == Copying && |data| == d.g.size && HostFits(d)
    case HostCopyDone => d.host.stage == Copying && HostFits(d)
    case HostPostTxTail => d.host.stage == PostTxTail
    case HostPostRxHead => d.host.stage == PostRxHead
    case TxLatchBy(c) => TxAt(d.tx, c) && d.tx.ctx[c].TxIdle?
    case TxClaimBy(c) =>
      && TxAt(d.tx, c) && d.tx.ctx[c].TxLatched?
      && (inOrder ==> d.tx.replies != [] && d.tx.replies[0] == c)
    case TxFetchedBy(c) =>
      TxAt(d.tx, c) && d.tx.ctx[c].TxFetching? && d.tx.ctx[c].head + d.g.size <= |d.tx.mem|
    case TxCheckBy(c) => TxAt(d.tx, c) && d.tx.ctx[c].TxTicket?
    case TxPublishBy(c) => TxAt(d.tx, c) && d.tx.ctx[c].TxCleared?
    case TxSendBy(c) => TxAt(d.tx, c) && d.tx.ctx[c].TxSending?
  }

  predicate HostFits(d: Device) {
    d.host.rxHead + d.g.size <= |d.rx.mem| && d.host.txTail + d.g.size <= |d.tx.mem|
  }

  function Do(d: Device, ev: Event, inOrder: bool): Device
    requires d.g.Valid() && Enabled(d, ev, inOrder)
  {
    var g, h := d.g, d.host;
    match ev
    case RxReceiveBy(c, f) => d.(rx := RxReceive(g, d.rx, c, f))
    case RxLatchBy(c) => d.(rx := RxLatch(d.rx, c))
    case RxReserveBy(c) => d.(rx := RxReserve(g, d.rx, c))
    case RxTransferBy(c, data) => d.(rx := RxTransfer(g, d.rx, c, data))
    case RxTransferDoneBy(c) => d.(rx := RxTransferDone(g, d.rx, c))
    case RxCheckBy(c) => d.(rx := RxCheck(d.rx, c))
    case RxPublishBy(c) => d.(rx := RxPublish(g, d.rx, c))
    case HostReadRxTail => d.(host := h.(stage := ReadTxHead, rxTail := d.rx.tail))
    case HostReadTxHead => d.(host := h.(stage := Decide, txHead := d.tx.head))
    case HostDecide => d.(host := h.(stage := if HostMayCopy(g, h) then Copying else ReadRxTail))
    case HostCopy(data) => d.(tx := d.tx.(mem := Store(g, d.tx.mem, h.txTail, data)))
    case HostCopyDone =>
      d.(tx := d.tx.(mem := Store(g, d.tx.mem, h.txTail, Load(g, d.rx.mem, h.rxHead))),
         host := h.(stage := PostTxTail, rxHead := Advance(g, h.rxHead), txTail := Advance(g, h.txTail)))
    case HostPostTxTail => d.(tx := d.tx.(tail := h.txTail), host := h.(stage := PostRxHead))
    case HostPostRxHead => d.(rx := d.rx.(head := h.rxHead), host := h.(stage := ReadRxTail))
    case TxLatchBy(c) => d.(tx := TxLatch(d.tx, c))
    case TxClaimBy(c) => d.(tx := TxClaim(g, d.tx, c))
    case TxFetchedBy(c) => d.(tx := TxFetched(g, d.tx, c))
    case TxCheckBy(c) => d.(tx := TxCheck(d.tx, c))
    case TxPublishBy(c) => d.(tx := TxPublish(g, d.tx, c))
    case TxSendBy(c) => d.(tx := TxSend(d.tx, c))
  }

  /** The device once the host has configured it: all pointers zero, both buffers zeroed. */
  function Configured(g: Geometry, rxContexts: nat, txContexts: nat): Device {
    var zeros: seq<Byte> := seq(g.capacity, _ => 0);
    Device(g,
           RxEngine(0, 0, 0, zeros, seq(rxContexts, _ => RxIdle), []),
           Host(ReadRxTail, 0, 0, 0, 0),
           TxEngine(0, 0, 0, zeros, seq(txContexts, _ => TxIdle), []))
  }
}
