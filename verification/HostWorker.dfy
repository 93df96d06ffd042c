/** The host side: the ring buffer library and the worker that moves packets between the rings. */
module HostWorker {
  import opened RingGeometry
  import opened EchoDevice
  import opened EchoFirmware
  import SingleContext

  /** A ring as the host sees it, over a buffer shared with the device. */
  class RingBuffer {
    const base: array<Byte>
    const entrySize: nat
    const capacity: nat
    var head: nat
    var tail: nat

    constructor (base: array<Byte>, entrySize: nat, capacity: nat)
      ensures this.base == base && this.entrySize == entrySize && this.capacity == capacity
      ensures head == 0 && tail == 0
    {
      this.base, this.entrySize, this.capacity := base, entrySize, capacity;
      head, tail := 0, 0;
    }

    function Shape(): Geometry { Geometry(entrySize, capacity) }

    predicate Empty()
      reads this
    {
      head == tail
    }

    predicate Full()
      requires capacity > 0
      reads this
    {
      ((tail + entrySize) % WORD32) % capacity == head
    }

    /** Bytes waiting in the ring. */
    function Size(): nat
      requires head <= capacity
      reads this
    {
      if head > tail then capacity - head + tail else tail - head
    }

    method Push()
      requires capacity > 0 && !Full()
      modifies this`tail
      ensures tail == Advance(Shape(), old(tail))
    {
      tail := (tail + entrySize) % WORD32;
      if tail >= capacity {
        tail := 0;
      }
    }

    method Pop()
      requires !Empty()
      modifies this`head
      ensures head == Advance(Shape(), old(head))
    {
      head := (head + entrySize) % WORD32;
      if head >= capacity {
        head := 0;
      }
    }
  }

  /** The library's size is the number of entries between the pointers, in bytes. */
  lemma SizeCountsEntries(rb: RingBuffer, i: nat, j: nat)
    requires rb.Shape().Valid() && i <= j < i + rb.Shape().Slots()
    requires rb.head == Offset(rb.Shape(), i) && rb.tail == Offset(rb.Shape(), j)
    ensures rb.head <= rb.capacity && rb.Size() == (j - i) * rb.entrySize
    ensures rb.Empty() <==> j == i
    ensures rb.Full() <==> j + 1 == i + rb.Shape().Slots()
    decreases i
  {
    var g := rb.Shape();
    OffsetFits(g, i);
    SameOffset(g, i, j);
    SameOffset(g, i, j + 1);
    ModuloAdvance(g, j);
    OffsetDifference(g, i, j);
  }

  lemma {:induction false} OffsetDifference(g: Geometry, i: nat, j: nat)
    requires g.Valid() && i <= j < i + g.Slots()
    ensures Offset(g, j) - Offset(g, i) == (j - i) * g.size
         || Offset(g, j) - Offset(g, i) == (j - i) * g.size - g.capacity
    ensures Offset(g, i) <= Offset(g, j) <==> Offset(g, j) - Offset(g, i) == (j - i) * g.size
    decreases j - i
  {
    hide Advance, Geometry.Slots;
    if i < j {
      OffsetDifference(g, i, j - 1);
      OffsetFits(g, j - 1);
      OffsetFits(g, i);
      SlotsTimesSize(g);
      MulStrict(j - i, g.Slots(), g.size);
      MulStep(j - i, g.size);
      AdvanceStep(g, Offset(g, j - 1));
    }
  }

  /** The worker thread: its ring copies and the stage of the loop it is in. The device's
      registers and buffers are those of `rx` and `tx`, which others change between the stages. */
  class Worker {
    const ringRx: RingBuffer
    const ringTx: RingBuffer
    var stage: Stage

    constructor (rx: Receiver, tx: Transmitter, g: Geometry)
      ensures Host() == Configured(g, 0, 0).host && fresh(ringRx) && fresh(ringTx) && ringRx != ringTx
      ensures ringRx.Shape() == g && ringTx.Shape() == g && ringRx.base == rx.mem && ringTx.base == tx.mem
    {
      ringRx := new RingBuffer(rx.mem, g.size, g.capacity);
      ringTx := new RingBuffer(tx.mem, g.size, g.capacity);
      stage := ReadRxTail;
    }

    function Host(): Host
      reads this, ringRx, ringTx
    {
      EchoDevice.Host(stage, ringRx.head, ringRx.tail, ringTx.head, ringTx.tail)
    }

    /** The whole device, as the worker's methods change it. */
    function Dev(rx: Receiver, tx: Transmitter): Device
      reads this, ringRx, ringTx, rx, rx.mem, tx, tx.mem
    {
      Device(rx.g, rx.Engine(), Host(), tx.Engine())
    }

    /** The worker is attached to this device. */
    ghost predicate Attached(rx: Receiver, tx: Transmitter) {
      && rx.g == tx.g && rx.g.Valid() && ringRx != ringTx && rx.mem != tx.mem
      && ringRx.Shape() == rx.g && ringTx.Shape() == rx.g
      && ringRx.base == rx.mem && ringTx.base == tx.mem
    }

    /** Copy the oldest received entry to the transmit ring. */
    method CopyEntry(rx: Receiver, tx: Transmitter)
      requires Attached(rx, tx) && Enabled(Dev(rx, tx), HostCopyDone, true)
      requires stage == Copying && !ringRx.Empty() && !ringTx.Full()
      modifies this, ringRx, ringTx, tx.mem
      ensures Attached(rx, tx)
      ensures Dev(rx, tx) == Do(old(Dev(rx, tx)), HostCopyDone, true) && stage == PostTxTail
    {
      hide Advance;
      SingleContext.Copy(ringRx.base[ringRx.head..ringRx.head + ringRx.entrySize], ringTx.base, ringTx.tail);
      ringRx.Pop();
      ringTx.Push();
      stage := PostTxTail;
    }

    /** One pass over the loop body's next access to memory the device shares. */
    method Step(rx: Receiver, tx: Transmitter)
      requires Attached(rx, tx) && Enabled(Dev(rx, tx), WorkerEvent(stage), true)
      requires stage == Copying ==> !ringRx.Empty() && !ringTx.Full()
      modifies this, ringRx, ringTx, rx`head, tx`tail, tx.mem
      ensures Attached(rx, tx)
      ensures Dev(rx, tx) == Do(old(Dev(rx, tx)), WorkerEvent(old(stage)), true)
      ensures stage == Copying ==> !ringRx.Empty() && !ringTx.Full()
    {
      hide Advance;
      match stage
      case ReadRxTail =>
        ringRx.tail := rx.tail;
        stage := ReadTxHead;
      case ReadTxHead =>
        ringTx.head := tx.head;
        stage := Decide;
      case Decide =>
        stage := if !ringRx.Empty() && !ringTx.Full() then Copying else ReadRxTail;
      case Copying =>
        CopyEntry(rx, tx);
      case PostTxTail =>
        tx.tail := ringTx.tail;
        stage := PostRxHead;
      case PostRxHead =>
        rx.head := ringRx.head;
        stage := ReadRxTail;
    }
  }
}
