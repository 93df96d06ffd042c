/** The code of the two multi-context microengines, one method for each stretch a context runs
    without being swapped out; each is the step of the same name in EchoDevice. */
module EchoFirmware {
  import opened RingGeometry
  import opened PacketEcho
  import opened EchoDevice
  import SingleContext

  class Receiver {
    const g: Geometry
    var head: nat
    var tail: nat
    var shadowTail: nat
    const mem: array<Byte>
    var ctx: seq<RxContext>
    var replies: seq<nat>

    constructor (g: Geometry, contexts: nat)
      ensures this.g == g && fresh(mem)
      ensures Engine() == Configured(g, contexts, 0).rx
    {
      this.g := g;
      head, tail, shadowTail := 0, 0, 0;
      mem := new Byte[g.capacity](_ => 0);
      ctx := seq(contexts, _ => RxIdle);
      replies := [];
    }

    function Engine(): RxEngine
      reads this, mem
    {
      RxEngine(head, tail, shadowTail, mem[..], ctx, replies)
    }

    method Receive(c: nat, f: Frame)
      requires RxAt(Engine(), c) && f.Valid() && g.size < WORD32 - 2 * MAC_PREPEND_BYTES
      modifies this
      ensures Engine() == RxReceive(g, old(Engine()), c, f)
      ensures if Wire(f)[12..14] == [0x08, 0x00] && Wire(f)[23] in {1, 17} && f.len == g.size + 8 then
                g.size <= |Wire(f)| && ctx[c].RxWaiting? && |ctx[c].pkt| == g.size && SentBack(Wire(f), ctx[c].pkt)
              else Engine() == old(Engine())
    {
      hide Wire, SentBack;
      AllowedExactly(f, g.size);
      if Allowed(f, g.size) {
        AllowedFits(f, g.size);
        EchoIsSentBack(f, g.size);
        ctx := ctx[c := RxWaiting(EchoOf(f, g.size))];
      }
    }

    method Latch(c: nat)
      requires RxAt(Engine(), c) && ctx[c].RxWaiting?
      modifies this
      ensures Engine() == RxLatch(old(Engine()), c)
    {
      ctx := ctx[c := RxLatched(ctx[c].pkt, head)];
      replies := replies + [c];
    }

    method Reserve(c: nat) returns (reserved: bool)
      requires RxAt(Engine(), c) && ctx[c].RxLatched?
      modifies this
      ensures reserved <==> Advance(g, old(shadowTail)) != old(ctx[c]).head
      ensures Engine() == RxReserve(g, old(Engine()), c)
    {
      replies := Without(replies, c);
      var at := shadowTail;
      var updated := (at + g.size) % WORD32;
      if updated >= g.capacity {
        updated := 0;
      }
      reserved := updated != ctx[c].head;
      if reserved {
        ctx := ctx[c := RxSending(ctx[c].pkt, at)];
        shadowTail := updated;
      } else {
        ctx := ctx[c := RxWaiting(ctx[c].pkt)];
      }
    }

    method TransferDone(c: nat)
      requires RxAt(Engine(), c) && ctx[c].RxSending? && RxFitsSlot(g, Engine(), c, ctx[c].pkt)
      modifies this, mem
      ensures Engine() == RxTransferDone(g, old(Engine()), c)
    {
      SingleContext.Copy(ctx[c].pkt, mem, ctx[c].tail);
      ctx := ctx[c := RxTicket(ctx[c].tail)];
    }

    method Check(c: nat) returns (turn: bool)
      requires RxAt(Engine(), c) && ctx[c].RxTicket?
      modifies this
      ensures turn <==> old(tail) == old(ctx[c]).tail
      ensures Engine() == RxCheck(old(Engine()), c)
    {
      turn := tail == ctx[c].tail;
      if turn {
        ctx := ctx[c := RxCleared(ctx[c].tail)];
      }
    }

    method Publish(c: nat)
      requires RxAt(Engine(), c) && ctx[c].RxCleared?
      modifies this
      ensures Engine() == RxPublish(g, old(Engine()), c)
    {
      tail := Advance(g, ctx[c].tail);
      ctx := ctx[c := RxIdle];
    }
  }

  class Transmitter {
    const g: Geometry
    var head: nat
    var tail: nat
    var shadowHead: nat
    const mem: array<Byte>
    var ctx: seq<TxContext>
    var replies: seq<nat>

    constructor (g: Geometry, contexts: nat)
      ensures this.g == g && fresh(mem)
      ensures Engine() == Configured(g, 0, contexts).tx
    {
      this.g := g;
      head, tail, shadowHead := 0, 0, 0;
      mem := new Byte[g.capacity](_ => 0);
      ctx := seq(contexts, _ => TxIdle);
      replies := [];
    }

    function Engine(): TxEngine
      reads this, mem
    {
      TxEngine(head, tail, shadowHead, mem[..], ctx, replies)
    }

    method Latch(c: nat)
      requires TxAt(Engine(), c) && ctx[c].TxIdle?
      modifies this
      ensures Engine() == TxLatch(old(Engine()), c)
    {
      ctx := ctx[c := TxLatched(tail)];
      replies := replies + [c];
    }

    method Claim(c: nat) returns (claimed: bool)
      requires TxAt(Engine(), c) && ctx[c].TxLatched?
      modifies this
      ensures claimed <==> old(shadowHead) != old(ctx[c]).tail
      ensures Engine() == TxClaim(g, old(Engine()), c)
    {
      replies := Without(replies, c);
      var at := shadowHead;
      var updated := (at + g.size) % WORD32;
      if updated >= g.capacity {
        updated := 0;
      }
      claimed := at != ctx[c].tail;
      if claimed {
        ctx := ctx[c := TxFetching(at)];
        shadowHead := updated;
      } else {
        ctx := ctx[c := TxIdle];
      }
    }

    method Fetched(c: nat)
      requires TxAt(Engine(), c) && ctx[c].TxFetching? && ctx[c].head + g.size <= mem.Length
      modifies this
      ensures Engine() == TxFetched(g, old(Engine()), c)
    {
      var at := ctx[c].head;
      ctx := ctx[c := TxTicket(mem[at..at + g.size], at)];
      assert mem[at..at + g.size] == mem[..][at..at + g.size];
    }

    method Check(c: nat) returns (turn: bool)
      requires TxAt(Engine(), c) && ctx[c].TxTicket?
      modifies this
      ensures turn <==> old(head) == old(ctx[c]).head
      ensures Engine() == TxCheck(old(Engine()), c)
    {
      turn := head == ctx[c].head;
      if turn {
        ctx := ctx[c := TxCleared(ctx[c].pkt, ctx[c].head)];
      }
    }

    method Publish(c: nat)
      requires TxAt(Engine(), c) && ctx[c].TxCleared?
      modifies this
      ensures Engine() == TxPublish(g, old(Engine()), c)
    {
      head := Advance(g, ctx[c].head);
      ctx := ctx[c := TxSending(ctx[c].pkt)];
    }

    method Send(c: nat) returns (pkt: Packet)
      requires TxAt(Engine(), c) && ctx[c].TxSending?
      modifies this
      ensures pkt == old(ctx[c]).pkt
      ensures Engine() == TxSend(old(Engine()), c)
    {
      pkt := ctx[c].pkt;
      ctx := ctx[c := TxIdle];
    }
  }
}
