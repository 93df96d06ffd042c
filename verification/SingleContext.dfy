/** The single-context firmware: one receive and one transmit loop iteration, in place. It is the
    specification the multi-context firmware is compared with. */
module SingleContext {
  import opened RingGeometry
  import opened PacketEcho

  datatype Outcome = Dropped | Polling | Done

  /** A ring as both ends see it: the pointers in CLS and the buffer in host memory. */
  class Ring {
    const g: Geometry
    var head: nat
    var tail: nat
    const mem: array<Byte>

    constructor (g: Geometry)
      requires g.Valid()
      ensures this.g == g && head == 0 && tail == 0 && fresh(mem)
      ensures mem.Length == g.capacity && mem[..] == seq(g.capacity, _ => 0)
    {
      this.g := g;
      head, tail := 0, 0;
      mem := new Byte[g.capacity](_ => 0);
    }

    ghost predicate Valid()
      reads this
    {
      g.Valid() && mem.Length == g.capacity && head + g.size <= g.capacity && tail + g.size <= g.capacity
    }

    /** Wait until the peer's pointer differs from `busy`; `polls` are the values it takes. */
    method Poll(busy: nat, polls: seq<nat>) returns (free: bool, seen: nat)
      ensures free <==> exists k :: 0 <= k < |polls| && polls[k] != busy
      ensures seen < |polls| || !free
      ensures free ==> polls[seen] != busy && forall k :: 0 <= k < seen ==> polls[k] == busy
    {
      seen := 0;
      while seen < |polls|
        invariant seen <= |polls|
        invariant forall k :: 0 <= k < seen ==> polls[k] == busy
      {
        if polls[seen] != busy {
          return true, seen;
        }
        seen := seen + 1;
      }
      free := false;
    }

    /** Receive one frame. The head is the host's; `polls` are the values it takes while polled. */
    method RxProcess(f: Frame, polls: seq<nat>) returns (r: Outcome)
      requires Valid() && f.Valid() && g.size < WORD32 - 2 * MAC_PREPEND_BYTES
      modifies this`tail, mem
      ensures mem.Length == g.capacity
      ensures r == Dropped <==> !Allowed(f, g.size)
      ensures r == Done <==>
        Allowed(f, g.size) && exists k :: 0 <= k < |polls| && polls[k] != Advance(g, old(tail))
      ensures r == Done ==>
        && PKT_NBI_OFFSET + 2 * MAC_PREPEND_BYTES + g.size <= |f.mu|
        && tail == Advance(g, old(tail))
        && mem[..] == Store(g, old(mem[..]), old(tail), EchoOf(f, g.size))
      ensures r != Done ==> tail == old(tail) && mem[..] == old(mem[..])
    {
      if !Allowed(f, g.size) {
        return Dropped;
      }
      AllowedFits(f, g.size);
      var updated := Advance(g, tail);
      var free, _ := Poll(updated, polls);
      if !free {
        return Polling;
      }
      Copy(EchoOf(f, g.size), mem, tail);
      tail := updated;
      r := Done;
    }

    /** Transmit one packet. The tail is the host's; `polls` are the values it takes while polled. */
    method TxProcess(polls: seq<nat>) returns (r: Outcome, pkt: seq<Byte>)
      requires Valid()
      modifies this`head
      ensures r == Done <==> exists k :: 0 <= k < |polls| && polls[k] != old(head)
      ensures r == Done ==> pkt == Load(g, mem[..], old(head)) && head == Advance(g, old(head))
      ensures r != Done ==> r == Polling && head == old(head)
    {
      pkt := [];
      var free, _ := Poll(head, polls);
      if !free {
        return Polling, pkt;
      }
      pkt := mem[head..head + g.size];
      head := Advance(g, head);
      r := Done;
    }
  }

  /** One transfer into a buffer, byte by byte. */
  method Copy(data: seq<Byte>, a: array<Byte>, at: nat)
    requires at + |data| <= a.Length
    modifies a
    ensures a[..] == old(a[..])[..at] + data + old(a[..])[at + |data|..]
  {
    for i := 0 to |data|
      invariant forall k :: 0 <= k < a.Length ==> a[k] == if at <= k < at + i then data[k - at] else old(a[k])
    {
      a[at + i] := data[i];
    }
  }
}
