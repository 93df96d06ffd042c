/** The receive ring: many firmware contexts produce, the host worker consumes. */
module RxInvariant {
  import opened RingGeometry
  import opened PacketEcho
  import opened EchoDevice
  import opened EchoHistory

  ghost predicate RxSizes(g: Geometry, e: RxEngine, l: RxLog) {
    && g.Valid()
    && |e.mem| == g.capacity
    && |l.count| == |e.ctx|
    && |l.owner| == |l.reserved|
    && forall i :: 0 <= i < |l.reserved| ==> |l.reserved[i]| == g.size
  }

  /** freed <= published <= reserved <= freed + n - 1, and the pointers are these counters. */
  ghost predicate RxCounters(g: Geometry, e: RxEngine, l: RxLog)
    requires g.Valid()
  {
    && l.freed <= l.published <= |l.reserved| <= l.freed + g.Slots() - 1
    && e.head == Offset(g, l.freed)
    && e.tail == Offset(g, l.published)
    && e.shadowTail == Offset(g, |l.reserved|)
  }

  predicate RxHolds(x: RxContext) { x.RxSending? || x.RxTicket? || x.RxCleared? }

  /** Slot `i` contains the packet reserved as number `i`. */
  ghost predicate RxSlotReady(g: Geometry, e: RxEngine, l: RxLog, i: nat) {
    && i < |l.reserved|
    && Offset(g, i) + g.size <= |e.mem|
    && Load(g, e.mem, Offset(g, i)) == l.reserved[i]
  }

  /** Context `c` holds the reservation it believes to hold, its transfer is done when it says so. */
  ghost predicate RxHolderOk(g: Geometry, e: RxEngine, l: RxLog, c: nat)
    requires c < |e.ctx| && c < |l.count|
  {
    var x := e.ctx[c];
    RxHolds(x) ==>
      && l.published <= l.count[c] < |l.reserved|
      && |l.owner| == |l.reserved| && l.owner[l.count[c]] == c
      && x.tail == Offset(g, l.count[c])
      && (x.RxSending? ==> x.pkt == l.reserved[l.count[c]])
      && (!x.RxSending? ==> RxSlotReady(g, e, l, l.count[c]))
      && (x.RxCleared? ==> l.count[c] == l.published)
  }

  /** A latched head may be stale, but no reservation has been made beyond what it allows. */
  ghost predicate RxLatchedOk(g: Geometry, e: RxEngine, l: RxLog, c: nat)
    requires g.Valid() && c < |e.ctx| && c < |l.count|
  {
    var x := e.ctx[c];
    && (x.RxWaiting? || x.RxLatched? ==> |x.pkt| == g.size)
    && (x.RxLatched? ==>
          && c in e.replies
          && x.head == Offset(g, l.count[c])
          && l.count[c] <= l.freed
          && |l.reserved| <= l.count[c] + g.Slots() - 1)
  }

  /** Pending replies: no context twice, and heads latched later are not older. */
  ghost predicate RxReplies(e: RxEngine, l: RxLog)
    requires |l.count| == |e.ctx|
  {
    && (forall i :: 0 <= i < |e.replies| ==> e.replies[i] < |e.ctx| && e.ctx[e.replies[i]].RxLatched?)
    && (forall i, j :: 0 <= i < j < |e.replies| ==> e.replies[i] != e.replies[j])
    && (forall i, j :: 0 <= i < j < |e.replies| && e.replies[j] < |l.count| && e.replies[i] < |l.count| ==>
          l.count[e.replies[i]] <= l.count[e.replies[j]])
  }

  /** Every unpublished reservation is held by the context that made it. */
  ghost predicate RxOwner(e: RxEngine, l: RxLog, i: nat)
    requires |l.count| == |e.ctx| && i < |l.owner|
  {
    l.owner[i] < |e.ctx| && RxHolds(e.ctx[l.owner[i]]) && l.count[l.owner[i]] == i
  }

  ghost predicate RxInv(g: Geometry, e: RxEngine, l: RxLog) {
    && RxSizes(g, e, l)
    && RxCounters(g, e, l)
    && RxReplies(e, l)
    && (forall c :: 0 <= c < |e.ctx| ==> RxHolderOk(g, e, l, c))
    && (forall c :: 0 <= c < |e.ctx| ==> RxLatchedOk(g, e, l, c))
    && (forall i :: l.published <= i < |l.reserved| ==> RxOwner(e, l, i))
    && (forall i :: l.freed <= i < l.published ==> RxSlotReady(g, e, l, i))
  }

  // ----- One lemma per event -----

  lemma RxReceiveKeeps(g: Geometry, e: RxEngine, l: RxLog, c: nat, f: Frame)
    requires RxInv(g, e, l) && RxAt(e, c) && e.ctx[c].RxIdle?
    requires f.Valid() && g.size < WORD32 - 2 * MAC_PREPEND_BYTES
    ensures RxInv(g, RxReceive(g, e, c, f), l)
  {
    var e' := RxReceive(g, e, c, f);
    forall i | l.published <= i < |l.reserved| ensures RxOwner(e', l, i) {
      assert RxOwner(e, l, i);
    }
    forall k | 0 <= k < |e'.ctx| ensures RxHolderOk(g, e', l, k) {
      assert RxHolderOk(g, e, l, k);
    }
    forall k | 0 <= k < |e'.ctx| ensures RxLatchedOk(g, e', l, k) {
      assert RxLatchedOk(g, e, l, k);
    }
    forall i | l.freed <= i < l.published ensures RxSlotReady(g, e', l, i) {
      assert RxSlotReady(g, e, l, i);
    }
  }

  lemma RxLatchKeeps(g: Geometry, e: RxEngine, l: RxLog, c: nat)
    requires RxInv(g, e, l) && RxAt(e, c) && e.ctx[c].RxWaiting?
    ensures RxInv(g, RxLatch(e, c), l.(count := l.count[c := l.freed]))
  {
    var e', l' := RxLatch(e, c), l.(count := l.count[c := l.freed]);
    assert c !in e.replies;
    assert RxLatchedOk(g, e, l, c);
    forall i | l.published <= i < |l.reserved| ensures RxOwner(e', l', i) {
      assert RxOwner(e, l, i);
    }
    forall k | 0 <= k < |e'.ctx| ensures RxHolderOk(g, e', l', k) {
      assert RxHolderOk(g, e, l, k);
    }
    forall k | 0 <= k < |e'.ctx| ensures RxLatchedOk(g, e', l', k) {
      assert RxLatchedOk(g, e, l, k);
    }
    forall i, j | 0 <= i < j < |e'.replies| ensures l'.count[e'.replies[i]] <= l'.count[e'.replies[j]] {
      assert RxLatchedOk(g, e, l, e.replies[i]);
    }
    forall i | l.freed <= i < l.published ensures RxSlotReady(g, e', l', i) {
      assert RxSlotReady(g, e, l, i);
    }
  }

  /** A reply behind the first is still pending when that is taken, and its head is not older. */
  lemma LaterReply(e: RxEngine, l: RxLog, c: nat, k: nat)
    requires |l.count| == |e.ctx| && RxReplies(e, l)
    requires e.replies != [] && e.replies[0] == c && k in e.replies && k != c
    ensures c < |l.count| && k < |l.count| && k in e.replies[1..] && l.count[c] <= l.count[k]
  {
    var i :| 0 <= i < |e.replies| && e.replies[i] == k;
    assert e.replies[1..][i - 1] == k;
    assert l.count[e.replies[0]] <= l.count[e.replies[i]];
  }

  lemma RxReserveKeeps(g: Geometry, e: RxEngine, l: RxLog, c: nat)
    requires RxInv(g, e, l) && RxAt(e, c) && e.ctx[c].RxLatched?
    requires e.replies != [] && e.replies[0] == c
    ensures RxInv(g, RxReserve(g, e, c), RxReserveLog(g, e, l, c))
  {
    hide Advance, Load, Store, Geometry.Slots, Geometry.Valid;
    var e', l' := RxReserve(g, e, c), RxReserveLog(g, e, l, c);
    assert e'.replies == e.replies[1..];
    var n := |l.reserved|;
    assert RxLatchedOk(g, e, l, c);
    SameOffset(g, l.count[c], n + 1);
    assert RxRingFull(g, e, c) <==> n + 1 == l.count[c] + g.Slots();
    forall i | l'.published <= i < |l'.reserved| ensures RxOwner(e', l', i) {
      if i < n { assert RxOwner(e, l, i); }
    }
    forall k | 0 <= k < |e'.ctx| ensures RxHolderOk(g, e', l', k) {
      assert RxHolderOk(g, e, l, k);
      if RxHolds(e.ctx[k]) && !e.ctx[k].RxSending? {
        assert RxSlotReady(g, e, l, l.count[k]);
        assert RxSlotReady(g, e', l', l.count[k]);
      }
    }
    forall k | 0 <= k < |e'.ctx| ensures RxLatchedOk(g, e', l', k) {
      assert RxLatchedOk(g, e, l, k);
      if k != c && e.ctx[k].RxLatched? { LaterReply(e, l, c, k); }
    }
    forall i | l'.freed <= i < l'.published ensures RxSlotReady(g, e', l', i) {
      assert RxSlotReady(g, e, l, i);
    }
  }

  lemma RxTransferKeeps(g: Geometry, e: RxEngine, l: RxLog, c: nat, data: Packet)
    requires RxInv(g, e, l) && RxAt(e, c) && RxFitsSlot(g, e, c, data)
    ensures RxInv(g, RxTransfer(g, e, c, data), l)
  {
    hide Advance;
    var e' := RxTransfer(g, e, c, data);
    assert RxHolderOk(g, e, l, c);
    forall i | l.freed <= i < |l.reserved| && i != l.count[c] && RxSlotReady(g, e, l, i)
      ensures RxSlotReady(g, e', l, i)
    {
      StoreSlot(g, e.mem, l.count[c], i, data);
    }
    forall i | l.published <= i < |l.reserved| ensures RxOwner(e', l, i) {
      assert RxOwner(e, l, i);
    }
    forall k | 0 <= k < |e'.ctx| ensures RxHolderOk(g, e', l, k) {
      assert RxHolderOk(g, e, l, k);
    }
    forall k | 0 <= k < |e'.ctx| ensures RxLatchedOk(g, e', l, k) {
      assert RxLatchedOk(g, e, l, k);
    }
  }

  lemma RxTransferDoneKeeps(g: Geometry, e: RxEngine, l: RxLog, c: nat)
    requires RxInv(g, e, l) && RxAt(e, c) && e.ctx[c].RxSending? && RxFitsSlot(g, e, c, e.ctx[c].pkt)
    ensures RxInv(g, RxTransferDone(g, e, c), l)
  {
    hide Advance, Load, Store, Geometry.Slots, Geometry.Valid;
    var m, e' := RxTransfer(g, e, c, e.ctx[c].pkt), RxTransferDone(g, e, c);
    RxTransferKeeps(g, e, l, c, e.ctx[c].pkt);
    assert RxHolderOk(g, e, l, c);
    StoreSlot(g, e.mem, l.count[c], l.count[c], e.ctx[c].pkt);
    forall i | l.published <= i < |l.reserved| ensures RxOwner(e', l, i) {
      assert RxOwner(m, l, i);
    }
    forall k | 0 <= k < |e'.ctx| ensures RxHolderOk(g, e', l, k) {
      assert RxHolderOk(g, m, l, k);
      if k != c && RxHolds(m.ctx[k]) && !m.ctx[k].RxSending? {
        assert RxSlotReady(g, m, l, l.count[k]);
        assert RxSlotReady(g, e', l, l.count[k]);
      }
    }
    forall k | 0 <= k < |e'.ctx| ensures RxLatchedOk(g, e', l, k) {
      assert RxLatchedOk(g, m, l, k);
    }
    forall i | l.freed <= i < l.published ensures RxSlotReady(g, e', l, i) {
      assert RxSlotReady(g, m, l, i);
    }
  }

  lemma RxCheckKeeps(g: Geometry, e: RxEngine, l: RxLog, c: nat)
    requires RxInv(g, e, l) && RxAt(e, c) && e.ctx[c].RxTicket?
    ensures RxInv(g, RxCheck(e, c), l)
  {
    var e' := RxCheck(e, c);
    assert RxHolderOk(g, e, l, c);
    SameOffset(g, l.published, l.count[c]);
    forall i | l.published <= i < |l.reserved| ensures RxOwner(e', l, i) {
      assert RxOwner(e, l, i);
    }
    forall k | 0 <= k < |e'.ctx| ensures RxHolderOk(g, e', l, k) {
      assert RxHolderOk(g, e, l, k);
      if RxHolds(e.ctx[k]) && !e.ctx[k].RxSending? {
        assert RxSlotReady(g, e, l, l.count[k]);
        assert RxSlotReady(g, e', l, l.count[k]);
      }
    }
    forall k | 0 <= k < |e'.ctx| ensures RxLatchedOk(g, e', l, k) {
      assert RxLatchedOk(g, e, l, k);
    }
    forall i | l.freed <= i < l.published ensures RxSlotReady(g, e', l, i) {
      assert RxSlotReady(g, e, l, i);
    }
  }

  lemma RxPublishKeeps(g: Geometry, e: RxEngine, l: RxLog, c: nat)
    requires RxInv(g, e, l) && RxAt(e, c) && e.ctx[c].RxCleared?
    ensures RxInv(g, RxPublish(g, e, c), l.(published := l.published + 1))
  {
    hide Advance, Load, Store, Geometry.Slots, Geometry.Valid;
    var e', l' := RxPublish(g, e, c), l.(published := l.published + 1);
    assert RxHolderOk(g, e, l, c);
    forall i | l'.published <= i < |l'.reserved| ensures RxOwner(e', l', i) {
      assert RxOwner(e, l, i);
    }
    forall k | 0 <= k < |e'.ctx| ensures RxHolderOk(g, e', l', k) {
      assert RxHolderOk(g, e, l, k);
      if k != c && RxHolds(e.ctx[k]) {
        if !e.ctx[k].RxSending? {
          assert RxSlotReady(g, e', l', l.count[k]);
        }
      }
    }
    forall k | 0 <= k < |e'.ctx| ensures RxLatchedOk(g, e', l', k) {
      assert RxLatchedOk(g, e, l, k);
    }
    forall i | l'.freed <= i < l'.published ensures RxSlotReady(g, e', l', i) {
      if i < l.published { assert RxSlotReady(g, e, l, i); } else { assert RxSlotReady(g, e, l, l.count[c]); }
    }
  }

  lemma RxClearedIsOldest(g: Geometry, e: RxEngine, l: RxLog, c: nat)
    requires RxInv(g, e, l) && RxAt(e, c) && e.ctx[c].RxCleared?
    ensures l.published < |l.reserved|
  {
    assert RxHolderOk(g, e, l, c);
  }

  /** The host frees slots up to a counter it has seen published. */
  lemma RxFreeKeeps(g: Geometry, e: RxEngine, l: RxLog, freed: nat)
    requires RxInv(g, e, l) && l.freed <= freed <= l.published
    ensures RxInv(g, e.(head := Offset(g, freed)), l.(freed := freed))
  {
    hide Advance, Load, Store, Geometry.Slots, Geometry.Valid;
    var e', l' := e.(head := Offset(g, freed)), l.(freed := freed);
    forall i | l.published <= i < |l.reserved| ensures RxOwner(e', l', i) {
      assert RxOwner(e, l, i);
    }
    forall k | 0 <= k < |e'.ctx| ensures RxHolderOk(g, e', l', k) {
      assert RxHolderOk(g, e, l, k);
      if RxHolds(e.ctx[k]) && !e.ctx[k].RxSending? {
        assert RxSlotReady(g, e, l, l.count[k]);
        assert RxSlotReady(g, e', l', l.count[k]);
      }
    }
    forall k | 0 <= k < |e'.ctx| ensures RxLatchedOk(g, e', l', k) {
      assert RxLatchedOk(g, e, l, k);
    }
    forall i | l'.freed <= i < l'.published ensures RxSlotReady(g, e', l', i) {
      assert RxSlotReady(g, e, l, i);
    }
  }
}
