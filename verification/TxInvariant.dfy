/** The transmit ring: the host worker produces, many firmware contexts consume. */
module TxInvariant {
  import opened RingGeometry
  import opened EchoDevice
  import opened EchoHistory

  ghost predicate TxSizes(g: Geometry, e: TxEngine, l: TxLog, copied: seq<Packet>) {
    && g.Valid()
    && |e.mem| == g.capacity
    && |l.count| == |e.ctx|
    && forall i :: 0 <= i < |copied| ==> |copied[i]| == g.size
  }

  /** taken <= claimed <= posted <= copied <= taken + n - 1, and the pointers are these counters. */
  ghost predicate TxCounters(g: Geometry, e: TxEngine, l: TxLog, copied: seq<Packet>)
    requires g.Valid()
  {
    && |l.taken| <= |l.owner| <= l.posted <= |copied| <= |l.taken| + g.Slots() - 1
    && e.head == Offset(g, |l.taken|)
    && e.tail == Offset(g, l.posted)
    && e.shadowHead == Offset(g, |l.owner|)
  }

  predicate TxHolds(x: TxContext) { x.TxFetching? || x.TxTicket? || x.TxCleared? }

  /** Slot `i` contains the packet the host copied as number `i`. */
  ghost predicate TxSlotReady(g: Geometry, e: TxEngine, copied: seq<Packet>, i: nat) {
    && i < |copied|
    && Offset(g, i) + g.size <= |e.mem|
    && Load(g, e.mem, Offset(g, i)) == copied[i]
  }

  ghost predicate TxHolderOk(g: Geometry, e: TxEngine, l: TxLog, copied: seq<Packet>, c: nat)
    requires c < |e.ctx| && c < |l.count|
  {
    var x := e.ctx[c];
    && (TxHolds(x) || x.TxSending? ==>
          && l.count[c] < |l.owner| <= |copied|
          && l.owner[l.count[c]] == c
          && (!x.TxFetching? ==> x.pkt == copied[l.count[c]]))
    && (TxHolds(x) ==> |l.taken| <= l.count[c] && x.head == Offset(g, l.count[c]))
    && (x.TxCleared? ==> l.count[c] == |l.taken|)
    && (x.TxSending? ==> l.count[c] < |l.taken| && l.count[c] !in l.sent)
  }

  /** A latched tail may be stale, but no slot beyond it has been claimed. */
  ghost predicate TxLatchedOk(g: Geometry, e: TxEngine, l: TxLog, c: nat)
    requires c < |e.ctx| && c < |l.count|
  {
    e.ctx[c].TxLatched? ==>
      && c in e.replies
      && e.ctx[c].tail == Offset(g, l.count[c])
      && |l.owner| <= l.count[c] <= l.posted
  }

  ghost predicate TxReplies(e: TxEngine, l: TxLog)
    requires |l.count| == |e.ctx|
  {
    && (forall i :: 0 <= i < |e.replies| ==> e.replies[i] < |e.ctx| && e.ctx[e.replies[i]].TxLatched?)
    && (forall i, j :: 0 <= i < j < |e.replies| ==> e.replies[i] != e.replies[j])
    && (forall i, j :: 0 <= i < j < |e.replies| && e.replies[j] < |l.count| && e.replies[i] < |l.count| ==>
          l.count[e.replies[i]] <= l.count[e.replies[j]])
  }

  /** Every claimed and uncommitted slot is held by the context that claimed it; every committed
      packet has been handed over or is about to be, by that context. */
  ghost predicate TxOwner(e: TxEngine, l: TxLog, i: nat)
    requires |l.count| == |e.ctx| && i < |l.owner|
  {
    var c := l.owner[i];
    (i < |l.taken| && i in l.sent)
    || (c < |e.ctx| && l.count[c] == i && if i < |l.taken| then e.ctx[c].TxSending? else TxHolds(e.ctx[c]))
  }

  ghost predicate TxInv(g: Geometry, e: TxEngine, l: TxLog, copied: seq<Packet>) {
    && TxSizes(g, e, l, copied)
    && TxCounters(g, e, l, copied)
    && TxReplies(e, l)
    && l.taken == copied[..|l.taken|]
    && (forall i :: i in l.sent ==> i < |l.taken|)
    && (forall c :: 0 <= c < |e.ctx| ==> TxHolderOk(g, e, l, copied, c))
    && (forall c :: 0 <= c < |e.ctx| ==> TxLatchedOk(g, e, l, c))
    && (forall i :: 0 <= i < |l.owner| ==> TxOwner(e, l, i))
    && (forall i :: |l.taken| <= i < |copied| ==> TxSlotReady(g, e, copied, i))
  }

  // ----- One lemma per event -----

  lemma TxLatchKeeps(g: Geometry, e: TxEngine, l: TxLog, copied: seq<Packet>, c: nat)
    requires TxInv(g, e, l, copied) && TxAt(e, c) && e.ctx[c].TxIdle?
    ensures TxInv(g, TxLatch(e, c), l.(count := l.count[c := l.posted]), copied)
  {
    var e', l' := TxLatch(e, c), l.(count := l.count[c := l.posted]);
    assert c !in e.replies;
    forall i | 0 <= i < |l.owner| ensures TxOwner(e', l', i) {
      assert TxOwner(e, l, i);
    }
    forall k | 0 <= k < |e'.ctx| ensures TxHolderOk(g, e', l', copied, k) {
      assert TxHolderOk(g, e, l, copied, k);
    }
    forall k | 0 <= k < |e'.ctx| ensures TxLatchedOk(g, e', l', k) {
      assert TxLatchedOk(g, e, l, k);
    }
    forall i, j | 0 <= i < j < |e'.replies| ensures l'.count[e'.replies[i]] <= l'.count[e'.replies[j]] {
      assert TxLatchedOk(g, e, l, e.replies[i]);
    }
    forall i | |l.taken| <= i < |copied| ensures TxSlotReady(g, e', copied, i) {
      assert TxSlotReady(g, e, copied, i);
    }
  }

  lemma TxClaimKeeps(g: Geometry, e: TxEngine, l: TxLog, copied: seq<Packet>, c: nat)
    requires TxInv(g, e, l, copied) && TxAt(e, c) && e.ctx[c].TxLatched?
    requires e.replies != [] && e.replies[0] == c
    ensures TxInv(g, TxClaim(g, e, c), TxClaimLog(e, l, c), copied)
  {
    hide Advance, Load, Store, Geometry.Slots, Geometry.Valid;
    var e', l' := TxClaim(g, e, c), TxClaimLog(e, l, c);
    assert e'.replies == e.replies[1..];
    var n := |l.owner|;
    assert TxLatchedOk(g, e, l, c);
    SameOffset(g, n, l.count[c]);
    forall i | 0 <= i < |l'.owner| ensures TxOwner(e', l', i) {
      if i < n { assert TxOwner(e, l, i); }
    }
    forall k | 0 <= k < |e'.ctx| ensures TxHolderOk(g, e', l', copied, k) {
      assert TxHolderOk(g, e, l, copied, k);
    }
    forall k | 0 <= k < |e'.ctx| ensures TxLatchedOk(g, e', l', k) {
      assert TxLatchedOk(g, e, l, k);
      if k != c && e.ctx[k].TxLatched? {
        var i :| 0 <= i < |e.replies| && e.replies[i] == k;
        assert i > 0;
        assert e'.replies[i - 1] == k;
        assert l.count[e.replies[0]] <= l.count[e.replies[i]];
      }
    }
    forall i | |l.taken| <= i < |copied| ensures TxSlotReady(g, e', copied, i) {
      assert TxSlotReady(g, e, copied, i);
    }
  }

  lemma TxFetchedKeeps(g: Geometry, e: TxEngine, l: TxLog, copied: seq<Packet>, c: nat)
    requires TxInv(g, e, l, copied) && TxAt(e, c) && e.ctx[c].TxFetching? && e.ctx[c].head + g.size <= |e.mem|
    ensures TxInv(g, TxFetched(g, e, c), l, copied)
  {
    var e' := TxFetched(g, e, c);
    assert TxHolderOk(g, e, l, copied, c);
    assert TxSlotReady(g, e, copied, l.count[c]);
    forall i | 0 <= i < |l.owner| ensures TxOwner(e', l, i) {
      assert TxOwner(e, l, i);
    }
    forall k | 0 <= k < |e'.ctx| ensures TxHolderOk(g, e', l, copied, k) {
      assert TxHolderOk(g, e, l, copied, k);
    }
    forall k | 0 <= k < |e'.ctx| ensures TxLatchedOk(g, e', l, k) {
      assert TxLatchedOk(g, e, l, k);
    }
    forall i | |l.taken| <= i < |copied| ensures TxSlotReady(g, e', copied, i) {
      assert TxSlotReady(g, e, copied, i);
    }
  }

  lemma TxCheckKeeps(g: Geometry, e: TxEngine, l: TxLog, copied: seq<Packet>, c: nat)
    requires TxInv(g, e, l, copied) && TxAt(e, c) && e.ctx[c].TxTicket?
    ensures TxInv(g, TxCheck(e, c), l, copied)
  {
    var e' := TxCheck(e, c);
    assert TxHolderOk(g, e, l, copied, c);
    SameOffset(g, |l.taken|, l.count[c]);
    forall i | 0 <= i < |l.owner| ensures TxOwner(e', l, i) {
      assert TxOwner(e, l, i);
    }
    forall k | 0 <= k < |e'.ctx| ensures TxHolderOk(g, e', l, copied, k) {
      assert TxHolderOk(g, e, l, copied, k);
    }
    forall k | 0 <= k < |e'.ctx| ensures TxLatchedOk(g, e', l, k) {
      assert TxLatchedOk(g, e, l, k);
    }
    forall i | |l.taken| <= i < |copied| ensures TxSlotReady(g, e', copied, i) {
      assert TxSlotReady(g, e, copied, i);
    }
  }

  lemma TxPublishKeeps(g: Geometry, e: TxEngine, l: TxLog, copied: seq<Packet>, c: nat)
    requires TxInv(g, e, l, copied) && TxAt(e, c) && e.ctx[c].TxCleared?
    ensures TxInv(g, TxPublish(g, e, c), l.(taken := l.taken + [e.ctx[c].pkt]), copied)
  {
    var e', l' := TxPublish(g, e, c), l.(taken := l.taken + [e.ctx[c].pkt]);
    assert TxHolderOk(g, e, l, copied, c);
    forall i | 0 <= i < |l'.owner| ensures TxOwner(e', l', i) {
      assert TxOwner(e, l, i);
    }
    forall k | 0 <= k < |e'.ctx| ensures TxHolderOk(g, e', l', copied, k) {
      assert TxHolderOk(g, e, l, copied, k);
    }
    forall k | 0 <= k < |e'.ctx| ensures TxLatchedOk(g, e', l', k) {
      assert TxLatchedOk(g, e, l, k);
    }
    forall i | |l'.taken| <= i < |copied| ensures TxSlotReady(g, e', copied, i) {
      assert TxSlotReady(g, e, copied, i);
    }
  }

  lemma TxSendKeeps(g: Geometry, e: TxEngine, l: TxLog, copied: seq<Packet>, c: nat)
    requires TxInv(g, e, l, copied) && TxAt(e, c) && e.ctx[c].TxSending?
    ensures TxInv(g, TxSend(e, c), l.(sent := l.sent + {l.count[c]}), copied)
  {
    var e', l' := TxSend(e, c), l.(sent := l.sent + {l.count[c]});
    assert TxHolderOk(g, e, l, copied, c);
    forall i | 0 <= i < |l.owner| ensures TxOwner(e', l', i) {
      assert TxOwner(e, l, i);
    }
    forall k | 0 <= k < |e'.ctx| ensures TxHolderOk(g, e', l', copied, k) {
      assert TxHolderOk(g, e, l, copied, k);
    }
    forall k | 0 <= k < |e'.ctx| ensures TxLatchedOk(g, e', l', k) {
      assert TxLatchedOk(g, e, l, k);
    }
    forall i | |l.taken| <= i < |copied| ensures TxSlotReady(g, e', copied, i) {
      assert TxSlotReady(g, e, copied, i);
    }
  }

  /** The host writes into the slot after the last one it copied, if that slot is free. */
  lemma TxScribbleKeeps(g: Geometry, e: TxEngine, l: TxLog, copied: seq<Packet>, data: Packet)
    requires TxInv(g, e, l, copied) && |data| == g.size
    requires |copied| < |l.taken| + g.Slots() - 1
    requires Offset(g, |copied|) + g.size <= |e.mem|
    ensures TxInv(g, e.(mem := Store(g, e.mem, Offset(g, |copied|), data)), l, copied)
  {
    var e' := e.(mem := Store(g, e.mem, Offset(g, |copied|), data));
    forall i | |l.taken| <= i < |copied| ensures TxSlotReady(g, e', copied, i) {
      assert TxSlotReady(g, e, copied, i);
      StoreSlot(g, e.mem, |copied|, i, data);
    }
    forall i | 0 <= i < |l.owner| ensures TxOwner(e', l, i) {
      assert TxOwner(e, l, i);
    }
    forall k | 0 <= k < |e'.ctx| ensures TxHolderOk(g, e', l, copied, k) {
      assert TxHolderOk(g, e, l, copied, k);
    }
    forall k | 0 <= k < |e'.ctx| ensures TxLatchedOk(g, e', l, k) {
      assert TxLatchedOk(g, e, l, k);
    }
  }

  /** A slot filled behind the last copied one counts as copied. */
  lemma TxExtendKeeps(g: Geometry, e: TxEngine, l: TxLog, copied: seq<Packet>, data: Packet)
    requires TxInv(g, e, l, copied) && |data| == g.size
    requires |copied| < |l.taken| + g.Slots() - 1
    requires TxSlotReady(g, e, copied + [data], |copied|)
    ensures TxInv(g, e, l, copied + [data])
  {
    var all := copied + [data];
    assert all[..|l.taken|] == copied[..|l.taken|];
    forall i | |l.taken| <= i < |all| ensures TxSlotReady(g, e, all, i) {
      if i < |copied| { assert TxSlotReady(g, e, copied, i); }
    }
    forall k | 0 <= k < |e.ctx| ensures TxHolderOk(g, e, l, all, k) {
      assert TxHolderOk(g, e, l, copied, k);
    }
  }

  /** The completed copy adds one packet to those waiting in the ring. */
  lemma TxFillKeeps(g: Geometry, e: TxEngine, l: TxLog, copied: seq<Packet>, data: Packet)
    requires TxInv(g, e, l, copied) && |data| == g.size
    requires |copied| < |l.taken| + g.Slots() - 1
    requires Offset(g, |copied|) + g.size <= |e.mem|
    ensures TxInv(g, e.(mem := Store(g, e.mem, Offset(g, |copied|), data)), l, copied + [data])
  {
    TxScribbleKeeps(g, e, l, copied, data);
    StoreSlot(g, e.mem, |copied|, |copied|, data);
    TxExtendKeeps(g, e.(mem := Store(g, e.mem, Offset(g, |copied|), data)), l, copied, data);
  }

  lemma TxPostKeeps(g: Geometry, e: TxEngine, l: TxLog, copied: seq<Packet>)
    requires TxInv(g, e, l, copied)
    ensures TxInv(g, e.(tail := Offset(g, |copied|)), l.(posted := |copied|), copied)
  {
    var e', l' := e.(tail := Offset(g, |copied|)), l.(posted := |copied|);
    forall i | 0 <= i < |l.owner| ensures TxOwner(e', l', i) {
      assert TxOwner(e, l, i);
    }
    forall k | 0 <= k < |e'.ctx| ensures TxHolderOk(g, e', l', copied, k) {
      assert TxHolderOk(g, e, l, copied, k);
    }
    forall k | 0 <= k < |e'.ctx| ensures TxLatchedOk(g, e', l', k) {
      assert TxLatchedOk(g, e, l, k);
    }
    forall i | |l.taken| <= i < |copied| ensures TxSlotReady(g, e', copied, i) {
      assert TxSlotReady(g, e, copied, i);
    }
  }
}
