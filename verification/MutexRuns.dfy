/** What every run of mutex calls keeps: valid handles, and locks that count. */
module MutexRuns {
  import opened MutexWord
  import opened MutexHandles

  // ----- Every call keeps the cache valid -----

  lemma {:induction false} OtherWordKeepsCache(
      cache: seq<Handle>, id: Interface, words: map<nat, Word>, a: nat, w: Word)
    requires ValidCache(cache, id, words) && Lookup(cache, a).None? && a % 8 == 0
    ensures ValidCache(cache, id, words[a := w])
  {
    if cache != [] {
      OtherWordKeepsCache(cache[1..], id, words, a, w);
    }
  }

  lemma {:induction false} SetKeepsCache(
      cache: seq<Handle>, id: Interface, words: map<nat, Word>, a: nat, w: Word, d: nat)
    requires ValidCache(cache, id, words) && Lookup(cache, a).Some?
    requires d <= MUTEX_DEPTH_MAX && (d > 0 ==> a in words && w == Locked(id))
    ensures ValidCache(SetDepth(cache, a, d), id, if a in words then words[a := w] else words)
  {
    LookupValid(cache, id, words, a);
    if cache[0].address == a {
      OtherWordKeepsCache(cache[1..], id, words, a, w);
    } else {
      SetKeepsCache(cache[1..], id, words, a, w, d);
      SetDepthKeeps(cache[1..], a, d, cache[0].address);
    }
  }

  lemma TryLockKeepsValid(s: Host, address: nat)
    requires Valid(s) && Cached(s, address)
    ensures Valid(TryLock(s, address)) && TryLock(s, address).id == s.id
  {
    hide Locked, IsLocked, IsUnlocked, TestSet;
    LockedWord(s.id);
    LookupValid(s.cache, s.id, s.words, address);
    var o := TryLockResult(s, address);
    SetKeepsCache(s.cache, s.id, s.words, address, o.word, o.depth);
  }

  lemma UnlockKeepsValid(s: Host, address: nat)
    requires Valid(s) && Cached(s, address)
    ensures Valid(Unlock(s, address)) && Unlock(s, address).id == s.id
  {
    hide Locked;
    LookupValid(s.cache, s.id, s.words, address);
    var o := UnlockResult(s, address);
    SetKeepsCache(s.cache, s.id, s.words, address, o.word, o.depth);
  }

  lemma {:induction false} AddUseKeepsCache(cache: seq<Handle>, id: Interface, words: map<nat, Word>, a: nat)
    requires ValidCache(cache, id, words)
    ensures ValidCache(AddUse(cache, a), id, words)
  {
    if cache != [] && cache[0].address != a {
      AddUseKeepsCache(cache[1..], id, words, a);
      AddUseKeeps(cache[1..], a, cache[0].address);
    }
  }

  lemma AllocKeepsValid(s: Host, target: nat, address: nat, key: Word)
    requires Valid(s)
    ensures Valid(Alloc(s, target, address, key))
  {
    AddUseKeepsCache(s.cache, s.id, s.words, address);
    var added := [Handle(address, key, 0, 1)] + s.cache;
    assert added[1..] == s.cache;
  }

  lemma {:induction false} DropUseKeepsCache(cache: seq<Handle>, id: Interface, words: map<nat, Word>, a: nat)
    requires ValidCache(cache, id, words)
    ensures ValidCache(DropUse(cache, a), id, words)
  {
    if cache != [] && cache[0].address != a {
      DropUseKeepsCache(cache[1..], id, words, a);
      DropUseKeeps(cache[1..], a, cache[0].address);
    }
  }

  lemma FreeKeepsValid(s: Host, address: nat)
    requires Valid(s)
    ensures Valid(Free(s, address))
  {
    DropUseKeepsCache(s.cache, s.id, s.words, address);
  }

  // ----- Runs -----

  /** A call a process makes; locking and freeing take a handle it has. */
  datatype Call = CallAlloc(target: nat, address: nat, key: Word)
    | CallFree(address: nat) | CallTryLock(address: nat) | CallUnlock(address: nat)

  predicate Allowed(s: Host, c: Call) { !c.CallAlloc? ==> Cached(s, c.address) }

  function Step(s: Host, c: Call): Host {
    match c
    case CallAlloc(target, address, key) => Alloc(s, target, address, key)
    case CallFree(address) => Free(s, address)
    case CallTryLock(address) => TryLock(s, address)
    case CallUnlock(address) => Unlock(s, address)
  }

  predicate IsRun(s: Host, calls: seq<Call>)
    decreases |calls|
  {
    calls == [] ||
    (Allowed(s, calls[0]) && IsRun(Step(s, calls[0]), calls[1..]))
  }

  function After(s: Host, calls: seq<Call>): Host
    decreases |calls|
  {
    if calls == [] then s else After(Step(s, calls[0]), calls[1..])
  }

  /** In every run: a positive depth means the word names our interface, the depth never exceeds
      its maximum, and a handle exists only while it is used. */
  lemma {:induction false} RunKeepsValid(s: Host, calls: seq<Call>)
    requires Valid(s) && IsRun(s, calls)
    ensures Valid(After(s, calls))
    decreases |calls|
  {
    if calls != [] {
      match calls[0] {
        case CallAlloc(target, address, key) => AllocKeepsValid(s, target, address, key);
        case CallFree(address) => FreeKeepsValid(s, address);
        case CallTryLock(address) => TryLockKeepsValid(s, address);
        case CallUnlock(address) => UnlockKeepsValid(s, address);
      }
      RunKeepsValid(Step(s, calls[0]), calls[1..]);
    }
  }

  lemma {:induction false} HeldMeansOwned(s: Host, calls: seq<Call>, address: nat)
    requires Valid(s) && IsRun(s, calls)
    ensures var t := After(s, calls);
      && DepthOf(t, address) <= MUTEX_DEPTH_MAX
      && (DepthOf(t, address) > 0 ==> WordAt(t, address) == Locked(t.id))
  {
    RunKeepsValid(s, calls);
    var t := After(s, calls);
    if Cached(t, address) { LookupValid(t.cache, t.id, t.words, address); }
  }

  // ----- Counting locks -----

  function Locks(s: Host, address: nat, k: nat): Host {
    if k == 0 then s else TryLock(Locks(s, address, k - 1), address)
  }

  function Unlocks(s: Host, address: nat, k: nat): Host {
    if k == 0 then s else Unlock(Unlocks(s, address, k - 1), address)
  }

  /** A handle for a mutex nobody holds. */
  predicate FreeFor(s: Host, address: nat) {
    Valid(s) && Cached(s, address) && DepthOf(s, address) == 0 && Readable(s, address) && WordAt(s, address) == 0
  }

  predicate HeldAt(s: Host, address: nat, k: nat) {
    Valid(s) && Cached(s, address) && DepthOf(s, address) == k && WordAt(s, address) == Locked(s.id)
  }

  lemma LockDeepens(s: Host, address: nat)
    requires Valid(s) && Cached(s, address) && DepthOf(s, address) < MUTEX_DEPTH_MAX
    requires DepthOf(s, address) == 0 ==> FreeFor(s, address)
    ensures TryLockResult(s, address).status == Ok
    ensures HeldAt(TryLock(s, address), address, DepthOf(s, address) + 1)
  {
    hide Locked, IsLocked, IsUnlocked, TestSet, ValidCache;
    FreeAndTakenWords();
    LookupValid(s.cache, s.id, s.words, address);
    TryLockKeepsValid(s, address);
    SetDepthKeeps(s.cache, address, TryLockResult(s, address).depth, address);
    var u := TryLock(s, address);
    LookupValid(u.cache, u.id, u.words, address);
  }

  /** Up to the maximal depth every further lock call succeeds, and the word is ours. */
  lemma {:induction false} LocksCount(s: Host, address: nat, k: nat)
    requires FreeFor(s, address) && 0 < k <= MUTEX_DEPTH_MAX
    ensures HeldAt(Locks(s, address, k), address, k)
    ensures TryLockResult(Locks(s, address, k - 1), address).status == Ok
  {
    hide TryLock, TryLockResult, Valid, Locked;
    if k > 1 { LocksCount(s, address, k - 1); }
    LockDeepens(Locks(s, address, k - 1), address);
  }

  /** Each unlock call undoes one lock call. */
  lemma {:induction false} UnlocksUndoLocks(s: Host, address: nat, k: nat, j: nat)
    requires FreeFor(s, address) && j <= k <= MUTEX_DEPTH_MAX
    ensures Unlocks(Locks(s, address, k), address, j) == Locks(s, address, k - j)
  {
    hide TryLock, Unlock, TryLockResult, UnlockResult, Valid, Locked, Readable;
    if j > 0 {
      UnlocksUndoLocks(s, address, k, j - 1);
      var t := Locks(s, address, k - j);
      assert Cached(t, address) && (DepthOf(t, address) > 0 || WordAt(t, address) == 0) by {
        if k > j { LocksCount(s, address, k - j); }
      }
      LocksCount(s, address, k - j + 1);
      LockThenUnlock(t, address);
    }
  }

  lemma LockedNotFree(id: Interface)
    ensures Locked(id) != 0
  {
    LockedWord(id);
    FreeAndTakenWords();
  }

  /** A free mutex locked k times is free again after exactly k unlock calls, and then the whole
      state is as it was. */
  lemma FreeAfterExactlyAsManyUnlocks(s: Host, address: nat, k: nat, j: nat)
    requires FreeFor(s, address) && j <= k <= MUTEX_DEPTH_MAX
    ensures var t := Unlocks(Locks(s, address, k), address, j);
      && (WordAt(t, address) == 0 <==> j == k)
      && (j == k ==> t == s)
  {
    hide TryLock, Unlock, Valid, Locked, Readable;
    UnlocksUndoLocks(s, address, k, j);
    if j < k {
      LocksCount(s, address, k - j);
      LockedNotFree(Locks(s, address, k - j).id);
    }
  }

  /** One lock call more than the maximal depth is refused and changes nothing. */
  lemma DeepestLockRefused(s: Host, address: nat)
    requires Cached(s, address) && DepthOf(s, address) == MUTEX_DEPTH_MAX
    ensures TryLockResult(s, address).status == TooDeep && TryLock(s, address) == s
  {
    SetOwnDepth(s.cache, address);
  }

  /** Unlocking what another interface owns is refused and changes nothing. */
  lemma ForeignUnlockRefused(s: Host, address: nat)
    requires Valid(s) && Cached(s, address) && DepthOf(s, address) <= 1
    requires Readable(s, address) && WordAt(s, address) != Locked(s.id)
    ensures UnlockResult(s, address).status == BadAccess && Unlock(s, address) == s
  {
    LookupValid(s.cache, s.id, s.words, address);
    SetOwnDepth(s.cache, address);
  }
}
