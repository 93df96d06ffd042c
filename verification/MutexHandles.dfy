/** Mutex handles: the reference-counted cache of handles and the lock calls made through them,
    while no other interface acts. */
module MutexHandles {
  import opened MutexWord

  const TARGET_MU: nat := 7

  /** One cached handle. All handles that exist are for the memory-unit target. */
  datatype Handle = Handle(address: nat, key: Word, depth: nat, usage: nat)

  /** A process: its interface, its cache (newest first) and the device words it can access. */
  datatype Host = Host(id: Interface, model6000: bool, cache: seq<Handle>, words: map<nat, Word>)

  datatype AllocStatus = Found | Created | Exists | NotAligned | Unreadable

  datatype Option<+T> = None | Some(value: T)

  /** The first handle for `address`. */
  function Lookup(cache: seq<Handle>, address: nat): (r: Option<Handle>)
    ensures r.Some? ==> r.value.address == address
  {
    if cache == [] then None
    else if cache[0].address == address then Some(cache[0])
    else Lookup(cache[1..], address)
  }

  predicate Cached(s: Host, address: nat) { Lookup(s.cache, address).Some? }

  function Get(s: Host, address: nat): Handle
    requires Cached(s, address)
  {
    Lookup(s.cache, address).value
  }

  function SetDepth(cache: seq<Handle>, address: nat, depth: nat): (r: seq<Handle>)
    ensures |r| == |cache|
  {
    if cache == [] then []
    else if cache[0].address == address then [cache[0].(depth := depth)] + cache[1..]
    else [cache[0]] + SetDepth(cache[1..], address, depth)
  }

  function AddUse(cache: seq<Handle>, address: nat): (r: seq<Handle>)
    ensures |r| == |cache|
  {
    if cache == [] then []
    else if cache[0].address == address then [cache[0].(usage := cache[0].usage + 1)] + cache[1..]
    else [cache[0]] + AddUse(cache[1..], address)
  }

  function DropUse(cache: seq<Handle>, address: nat): seq<Handle> {
    if cache == [] then []
    else if cache[0].address == address then
      if cache[0].usage > 1 then [cache[0].(usage := cache[0].usage - 1)] + cache[1..] else cache[1..]
    else [cache[0]] + DropUse(cache[1..], address)
  }

  /** Obtain a handle: share the cached one if its key fits, else create one if the device's key
      word does. */
  function AllocStatusOf(s: Host, target: nat, address: nat, key: Word): AllocStatus {
    if target == TARGET_MU && Cached(s, address) then
      if Get(s, address).key == key then Found else Exists
    else if address % 8 != 0 || !s.model6000 || target != TARGET_MU then NotAligned
    else if address + 4 !in s.words then Unreadable
    else if s.words[address + 4] != key then Exists
    else Created
  }

  function Alloc(s: Host, target: nat, address: nat, key: Word): Host {
    match AllocStatusOf(s, target, address, key)
    case Found => s.(cache := AddUse(s.cache, address))
    case Created => s.(cache := [Handle(address, key, 0, 1)] + s.cache)
    case _ => s
  }

  function Free(s: Host, address: nat): Host { s.(cache := DropUse(s.cache, address)) }

  predicate Readable(s: Host, address: nat) { address in s.words && address + 4 in s.words }

  function WordAt(s: Host, address: nat): Word { if address in s.words then s.words[address] else 0 }

  function Apply(s: Host, address: nat, o: Outcome): Host {
    s.(words := if address in s.words then s.words[address := o.word] else s.words,
       cache := SetDepth(s.cache, address, o.depth))
  }

  /** Can a first lock call not read what it needs? The key is read and compared before the word. */
  predicate Unreachable(s: Host, h: Handle) {
    h.address + 4 !in s.words || (WordAt(s, h.address + 4) == h.key && h.address !in s.words)
  }

  /** A lock call through the handle for `address`; a device access that fails ends it. */
  function TryLockResult(s: Host, address: nat): Outcome {
    match Lookup(s.cache, address)
    case None => Outcome(Invalid, WordAt(s, address), 0)
    case Some(h) =>
      if h.depth == 0 && Unreachable(s, h) then Outcome(IoError, WordAt(s, address), h.depth)
      else TryLockOutcome(s.id, WordAt(s, address + 4) == h.key, WordAt(s, address), h.depth)
  }

  function TryLock(s: Host, address: nat): Host { Apply(s, address, TryLockResult(s, address)) }

  function UnlockResult(s: Host, address: nat): Outcome {
    match Lookup(s.cache, address)
    case None => Outcome(Invalid, WordAt(s, address), 0)
    case Some(h) =>
      if h.depth <= 1 && !Readable(s, address) then Outcome(IoError, WordAt(s, address), h.depth)
      else UnlockOutcome(s.id, WordAt(s, address + 4) == h.key, WordAt(s, address), h.depth)
  }

  function Unlock(s: Host, address: nat): Host { Apply(s, address, UnlockResult(s, address)) }

  predicate ValidHandle(h: Handle, id: Interface, words: map<nat, Word>) {
    && h.address % 8 == 0 && h.address + 4 in words && words[h.address + 4] == h.key
    && h.usage > 0
    && h.depth <= MUTEX_DEPTH_MAX && (h.depth > 0 ==> h.address in words && words[h.address] == Locked(id))
  }

  /** No two handles for one address; none unused; every handle's key is the device's; and a handle
      with a positive depth holds the lock. */
  predicate ValidCache(cache: seq<Handle>, id: Interface, words: map<nat, Word>) {
    cache == [] ||
    (&& ValidHandle(cache[0], id, words)
     && Lookup(cache[1..], cache[0].address).None?
     && ValidCache(cache[1..], id, words))
  }

  predicate Valid(s: Host) { ValidCache(s.cache, s.id, s.words) && (s.cache != [] ==> s.model6000) }

  function DepthOf(s: Host, address: nat): nat {
    match Lookup(s.cache, address) case None => 0 case Some(h) => h.depth
  }

  lemma {:induction false} LookupValid(cache: seq<Handle>, id: Interface, words: map<nat, Word>, address: nat)
    requires ValidCache(cache, id, words) && Lookup(cache, address).Some?
    ensures ValidHandle(Lookup(cache, address).value, id, words)
  {
    if cache[0].address != address { LookupValid(cache[1..], id, words, address); }
  }

  // ----- Operations that undo each other -----

  lemma {:induction false} SetDepthTwice(cache: seq<Handle>, address: nat, d: nat, e: nat)
    ensures SetDepth(SetDepth(cache, address, d), address, e) == SetDepth(cache, address, e)
  {
    if cache != [] && cache[0].address != address {
      SetDepthTwice(cache[1..], address, d, e);
    }
  }

  lemma {:induction false} SetDepthKeeps(cache: seq<Handle>, a: nat, d: nat, b: nat)
    ensures Lookup(SetDepth(cache, a, d), b)
      == match Lookup(cache, b) case None => None case Some(h) => Some(if a == b then h.(depth := d) else h)
  {
    if cache != [] && cache[0].address != a && cache[0].address != b {
      SetDepthKeeps(cache[1..], a, d, b);
    }
  }

  lemma {:induction false} SetOwnDepth(cache: seq<Handle>, a: nat)
    requires Lookup(cache, a).Some?
    ensures SetDepth(cache, a, Lookup(cache, a).value.depth) == cache
  {
    if cache != [] && cache[0].address != a {
      SetOwnDepth(cache[1..], a);
    }
  }

  /** A successful lock call is undone by an unlock call up to the word, which ends as 0 unless the
      handle was already locked. */
  lemma UnlockAfterLock(id: Interface, keyMatches: bool, word: Word, depth: nat)
    requires TryLockOutcome(id, keyMatches, word, depth).status == Ok
    ensures var o := TryLockOutcome(id, keyMatches, word, depth);
      && o.depth == depth + 1 && (depth > 0 ==> o.word == word) && (depth == 0 ==> keyMatches)
      && UnlockOutcome(id, keyMatches, o.word, o.depth) == Outcome(Ok, if depth > 0 then word else 0, depth)
  {
    LockedWord(id);
  }

  lemma LockThenUnlockHost(s: Host, address: nat)
    requires Cached(s, address) && TryLockResult(s, address).status == Ok
    ensures UnlockResult(TryLock(s, address), address)
      == Outcome(Ok, if Get(s, address).depth > 0 then WordAt(s, address) else 0, Get(s, address).depth)
  {
    hide TryLockOutcome, UnlockOutcome, Apply, Lookup, WordAt;
    var h, o := Get(s, address), TryLockResult(s, address);
    var w, key := WordAt(s, address), WordAt(s, address + 4) == h.key;
    assert o == TryLockOutcome(s.id, key, w, h.depth);
    UnlockAfterLock(s.id, key, w, h.depth);
    ApplyOwn(s, address, o);
    assert Get(Apply(s, address, o), address) == h.(depth := o.depth);
  }

  lemma ApplyOwn(s: Host, address: nat, o: Outcome)
    requires Cached(s, address)
    ensures var t := Apply(s, address, o);
      && Lookup(t.cache, address) == Some(Get(s, address).(depth := o.depth))
      && t.id == s.id && WordAt(t, address + 4) == WordAt(s, address + 4)
      && WordAt(t, address) == (if address in s.words then o.word else WordAt(s, address))
      && Readable(t, address) == Readable(s, address)
  {
    SetDepthKeeps(s.cache, address, o.depth, address);
  }

  /** The word of a mutex we do not hold set to 0. */
  function Cleared(s: Host, address: nat): Host {
    if DepthOf(s, address) > 0 || address !in s.words then s else s.(words := s.words[address := 0])
  }

  lemma ClearedSame(s: Host, address: nat)
    ensures Cleared(s, address) == s <==> DepthOf(s, address) > 0 || WordAt(s, address) == 0
  {
    if address in s.words && DepthOf(s, address) == 0 {
      assert Cleared(s, address).words[address] == 0;
      assert s.words[address] == 0 ==> Cleared(s, address).words == s.words;
    }
  }

  /** A successful lock call followed by an unlock call restores word and depth exactly when the
      handle was already locked or the word was 0. (The word of an unlocked mutex may have stray
      high bits, and the word may name our interface without the handle knowing: both end as 0.) */
  lemma LockThenUnlock(s: Host, address: nat)
    requires Cached(s, address) && TryLockResult(s, address).status == Ok
    ensures UnlockResult(TryLock(s, address), address).status == Ok
    ensures Unlock(TryLock(s, address), address) == Cleared(s, address)
  {
    hide TryLockResult, UnlockResult, SetDepth, Lookup;
    var h, t, d := Get(s, address), TryLock(s, address), TryLockResult(s, address).depth;
    LockThenUnlockHost(s, address);
    SetDepthTwice(s.cache, address, d, h.depth);
    SetOwnDepth(s.cache, address);
    if address in s.words {
      assert Unlock(t, address).words == s.words[address := if h.depth > 0 then s.words[address] else 0];
    }
  }

  /** A handle obtained and given back leaves the cache as it was. */
  lemma AllocThenFree(s: Host, target: nat, address: nat, key: Word)
    requires Valid(s)
    requires AllocStatusOf(s, target, address, key) == Found || AllocStatusOf(s, target, address, key) == Created
    ensures Cached(Alloc(s, target, address, key), address)
    ensures Free(Alloc(s, target, address, key), address) == s
  {
    var t := Alloc(s, target, address, key);
    if Cached(s, address) {
      LookupValid(s.cache, s.id, s.words, address);
      UseThenDrop(s.cache, address);
      AddUseKeeps(s.cache, address, address);
    } else {
      assert t.cache[1..] == s.cache;
    }
  }

  lemma {:induction false} AddUseKeeps(cache: seq<Handle>, a: nat, b: nat)
    ensures Lookup(AddUse(cache, a), b)
      == match Lookup(cache, b) case None => None
         case Some(h) => Some(if a == b then h.(usage := h.usage + 1) else h)
  {
    if cache != [] && cache[0].address != a && cache[0].address != b {
      AddUseKeeps(cache[1..], a, b);
    }
  }

  lemma {:induction false} UseThenDrop(cache: seq<Handle>, address: nat)
    requires Lookup(cache, address).Some? ==> Lookup(cache, address).value.usage > 0
    ensures DropUse(AddUse(cache, address), address) == cache
  {
    if cache != [] && cache[0].address != address {
      UseThenDrop(cache[1..], address);
    }
  }

  // ----- Operations on different mutexes commute -----

  lemma {:induction false} SetDepthsCommute(cache: seq<Handle>, a: nat, d: nat, b: nat, e: nat)
    requires a != b
    ensures SetDepth(SetDepth(cache, a, d), b, e) == SetDepth(SetDepth(cache, b, e), a, d)
  {
    if cache != [] && cache[0].address != a && cache[0].address != b {
      SetDepthsCommute(cache[1..], a, d, b, e);
    }
  }

  lemma {:induction false} SetDepthAddUseCommute(cache: seq<Handle>, a: nat, d: nat, b: nat)
    ensures SetDepth(AddUse(cache, b), a, d) == AddUse(SetDepth(cache, a, d), b)
  {
    if cache != [] && cache[0].address != a && cache[0].address != b {
      SetDepthAddUseCommute(cache[1..], a, d, b);
    }
  }

  lemma {:induction false} SetDepthDropUseCommute(cache: seq<Handle>, a: nat, b: nat, d: nat)
    requires a != b
    ensures DropUse(SetDepth(cache, b, d), a) == SetDepth(DropUse(cache, a), b, d)
  {
    if cache != [] && cache[0].address != a && cache[0].address != b {
      SetDepthDropUseCommute(cache[1..], a, b, d);
    }
  }

  lemma {:induction false} AddUseDropUseCommute(cache: seq<Handle>, a: nat, b: nat)
    requires a != b
    ensures DropUse(AddUse(cache, b), a) == AddUse(DropUse(cache, a), b)
  {
    if cache != [] && cache[0].address != a && cache[0].address != b {
      AddUseDropUseCommute(cache[1..], a, b);
    }
  }

  lemma {:induction false} DropUseKeeps(cache: seq<Handle>, a: nat, b: nat)
    requires a != b
    ensures Lookup(DropUse(cache, a), b) == Lookup(cache, b)
  {
    if cache != [] && cache[0].address != a && cache[0].address != b {
      DropUseKeeps(cache[1..], a, b);
    }
  }

  /** Two mutex locations whose words do not overlap. */
  predicate Separate(a: nat, b: nat) { a != b && a % 8 == 0 && b % 8 == 0 }

  lemma ApplyKeeps(s: Host, a: nat, o: Outcome, b: nat)
    requires Separate(a, b)
    ensures Readable(Apply(s, a, o), b) == Readable(s, b)
    ensures TryLockResult(Apply(s, a, o), b) == TryLockResult(s, b)
    ensures UnlockResult(Apply(s, a, o), b) == UnlockResult(s, b)
  {
    hide TryLockOutcome, UnlockOutcome;
    SetDepthKeeps(s.cache, a, o.depth, b);
    var t := Apply(s, a, o);
    assert t.id == s.id && WordAt(t, b) == WordAt(s, b) && WordAt(t, b + 4) == WordAt(s, b + 4);
  }

  lemma AppliesCommute(s: Host, a: nat, o: Outcome, b: nat, p: Outcome)
    requires a != b
    ensures Apply(Apply(s, a, o), b, p) == Apply(Apply(s, b, p), a, o)
  {
    SetDepthsCommute(s.cache, a, o.depth, b, p.depth);
    assert s.words[a := o.word][b := p.word] == s.words[b := p.word][a := o.word];
  }

  lemma AllocApplyCommute(s: Host, a: nat, o: Outcome, target: nat, b: nat, key: Word)
    requires Separate(a, b)
    ensures AllocStatusOf(Apply(s, a, o), target, b, key) == AllocStatusOf(s, target, b, key)
    ensures Alloc(Apply(s, a, o), target, b, key) == Apply(Alloc(s, target, b, key), a, o)
  {
    SetDepthKeeps(s.cache, a, o.depth, b);
    assert AllocStatusOf(Apply(s, a, o), target, b, key) == AllocStatusOf(s, target, b, key);
    hide AllocStatusOf;
    SetDepthAddUseCommute(s.cache, a, o.depth, b);
    SetDepthPrepend(s.cache, Handle(b, key, 0, 1), a, o.depth);
  }

  lemma SetDepthPrepend(cache: seq<Handle>, h: Handle, a: nat, d: nat)
    requires h.address != a
    ensures SetDepth([h] + cache, a, d) == [h] + SetDepth(cache, a, d)
  {
    assert ([h] + cache)[1..] == cache;
  }

  lemma FreeApplyCommute(s: Host, a: nat, b: nat, o: Outcome)
    requires a != b
    ensures Free(Apply(s, b, o), a) == Apply(Free(s, a), b, o)
  {
    SetDepthDropUseCommute(s.cache, a, b, o.depth);
  }

  lemma FreeAllocCommute(s: Host, a: nat, target: nat, b: nat, key: Word)
    requires a != b
    ensures AllocStatusOf(Free(s, a), target, b, key) == AllocStatusOf(s, target, b, key)
    ensures Free(Alloc(s, target, b, key), a) == Alloc(Free(s, a), target, b, key)
  {
    DropUseKeeps(s.cache, a, b);
    AddUseDropUseCommute(s.cache, a, b);
    var added := [Handle(b, key, 0, 1)] + s.cache;
    assert DropUse(added, a) == [added[0]] + DropUse(added[1..], a);
    assert added[1..] == s.cache;
  }

  lemma FreeKeeps(s: Host, a: nat, b: nat)
    requires a != b
    ensures TryLockResult(Free(s, a), b) == TryLockResult(s, b) && UnlockResult(Free(s, a), b) == UnlockResult(s, b)
  {
    hide TryLockOutcome, UnlockOutcome;
    DropUseKeeps(s.cache, a, b);
  }

  lemma AllocKeeps(s: Host, target: nat, a: nat, key: Word, b: nat)
    requires a != b
    ensures var t := Alloc(s, target, a, key);
      TryLockResult(t, b) == TryLockResult(s, b) && UnlockResult(t, b) == UnlockResult(s, b)
  {
    hide TryLockOutcome, UnlockOutcome, AllocStatusOf;
    AddUseKeeps(s.cache, a, b);
    var added := [Handle(a, key, 0, 1)] + s.cache;
    assert Lookup(added, b) == Lookup(s.cache, b) by {
      assert added[1..] == s.cache;
    }
    var t := Alloc(s, target, a, key);
    assert t.words == s.words && t.id == s.id && Lookup(t.cache, b) == Lookup(s.cache, b);
  }

  // ----- The same, for whole calls -----

  lemma LocksCommute(s: Host, a: nat, b: nat)
    requires Separate(a, b)
    ensures Unlock(TryLock(s, b), a) == TryLock(Unlock(s, a), b)
  {
    hide TryLockResult, UnlockResult, Apply;
    ApplyKeeps(s, b, TryLockResult(s, b), a);
    ApplyKeeps(s, a, UnlockResult(s, a), b);
    AppliesCommute(s, b, TryLockResult(s, b), a, UnlockResult(s, a));
  }

  lemma UnlockAllocCommute(s: Host, a: nat, target: nat, b: nat, key: Word)
    requires Separate(a, b)
    ensures Unlock(Alloc(s, target, b, key), a) == Alloc(Unlock(s, a), target, b, key)
  {
    hide UnlockResult, Apply, Alloc, AllocStatusOf;
    AllocKeeps(s, target, b, key, a);
    AllocApplyCommute(s, a, UnlockResult(s, a), target, b, key);
  }

  lemma FreeLockCommute(s: Host, a: nat, b: nat)
    requires Separate(a, b)
    ensures Free(TryLock(s, b), a) == TryLock(Free(s, a), b)
  {
    hide TryLockResult, Apply, Free;
    FreeKeeps(s, a, b);
    FreeApplyCommute(s, a, b, TryLockResult(s, b));
  }

  lemma TryLocksCommute(s: Host, a: nat, b: nat)
    requires Separate(a, b)
    ensures TryLock(TryLock(s, a), b) == TryLock(TryLock(s, b), a)
  {
    hide TryLockResult, Apply;
    ApplyKeeps(s, a, TryLockResult(s, a), b);
    ApplyKeeps(s, b, TryLockResult(s, b), a);
    AppliesCommute(s, a, TryLockResult(s, a), b, TryLockResult(s, b));
  }

  lemma UnlocksCommute(s: Host, a: nat, b: nat)
    requires Separate(a, b)
    ensures Unlock(Unlock(s, a), b) == Unlock(Unlock(s, b), a)
  {
    hide UnlockResult, Apply;
    ApplyKeeps(s, a, UnlockResult(s, a), b);
    ApplyKeeps(s, b, UnlockResult(s, b), a);
    AppliesCommute(s, a, UnlockResult(s, a), b, UnlockResult(s, b));
  }
}
