/** The mutex library as it runs: handles that are shared objects, a cache that is rewired, and
    lock words in device memory. Every call does what `MutexHandles` says. */
module MutexCache {
  import opened MutexWord
  import opened MutexHandles

  class Mutex {
    const address: nat
    const key: Word
    var depth: nat
    var usage: nat

    constructor (address: nat, key: Word)
      ensures this.address == address && this.key == key && depth == 0 && usage == 1
    {
      this.address, this.key := address, key;
      depth, usage := 0, 1;
    }

    function View(): Handle
      reads this
    {
      Handle(address, key, depth, usage)
    }
  }

  function Views(cache: seq<Mutex>): (r: seq<Handle>)
    reads cache
    ensures |r| == |cache| && forall i :: 0 <= i < |cache| ==> r[i] == cache[i].View()
  {
    if cache == [] then [] else [cache[0].View()] + Views(cache[1..])
  }

  predicate Distinct(cache: seq<Mutex>) {
    forall i, j :: 0 <= i < j < |cache| ==> cache[i].address != cache[j].address
  }

  // ----- One handle changed: the view of the cache changes in that place only -----

  lemma {:induction false} LookupViews(cache: seq<Mutex>, m: Mutex)
    requires m in cache && Distinct(cache)
    ensures Lookup(Views(cache), m.address) == Some(m.View())
  {
    if cache[0] != m {
      assert m in cache[1..];
      var i :| 0 <= i < |cache| && cache[i] == m;
      LookupViews(cache[1..], m);
      assert Views(cache)[1..] == Views(cache[1..]);
    }
  }

  lemma {:induction false} NotInViews(cache: seq<Mutex>, address: nat)
    requires forall i :: 0 <= i < |cache| ==> cache[i].address != address
    ensures Lookup(Views(cache), address) == None
  {
    if cache != [] {
      NotInViews(cache[1..], address);
      assert Views(cache)[1..] == Views(cache[1..]);
    }
  }

  /** `before` is the view before handle `m` got its present depth. */
  lemma {:induction false} ViewsSetDepth(cache: seq<Mutex>, before: seq<Handle>, m: Mutex)
    requires m in cache && Distinct(cache) && |before| == |cache|
    requires forall i :: 0 <= i < |cache| ==>
      before[i].address == cache[i].address
      && cache[i].View() == if cache[i] == m then before[i].(depth := m.depth) else before[i]
    ensures Views(cache) == SetDepth(before, m.address, m.depth)
  {
    if cache[0] == m {
      assert Views(cache[1..]) == before[1..];
    } else {
      assert m in cache[1..];
      var i :| 0 <= i < |cache| && cache[i] == m;
      ViewsSetDepth(cache[1..], before[1..], m);
    }
  }

  lemma {:induction false} ViewsAddUse(cache: seq<Mutex>, before: seq<Handle>, m: Mutex)
    requires m in cache && Distinct(cache) && |before| == |cache|
    requires forall i :: 0 <= i < |cache| ==>
      before[i].address == cache[i].address
      && cache[i].View() == if cache[i] == m then before[i].(usage := before[i].usage + 1) else before[i]
    ensures Views(cache) == AddUse(before, m.address)
  {
    if cache[0] == m {
      assert Views(cache[1..]) == before[1..];
    } else {
      assert m in cache[1..];
      var i :| 0 <= i < |cache| && cache[i] == m;
      ViewsAddUse(cache[1..], before[1..], m);
    }
  }

  lemma {:induction false} ViewsDropUse(cache: seq<Mutex>, before: seq<Handle>, m: Mutex)
    requires m in cache && Distinct(cache) && |before| == |cache|
    requires forall i :: 0 <= i < |cache| ==>
      before[i].address == cache[i].address
      && cache[i].View() == if cache[i] == m then before[i].(usage := m.usage) else before[i]
    requires forall i :: 0 <= i < |cache| && cache[i] == m ==> before[i].usage == m.usage + 1
    ensures m.usage > 0 ==> Views(cache) == DropUse(before, m.address)
    ensures m.usage == 0 ==> Views(Unlinked(cache, m)) == DropUse(before, m.address)
  {
    if cache[0] == m {
      assert Views(cache[1..]) == before[1..];
    } else {
      assert m in cache[1..];
      var i :| 0 <= i < |cache| && cache[i] == m;
      ViewsDropUse(cache[1..], before[1..], m);
      var rest := Unlinked(cache[1..], m);
      assert ([cache[0]] + rest)[1..] == rest;
    }
  }

  lemma ViewsPrepend(m: Mutex, cache: seq<Mutex>)
    ensures Views([m] + cache) == [m.View()] + Views(cache)
  {
    assert ([m] + cache)[1..] == cache;
  }

  /** The list without element `m`. */
  function Unlinked(cache: seq<Mutex>, m: Mutex): (r: seq<Mutex>) {
    if cache == [] then []
    else if cache[0] == m then cache[1..]
    else [cache[0]] + Unlinked(cache[1..], m)
  }

  lemma {:induction false} UnlinkedDistinct(cache: seq<Mutex>, m: Mutex)
    requires Distinct(cache)
    ensures Distinct(Unlinked(cache, m)) && forall x :: x in Unlinked(cache, m) ==> x in cache
    ensures m in cache ==> m !in Unlinked(cache, m)
    ensures forall x :: x in cache && x != m ==> x in Unlinked(cache, m)
  {
    if cache != [] && cache[0] != m {
      UnlinkedDistinct(cache[1..], m);
      var rest := Unlinked(cache[1..], m);
      var r := [cache[0]] + rest;
      forall i, j | 0 <= i < j < |r| ensures r[i].address != r[j].address {
        if i == 0 { assert rest[j - 1] in cache[1..]; } else { assert r[i] == rest[i - 1] && r[j] == rest[j - 1]; }
      }
    }
  }

  class Cpp {
    const id: Interface
    const model6000: bool
    var words: map<nat, Word>
    var cache: seq<Mutex>

    constructor (id: Interface, model6000: bool, words: map<nat, Word>)
      ensures State() == Host(id, model6000, [], words) && Distinct(cache)
    {
      this.id, this.model6000, this.words, cache := id, model6000, words, [];
    }

    function State(): Host
      reads this, cache
    {
      Host(id, model6000, Views(cache), words)
    }

    /** Look for a cached handle. */
    method FindCached(address: nat) returns (m: Mutex?)
      requires Distinct(cache)
      ensures m == null <==> !Cached(State(), address)
      ensures m != null ==> m in cache && m.address == address
    {
      for i := 0 to |cache|
        invariant forall j :: 0 <= j < i ==> cache[j].address != address
      {
        if cache[i].address == address {
          LookupViews(cache, cache[i]);
          return cache[i];
        }
      }
      NotInViews(cache, address);
      return null;
    }

    method AllocMutex(target: nat, address: nat, key: Word) returns (m: Mutex?)
      requires Distinct(cache)
      modifies this, cache
      ensures Distinct(cache) && State() == Alloc(old(State()), target, address, key)
      ensures m != null <==> AllocStatusOf(old(State()), target, address, key) in {Found, Created}
      ensures m != null ==> m in cache && m.address == address && m.key == key
      ensures m != null && m in old(cache) ==> m.usage == old(m.usage) + 1
      ensures forall x :: x in old(cache) ==> x in cache
      ensures forall x :: x in cache ==> x in old(cache) || fresh(x)
    {
      hide Lookup, AddUse, Views;
      ghost var before := State();
      if target == TARGET_MU {
        m := FindCached(address);
        if m != null {
          LookupViews(cache, m);
          if m.key != key { return null; }
          m.usage := m.usage + 1;
          ViewsAddUse(cache, before.cache, m);
          return;
        }
      }
      if address % 8 != 0 || !model6000 || target != TARGET_MU { return null; }
      if address + 4 !in words || words[address + 4] != key { return null; }
      m := new Mutex(address, key);
      AddressFree(cache, address);
      assert Views(cache) == before.cache;
      ViewsPrepend(m, cache);
      cache := [m] + cache;
    }

    /** Give a handle back; the last use removes it from the cache. */
    method FreeMutex(m: Mutex)
      requires Distinct(cache) && m in cache && m.usage > 0
      modifies this, m
      ensures Distinct(cache) && State() == Free(old(State()), m.address) && m.usage == old(m.usage) - 1
      ensures forall x :: x in cache ==> x in old(cache)
      ensures forall x :: x in old(cache) && (x != m || old(m.usage) > 1) ==> x in cache
    {
      hide Views, DropUse, Unlinked;
      ghost var before := Views(cache);
      m.usage := m.usage - 1;
      ViewsDropUse(cache, before, m);
      if m.usage > 0 { return; }
      UnlinkedDistinct(cache, m);
      cache := Unlinked(cache, m);
    }

    method TryLockMutex(m: Mutex) returns (status: Status)
      requires Distinct(cache) && m in cache
      modifies this`words, m`depth
      ensures status == TryLockResult(old(State()), m.address).status
      ensures State() == TryLock(old(State()), m.address)
    {
      hide Locked, IsLocked, IsUnlocked, TestSet;
      ghost var before := Views(cache);
      LookupViews(cache, m);
      ghost var o := TryLockResult(State(), m.address);
      status := Attempt(m);
      ViewsSetDepth(cache, before, m);
    }

    /** The body of the attempt, before its effect on the cache is considered. */
    method Attempt(m: Mutex) returns (status: Status)
      requires Distinct(cache) && m in cache && Lookup(Views(cache), m.address) == Some(m.View())
      modifies this`words, m`depth
      ensures var s, o := old(State()), TryLockResult(old(State()), m.address);
        && status == o.status && m.depth == o.depth
        && words == if m.address in s.words then s.words[m.address := o.word] else s.words
    {
      hide Locked, IsLocked, IsUnlocked, TestSet;
      SameWord(words, m.address);
      if m.depth > 0 {
        if m.depth == MUTEX_DEPTH_MAX { return TooDeep; }
        m.depth := m.depth + 1;
        return Ok;
      }
      if m.address + 4 !in words { return IoError; }
      if words[m.address + 4] != m.key { return BadKey; }
      if m.address !in words { return IoError; }
      status := TestAndClaim(m);
    }

    /** Test-and-set, and the write of the owner if that won. */
    method TestAndClaim(m: Mutex) returns (status: Status)
      requires m.depth == 0 && m.address in words
      modifies this`words, m`depth
      ensures var o := TryLockOutcome(id, true, old(words[m.address]), 0);
        status == o.status && m.depth == o.depth && words == old(words)[m.address := o.word]
    {
      hide Locked, IsLocked, IsUnlocked, TestSet;
      var tmp := words[m.address];
      words := words[m.address := TestSet(tmp)];
      if IsUnlocked(tmp) {
        words := words[m.address := Locked(id)];
        m.depth := 1;
        return Ok;
      }
      if tmp == Locked(id) {
        m.depth := 1;
        return Ok;
      }
      return if IsLocked(tmp) then Busy else Invalid;
    }

    method UnlockMutex(m: Mutex) returns (status: Status)
      requires Distinct(cache) && m in cache
      modifies this`words, m`depth
      ensures status == UnlockResult(old(State()), m.address).status
      ensures State() == Unlock(old(State()), m.address)
    {
      ghost var before := Views(cache);
      LookupViews(cache, m);
      ghost var s, o := State(), UnlockResult(State(), m.address);
      SameWord(words, m.address);
      if m.depth > 1 {
        m.depth := m.depth - 1;
        status := Ok;
      } else if m.address !in words || m.address + 4 !in words {
        status := IoError;
      } else if words[m.address + 4] != m.key {
        status := BadKey;
      } else if words[m.address] != Locked(id) {
        status := BadAccess;
      } else {
        words := words[m.address := 0];
        m.depth := 0;
        status := Ok;
      }
      ViewsSetDepth(cache, before, m);
    }
  }

  lemma SameWord(words: map<nat, Word>, a: nat)
    ensures a in words ==> words[a := words[a]] == words
  {
  }

  lemma AddressFree(cache: seq<Mutex>, address: nat)
    requires Distinct(cache) && Lookup(Views(cache), address) == None
    ensures forall i :: 0 <= i < |cache| ==> cache[i].address != address
  {
    forall i | 0 <= i < |cache| ensures cache[i].address != address {
      LookupViews(cache, cache[i]);
    }
  }
}
