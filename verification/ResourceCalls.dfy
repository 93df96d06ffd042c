/** The resource library as it runs, on shared mutex handles. Every call does what `ResourceTable`
    says. */
module ResourceCalls {
  import opened MutexWord
  import opened MutexHandles
  import opened MutexRuns
  import opened MutexCache
  import opened ResourceTable
  import Crc32

  method PadName(name: seq<Crc32.Byte>, n: nat) returns (r: seq<Crc32.Byte>)
    ensures r == Padded(name, n)
  {
    hide Padded;
    r := [];
    var rest := name;
    PrependNothing(name, n);
    for i := 0 to n
      invariant r + Padded(rest, n - i) == Padded(name, n)
    {
      PaddedNext(r, rest, n - i);
      var ended := rest == [] || rest[0] == 0;
      r := r + [if ended then 0 else rest[0]];
      rest := if ended then [] else rest[1..];
    }
    PaddedDone(r, rest);
  }

  lemma PrependNothing(name: seq<Crc32.Byte>, n: nat)
    ensures [] + Padded(name, n) == Padded(name, n)
  {
  }

  lemma PaddedDone(r: seq<Crc32.Byte>, rest: seq<Crc32.Byte>)
    ensures r + Padded(rest, 0) == r
  {
  }

  lemma PaddedNext(r: seq<Crc32.Byte>, rest: seq<Crc32.Byte>, n: nat)
    requires n > 0
    ensures var ended := rest == [] || rest[0] == 0;
      r + Padded(rest, n)
        == (r + [if ended then 0 else rest[0]]) + Padded(if ended then [] else rest[1..], n - 1)
  {
    if rest == [] || rest[0] == 0 {
      assert (r + [0]) + Padded([], n - 1) == r + ([0] + Padded([], n - 1));
    } else {
      assert (r + [rest[0]]) + Padded(rest[1..], n - 1) == r + ([rest[0]] + Padded(rest[1..], n - 1));
    }
  }

  /** Search the table; the handle of the entry found is obtained at once. */
  method FindResource(cpp: Cpp, name: seq<Crc32.Byte>) returns (r: Search, res: Mutex?)
    requires Distinct(cpp.cache) && Valid(cpp.State()) && cpp.cache != []
    modifies cpp, cpp.cache
    ensures r == Find(old(cpp.State()), name)
    ensures r.At? <==> res != null
    ensures var s := old(cpp.State());
      cpp.State() == if r.At? then Obtain(s, EntryAddress(r.index), KeyOf(name)) else s
    ensures r.At? ==> Obtainable(old(cpp.State()), EntryAddress(r.index), KeyOf(name))
    ensures Distinct(cpp.cache) && (r.At? ==> res in cpp.cache && res.address == EntryAddress(r.index))
    ensures r.At? && res in old(cpp.cache) ==> res.usage == old(res.usage) + 1
    ensures forall x :: x in old(cpp.cache) ==> x in cpp.cache
    ensures forall x :: x in cpp.cache ==> x in old(cpp.cache) || fresh(x)
  {
    var padded := PadName(name, NAME_SIZE);
    if padded == TBL_NAME { return Unsupported, null; }
    var key := Crc32.Crc32Posix(padded);
    ghost var s := cpp.State();
    hide Crc32.Posix, Alloc, AllocStatusOf, Valid, Views, Lookup, Padded;
    for i := 0 to ENTRIES
      invariant cpp.State() == s && cpp.cache == old(cpp.cache)
      invariant FindEntry(s, key, 0) == FindEntry(s, key, i)
    {
      var a := EntryAddress(i);
      if a !in cpp.words || a + 4 !in cpp.words { return Unread, null; }
      if cpp.words[a + 4] == key {
        EntryAligned(i);
        EntryObtainable(s, a, key);
        res := cpp.AllocMutex(TARGET_MU, a, key);
        return At(i), res;
      }
    }
    return Missing, null;
  }

  lemma UsedHandle(cpp: Cpp, m: Mutex)
    requires Distinct(cpp.cache) && Valid(cpp.State()) && m in cpp.cache
    ensures m.usage > 0 && Cached(cpp.State(), m.address)
  {
    LookupViews(cpp.cache, m);
    LookupValid(Views(cpp.cache), cpp.id, cpp.words, m.address);
  }

  /** One attempt; `dev` is the handle of the device mutex. */
  method TryAcquireResource(cpp: Cpp, name: seq<Crc32.Byte>, dev: Mutex) returns (attempt: Attempt, res: Mutex?)
    requires Distinct(cpp.cache) && Valid(cpp.State()) && dev in cpp.cache && dev.address == TBL_BASE
    modifies cpp, cpp.cache
    ensures Result(attempt, cpp.State()) == TryAcquire(old(cpp.State()), name)
    ensures attempt.Acquired? <==> res != null
    ensures Distinct(cpp.cache) && dev in cpp.cache && dev.usage > 0
    ensures res == dev ==> dev.usage > 1
    ensures res != null ==> res in cpp.cache && res.address == attempt.address
    ensures forall x :: x in cpp.cache ==> x in old(cpp.cache) || fresh(x)
  {
    hide TryLock, TryLockResult, SearchAndTake, Valid, Views;
    UsedHandle(cpp, dev);
    TryLockKeepsValid(cpp.State(), TBL_BASE);
    var status := cpp.TryLockMutex(dev);
    if status == Busy { return Waiting, null; }
    if status != Ok { return Refused(EINVAL), null; }
    attempt, res := SearchAndTakeResource(cpp, name, dev);
  }

  method SearchAndTakeResource(cpp: Cpp, name: seq<Crc32.Byte>, dev: Mutex)
    returns (attempt: Attempt, res: Mutex?)
    requires Distinct(cpp.cache) && Valid(cpp.State()) && dev in cpp.cache && dev.address == TBL_BASE
    modifies cpp, cpp.cache
    ensures Result(attempt, cpp.State()) == SearchAndTake(old(cpp.State()), name) && !attempt.Waiting?
    ensures attempt.Acquired? <==> res != null
    ensures Distinct(cpp.cache) && dev in cpp.cache && dev.usage > 0
    ensures res == dev ==> dev.usage > 1
    ensures res != null ==> res in cpp.cache && res.address == attempt.address
    ensures forall x :: x in cpp.cache ==> x in old(cpp.cache) || fresh(x)
  {
    hide TryLock, TryLockResult, Unlock, UnlockResult, Find, FindEntry, Padded, Alloc, AllocStatusOf, Valid, KeyOf,
      Obtainable, Views, Lookup;
    ghost var held := cpp.State();
    UsedHandle(cpp, dev);
    var found;
    found, res := FindResource(cpp, name);
    if res == null {
      var status := cpp.UnlockMutex(dev);
      return Refused(match found case Unsupported => EOPNOTSUPP case Unread => EIO case _ => ENOENT), null;
    }
    AllocKeepsValid(held, TARGET_MU, res.address, KeyOf(name));
    UsedHandle(cpp, dev);
    attempt, res := TakeFound(cpp, res, dev);
  }

  /** Lock the resource's mutex, or give its handle back; then let the device mutex go. */
  method TakeFound(cpp: Cpp, found: Mutex, dev: Mutex) returns (attempt: Attempt, res: Mutex?)
    requires Distinct(cpp.cache) && Valid(cpp.State()) && dev in cpp.cache && dev.address == TBL_BASE
    requires found in cpp.cache && dev.usage > 0 && (found == dev ==> found.usage > 1)
    modifies cpp, found, dev
    ensures Result(attempt, cpp.State()) == TakeObtained(old(cpp.State()), found.address)
    ensures attempt.Acquired? ==> attempt.address == found.address
    ensures res == if attempt.Acquired? then found else null
    ensures Distinct(cpp.cache) && dev in cpp.cache && (res != null ==> res in cpp.cache)
    ensures dev.usage > 0 && (res == dev ==> dev.usage > 1)
    ensures forall x :: x in cpp.cache ==> x in old(cpp.cache)
  {
    hide TryLock, TryLockResult, Unlock, UnlockResult, Valid, Views, Free;
    UsedHandle(cpp, found);
    var status := cpp.TryLockMutex(found);
    if status == Ok {
      status := cpp.UnlockMutex(dev);
      return Acquired(found.address), found;
    }
    cpp.FreeMutex(found);
    status := cpp.UnlockMutex(dev);
    return Refused(ATTEMPT_FAILED), null;
  }

  /** Acquire a resource by name; the caller gets the handle of its mutex, locked. A refused
      attempt ends the acquisition. */
  method AcquireResource(cpp: Cpp, name: seq<Crc32.Byte>) returns (attempt: Attempt, res: Mutex?)
    requires Distinct(cpp.cache) && Valid(cpp.State())
    modifies cpp, cpp.cache
    ensures Result(attempt, cpp.State()) == Acquire(old(cpp.State()), name)
    ensures attempt.Acquired? <==> res != null
    ensures Distinct(cpp.cache) && (res != null ==> res in cpp.cache && res.address == attempt.address)
  {
    hide TryAcquire, Alloc, AllocStatusOf, Free, Valid, Views;
    AllocKeepsValid(cpp.State(), TARGET_MU, TBL_BASE, TBL_KEY);
    var dev := cpp.AllocMutex(TARGET_MU, TBL_BASE, TBL_KEY);
    if dev == null {
      NothingObtained(old(cpp.State()), TBL_BASE, TBL_KEY);
      return Refused(ATTEMPT_FAILED), null;
    }
    assert forall i :: 0 <= i < |cpp.cache| ==> cpp.cache[i] in old(cpp.cache) || fresh(cpp.cache[i]);
    attempt, res := TryAcquireResource(cpp, name, dev);
    if attempt.Waiting? { return; }
    cpp.FreeMutex(dev);
  }

  lemma NothingObtained(s: Host, address: nat, key: Word)
    requires !Obtainable(s, address, key)
    ensures Obtain(s, address, key) == s
  {
  }

  /** Give a resource back. */
  method ReleaseResource(cpp: Cpp, res: Mutex)
    requires Distinct(cpp.cache) && Valid(cpp.State()) && res in cpp.cache
    modifies cpp, res
    ensures Distinct(cpp.cache) && cpp.State() == Release(old(cpp.State()), res.address)
  {
    hide Unlock, Free, Valid, Views;
    UsedHandle(cpp, res);
    var status := cpp.UnlockMutex(res);
    cpp.FreeMutex(res);
  }
}
