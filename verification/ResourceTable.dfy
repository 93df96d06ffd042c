/** Acquiring a named resource: its mutex is taken while the device mutex of the resource table is
    held. Resources are found by the checksum of their name. */
module ResourceTable {
  import opened MutexWord
  import opened MutexHandles
  import opened MutexRuns
  import Crc32

  const TBL_BASE: nat := 0x81_0000_0000
  const TBL_KEY: Word := 0
  const TBL_NAME: seq<Crc32.Byte> := [0x6e, 0x66, 0x70, 0x2e, 0x72, 0x65, 0x73, 0x00]
  const NAME_SIZE: nat := 8
  const ENTRY_SIZE: nat := 32
  const ENTRIES: nat := 128

  function EntryAddress(i: nat): nat { TBL_BASE + ENTRY_SIZE * i }

  /** A name cut or padded with zeros to n octets; it ends at its first zero. */
  function Padded(name: seq<Crc32.Byte>, n: nat): (r: seq<Crc32.Byte>)
    ensures |r| == n
    decreases n
  {
    if n == 0 then []
    else if name == [] || name[0] == 0 then [0] + Padded([], n - 1)
    else [name[0]] + Padded(name[1..], n - 1)
  }

  function KeyOf(name: seq<Crc32.Byte>): Word { Crc32.Posix(Padded(name, NAME_SIZE)) }

  datatype Search = Unsupported | Unread | Missing | At(index: nat)

  /** The first table entry, from number `i` on, whose key word is `key`. */
  function FindEntry(s: Host, key: Word, i: nat): (r: Search)
    requires i <= ENTRIES
    ensures r.At? ==> i <= r.index < ENTRIES
    ensures r.At? ==> Readable(s, EntryAddress(r.index)) && WordAt(s, EntryAddress(r.index) + 4) == key
    ensures !r.Unsupported?
    decreases ENTRIES - i
  {
    if i == ENTRIES then Missing
    else if !Readable(s, EntryAddress(i)) then Unread
    else if WordAt(s, EntryAddress(i) + 4) == key then At(i)
    else FindEntry(s, key, i + 1)
  }

  /** Entry `j` can be read and has another key. */
  predicate Passed(s: Host, key: Word, j: nat) {
    Readable(s, EntryAddress(j)) && WordAt(s, EntryAddress(j) + 4) != key
  }

  predicate AllPassed(s: Host, key: Word, i: nat, u: nat) { forall j: nat | i <= j < u :: Passed(s, key, j) }

  /** The search finds the first entry with the key; it fails exactly when there is none among all
      entries, or an unreadable entry comes before it. */
  lemma {:induction false} SearchMeaning(s: Host, key: Word, i: nat)
    requires i <= ENTRIES
    ensures var r := FindEntry(s, key, i);
      && (r.At? ==> AllPassed(s, key, i, r.index))
      && (r.Missing? <==> AllPassed(s, key, i, ENTRIES))
      && (r.Unread? <==>
            exists u: nat :: i <= u < ENTRIES && !Readable(s, EntryAddress(u)) && AllPassed(s, key, i, u))
    decreases ENTRIES - i
  {
    hide Readable, WordAt, EntryAddress;
    if i < ENTRIES {
      if Passed(s, key, i) {
        SearchMeaning(s, key, i + 1);
      } else if !Readable(s, EntryAddress(i)) {
        assert AllPassed(s, key, i, i);
      }
    }
  }

  /** The device lock itself cannot be acquired by name. */
  function Find(s: Host, name: seq<Crc32.Byte>): Search {
    if Padded(name, NAME_SIZE) == TBL_NAME then Unsupported else FindEntry(s, KeyOf(name), 0)
  }

  // Error codes as the calls report them. A refused lock attempt on the resource reports -1.
  const EIO: int := -5
  const ENOENT: int := -2
  const EINVAL: int := -22
  const EOPNOTSUPP: int := -95
  const EBUSY: int := -16
  const ATTEMPT_FAILED: int := -1

  /** `Waiting`: the call spins on the device mutex and has not returned. */
  datatype Attempt = Waiting | Refused(error: int) | Acquired(address: nat)

  datatype Result = Result(attempt: Attempt, after: Host)

  function Obtain(s: Host, address: nat, key: Word): Host { Alloc(s, TARGET_MU, address, key) }

  predicate Obtainable(s: Host, address: nat, key: Word) {
    AllocStatusOf(s, TARGET_MU, address, key) in {Found, Created}
  }

  /** With the device mutex held: take the mutex of the entry at `a`, then let the device go. */
  function TakeEntry(s: Host, a: nat, key: Word): Result { TakeObtained(Obtain(s, a, key), a) }

  function TakeObtained(t: Host, a: nat): Result {
    if TryLockResult(t, a).status == Ok then Result(Acquired(a), Unlock(TryLock(t, a), TBL_BASE))
    else Result(Refused(ATTEMPT_FAILED), Unlock(Free(TryLock(t, a), a), TBL_BASE))
  }

  function TryAcquire(s: Host, name: seq<Crc32.Byte>): Result {
    var t := TryLock(s, TBL_BASE);
    match TryLockResult(s, TBL_BASE).status
    case Busy => Result(Waiting, t)
    case Ok => SearchAndTake(t, name)
    case _ => Result(Refused(EINVAL), t)
  }

  function SearchAndTake(s: Host, name: seq<Crc32.Byte>): Result {
    match Find(s, name)
    case At(i) => TakeEntry(s, EntryAddress(i), KeyOf(name))
    case Unsupported => Result(Refused(EOPNOTSUPP), Unlock(s, TBL_BASE))
    case Unread => Result(Refused(EIO), Unlock(s, TBL_BASE))
    case Missing => Result(Refused(ENOENT), Unlock(s, TBL_BASE))
  }

  function Acquire(s: Host, name: seq<Crc32.Byte>): Result {
    if !Obtainable(s, TBL_BASE, TBL_KEY) then Result(Refused(ATTEMPT_FAILED), s)
    else
      var r := TryAcquire(Obtain(s, TBL_BASE, TBL_KEY), name);
      if r.attempt.Waiting? then r else r.(after := Free(r.after, TBL_BASE))
  }

  /** The caller would repeat an attempt that reports EBUSY, but none does: the first refusal ends
      the acquisition. */
  lemma NeverReportsBusy(s: Host, name: seq<Crc32.Byte>)
    ensures TryAcquire(s, name).attempt.Refused? ==> TryAcquire(s, name).attempt.error != EBUSY
  {
    hide TryLock, TryLockResult, Unlock, Obtain, Find, KeyOf;
  }

  function Release(s: Host, address: nat): Host { Free(Unlock(s, address), address) }

  // ----- Names -----

  /** Names that differ only within four consecutive octets have different keys, so neither finds
      the entry of the other. */
  lemma CloseNamesHaveDifferentKeys(a: seq<Crc32.Byte>, b: seq<Crc32.Byte>, from: nat)
    requires from + 4 <= NAME_SIZE
    requires var p, q := Padded(a, NAME_SIZE), Padded(b, NAME_SIZE);
      p != q && p[..from] == q[..from] && p[from + 4..] == q[from + 4..]
    ensures KeyOf(a) != KeyOf(b)
  {
    hide Crc32.Posix;
    Crc32.OctetBurstsAreDetected(Padded(a, NAME_SIZE), Padded(b, NAME_SIZE), from, from + 4);
  }

  // ----- Commuting and undoing, once more -----

  lemma EntryApart(i: nat)
    requires i > 0
    ensures Separate(EntryAddress(i), TBL_BASE) && Separate(TBL_BASE, EntryAddress(i))
  {
    EntryAligned(i);
  }

  lemma EntryAligned(i: nat)
    ensures EntryAddress(i) % 8 == 0
  {
    assert EntryAddress(i) == 8 * (TBL_BASE / 8 + 4 * i);
    EightDivides(TBL_BASE / 8 + 4 * i);
  }

  lemma EightDivides(k: nat)
    ensures (8 * k) % 8 == 0
  {
  }

  lemma EntryObtainable(s: Host, a: nat, key: Word)
    requires Valid(s) && s.cache != [] && a % 8 == 0 && Readable(s, a) && WordAt(s, a + 4) == key
    ensures Obtainable(s, a, key) && Cached(Obtain(s, a, key), a) && Valid(Obtain(s, a, key))
  {
    if Cached(s, a) {
      LookupValid(s.cache, s.id, s.words, a);
    }
    AllocThenFree(s, TARGET_MU, a, key);
    AllocKeepsValid(s, TARGET_MU, a, key);
  }

  /** Locking ends in the same state whether or not the word was cleared before. */
  lemma LockAfterCleared(s: Host, a: nat)
    requires Cached(s, a) && TryLockResult(s, a).status == Ok
    ensures TryLockResult(Cleared(s, a), a) == TryLockResult(s, a)
    ensures TryLock(Cleared(s, a), a) == TryLock(s, a)
  {
    hide IsLocked, Locked;
    LockedWord(s.id);
    FreeAndTakenWords();
    if a in s.words {
      assert s.words[a := 0][a := TryLockResult(s, a).word] == s.words[a := TryLockResult(s, a).word];
    }
  }

  /** Sharing a handle one more time and locking through it commute. */
  lemma ShareLockCommute(s: Host, a: nat, key: Word)
    requires Cached(s, a)
    ensures TryLockResult(Obtain(s, a, key), a) == TryLockResult(s, a)
    ensures TryLock(Obtain(s, a, key), a) == Obtain(TryLock(s, a), a, key)
    ensures Cleared(Obtain(s, a, key), a) == Obtain(Cleared(s, a), a, key)
  {
    hide TryLockOutcome;
    var d := TryLockResult(s, a).depth;
    AddUseKeeps(s.cache, a, a);
    SetDepthKeeps(s.cache, a, d, a);
    SetDepthAddUseCommute(s.cache, a, d, a);
  }

  function SetWord(s: Host, a: nat, w: Word): Host {
    if a in s.words then s.(words := s.words[a := w]) else s
  }

  predicate Damaged(w: Word) { !IsLocked(w) && !IsUnlocked(w) }

  lemma TestSetKeepsLocked(w: Word)
    ensures IsLocked(w) ==> TestSet(w) == w
  {
  }

  /** A refused lock call changes nothing but a damaged word. */
  lemma RefusedLock(s: Host, a: nat)
    requires Cached(s, a) && TryLockResult(s, a).status != Ok
    ensures TryLock(s, a) == SetWord(s, a, TryLockResult(s, a).word)
    ensures Damaged(WordAt(s, a)) || TryLock(s, a) == s
  {
    hide IsLocked, IsUnlocked, Locked, TestSet, SetDepth;
    SetOwnDepth(s.cache, a);
    TestSetKeepsLocked(WordAt(s, a));
    assert TryLockResult(s, a).depth == Get(s, a).depth;
    if a in s.words && TryLockResult(s, a).word == s.words[a] {
      assert s.words[a := s.words[a]] == s.words;
    }
  }

  lemma SetWordUnlockCommute(s: Host, a: nat, w: Word, b: nat)
    requires Separate(a, b)
    ensures Unlock(SetWord(s, a, w), b) == SetWord(Unlock(s, b), a, w)
  {
    hide UnlockOutcome;
    var t := SetWord(s, a, w);
    assert WordAt(t, b) == WordAt(s, b) && WordAt(t, b + 4) == WordAt(s, b + 4);
    var o := UnlockResult(s, b);
    assert UnlockResult(t, b) == o;
    if a in s.words && b in s.words {
      assert s.words[a := w][b := o.word] == s.words[b := o.word][a := w];
    }
  }

  // ----- The acquisition attempt -----

  /** The entry found is neither the device mutex nor does holding that one get in the way. */
  lemma TakeOtherEntry(s: Host, a: nat, key: Word)
    requires Cached(s, TBL_BASE) && TryLockResult(s, TBL_BASE).status == Ok && Separate(a, TBL_BASE)
    requires var t := Obtain(TryLock(s, TBL_BASE), a, key);
      Obtainable(TryLock(s, TBL_BASE), a, key) && TryLockResult(t, a).status == Ok
    ensures var c := Obtain(Cleared(s, TBL_BASE), a, key);
      && Obtainable(Cleared(s, TBL_BASE), a, key) && TryLockResult(c, a).status == Ok
      && TakeEntry(TryLock(s, TBL_BASE), a, key) == Result(Acquired(a), TryLock(c, a))
  {
    hide TryLockResult, UnlockResult, Apply, Alloc, AllocStatusOf, Cleared;
    var s1 := TryLock(s, TBL_BASE);
    var t := Obtain(s1, a, key);
    var u := UnlockResult(s1, TBL_BASE);
    LockThenUnlock(s, TBL_BASE);
    AllocApplyCommute(s1, TBL_BASE, u, TARGET_MU, a, key);
    UnlockAllocCommute(s1, TBL_BASE, TARGET_MU, a, key);
    LocksCommute(t, TBL_BASE, a);
    ApplyKeeps(t, TBL_BASE, UnlockResult(t, TBL_BASE), a);
  }

  /** A resource whose key is that of the device mutex finds the device mutex itself. */
  lemma TakeDeviceEntry(s: Host, key: Word)
    requires Cached(s, TBL_BASE) && TryLockResult(s, TBL_BASE).status == Ok
    requires var t := Obtain(TryLock(s, TBL_BASE), TBL_BASE, key);
      Obtainable(TryLock(s, TBL_BASE), TBL_BASE, key) && TryLockResult(t, TBL_BASE).status == Ok
    ensures var c := Obtain(Cleared(s, TBL_BASE), TBL_BASE, key);
      && Obtainable(Cleared(s, TBL_BASE), TBL_BASE, key) && TryLockResult(c, TBL_BASE).status == Ok
      && TakeEntry(TryLock(s, TBL_BASE), TBL_BASE, key) == Result(Acquired(TBL_BASE), TryLock(c, TBL_BASE))
  {
    hide TryLockResult, UnlockResult, TryLock, Unlock;
    var s1 := TryLock(s, TBL_BASE);
    var t := Obtain(s1, TBL_BASE, key);
    DeviceHandleStays(s);
    AddUseKeeps(s1.cache, TBL_BASE, TBL_BASE);
    LockThenUnlock(t, TBL_BASE);
    LockAfterCleared(s, TBL_BASE);
    ShareLockCommute(Cleared(s, TBL_BASE), TBL_BASE, key);
  }

  lemma DeviceHandleStays(s: Host)
    requires Cached(s, TBL_BASE) && TryLockResult(s, TBL_BASE).status == Ok
    ensures var t := TryLock(s, TBL_BASE);
      && Cached(t, TBL_BASE) && DepthOf(t, TBL_BASE) == DepthOf(s, TBL_BASE) + 1
      && Get(t, TBL_BASE).key == Get(s, TBL_BASE).key
  {
    hide Locked, IsLocked, IsUnlocked, TestSet;
    SetDepthKeeps(s.cache, TBL_BASE, TryLockResult(s, TBL_BASE).depth, TBL_BASE);
  }

  /** An attempt that succeeds leaves the resource locked through a handle of its own and the device
      mutex as it was, except that a word naming nobody with stray bits is set to 0. */
  lemma TryAcquireSucceeds(s: Host, name: seq<Crc32.Byte>)
    requires Valid(s) && Cached(s, TBL_BASE) && TryAcquire(s, name).attempt.Acquired?
    ensures var a, c := TryAcquire(s, name).attempt.address, Cleared(s, TBL_BASE);
      && Obtainable(c, a, KeyOf(name)) && TryLockResult(Obtain(c, a, KeyOf(name)), a).status == Ok
      && TryAcquire(s, name).after == TryLock(Obtain(c, a, KeyOf(name)), a)
      && (a == TBL_BASE || Separate(a, TBL_BASE)) && Readable(s, a)
  {
    hide TryLockResult, UnlockResult, TakeEntry, Obtain, KeyOf, Valid, ValidCache, Cleared;
    var s1 := TryLock(s, TBL_BASE);
    var i := Find(s1, name).index;
    LockedFind(s, name, i);
    if i == 0 {
      TakeDeviceEntryCase(s, KeyOf(name));
    } else {
      EntryApart(i);
      TakeOtherEntryCase(s, EntryAddress(i), KeyOf(name));
    }
  }

  lemma LockedFind(s: Host, name: seq<Crc32.Byte>, i: nat)
    requires Valid(s) && Cached(s, TBL_BASE) && TryLockResult(s, TBL_BASE).status == Ok
    requires Find(TryLock(s, TBL_BASE), name) == At(i)
    ensures var s1, a := TryLock(s, TBL_BASE), EntryAddress(i);
      Valid(s1) && Obtainable(s1, a, KeyOf(name)) && Readable(s, a)
  {
    hide TryLockResult, KeyOf, Valid, ValidCache, FindEntry, Padded, Obtainable, Obtain, SetDepth;
    var s1 := TryLock(s, TBL_BASE);
    TryLockKeepsValid(s, TBL_BASE);
    DeviceHandleStays(s);
    EntryAligned(i);
    EntryObtainable(s1, EntryAddress(i), KeyOf(name));
  }

  lemma TakeOtherEntryCase(s: Host, a: nat, key: Word)
    requires Cached(s, TBL_BASE) && TryLockResult(s, TBL_BASE).status == Ok && Separate(a, TBL_BASE)
    requires Obtainable(TryLock(s, TBL_BASE), a, key) && TakeEntry(TryLock(s, TBL_BASE), a, key).attempt.Acquired?
    ensures var c := Obtain(Cleared(s, TBL_BASE), a, key);
      && Obtainable(Cleared(s, TBL_BASE), a, key) && TryLockResult(c, a).status == Ok
      && TakeEntry(TryLock(s, TBL_BASE), a, key) == Result(Acquired(a), TryLock(c, a))
  {
    hide TryLockResult, TryLock, Unlock, Obtain, Cleared;
    TakeOtherEntry(s, a, key);
  }

  lemma TakeDeviceEntryCase(s: Host, key: Word)
    requires Cached(s, TBL_BASE) && TryLockResult(s, TBL_BASE).status == Ok
    requires Obtainable(TryLock(s, TBL_BASE), TBL_BASE, key)
    requires TakeEntry(TryLock(s, TBL_BASE), TBL_BASE, key).attempt.Acquired?
    ensures var c := Obtain(Cleared(s, TBL_BASE), TBL_BASE, key);
      && Obtainable(Cleared(s, TBL_BASE), TBL_BASE, key) && TryLockResult(c, TBL_BASE).status == Ok
      && TakeEntry(TryLock(s, TBL_BASE), TBL_BASE, key) == Result(Acquired(TBL_BASE), TryLock(c, TBL_BASE))
  {
    hide TryLockResult, TryLock, Unlock, Obtain, Cleared;
    TakeDeviceEntry(s, key);
  }

  /** `t` is `s` except that damaged lock words may have changed, and that the word of a device
      mutex nobody held may have become 0. */
  ghost predicate Restored(s: Host, t: Host) {
    && t.cache == s.cache && t.id == s.id && t.model6000 == s.model6000 && t.words.Keys == s.words.Keys
    && forall x :: x in s.words ==>
         || t.words[x] == s.words[x] || Damaged(s.words[x])
         || (x == TBL_BASE && DepthOf(s, x) == 0 && t.words[x] == 0)
  }

  lemma RestoredBy(s: Host, a: nat, w: Word)
    requires w == WordAt(s, a) || Damaged(WordAt(s, a))
    ensures Restored(s, s) && Restored(s, Cleared(s, TBL_BASE))
    ensures Restored(s, SetWord(s, a, w))
    ensures a != TBL_BASE ==> Restored(s, SetWord(Cleared(s, TBL_BASE), a, w))
  {
    hide Damaged;
  }

  lemma RefusedEntry(s: Host, a: nat, key: Word)
    requires Cached(s, TBL_BASE) && TryLockResult(s, TBL_BASE).status == Ok && Separate(a, TBL_BASE)
    requires Valid(TryLock(s, TBL_BASE)) && Obtainable(TryLock(s, TBL_BASE), a, key)
    requires !TakeEntry(TryLock(s, TBL_BASE), a, key).attempt.Acquired?
    ensures Restored(s, TakeEntry(TryLock(s, TBL_BASE), a, key).after)
  {
    hide TryLockResult, UnlockResult, TryLock, Unlock, Valid, Cleared, Damaged, Alloc, AllocStatusOf, WordAt, Restored;
    var s1 := TryLock(s, TBL_BASE);
    var t := Obtain(s1, a, key);
    var w := TryLockResult(t, a).word;
    AllocThenFree(s1, TARGET_MU, a, key);
    LockThenUnlock(s, TBL_BASE);
    RefusedLock(t, a);
    assert Free(TryLock(t, a), a) == SetWord(s1, a, w) by { ObtainKeepsWords(s1, a, key); }
    SetWordUnlockCommute(s1, a, w, TBL_BASE);
    assert WordAt(t, a) == WordAt(s, a) by {
      TryLockOtherWord(s, TBL_BASE, a);
      ObtainKeepsWords(s1, a, key);
    }
    SameWordOrDamaged(t, a);
    RestoredBy(s, a, w);
  }

  lemma SameWordOrDamaged(s: Host, a: nat)
    requires Cached(s, a) && TryLockResult(s, a).status != Ok
    ensures TryLockResult(s, a).word == WordAt(s, a) || Damaged(WordAt(s, a))
  {
    hide IsLocked, IsUnlocked, Locked, TestSet;
    TestSetKeepsLocked(WordAt(s, a));
  }

  lemma ObtainKeepsWords(s: Host, a: nat, key: Word)
    ensures Obtain(s, a, key).words == s.words && WordAt(Obtain(s, a, key), a) == WordAt(s, a)
    ensures forall w :: Free(SetWord(Obtain(s, a, key), a, w), a) == SetWord(Free(Obtain(s, a, key), a), a, w)
  {
    hide AllocStatusOf;
  }

  lemma RefusedDeviceEntry(s: Host, key: Word)
    requires Cached(s, TBL_BASE) && TryLockResult(s, TBL_BASE).status == Ok
    requires Valid(TryLock(s, TBL_BASE)) && Obtainable(TryLock(s, TBL_BASE), TBL_BASE, key)
    requires !TakeEntry(TryLock(s, TBL_BASE), TBL_BASE, key).attempt.Acquired?
    ensures Restored(s, TakeEntry(TryLock(s, TBL_BASE), TBL_BASE, key).after)
  {
    hide TryLockResult, UnlockResult, TryLock, Unlock, Valid, Cleared, Damaged, Restored;
    var s1 := TryLock(s, TBL_BASE);
    AllocThenFree(s1, TARGET_MU, TBL_BASE, key);
    LockThenUnlock(s, TBL_BASE);
    DeviceHandleStays(s);
    AddUseKeeps(s1.cache, TBL_BASE, TBL_BASE);
    HeldLockRefused(Obtain(s1, TBL_BASE, key), TBL_BASE);
    RestoredBy(s, TBL_BASE, WordAt(s, TBL_BASE));
  }

  lemma TryLockOtherWord(s: Host, a: nat, b: nat)
    requires a != b
    ensures WordAt(TryLock(s, a), b) == WordAt(s, b)
  {
  }

  lemma HeldLockRefused(s: Host, a: nat)
    requires Cached(s, a) && DepthOf(s, a) > 0 && TryLockResult(s, a).status != Ok
    ensures TryLock(s, a) == s
  {
    SetOwnDepth(s.cache, a);
  }

  /** An attempt that is refused, for whatever reason, leaves no trace; one that waits has none yet. */
  lemma TryAcquireRefused(s: Host, name: seq<Crc32.Byte>)
    requires Valid(s) && Cached(s, TBL_BASE) && !TryAcquire(s, name).attempt.Acquired?
    ensures Restored(s, TryAcquire(s, name).after)
    ensures TryAcquire(s, name).attempt.Waiting? ==> TryAcquire(s, name).after == s
  {
    hide TryLock, Unlock, TryLockResult, TakeEntry, KeyOf, Valid, ValidCache, Damaged, Cleared, Restored, WordAt;
    var s1 := TryLock(s, TBL_BASE);
    RestoredBy(s, TBL_BASE, WordAt(s, TBL_BASE));
    if TryLockResult(s, TBL_BASE).status == Ok {
      LockThenUnlock(s, TBL_BASE);
      match Find(s1, name) {
        case At(i) =>
          LockedFind(s, name, i);
          EntryRefused(s, i, KeyOf(name));
        case _ =>
      }
    } else {
      RefusedLock(s, TBL_BASE);
      SameWordOrDamaged(s, TBL_BASE);
      RestoredBy(s, TBL_BASE, TryLockResult(s, TBL_BASE).word);
      if TryLockResult(s, TBL_BASE).status == Busy { BusyWordLocked(s, TBL_BASE); }
    }
  }

  lemma BusyWordLocked(s: Host, a: nat)
    requires Cached(s, a) && TryLockResult(s, a).status == Busy
    ensures !Damaged(WordAt(s, a))
  {
    hide IsLocked, IsUnlocked, Locked, TestSet;
  }

  lemma EntryRefused(s: Host, i: nat, key: Word)
    requires Cached(s, TBL_BASE) && TryLockResult(s, TBL_BASE).status == Ok
    requires Valid(TryLock(s, TBL_BASE)) && Obtainable(TryLock(s, TBL_BASE), EntryAddress(i), key)
    ensures var r := TakeEntry(TryLock(s, TBL_BASE), EntryAddress(i), key);
      !r.attempt.Waiting? && (!r.attempt.Acquired? ==> Restored(s, r.after))
  {
    hide TryLock, Unlock, TryLockResult, Valid, Restored, Obtain, Obtainable;
    if !TakeEntry(TryLock(s, TBL_BASE), EntryAddress(i), key).attempt.Acquired? {
      if i == 0 {
        RefusedDeviceEntry(s, key);
      } else {
        EntryApart(i);
        RefusedEntry(s, EntryAddress(i), key);
      }
    }
  }

  // ----- Acquire and release -----

  lemma ObtainKeepsDepths(s: Host, a: nat, key: Word, b: nat)
    ensures DepthOf(Obtain(s, a, key), b) == DepthOf(s, b)
  {
    AddUseKeeps(s.cache, a, b);
    var added := [Handle(a, key, 0, 1)] + s.cache;
    assert Lookup(added, b) == if a == b then Some(added[0]) else Lookup(s.cache, b) by {
      assert added[1..] == s.cache;
    }
  }

  lemma ClearedObtainCommute(s: Host, b: nat, a: nat, key: Word)
    requires a % 8 == 0 && b % 8 == 0
    ensures Obtainable(Cleared(s, b), a, key) == Obtainable(s, a, key)
    ensures Cleared(Obtain(s, a, key), b) == Obtain(Cleared(s, b), a, key)
  {
    hide DepthOf;
    assert AllocStatusOf(Cleared(s, b), TARGET_MU, a, key) == AllocStatusOf(s, TARGET_MU, a, key);
    hide AllocStatusOf;
    ObtainKeepsDepths(s, a, key, b);
  }

  lemma ClearedKeepsValid(s: Host, a: nat)
    requires Valid(s) && a % 8 == 0
    ensures Valid(Cleared(s, a))
  {
    if Cached(s, a) {
      SetOwnDepth(s.cache, a);
      if DepthOf(s, a) == 0 { SetKeepsCache(s.cache, s.id, s.words, a, 0, 0); }
    } else {
      OtherWordKeepsCache(s.cache, s.id, s.words, a, 0);
    }
  }

  /** Giving the device handle back commutes with what was done to another entry. */
  lemma FreeDeviceOther(c: Host, a: nat, key: Word)
    requires Valid(c) && Obtainable(c, TBL_BASE, TBL_KEY) && Separate(a, TBL_BASE)
    requires var y := Obtain(c, TBL_BASE, TBL_KEY);
      Obtainable(y, a, key) && TryLockResult(Obtain(y, a, key), a).status == Ok
    ensures var y := Obtain(c, TBL_BASE, TBL_KEY);
      && Obtainable(c, a, key) && TryLockResult(Obtain(c, a, key), a).status == Ok
      && Free(TryLock(Obtain(y, a, key), a), TBL_BASE) == TryLock(Obtain(c, a, key), a)
  {
    hide TryLockResult, TryLock, Free, Alloc, AllocStatusOf, Valid;
    var y := Obtain(c, TBL_BASE, TBL_KEY);
    AllocThenFree(c, TARGET_MU, TBL_BASE, TBL_KEY);
    FreeAllocCommute(y, TBL_BASE, TARGET_MU, a, key);
    FreeLockCommute(Obtain(y, a, key), TBL_BASE, a);
    FreeKeeps(Obtain(y, a, key), TBL_BASE, a);
  }

  lemma FreeDeviceSame(c: Host, key: Word)
    requires Valid(c) && Obtainable(c, TBL_BASE, TBL_KEY)
    requires var y := Obtain(c, TBL_BASE, TBL_KEY);
      Obtainable(y, TBL_BASE, key) && TryLockResult(Obtain(y, TBL_BASE, key), TBL_BASE).status == Ok
    ensures var y := Obtain(c, TBL_BASE, TBL_KEY);
      && Obtainable(c, TBL_BASE, key) && TryLockResult(Obtain(c, TBL_BASE, key), TBL_BASE).status == Ok
      && Free(TryLock(Obtain(y, TBL_BASE, key), TBL_BASE), TBL_BASE) == TryLock(Obtain(c, TBL_BASE, key), TBL_BASE)
  {
    hide TryLockResult, TryLock, Free, Alloc, Valid;
    var y := Obtain(c, TBL_BASE, TBL_KEY);
    AllocThenFree(c, TARGET_MU, TBL_BASE, TBL_KEY);
    ObtainedKey(c, TBL_KEY);
    ShareLockCommute(y, TBL_BASE, key);
    AllocKeepsValid(c, TARGET_MU, TBL_BASE, TBL_KEY);
    TryLockKeepsValid(y, TBL_BASE);
    DeviceHandleStays(y);
    AllocThenFree(TryLock(y, TBL_BASE), TARGET_MU, TBL_BASE, key);
  }

  lemma ObtainedKey(c: Host, key: Word)
    requires Obtainable(c, TBL_BASE, key)
    ensures Cached(Obtain(c, TBL_BASE, key), TBL_BASE) && Get(Obtain(c, TBL_BASE, key), TBL_BASE).key == key
  {
    AddUseKeeps(c.cache, TBL_BASE, TBL_BASE);
  }

  /** What an acquisition amounts to: the handle of the resource is obtained and locked; nothing is
      left of the device mutex, except that stray bits of its word are cleared. */
  lemma AcquireSucceeds(s: Host, name: seq<Crc32.Byte>)
    requires Valid(s) && Acquire(s, name).attempt.Acquired?
    ensures var a, c := Acquire(s, name).attempt.address, Cleared(s, TBL_BASE);
      && a % 8 == 0 && Obtainable(c, a, KeyOf(name)) && TryLockResult(Obtain(c, a, KeyOf(name)), a).status == Ok
      && Acquire(s, name).after == TryLock(Obtain(c, a, KeyOf(name)), a)
  {
    hide TryLockResult, TryLock, Free, Alloc, AllocStatusOf, Valid, ValidCache, Cleared, TryAcquire, KeyOf;
    var s0 := Obtain(s, TBL_BASE, TBL_KEY);
    AllocThenFree(s, TARGET_MU, TBL_BASE, TBL_KEY);
    AllocKeepsValid(s, TARGET_MU, TBL_BASE, TBL_KEY);
    TryAcquireSucceeds(s0, name);
    ClearedObtainCommute(s, TBL_BASE, TBL_BASE, TBL_KEY);
    ClearedKeepsValid(s, TBL_BASE);
    if TryAcquire(s0, name).attempt.address == TBL_BASE {
      FreeDeviceSame(Cleared(s, TBL_BASE), KeyOf(name));
    } else {
      FreeDeviceOther(Cleared(s, TBL_BASE), TryAcquire(s0, name).attempt.address, KeyOf(name));
    }
  }

  /** A successful acquisition followed by the release restores every word, depth and usage count,
      except that the words of the two mutexes end as 0 unless they were held before. */
  lemma AcquireThenRelease(s: Host, name: seq<Crc32.Byte>)
    requires Valid(s) && Acquire(s, name).attempt.Acquired?
    ensures var a := Acquire(s, name).attempt.address;
      Release(Acquire(s, name).after, a) == Cleared(Cleared(s, TBL_BASE), a)
  {
    hide TryLockResult, TryLock, Unlock, Alloc, AllocStatusOf, Valid, Cleared, Acquire, KeyOf;
    var a, c, key := Acquire(s, name).attempt.address, Cleared(s, TBL_BASE), KeyOf(name);
    AcquireSucceeds(s, name);
    ClearedKeepsValid(s, TBL_BASE);
    ClearedKeepsValid(c, a);
    AllocThenFree(c, TARGET_MU, a, key);
    LockThenUnlock(Obtain(c, a, key), a);
    ClearedObtainCommute(c, a, a, key);
    AllocThenFree(Cleared(c, a), TARGET_MU, a, key);
  }

  /** So the prior state comes back exactly when both mutexes were held or had the word 0. */
  lemma AcquireThenReleaseRestores(s: Host, name: seq<Crc32.Byte>)
    requires Valid(s) && Acquire(s, name).attempt.Acquired?
    ensures var a := Acquire(s, name).attempt.address;
      Release(Acquire(s, name).after, a) == s
      <==> && (DepthOf(s, TBL_BASE) > 0 || WordAt(s, TBL_BASE) == 0)
           && (DepthOf(s, a) > 0 || WordAt(s, a) == 0)
  {
    hide Acquire, Release, Valid;
    var a, c := Acquire(s, name).attempt.address, Cleared(s, TBL_BASE);
    AcquireThenRelease(s, name);
    ClearedSame(s, TBL_BASE);
    ClearedSame(c, a);
    if Cleared(c, a) == s {
      ClearedTwice(s, TBL_BASE, a);
      ClearedSame(s, a);
    }
  }

  lemma ClearedTwice(s: Host, a: nat, b: nat)
    requires Cleared(Cleared(s, a), b) == s
    ensures Cleared(s, a) == s && Cleared(s, b) == s
  {
    if a in s.words && DepthOf(s, a) == 0 {
      assert Cleared(Cleared(s, a), b).words[a] == 0;
      assert s.words[a := 0] == s.words;
    }
  }

  /** After a success the resource is locked by us, one level deeper than before. */
  lemma AcquiredIsHeld(s: Host, name: seq<Crc32.Byte>)
    requires Valid(s) && Acquire(s, name).attempt.Acquired?
    ensures var a, t := Acquire(s, name).attempt.address, Acquire(s, name).after;
      Cached(t, a) && DepthOf(t, a) == DepthOf(s, a) + 1 && WordAt(t, a) == Locked(s.id)
  {
    hide TryLockResult, TryLock, Alloc, AllocStatusOf, Valid, Acquire, KeyOf, Locked, Cleared;
    var a, c, key := Acquire(s, name).attempt.address, Cleared(s, TBL_BASE), KeyOf(name);
    AcquireSucceeds(s, name);
    ClearedKeepsValid(s, TBL_BASE);
    AllocThenFree(c, TARGET_MU, a, key);
    AllocKeepsValid(c, TARGET_MU, a, key);
    ObtainKeepsDepth(c, a, key);
    LockedDeeper(Obtain(c, a, key), a);
    assert DepthOf(c, a) == DepthOf(s, a) && c.id == s.id by { ClearedKeepsDepth(s, TBL_BASE, a); }
  }

  lemma ClearedKeepsDepth(s: Host, b: nat, a: nat)
    ensures DepthOf(Cleared(s, b), a) == DepthOf(s, a) && Cleared(s, b).id == s.id
  {
  }

  lemma ObtainKeepsDepth(s: Host, a: nat, key: Word)
    ensures DepthOf(Obtain(s, a, key), a) == DepthOf(s, a) && Obtain(s, a, key).id == s.id
  {
    AddUseKeeps(s.cache, a, a);
  }

  lemma LockedDeeper(s: Host, a: nat)
    requires Valid(s) && Cached(s, a) && TryLockResult(s, a).status == Ok
    ensures var t := TryLock(s, a);
      && Cached(t, a) && DepthOf(t, a) == DepthOf(s, a) + 1 && WordAt(t, a) == Locked(s.id)
  {
    hide Locked, IsLocked, IsUnlocked, TestSet;
    LockedWord(s.id);
    LookupValid(s.cache, s.id, s.words, a);
    SetDepthKeeps(s.cache, a, TryLockResult(s, a).depth, a);
  }

  /** After a refusal, of the device handle or of the attempt, no depth, usage count or undamaged
      word has changed, except for a cleared device word. */
  lemma AcquireRefused(s: Host, name: seq<Crc32.Byte>)
    requires Valid(s) && Acquire(s, name).attempt.Refused?
    ensures Restored(s, Acquire(s, name).after)
  {
    hide TryAcquire, Valid, Damaged, AllocStatusOf, Alloc;
    if Obtainable(s, TBL_BASE, TBL_KEY) {
      var s0 := Obtain(s, TBL_BASE, TBL_KEY);
      AllocThenFree(s, TARGET_MU, TBL_BASE, TBL_KEY);
      AllocKeepsValid(s, TARGET_MU, TBL_BASE, TBL_KEY);
      TryAcquireRefused(s0, name);
      ObtainKeepsWords(s, TBL_BASE, TBL_KEY);
      ObtainKeepsDepth(s, TBL_BASE, TBL_KEY);
      assert s0.model6000 == s.model6000 && Free(s0, TBL_BASE).cache == s.cache;
    }
  }

  // ----- A resource whose key is that of the device mutex -----

  /** The entry found is the device mutex exactly when the checksum of the name is 0. */
  lemma DeviceFoundExactlyForKeyZero(s: Host, name: seq<Crc32.Byte>)
    requires Valid(s) && Cached(s, TBL_BASE) && Get(s, TBL_BASE).key == TBL_KEY
    requires TryLockResult(s, TBL_BASE).status == Ok && Find(TryLock(s, TBL_BASE), name).At?
    ensures Find(TryLock(s, TBL_BASE), name).index == 0 <==> KeyOf(name) == 0
  {
    hide KeyOf, TryLockResult, Padded, ValidCache;
    var t := TryLock(s, TBL_BASE);
    LookupValid(s.cache, s.id, s.words, TBL_BASE);
    assert WordAt(t, EntryAddress(0) + 4) == WordAt(s, TBL_BASE + 4) == 0;
    SearchMeaning(t, KeyOf(name), 0);
    if Find(t, name).index > 0 { assert Passed(t, KeyOf(name), 0); }
  }

  /** So acquiring a resource takes the device mutex itself exactly when its name has checksum 0. */
  lemma DeviceAcquiredExactlyForKeyZero(s: Host, name: seq<Crc32.Byte>)
    requires Valid(s) && Acquire(s, name).attempt.Acquired?
    ensures Acquire(s, name).attempt.address == TBL_BASE <==> KeyOf(name) == 0
  {
    hide KeyOf, TryLock, TryLockResult, Alloc, AllocStatusOf, Valid, Find, TakeObtained;
    var s0 := Obtain(s, TBL_BASE, TBL_KEY);
    AllocThenFree(s, TARGET_MU, TBL_BASE, TBL_KEY);
    AllocKeepsValid(s, TARGET_MU, TBL_BASE, TBL_KEY);
    ObtainedKey(s, TBL_KEY);
    DeviceFoundExactlyForKeyZero(s0, name);
    TakenAddress(Obtain(TryLock(s0, TBL_BASE), EntryAddress(Find(TryLock(s0, TBL_BASE), name).index), KeyOf(name)),
                 EntryAddress(Find(TryLock(s0, TBL_BASE), name).index));
  }

  lemma TakenAddress(t: Host, a: nat)
    ensures TakeObtained(t, a).attempt.Acquired? ==> TakeObtained(t, a).attempt.address == a
  {
  }
}
