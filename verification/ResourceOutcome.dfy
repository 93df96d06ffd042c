/** What an acquisition answers, for every name, table and state of the locks: when it succeeds, with
    which entry, and which error a refusal carries. Addresses and codes are written out. */
module ResourceOutcome {
  import opened MutexWord
  import opened MutexHandles
  import opened MutexRuns
  import opened ResourceTable
  import Crc32

  // ----- Locks -----

  /** The mutex is free, or ours and not at the maximal depth. */
  predicate Takable(s: Host, a: nat) {
    if DepthOf(s, a) > 0 then DepthOf(s, a) < 65535
    else a in s.words && (Low(s.words[a]) == 0 || Names(s.words[a], s.id))
  }

  /** The mutex is locked by another interface. */
  predicate Foreign(s: Host, a: nat) {
    DepthOf(s, a) == 0 && a in s.words && Low(s.words[a]) == 0xf && !Names(s.words[a], s.id)
  }

  lemma LockExactly(s: Host, a: nat)
    requires Valid(s) && Cached(s, a)
    ensures TryLockResult(s, a).status == Ok <==> Takable(s, a)
    ensures TryLockResult(s, a).status == Busy <==> Foreign(s, a)
    ensures TryLockResult(s, a).status == TooDeep <==> DepthOf(s, a) == 65535
    ensures TryLockResult(s, a).status == IoError <==> DepthOf(s, a) == 0 && a !in s.words
    ensures TryLockResult(s, a).status == Invalid
      <==> DepthOf(s, a) == 0 && a in s.words && Low(s.words[a]) != 0 && Low(s.words[a]) != 0xf
  {
    hide Names, Low, TryLockOutcome;
    LookupValid(s.cache, s.id, s.words, a);
    LockOutcomes(s.id, true, WordAt(s, a), DepthOf(s, a));
    NeverNone(WordAt(s, a), s.id);
  }

  lemma NeverNone(w: Word, id: Interface)
    ensures Names(w, id) ==> Low(w) == 0xf
    ensures !(Low(w) == 0 && Low(w) == 0xf)
  {
    hide Low;
  }

  /** An unlock call succeeds exactly when the handle is deeper than 1 or the word names us; a word that
      cannot be read and one that names somebody else, or nobody, are told apart. */
  lemma UnlockExactly(s: Host, a: nat)
    requires Valid(s) && Cached(s, a)
    ensures UnlockResult(s, a).status == Ok <==> DepthOf(s, a) > 1 || (a in s.words && Names(s.words[a], s.id))
    ensures UnlockResult(s, a).status == IoError <==> DepthOf(s, a) == 0 && a !in s.words
    ensures UnlockResult(s, a).status == BadAccess <==> DepthOf(s, a) == 0 && a in s.words && !Names(s.words[a], s.id)
  {
    hide Names, Low, UnlockOutcome;
    LookupValid(s.cache, s.id, s.words, a);
    UnlockOutcomes(s.id, true, WordAt(s, a), DepthOf(s, a));
    LockedNames(WordAt(s, a), s.id);
  }

  /** A handle for a memory-unit mutex is to be had exactly at an aligned address whose key word is
      the key asked for. */
  lemma HandleExactly(s: Host, a: nat, key: Word)
    requires Valid(s)
    ensures Obtainable(s, a, key) <==> s.model6000 && a % 8 == 0 && a + 4 in s.words && s.words[a + 4] == key
  {
    if Cached(s, a) { LookupValid(s.cache, s.id, s.words, a); }
  }

  /** The device mutex can be had: its key word is 0, and it is free or ours. */
  predicate DeviceKeyed(s: Host) { s.model6000 && 0x81_0000_0004 in s.words && s.words[0x81_0000_0004] == 0 }

  predicate DeviceReady(s: Host) { DeviceKeyed(s) && Takable(s, 0x81_0000_0000) }

  // ----- The table: 128 entries of 32 octets from 0x8100000000 on, lock word and key first -----

  function Entry(i: nat): nat { 0x81_0000_0000 + 32 * i }

  predicate EntryReadable(s: Host, i: nat) { Entry(i) in s.words && Entry(i) + 4 in s.words }

  predicate HasKey(s: Host, i: nat, key: Word) { Entry(i) + 4 in s.words && s.words[Entry(i) + 4] == key }

  /** The entries before `u` can be read, and none has the key. */
  predicate NoneBefore(s: Host, key: Word, u: nat) {
    forall j: nat | j < u :: EntryReadable(s, j) && !HasKey(s, j, key)
  }

  predicate FirstWithKey(s: Host, key: Word, i: nat) {
    i < 128 && NoneBefore(s, key, i) && EntryReadable(s, i) && HasKey(s, i, key)
  }

  predicate UnreadableFirst(s: Host, key: Word, u: nat) { u < 128 && NoneBefore(s, key, u) && !EntryReadable(s, u) }

  /** The mutex of entry `i` can be had while the device mutex, that of entry 0, is held. */
  predicate EntryTakable(s: Host, i: nat) {
    if i == 0 then DepthOf(s, Entry(0)) + 1 < 65535 else Takable(s, Entry(i))
  }

  /** Taking and having the device mutex changes no key and no other lock word. */
  lemma DeviceHeldKeeps(s: Host, i: nat)
    requires Valid(s) && Obtainable(s, TBL_BASE, TBL_KEY)
    requires TryLockResult(Obtain(s, TBL_BASE, TBL_KEY), TBL_BASE).status == Ok
    ensures var t := TryLock(Obtain(s, TBL_BASE, TBL_KEY), TBL_BASE);
      && t.id == s.id && t.words.Keys == s.words.Keys
      && (EntryReadable(t, i) <==> EntryReadable(s, i)) && (forall key :: HasKey(t, i, key) <==> HasKey(s, i, key))
      && DepthOf(t, Entry(i)) == DepthOf(s, Entry(i)) + (if i == 0 then 1 else 0)
      && (i > 0 ==> WordAt(t, Entry(i)) == WordAt(s, Entry(i)))
  {
    hide TryLockResult, AllocStatusOf, Alloc, SetDepth;
    var s0 := Obtain(s, TBL_BASE, TBL_KEY);
    AllocThenFree(s, TARGET_MU, TBL_BASE, TBL_KEY);
    ObtainKeepsWords(s, TBL_BASE, TBL_KEY);
    ObtainKeepsDepths(s, TBL_BASE, TBL_KEY, Entry(i));
    ObtainKeepsDepth(s, TBL_BASE, TBL_KEY);
    SetDepthKeeps(s0.cache, TBL_BASE, TryLockResult(s0, TBL_BASE).depth, Entry(i));
    DeviceHandleStays(s0);
  }

  /** `t` shows the same table as `s`. */
  ghost predicate SameTable(s: Host, t: Host, key: Word) {
    forall j: nat :: (EntryReadable(t, j) <==> EntryReadable(s, j)) && (HasKey(t, j, key) <==> HasKey(s, j, key))
  }

  /** So the search of the one decides about the other. */
  lemma {:induction false} SearchExactly(s: Host, t: Host, key: Word, i: nat)
    requires SameTable(s, t, key) && i <= 128 && NoneBefore(s, key, i)
    ensures var r := FindEntry(t, key, i);
      && (forall k: nat :: r == At(k) <==> FirstWithKey(s, key, k))
      && (r.Missing? <==> NoneBefore(s, key, 128))
      && (r.Unread? <==> exists u: nat :: UnreadableFirst(s, key, u))
    decreases 128 - i
  {
    hide EntryReadable, HasKey;
    if i < 128 {
      EntryIs(t, key, i);
      if !EntryReadable(s, i) {
        assert UnreadableFirst(s, key, i);
      } else if HasKey(s, i, key) {
        assert FirstWithKey(s, key, i);
      } else {
        SearchExactly(s, t, key, i + 1);
      }
    }
  }

  lemma EntryIs(t: Host, key: Word, i: nat)
    ensures Readable(t, EntryAddress(i)) <==> EntryReadable(t, i)
    ensures Readable(t, EntryAddress(i)) ==> (WordAt(t, EntryAddress(i) + 4) == key <==> HasKey(t, i, key))
  {
  }

  // ----- The outcome -----

  /** The attempt on the entry found, with the device mutex held. */
  lemma TakeExactly(s: Host, key: Word, i: nat)
    requires Valid(s) && Obtainable(s, TBL_BASE, TBL_KEY)
    requires TryLockResult(Obtain(s, TBL_BASE, TBL_KEY), TBL_BASE).status == Ok
    requires EntryReadable(s, i) && HasKey(s, i, key)
    ensures var t := TryLock(Obtain(s, TBL_BASE, TBL_KEY), TBL_BASE);
      TakeEntry(t, Entry(i), key).attempt
        == if EntryTakable(s, i) then Acquired(Entry(i)) else Refused(-1)
  {
    hide TryLockResult, AllocStatusOf, Alloc, TryLock, Unlock, Free, Valid, ValidCache, SetDepth;
    var s0 := Obtain(s, TBL_BASE, TBL_KEY);
    var t, a := TryLock(s0, TBL_BASE), Entry(i);
    AllocThenFree(s, TARGET_MU, TBL_BASE, TBL_KEY);
    AllocKeepsValid(s, TARGET_MU, TBL_BASE, TBL_KEY);
    TryLockKeepsValid(s0, TBL_BASE);
    DeviceHandleStays(s0);
    DeviceHeldKeeps(s, i);
    EntryAligned(i);
    EntryIs(t, key, i);
    EntryObtainable(t, a, key);
    var h := Obtain(t, a, key);
    LockExactly(h, a);
    ObtainKeepsDepths(t, a, key, a);
    ObtainKeepsWords(t, a, key);
    ObtainKeepsDepth(t, a, key);
    if i > 0 { SameWordTakable(s, h, a); }
  }

  lemma SameWordTakable(s: Host, t: Host, a: nat)
    requires DepthOf(t, a) == DepthOf(s, a) && t.id == s.id
    requires t.words.Keys == s.words.Keys && WordAt(t, a) == WordAt(s, a)
    ensures Takable(t, a) <==> Takable(s, a)
  {
    assert a in t.words <==> a in t.words.Keys;
  }

  /** With the device mutex to be had: entry `i` is acquired exactly when the name is not that of the
      table itself, the entry is the first with the checksum of the name as key, and its mutex is free
      or ours. A refusal says -95 for the name of the table, -2 when all entries can be read and none
      has the key, -5 when an entry that cannot be read comes first, and -1 when the entry is there
      but its mutex is not to be had. */
  lemma OutcomeExactly(s: Host, name: seq<Crc32.Byte>)
    requires Valid(s) && DeviceReady(s)
    ensures var r, key := Acquire(s, name).attempt, Crc32.Posix(Padded(name, 8));
      var table := Padded(name, 8) == [0x6e, 0x66, 0x70, 0x2e, 0x72, 0x65, 0x73, 0x00];
      && (forall i: nat :: r == Acquired(Entry(i)) <==> !table && FirstWithKey(s, key, i) && EntryTakable(s, i))
      && (r == Refused(-95) <==> table)
      && (r == Refused(-2) <==> !table && NoneBefore(s, key, 128))
      && (r == Refused(-5) <==> !table && exists u: nat :: UnreadableFirst(s, key, u))
      && (r == Refused(-1) <==> !table && exists i: nat :: FirstWithKey(s, key, i) && !EntryTakable(s, i))
  {
    hide TryLockResult, AllocStatusOf, Alloc, TryLock, Unlock, Free, Valid, ValidCache, Takable, FindEntry, Padded;
    hide EntryTakable, FirstWithKey, NoneBefore, UnreadableFirst, TakeEntry, Crc32.Posix;
    var s0, key := Obtain(s, TBL_BASE, TBL_KEY), KeyOf(name);
    DeviceLocks(s);
    var t := TryLock(s0, TBL_BASE);
    HeldTable(s, key);
    SearchExactly(s, t, key, 0) by { NoneBeforeFirst(s, key); }
    match Find(t, name) {
      case At(i) =>
        FirstIsEntry(s, key, i);
        TakeExactly(s, key, i);
      case _ =>
    }
  }

  lemma NoneBeforeFirst(s: Host, key: Word)
    ensures NoneBefore(s, key, 0)
  {
  }

  lemma FirstIsEntry(s: Host, key: Word, i: nat)
    requires FirstWithKey(s, key, i)
    ensures EntryReadable(s, i) && HasKey(s, i, key)
  {
  }

  lemma HeldTable(s: Host, key: Word)
    requires Valid(s) && Obtainable(s, TBL_BASE, TBL_KEY)
    requires TryLockResult(Obtain(s, TBL_BASE, TBL_KEY), TBL_BASE).status == Ok
    ensures SameTable(s, TryLock(Obtain(s, TBL_BASE, TBL_KEY), TBL_BASE), key)
  {
    hide TryLockResult, AllocStatusOf, Alloc, TryLock, Valid, EntryReadable, HasKey;
    var t := TryLock(Obtain(s, TBL_BASE, TBL_KEY), TBL_BASE);
    forall j: nat
      ensures (EntryReadable(t, j) <==> EntryReadable(s, j)) && (HasKey(t, j, key) <==> HasKey(s, j, key))
    {
      DeviceHeldKeeps(s, j);
    }
  }

  lemma DeviceLocks(s: Host)
    requires Valid(s)
    ensures Obtainable(s, TBL_BASE, TBL_KEY) <==> DeviceKeyed(s)
    ensures DeviceKeyed(s) ==>
      var s0 := Obtain(s, TBL_BASE, TBL_KEY);
      && (TryLockResult(s0, TBL_BASE).status == Ok <==> DeviceReady(s))
      && (TryLockResult(s0, TBL_BASE).status == Busy <==> Foreign(s, 0x81_0000_0000))
  {
    hide TryLockResult, AllocStatusOf, Alloc, Valid, ValidCache;
    HandleExactly(s, TBL_BASE, TBL_KEY);
    if DeviceKeyed(s) {
      var s0 := Obtain(s, TBL_BASE, TBL_KEY);
      AllocThenFree(s, TARGET_MU, TBL_BASE, TBL_KEY);
      AllocKeepsValid(s, TARGET_MU, TBL_BASE, TBL_KEY);
      LockExactly(s0, TBL_BASE);
      ObtainKeepsWords(s, TBL_BASE, TBL_KEY);
      ObtainKeepsDepth(s, TBL_BASE, TBL_KEY);
    }
  }

  /** Otherwise: the call waits exactly when another interface holds the device mutex; without a handle
      for it the call ends with nothing changed, and with a word that is damaged or cannot be read, or
      at the maximal depth, with -22. */
  lemma DeviceNotReady(s: Host, name: seq<Crc32.Byte>)
    requires Valid(s)
    ensures Acquire(s, name).attempt.Waiting? <==> DeviceKeyed(s) && Foreign(s, 0x81_0000_0000)
    ensures !DeviceKeyed(s) ==> Acquire(s, name) == Result(Refused(-1), s)
    ensures Acquire(s, name).attempt == Refused(-22)
      <==> DeviceKeyed(s) && !DeviceReady(s) && !Foreign(s, 0x81_0000_0000)
  {
    hide TryLockResult, AllocStatusOf, Alloc, TryLock, Unlock, Free, Valid, Takable, Foreign, Find, TakeEntry;
    DeviceLocks(s);
    if DeviceReady(s) { TakeNeverWaits(s, name); }
  }

  lemma TakeNeverWaits(s: Host, name: seq<Crc32.Byte>)
    requires Valid(s) && DeviceReady(s)
    ensures !Acquire(s, name).attempt.Waiting? && Acquire(s, name).attempt != Refused(-22)
  {
    hide TryLockResult, AllocStatusOf, Alloc, TryLock, Unlock, Free, Valid, Takable, Find;
    DeviceLocks(s);
  }

  /** The octets of a padded name: those before the first zero, then zeros. */
  lemma {:induction false} PaddedOctets(name: seq<Crc32.Byte>, n: nat, k: nat)
    requires k < n
    ensures Padded(name, n)[k] == if k < |name| && NoZero(name[..k + 1]) then name[k] else 0
    decreases k
  {
    if k > 0 {
      if name != [] && name[0] != 0 {
        PaddedOctets(name[1..], n - 1, k - 1);
        if k < |name| {
          assert name[..k + 1] == [name[0]] + name[1..][..k];
          NoZeroAppend(name[0], name[1..][..k]);
        }
      } else {
        PaddedOctets([], n - 1, k - 1);
        if 0 < k < |name| { assert name[..k + 1][0] == name[0] == 0; }
      }
    }
  }

  predicate NoZero(p: seq<Crc32.Byte>) { forall j :: 0 <= j < |p| ==> p[j] != 0 }

  lemma NoZeroAppend(b: Crc32.Byte, p: seq<Crc32.Byte>)
    ensures NoZero([b] + p) <==> b != 0 && NoZero(p)
  {
    if NoZero([b] + p) {
      assert forall j :: 0 <= j < |p| ==> p[j] == ([b] + p)[j + 1];
      assert ([b] + p)[0] == b;
    }
  }
}
