/** The lock word in device memory and what one call of lock or unlock makes of it when nobody
    else acts meanwhile. */
module MutexWord {

  type Word = bv32
  type Interface = bv16

  const MUTEX_DEPTH_MAX: nat := 0xffff

  function Locked(id: Interface): Word { ((id as Word) << 16) | 0xf }

  predicate IsLocked(w: Word) { w & 0xffff == 0xf }

  predicate IsUnlocked(w: Word) { w & 0xffff == 0 }

  /** What the test-and-set command leaves: the four low bits set whatever they were. */
  function TestSet(w: Word): Word { w | 0xf }

  datatype Status = Ok | TooDeep | BadKey | BadAccess | Busy | Invalid | IoError

  /** `word` and handle depth after a call, and what the call returned. */
  datatype Outcome = Outcome(status: Status, word: Word, depth: nat)

  /** Attempt to lock through a handle of depth `depth`. */
  function TryLockOutcome(id: Interface, keyMatches: bool, word: Word, depth: nat): Outcome {
    if depth > 0 then
      if depth == MUTEX_DEPTH_MAX then Outcome(TooDeep, word, depth) else Outcome(Ok, word, depth + 1)
    else if !keyMatches then Outcome(BadKey, word, depth)
    else if IsUnlocked(word) then Outcome(Ok, Locked(id), 1)
    else if word == Locked(id) then Outcome(Ok, TestSet(word), 1)
    else Outcome(if IsLocked(word) then Busy else Invalid, TestSet(word), depth)
  }

  function UnlockOutcome(id: Interface, keyMatches: bool, word: Word, depth: nat): Outcome {
    if depth > 1 then Outcome(Ok, word, depth - 1)
    else if !keyMatches then Outcome(BadKey, word, depth)
    else if word != Locked(id) then Outcome(BadAccess, word, depth)
    else Outcome(Ok, 0, 0)
  }

  function High(w: Word): Word { w >> 16 }
  function Low(w: Word): Word { w & 0xffff }
  function Joined(h: Word, l: Word): Word { (h << 16) | l }

  /** The word of a mutex locked by `id`: its number in the upper half, 0x000f in the lower. */
  predicate Names(w: Word, id: Interface) { High(w) == id as Word && Low(w) == 0xf }

  lemma LockedNames(w: Word, id: Interface)
    ensures w == Locked(id) <==> Names(w, id)
  {
    hide High, Low, Joined, Locked;
    Halves(w);
    OwnHalves(id);
  }

  lemma Halves(w: Word)
    ensures w == Joined(High(w), Low(w))
  {
  }

  lemma OwnHalves(id: Interface)
    ensures High(Locked(id)) == id as Word && Low(Locked(id)) == 0xf && Locked(id) == Joined(id as Word, 0xf)
  {
  }

  /** What a lock attempt answers and leaves, for every word, key and depth. */
  lemma LockOutcomes(id: Interface, keyMatches: bool, word: Word, depth: nat)
    ensures var o := TryLockOutcome(id, keyMatches, word, depth);
      && (0 < depth < 65535 ==> o == Outcome(Ok, word, depth + 1))
      && (depth == 65535 ==> o == Outcome(TooDeep, word, depth))
      && (depth == 0 && !keyMatches ==> o == Outcome(BadKey, word, 0))
      && (depth == 0 && keyMatches && (Low(word) == 0 || Names(word, id)) ==>
            o.status == Ok && o.depth == 1 && Names(o.word, id))
      && (depth == 0 && keyMatches && Low(word) == 0xf && !Names(word, id) ==> o == Outcome(Busy, word, 0))
      && (depth == 0 && keyMatches && Low(word) != 0 && Low(word) != 0xf ==>
            o == Outcome(Invalid, word | 0xf, 0))
  {
    hide Names, Locked;
    LockedNames(word, id);
    LockedNames(Locked(id), id);
    LockedWord(id);
    TakenStays(word);
  }

  lemma TakenStays(w: Word)
    ensures Low(w) == 0xf ==> w | 0xf == w
    ensures !(Low(w) == 0 && Low(w) == 0xf)
  {
  }

  /** What an unlock call answers and leaves. */
  lemma UnlockOutcomes(id: Interface, keyMatches: bool, word: Word, depth: nat)
    ensures var o := UnlockOutcome(id, keyMatches, word, depth);
      && (depth > 1 ==> o == Outcome(Ok, word, depth - 1))
      && (depth <= 1 && !keyMatches ==> o == Outcome(BadKey, word, depth))
      && (depth <= 1 && keyMatches && !Names(word, id) ==> o == Outcome(BadAccess, word, depth))
      && (depth <= 1 && keyMatches && Names(word, id) ==> o == Outcome(Ok, 0, 0))
  {
    hide Names, Locked;
    LockedNames(word, id);
  }

  lemma LockedInjective(a: Interface, b: Interface)
    ensures Locked(a) == Locked(b) <==> a == b
  {
  }

  lemma LockedWord(id: Interface)
    ensures IsLocked(Locked(id)) && !IsUnlocked(Locked(id)) && TestSet(Locked(id)) == Locked(id)
    ensures Locked(id) == 0xf <==> id == 0
  {
  }

  lemma FreeAndTakenWords()
    ensures IsUnlocked(0) && TestSet(0) == 0xf
    ensures !IsUnlocked(0xf) && TestSet(0xf) == 0xf
  {
  }
}
