/** One lock word shared by any number of interfaces, each running the lock and unlock code with
    every access to device memory a step of its own, and any of these accesses may fail. */
module MutexProtocol {
  import opened MutexWord

  /** Where an interface stands inside a lock or unlock call. */
  datatype Task =
    | Idle
    | Testing                       // key verified, about to test-and-set
    | Claiming                      // test-and-set found it unlocked, about to write the owner
    | Releasing(value: Word)        // word read, about to verify the key
    | Clearing                      // about to write the unlocked word

  datatype Party = Party(id: Interface, key: Word, task: Task, depth: nat)

  /** History beside the word and the parties: `balance[i]` counts the successful lock calls of
      party i less its successful unlock calls; `boot`: the lock taken by the initialisation of the
      mutex has neither been adopted by a lock call nor been released; `early`: who released it
      without a lock call of its own. */
  datatype State = State(word: Word, parties: seq<Party>, balance: seq<int>, boot: bool, early: set<nat>)

  /** Result of a device access: a failed one leaves device memory alone. */
  datatype Access = Failed | Done(key: Word)

  datatype Event =
    | LockAgain(i: nat)
    | LockStart(i: nat, access: Access)       // read the key word
    | LockTestSet(i: nat, ok: bool)
    | LockWriteOwner(i: nat, ok: bool)
    | UnlockOnce(i: nat)
    | UnlockStart(i: nat, ok: bool)           // read the lock word
    | UnlockKey(i: nat, access: Access)       // read the key word
    | UnlockWrite(i: nat, ok: bool)

  predicate May(p: Party, ev: Event) {
    match ev
    case LockAgain(_) => p.task == Idle && 0 < p.depth
    case LockStart(_, _) => p.task == Idle && p.depth == 0
    case LockTestSet(_, _) => p.task == Testing
    case LockWriteOwner(_, _) => p.task == Claiming
    case UnlockOnce(_) => p.task == Idle && p.depth > 1
    case UnlockStart(_, _) => p.task == Idle && p.depth <= 1
    case UnlockKey(_, _) => p.task.Releasing?
    case UnlockWrite(_, _) => p.task == Clearing
  }

  /** The word and the acting party afterwards, and what the call adds to its balance. */
  datatype Effect = Effect(word: Word, party: Party, gain: int)

  /** One step of a party: it sees only the word and its own handle. */
  function Act(w: Word, p: Party, ev: Event): (e: Effect)
    requires May(p, ev)
    ensures e.party.id == p.id && e.party.key == p.key
  {
    match ev
    case LockAgain(_) =>
      if p.depth == MUTEX_DEPTH_MAX then Effect(w, p, 0) else Effect(w, p.(depth := p.depth + 1), 1)
    case LockStart(_, a) =>
      if a.Failed? || a.key != p.key then Effect(w, p, 0) else Effect(w, p.(task := Testing), 0)
    case LockTestSet(_, ok) =>
      if !ok then Effect(w, p.(task := Idle), 0)
      else if IsUnlocked(w) then Effect(TestSet(w), p.(task := Claiming), 0)
      else if w == Locked(p.id) then Effect(TestSet(w), p.(task := Idle, depth := 1), 1)
      else Effect(TestSet(w), p.(task := Idle), 0)
    case LockWriteOwner(_, ok) =>
      if !ok then Effect(w, p.(task := Idle), 0)
      else Effect(Locked(p.id), p.(task := Idle, depth := 1), 1)
    case UnlockOnce(_) => Effect(w, p.(depth := p.depth - 1), -1)
    case UnlockStart(_, ok) => if ok then Effect(w, p.(task := Releasing(w)), 0) else Effect(w, p, 0)
    case UnlockKey(_, a) =>
      if a.Failed? || a.key != p.key || p.task.value != Locked(p.id) then Effect(w, p.(task := Idle), 0)
      else Effect(w, p.(task := Clearing), 0)
    case UnlockWrite(_, ok) =>
      if ok then Effect(0, p.(task := Idle, depth := 0), -1) else Effect(w, p.(task := Idle), 0)
  }

  predicate Enabled(s: State, ev: Event) {
    ev.i < |s.parties| == |s.balance| && May(s.parties[ev.i], ev)
  }

  function Next(s: State, ev: Event): (s': State)
    requires Enabled(s, ev)
    ensures |s'.parties| == |s'.balance| == |s.parties|
  {
    var e := Act(s.word, s.parties[ev.i], ev);
    State(e.word, s.parties[ev.i := e.party], s.balance[ev.i := s.balance[ev.i] + e.gain],
          s.boot && e.word == s.word && e.gain == 0,
          if e.gain < 0 && s.parties[ev.i].depth == 0 then s.early + {ev.i} else s.early)
  }

  /** Everybody idle, the word unlocked. `ids` are the interfaces, `key` the key of the lock. */
  function Unlocked(ids: seq<Interface>, key: Word): State {
    State(0, seq(|ids|, i requires 0 <= i < |ids| => Party(ids[i], key, Idle, 0)), seq(|ids|, _ => 0), false, {})
  }

  /** The state `nfp_cpp_mutex_init` creates: locked by the interface that called it. */
  function Initialised(ids: seq<Interface>, key: Word, k: nat): State
    requires k < |ids|
  {
    Unlocked(ids, key).(word := Locked(ids[k]), boot := true)
  }

  ghost predicate IsStart(s: State, ids: seq<Interface>) {
    || (exists key: Word :: s == Unlocked(ids, key))
    || (exists key: Word, k: nat :: k < |ids| && s == Initialised(ids, key, k))
  }

  /** The state `run` leads to from `s`, if it can be executed. */
  predicate IsRun(s: State, run: seq<Event>)
    decreases |run|
  {
    run == [] || (Enabled(s, run[0]) && IsRun(Next(s, run[0]), run[1..]))
  }

  function After(s: State, run: seq<Event>): State
    requires IsRun(s, run)
    decreases |run|
  {
    if run == [] then s else After(Next(s, run[0]), run[1..])
  }

  // ----- Mutual exclusion -----

  /** From the test-and-set that found the lock free until the write that frees it. */
  predicate Holds(p: Party) { p.task == Claiming || p.task == Clearing || p.depth > 0 }

  predicate Exclusive(s: State) {
    forall i, j :: 0 <= i < j < |s.parties| ==> !(Holds(s.parties[i]) && Holds(s.parties[j]))
  }

  /** Interfaces by which the lock word can be told apart from every other owner and from the
      word of a lock taken by an owner not yet written. */
  predicate Distinguishable(ids: seq<Interface>) {
    && (forall i :: 0 <= i < |ids| ==> ids[i] != 0)
    && (forall i, j :: 0 <= i < j < |ids| ==> ids[i] != ids[j])
  }

  predicate SameIds(s: State, ids: seq<Interface>) {
    |s.parties| == |ids| == |s.balance| && forall i :: 0 <= i < |ids| ==> s.parties[i].id == ids[i]
  }

  /** What party `i` is entitled to believe about the word, and its depth. */
  ghost predicate PartyOk(s: State, i: nat)
    requires i < |s.parties| == |s.balance|
  {
    var p := s.parties[i];
    && p.depth <= MUTEX_DEPTH_MAX
    && s.balance[i] == p.depth - (if i in s.early then 1 else 0)
    && (p.depth > 0 ==> s.word == Locked(p.id) && !s.boot)
    && (s.word == Locked(p.id) ==> p.depth > 0 || s.boot)
    && (p.task == Testing || p.task == Claiming ==> p.depth == 0)
    && (p.task == Claiming ==> s.word == 0xf)
    && (p.task.Releasing? ==> p.depth <= 1 && (p.task.value == Locked(p.id) ==> s.word == Locked(p.id)))
    && (p.task == Clearing ==> p.depth <= 1 && s.word == Locked(p.id))
  }

  ghost predicate Owned(w: Word, ids: seq<Interface>) {
    exists i :: 0 <= i < |ids| && w == Locked(ids[i])
  }

  ghost predicate Inv(s: State, ids: seq<Interface>) {
    && SameIds(s, ids) && Distinguishable(ids)
    && (forall i :: 0 <= i < |ids| ==> PartyOk(s, i))
    && (forall i, j :: 0 <= i < j < |ids| ==> !(s.parties[i].task == Claiming && s.parties[j].task == Claiming))
    && (s.word == 0 || s.word == 0xf || Owned(s.word, ids))
    && (s.boot ==> Owned(s.word, ids) && s.early == {})
    && (forall i, j :: i in s.early && j in s.early ==> i == j)
  }

  lemma StartKeeps(s: State, ids: seq<Interface>)
    requires IsStart(s, ids) && Distinguishable(ids)
    ensures Inv(s, ids)
  {
    hide Locked;
    Words(ids);
    if exists key: Word :: s == Unlocked(ids, key) {
      var key: Word :| s == Unlocked(ids, key);
      UnlockedKeeps(s, ids, key);
    } else {
      var key: Word, k: nat :| k < |ids| && s == Initialised(ids, key, k);
      UnlockedKeeps(s.(word := 0, boot := false), ids, key);
      assert s.word == Locked(ids[k]);
      assert forall i :: 0 <= i < |ids| ==> s.parties[i] == Party(ids[i], key, Idle, 0);
    }
  }

  lemma UnlockedKeeps(s: State, ids: seq<Interface>, key: Word)
    requires s == Unlocked(ids, key) && Distinguishable(ids)
    ensures Inv(s, ids)
  {
    assert forall i :: 0 <= i < |ids| ==> s.parties[i] == Party(ids[i], key, Idle, 0);
  }

  /** Facts about the words that can occur. */
  lemma Words(ids: seq<Interface>)
    requires Distinguishable(ids)
    ensures forall i :: 0 <= i < |ids| ==>
      Locked(ids[i]) != 0 && Locked(ids[i]) != 0xf && !IsUnlocked(Locked(ids[i]))
      && TestSet(Locked(ids[i])) == Locked(ids[i])
    ensures forall i, j :: 0 <= i < j < |ids| ==> Locked(ids[i]) != Locked(ids[j])
    ensures IsUnlocked(0) && TestSet(0) == 0xf && !IsUnlocked(0xf) && TestSet(0xf) == 0xf
  {
    FreeAndTakenWords();
    forall i | 0 <= i < |ids|
      ensures Locked(ids[i]) != 0 && Locked(ids[i]) != 0xf && !IsUnlocked(Locked(ids[i]))
      ensures TestSet(Locked(ids[i])) == Locked(ids[i])
    {
      LockedWord(ids[i]);
    }
    forall i, j | 0 <= i < j < |ids| ensures Locked(ids[i]) != Locked(ids[j]) {
      LockedInjective(ids[i], ids[j]);
    }
  }

  lemma WordKeeps(s: State, ids: seq<Interface>, ev: Event)
    requires Inv(s, ids) && Enabled(s, ev)
    ensures var s' := Next(s, ev);
      && (s'.word == 0 || s'.word == 0xf || Owned(s'.word, ids))
      && (s'.boot ==> s.boot && s'.word == s.word && s'.early == s.early)
      && (s'.early == s.early || (s.boot && !s'.boot && s'.early == {ev.i}))
      && (s'.word != s.word ==> s'.word == 0 || s'.word == TestSet(s.word) || s'.word == Locked(ids[ev.i]))
  {
    hide Locked, IsUnlocked, TestSet;
    Words(ids);
    assert s.parties[ev.i].id == ids[ev.i] && PartyOk(s, ev.i);
  }

  lemma OwnViewKeeps(s: State, ids: seq<Interface>, ev: Event)
    requires Inv(s, ids) && Enabled(s, ev)
    ensures PartyOk(Next(s, ev), ev.i)
  {
    hide Locked, IsUnlocked, TestSet;
    Words(ids);
    assert PartyOk(s, ev.i);
    assert s.parties[ev.i].id == ids[ev.i];
  }

  lemma OtherViewKeeps(s: State, ids: seq<Interface>, ev: Event, i: nat)
    requires Inv(s, ids) && Enabled(s, ev) && i < |ids| && i != ev.i
    ensures PartyOk(Next(s, ev), i)
  {
    hide Locked, IsUnlocked, TestSet;
    Words(ids);
    assert PartyOk(s, i) && PartyOk(s, ev.i);
    assert s.parties[i].id == ids[i] && s.parties[ev.i].id == ids[ev.i];
  }

  lemma OneClaims(s: State, ids: seq<Interface>, ev: Event, i: nat, j: nat)
    requires Inv(s, ids) && Enabled(s, ev) && i < j < |ids|
    ensures !(Next(s, ev).parties[i].task == Claiming && Next(s, ev).parties[j].task == Claiming)
  {
    hide Locked, IsUnlocked, TestSet;
    Words(ids);
    assert PartyOk(s, i) && PartyOk(s, j);
  }

  lemma NextKeeps(s: State, ids: seq<Interface>, ev: Event)
    requires Inv(s, ids) && Enabled(s, ev)
    ensures Inv(Next(s, ev), ids)
  {
    hide Locked, Act;
    var s' := Next(s, ev);
    WordKeeps(s, ids, ev);
    forall i | 0 <= i < |ids| ensures PartyOk(s', i) {
      if i == ev.i { OwnViewKeeps(s, ids, ev); } else { OtherViewKeeps(s, ids, ev, i); }
    }
    forall i, j | 0 <= i < j < |ids| ensures !(s'.parties[i].task == Claiming && s'.parties[j].task == Claiming) {
      OneClaims(s, ids, ev, i, j);
    }
  }

  lemma {:induction false} RunKeeps(s: State, ids: seq<Interface>, run: seq<Event>)
    requires Inv(s, ids) && IsRun(s, run)
    ensures Inv(After(s, run), ids)
    ensures After(s, run).early == s.early || (s.boot && !After(s, run).boot)
    ensures !s.boot ==> !After(s, run).boot
    decreases |run|
  {
    hide Inv, Act;
    if run != [] {
      NextKeeps(s, ids, run[0]);
      WordKeeps(s, ids, run[0]);
      RunKeeps(Next(s, run[0]), ids, run[1..]);
    }
  }

  lemma InvExcludes(s: State, ids: seq<Interface>)
    requires Inv(s, ids)
    ensures Exclusive(s)
  {
    hide Locked;
    Words(ids);
    forall i, j | 0 <= i < j < |ids| ensures !(Holds(s.parties[i]) && Holds(s.parties[j])) {
      assert PartyOk(s, i) && PartyOk(s, j);
    }
  }

  /** With distinguishable interfaces: in every state of every run at most one interface holds the
      lock; the word is free, taken with its owner not yet written, or names an interface; depth
      is the number of lock calls not yet undone, at most 65535, where the one unlock call that
      released the lock taken at initialisation does not count; and, unless that lock is still
      pending, the word names exactly the interface whose depth is positive. So k successful
      locks need exactly k unlocks to free the word. */
  lemma Safety(s: State, ids: seq<Interface>, run: seq<Event>)
    requires IsStart(s, ids) && Distinguishable(ids) && IsRun(s, run)
    ensures var t := After(s, run);
      && Exclusive(t) && SameIds(t, ids)
      && (t.word == 0 || t.word == 0xf || Owned(t.word, ids))
      && (t.early != {} ==> s.boot && !t.boot) && (forall i, j :: i in t.early && j in t.early ==> i == j)
      && (forall i | 0 <= i < |ids| ::
            && t.parties[i].depth == t.balance[i] + (if i in t.early then 1 else 0)
            && t.parties[i].depth <= MUTEX_DEPTH_MAX
            && (t.parties[i].depth > 0 ==> t.word == Locked(ids[i]))
            && (!t.boot && t.word == Locked(ids[i]) ==> t.parties[i].depth > 0))
  {
    StartKeeps(s, ids);
    RunKeeps(s, ids, run);
    var t := After(s, run);
    InvExcludes(t, ids);
    forall i | 0 <= i < |ids|
      ensures t.parties[i].depth == t.balance[i] + (if i in t.early then 1 else 0)
      ensures t.parties[i].depth <= MUTEX_DEPTH_MAX
      ensures t.parties[i].depth > 0 ==> t.word == Locked(ids[i])
      ensures !t.boot && t.word == Locked(ids[i]) ==> t.parties[i].depth > 0
    {
      assert PartyOk(t, i);
    }
  }

  // ----- Distinguishable interfaces are necessary -----

  lemma {:induction false} RunOf(s: State, ev: Event, run: seq<Event>)
    requires Enabled(s, ev) && IsRun(Next(s, ev), run)
    ensures IsRun(s, [ev] + run) && After(s, [ev] + run) == After(Next(s, ev), run)
  {
    assert ([ev] + run)[1..] == run;
  }

  /** An interface sharing its id with the owner is let in as if it were the owner. */
  lemma EqualIdsBothHold(ids: seq<Interface>, i: nat, j: nat, key: Word) returns (run: seq<Event>)
    requires i < |ids| && j < |ids| && i != j && ids[i] == ids[j]
    ensures IsRun(Unlocked(ids, key), run)
    ensures |After(Unlocked(ids, key), run).parties| == |ids|
    ensures Holds(After(Unlocked(ids, key), run).parties[i]) && Holds(After(Unlocked(ids, key), run).parties[j])
  {
    var s0 := Unlocked(ids, key);
    LockedWord(ids[j]);
    var e1, e2, e3 := LockStart(i, Done(key)), LockTestSet(i, true), LockWriteOwner(i, true);
    var e4, e5 := LockStart(j, Done(key)), LockTestSet(j, true);
    var s1 := Next(s0, e1);
    var s2 := Next(s1, e2);
    var s3 := Next(s2, e3);
    assert s3.word == Locked(ids[j]) && s3.parties[i].depth == 1 && s3.parties[j] == s0.parties[j];
    var s4 := Next(s3, e4);
    assert s4.parties[j].task == Testing && s4.parties[j].id == ids[j] && s4.parties[i].depth == 1;
    var s5 := Next(s4, e5);
    assert IsRun(s5, []);
    RunOf(s4, e5, []);
    RunOf(s3, e4, [e5] + []);
    RunOf(s2, e3, [e4] + ([e5] + []));
    RunOf(s1, e2, [e3] + ([e4] + ([e5] + [])));
    RunOf(s0, e1, [e2] + ([e3] + ([e4] + ([e5] + []))));
    run := [e1] + ([e2] + ([e3] + ([e4] + ([e5] + []))));
  }

  /** To interface 0 a lock just taken by another, its owner not yet written, looks like its own. */
  lemma ZeroIdBothHold(ids: seq<Interface>, i: nat, j: nat, key: Word) returns (run: seq<Event>)
    requires i < |ids| && j < |ids| && i != j && ids[j] == 0
    ensures IsRun(Unlocked(ids, key), run)
    ensures |After(Unlocked(ids, key), run).parties| == |ids|
    ensures Holds(After(Unlocked(ids, key), run).parties[i]) && Holds(After(Unlocked(ids, key), run).parties[j])
  {
    var s0 := Unlocked(ids, key);
    LockedWord(ids[j]);
    var e1, e2 := LockStart(i, Done(key)), LockTestSet(i, true);
    var e3, e4 := LockStart(j, Done(key)), LockTestSet(j, true);
    var s1 := Next(s0, e1);
    var s2 := Next(s1, e2);
    assert s2.word == 0xf && s2.parties[i].task == Claiming && s2.parties[j] == s0.parties[j];
    var s3 := Next(s2, e3);
    var s4 := Next(s3, e4);
    assert IsRun(s4, []);
    RunOf(s3, e4, []);
    RunOf(s2, e3, [e4] + []);
    RunOf(s1, e2, [e3] + ([e4] + []));
    RunOf(s0, e1, [e2] + ([e3] + ([e4] + [])));
    run := [e1] + ([e2] + ([e3] + ([e4] + [])));
  }

  ghost predicate AlwaysExclusive(ids: seq<Interface>, key: Word) {
    forall run: seq<Event> | IsRun(Unlocked(ids, key), run) :: Exclusive(After(Unlocked(ids, key), run))
  }

  /** The lock excludes in every run exactly when the interfaces are distinguishable, or there is
      only one of them. */
  lemma ExclusiveExactlyWhenDistinguishable(ids: seq<Interface>, key: Word)
    ensures AlwaysExclusive(ids, key) <==> |ids| <= 1 || Distinguishable(ids)
  {
    var s := Unlocked(ids, key);
    if Distinguishable(ids) {
      forall run: seq<Event> | IsRun(s, run) ensures Exclusive(After(s, run)) {
        Safety(s, ids, run);
      }
    } else if |ids| <= 1 {
      forall run: seq<Event> | IsRun(s, run) ensures Exclusive(After(s, run)) {
        PartiesStay(s, run);
      }
    } else {
      var run: seq<Event>;
      if j: nat :| j < |ids| && ids[j] == 0 {
        run := ZeroIdBothHold(ids, if j == 0 then 1 else 0, j, key);
      } else {
        var i: nat, j: nat :| i < j < |ids| && ids[i] == ids[j];
        run := EqualIdsBothHold(ids, i, j, key);
      }
      assert !Exclusive(After(s, run));
    }
  }

  lemma {:induction false} PartiesStay(s: State, run: seq<Event>)
    requires IsRun(s, run)
    ensures |After(s, run).parties| == |s.parties|
    decreases |run|
  {
    hide Act, May;
    if run != [] { PartiesStay(Next(s, run[0]), run[1..]); }
  }

  // ----- The lock is never orphaned unless a write fails -----

  predicate Loses(ev: Event) { ev.LockWriteOwner? && !ev.ok }

  /** Somebody is under way to write the owner, or the word names somebody. */
  ghost predicate Accounted(s: State) {
    s.word == 0xf ==> exists i :: 0 <= i < |s.parties| && s.parties[i].task == Claiming
  }

  lemma AccountedKeeps(s: State, ids: seq<Interface>, ev: Event)
    requires Inv(s, ids) && Accounted(s) && Enabled(s, ev) && !Loses(ev)
    ensures Accounted(Next(s, ev))
  {
    hide Locked, IsUnlocked, TestSet;
    Words(ids);
    var s', me := Next(s, ev), s.parties[ev.i];
    assert me.id == ids[ev.i] && PartyOk(s, ev.i);
    assert s'.word == s.word || s'.word == 0 || s'.word == TestSet(s.word) || s'.word == Locked(ids[ev.i]);
    if s'.word == 0xf {
      if s.word == 0xf {
        var i :| 0 <= i < |s.parties| && s.parties[i].task == Claiming;
        assert PartyOk(s, i);
        assert s'.parties[i].task == Claiming;
      } else {
        assert s'.parties[ev.i].task == Claiming;
      }
    }
  }

  /** The lock is taken and nobody will ever own it. */
  ghost predicate Orphaned(s: State) {
    s.word == 0xf && forall i :: 0 <= i < |s.parties| ==> !Holds(s.parties[i])
  }

  lemma AccountedNotOrphaned(s: State)
    requires Accounted(s)
    ensures !Orphaned(s)
  {
  }

  /** Whenever a test-and-set has won and the owner write fails, the lock is orphaned. */
  lemma FailedOwnerWriteOrphans(s: State, ids: seq<Interface>, ev: Event)
    requires Inv(s, ids) && Enabled(s, ev) && Loses(ev)
    ensures Orphaned(Next(s, ev))
  {
    hide Locked, IsUnlocked, TestSet;
    Words(ids);
    var s' := Next(s, ev);
    assert PartyOk(s, ev.i) && s.parties[ev.i].id == ids[ev.i];
    forall i | 0 <= i < |ids| ensures !Holds(s'.parties[i]) {
      assert PartyOk(s, i) && s.parties[i].id == ids[i];
      if i != ev.i {
        assert i < ev.i || ev.i < i;
      }
    }
  }

  lemma OrphanedStep(s: State, ids: seq<Interface>, ev: Event)
    requires Inv(s, ids) && Orphaned(s) && Enabled(s, ev)
    ensures Orphaned(Next(s, ev))
  {
    hide Locked, IsUnlocked, TestSet;
    Words(ids);
    assert PartyOk(s, ev.i) && s.parties[ev.i].id == ids[ev.i];
  }

  /** An orphaned lock stays orphaned whatever anybody does. */
  lemma {:induction false} OrphanedForever(s: State, ids: seq<Interface>, run: seq<Event>)
    requires Inv(s, ids) && Orphaned(s) && IsRun(s, run)
    ensures Orphaned(After(s, run))
    decreases |run|
  {
    if run != [] {
      OrphanedStep(s, ids, run[0]);
      NextKeeps(s, ids, run[0]);
      OrphanedForever(Next(s, run[0]), ids, run[1..]);
    }
  }

  lemma {:induction false} OrphanedByRun(s: State, ids: seq<Interface>, run: seq<Event>)
    requires Inv(s, ids) && Accounted(s) && IsRun(s, run)
    ensures Orphaned(After(s, run)) <==> exists k :: 0 <= k < |run| && Loses(run[k])
    decreases |run|
  {
    hide Inv, Act, Accounted, Orphaned;
    if run == [] {
      AccountedNotOrphaned(s);
    } else {
      var t, rest := Next(s, run[0]), run[1..];
      NextKeeps(s, ids, run[0]);
      if Loses(run[0]) {
        FailedOwnerWriteOrphans(s, ids, run[0]);
        OrphanedForever(t, ids, rest);
      } else {
        AccountedKeeps(s, ids, run[0]);
        OrphanedByRun(t, ids, rest);
        if k: nat :| 0 < k < |run| && Loses(run[k]) { assert Loses(rest[k - 1]); }
        if k: nat :| k < |rest| && Loses(rest[k]) { assert Loses(run[k + 1]); }
      }
    }
  }

  lemma StartAccounted(s: State, ids: seq<Interface>)
    requires IsStart(s, ids) && Distinguishable(ids)
    ensures Accounted(s)
  {
    hide Locked;
    Words(ids);
    if exists key: Word :: s == Unlocked(ids, key) {
    } else {
      var key: Word, k: nat :| k < |ids| && s == Initialised(ids, key, k);
      assert s.word == Locked(ids[k]);
    }
  }

  /** In every run, the lock ends up taken with nobody ever to release it exactly when the owner
      write of some lock call failed. Otherwise a lock that is not free has an interface that holds
      it, or still is the one taken at initialisation. */
  lemma OrphanedExactlyAfterFailedOwnerWrite(s: State, ids: seq<Interface>, run: seq<Event>)
    requires IsStart(s, ids) && Distinguishable(ids) && IsRun(s, run)
    ensures var t := After(s, run);
      && (Orphaned(t) <==> exists k :: 0 <= k < |run| && Loses(run[k]))
      && (!Orphaned(t) ==> t.word == 0 || t.boot || exists i :: 0 <= i < |t.parties| && Holds(t.parties[i]))
  {
    hide Locked;
    StartKeeps(s, ids);
    StartAccounted(s, ids);
    OrphanedByRun(s, ids, run);
    RunKeeps(s, ids, run);
    Words(ids);
    var t := After(s, run);
    if t.word != 0 && t.word != 0xf && !t.boot {
      var i :| 0 <= i < |ids| && t.word == Locked(ids[i]);
      assert PartyOk(t, i) && t.parties[i].id == ids[i];
      assert Holds(t.parties[i]);
    }
  }

  /** So as long as no owner write fails, a lock that is not free has an interface that holds it or
      is the one taken at initialisation: somebody can still release it. */
  lemma NeverOrphaned(s: State, ids: seq<Interface>, run: seq<Event>)
    requires IsStart(s, ids) && Distinguishable(ids) && IsRun(s, run)
    requires forall k :: 0 <= k < |run| ==> !Loses(run[k])
    ensures var t := After(s, run);
      t.word != 0 && !t.boot ==> exists i :: 0 <= i < |t.parties| && Holds(t.parties[i])
  {
    hide Orphaned, Holds;
    OrphanedExactlyAfterFailedOwnerWrite(s, ids, run);
  }

  // ----- Calls that are not interrupted -----

  /** `t` is `s` after party `i` made a lock call with this outcome and nobody else acted. */
  ghost predicate Locks(s: State, i: nat, o: Outcome, t: State)
    requires i < |s.parties| == |s.balance|
  {
    && t.word == o.word && t.parties == s.parties[i := s.parties[i].(depth := o.depth)]
    && t.balance == s.balance[i := s.balance[i] + if o.status == Ok then 1 else 0]
  }

  lemma FirstLockCall(s: State, i: nat) returns (run: seq<Event>)
    requires i < |s.parties| == |s.balance| && s.parties[i].task == Idle && s.parties[i].depth == 0
    ensures IsRun(s, run)
    ensures Locks(s, i, TryLockOutcome(s.parties[i].id, true, s.word, 0), After(s, run))
  {
    hide Locked, IsUnlocked, IsLocked, TestSet;
    var e1, e2, e3 := LockStart(i, Done(s.parties[i].key)), LockTestSet(i, true), LockWriteOwner(i, true);
    var s1 := Next(s, e1);
    var s2 := Next(s1, e2);
    if IsUnlocked(s.word) {
      RunOf(s2, e3, []);
      RunOf(s1, e2, [e3] + []);
      RunOf(s, e1, [e2] + ([e3] + []));
      run := [e1] + ([e2] + ([e3] + []));
    } else {
      RunOf(s1, e2, []);
      RunOf(s, e1, [e2] + []);
      run := [e1] + ([e2] + []);
    }
  }

  /** `t` is `s` after party `i` made an unlock call with this outcome and nobody else acted. */
  ghost predicate Unlocks(s: State, i: nat, o: Outcome, t: State)
    requires i < |s.parties| == |s.balance|
  {
    && t.word == o.word && t.parties == s.parties[i := s.parties[i].(depth := o.depth)]
    && t.balance == s.balance[i := s.balance[i] - if o.status == Ok then 1 else 0]
  }

  /** An unlock call through a handle of depth 0 or 1 that finds the word ours and the key right. */
  lemma ReleasingCall(s: State, i: nat, keyRead: Word) returns (run: seq<Event>)
    requires i < |s.parties| == |s.balance| && s.parties[i].task == Idle && s.parties[i].depth <= 1
    requires keyRead == s.parties[i].key && s.word == Locked(s.parties[i].id)
    ensures IsRun(s, run) && Unlocks(s, i, Outcome(Ok, 0, 0), After(s, run))
  {
    hide Locked, IsRun, After;
    var e1, e2, e3 := UnlockStart(i, true), UnlockKey(i, Done(keyRead)), UnlockWrite(i, true);
    var s1 := Next(s, e1);
    var s2 := Next(s1, e2);
    RunOf(s2, e3, []);
    RunOf(s1, e2, [e3] + []);
    RunOf(s, e1, [e2] + ([e3] + []));
    RunOfNothing(Next(s2, e3));
    run := [e1] + ([e2] + ([e3] + []));
  }

  /** One that finds the word not ours or the key wrong. */
  lemma RefusedUnlockCall(s: State, i: nat, keyRead: Word) returns (run: seq<Event>)
    requires i < |s.parties| == |s.balance| && s.parties[i].task == Idle && s.parties[i].depth <= 1
    requires keyRead != s.parties[i].key || s.word != Locked(s.parties[i].id)
    ensures IsRun(s, run) && After(s, run).word == s.word
    ensures After(s, run).parties == s.parties && After(s, run).balance == s.balance
  {
    hide Locked, IsRun, After;
    var e1, e2 := UnlockStart(i, true), UnlockKey(i, Done(keyRead));
    var s1 := Next(s, e1);
    RunOf(s1, e2, []);
    RunOf(s, e1, [e2] + []);
    RunOfNothing(Next(s1, e2));
    run := [e1] + ([e2] + []);
  }

  lemma RunOfNothing(s: State)
    ensures IsRun(s, []) && After(s, []) == s
  {
  }

  /** The accesses of one lock call made in a row give the outcome of MutexWord. */
  lemma LockCall(s: State, i: nat, keyRead: Word) returns (run: seq<Event>)
    requires i < |s.parties| == |s.balance| && s.parties[i].task == Idle
    ensures IsRun(s, run)
    ensures Locks(s, i, TryLockOutcome(s.parties[i].id, keyRead == s.parties[i].key, s.word, s.parties[i].depth),
                  After(s, run))
  {
    hide Locked, IsUnlocked, IsLocked, TestSet;
    if s.parties[i].depth > 0 {
      run := [LockAgain(i)];
      RunOf(s, LockAgain(i), []);
    } else if keyRead != s.parties[i].key {
      run := [LockStart(i, Done(keyRead))];
      RunOf(s, LockStart(i, Done(keyRead)), []);
    } else {
      run := FirstLockCall(s, i);
    }
  }

  lemma UnlockCall(s: State, i: nat, keyRead: Word) returns (run: seq<Event>)
    requires i < |s.parties| == |s.balance| && s.parties[i].task == Idle
    ensures IsRun(s, run)
    ensures var p := s.parties[i];
      Unlocks(s, i, UnlockOutcome(p.id, keyRead == p.key, s.word, p.depth), After(s, run))
  {
    hide Locked;
    var p := s.parties[i];
    if p.depth > 1 {
      run := [UnlockOnce(i)];
      RunOf(s, UnlockOnce(i), []);
    } else if keyRead == p.key && s.word == Locked(p.id) {
      run := ReleasingCall(s, i, keyRead);
    } else {
      run := RefusedUnlockCall(s, i, keyRead);
    }
  }
}
