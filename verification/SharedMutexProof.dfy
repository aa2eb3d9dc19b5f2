/**
 What every run of the lock keeps: who owns it, what the state word counts, and which waiting threads
 can rely on a wake-up.
 */
module SharedMutexProof {
  import opened Optional
  import opened SharedMutex

  function ReaderSet(phases: map<Thread, Phase>): set<Thread> {
    set t | t in phases && phases[t].Reads?
  }

  /** A writer that has set the write-entered flag: it owns the lock or queues at gate2. */
  predicate HasEntered(p: Phase) {
    p.Writes? || p.Queues?
  }

  /** The writers that have set the write-entered flag. */
  function Entered(phases: map<Thread, Phase>): set<Thread> {
    set t | t in phases && HasEntered(phases[t])
  }

  /** The state word says how many threads read, and whether a writer has entered; there is at most one. */
  predicate WordCounts(s: State) {
    && s.word < 2 * WRITE_ENTERED
    && Readers(s.word) == |ReaderSet(s.phases)|
    && |Entered(s.phases)| == (if WriteEntered(s.word) then 1 else 0)
  }

  /** An owning writer excludes all readers. */
  predicate Exclusion(s: State) {
    forall t <- s.phases :: s.phases[t].Writes? ==> Readers(s.word) == 0
  }

  /** A sleeping writer can rely on a wake-up: of whoever has entered, or of the last reader. */
  predicate WritersAwaited(s: State) {
    forall t <- s.phases ::
      && (s.phases[t] == WaitsAsWriter(false) ==> WriteEntered(s.word))
      && (s.phases[t] == Queues(false) ==> Readers(s.word) > 0)
  }

  predicate Invariant(s: State) {
    WordCounts(s) && Exclusion(s) && WritersAwaited(s)
  }

  // Counting

  lemma PhaseChanges(phases: map<Thread, Phase>, t: Thread, p: Phase)
    ensures ReaderSet(phases[t := p]) == ReaderSet(phases) - {t} + (if p.Reads? then {t} else {})
    ensures Entered(phases[t := p]) == Entered(phases) - {t} + (if HasEntered(p) then {t} else {})
  {
  }

  lemma ThreadLeaves(phases: map<Thread, Phase>, t: Thread)
    ensures ReaderSet(phases - {t}) == ReaderSet(phases) - {t}
    ensures Entered(phases - {t}) == Entered(phases) - {t}
  {
  }

  lemma AllWoken(phases: map<Thread, Phase>)
    ensures ReaderSet(NotifyAll(phases)) == ReaderSet(phases)
    ensures Entered(NotifyAll(phases)) == Entered(phases)
  {
  }

  lemma OneWoken(phases: map<Thread, Phase>, pick: Option<Thread>)
    requires pick.Some? ==> pick.value in phases
    ensures ReaderSet(WakePicked(phases, pick)) == ReaderSet(phases)
    ensures Entered(WakePicked(phases, pick)) == Entered(phases)
  {
  }

  /** The only writer that has entered. */
  lemma OnlyEntered(s: State, t: Thread, u: Thread)
    requires WordCounts(s) && t in Entered(s.phases) && u in Entered(s.phases)
    ensures t == u
  {
    if t != u {
      assert Entered(s.phases) >= {t, u};
      CardinalityOfSubset({t, u}, Entered(s.phases));
    }
  }

  lemma {:induction false} CardinalityOfSubset<T>(a: set<T>, b: set<T>)
    requires a <= b
    ensures |a| <= |b|
    decreases |a|
  {
    if a != {} {
      var x :| x in a;
      CardinalityOfSubset(a - {x}, b - {x});
    }
  }

  lemma NoneEntered(s: State)
    requires WordCounts(s) && !WriteEntered(s.word)
    ensures forall t <- s.phases :: !HasEntered(s.phases[t])
  {
    assert Entered(s.phases) == {};
    forall t | t in s.phases ensures !HasEntered(s.phases[t]) {
      Membership(s, t);
    }
  }

  lemma SizeAfter(a: set<Thread>, t: Thread, add: bool)
    ensures |a - {t} + (if add then {t} else {})| == |a| - (if t in a then 1 else 0) + (if add then 1 else 0)
  {
    assert t in a ==> a == (a - {t}) + {t};
  }

  // Steps

  function One(b: bool): nat {
    if b then 1 else 0
  }

  predicate WasReader(s: State, t: Thread) { t in s.phases && s.phases[t].Reads? }
  predicate WasEntered(s: State, t: Thread) { t in s.phases && HasEntered(s.phases[t]) }

  /** One thread moves on, and the word changes with it. */
  lemma MoveKeeps(s: State, t: Thread, p: Phase, word: nat)
    requires Invariant(s) && word < 2 * WRITE_ENTERED
    requires Readers(word) == Readers(s.word) - One(WasReader(s, t)) + One(p.Reads?)
    requires One(WriteEntered(word)) == One(WriteEntered(s.word)) - One(WasEntered(s, t)) + One(HasEntered(p))
    requires WriteEntered(s.word) ==> WriteEntered(word) && Readers(word) <= Readers(s.word)
    requires Readers(s.word) <= Readers(word)
    requires p.Writes? ==> Readers(word) == 0
    requires p == WaitsAsWriter(false) ==> WriteEntered(word)
    requires p == Queues(false) ==> Readers(word) > 0
    ensures Invariant(Enter(s, t, p, word))
  {
    hide WordCounts;
    MoveCounts(s, t, p, word);
    if !WriteEntered(s.word) { NoneEntered(s); }
  }

  lemma MoveCounts(s: State, t: Thread, p: Phase, word: nat)
    requires WordCounts(s) && word < 2 * WRITE_ENTERED
    requires Readers(word) == Readers(s.word) - One(WasReader(s, t)) + One(p.Reads?)
    requires One(WriteEntered(word)) == One(WriteEntered(s.word)) - One(WasEntered(s, t)) + One(HasEntered(p))
    ensures WordCounts(Enter(s, t, p, word))
  {
    hide ReaderSet, Entered;
    PhaseChanges(s.phases, t, p);
    SizeAfter(ReaderSet(s.phases), t, p.Reads?);
    SizeAfter(Entered(s.phases), t, HasEntered(p));
    Membership(s, t);
  }

  lemma Membership(s: State, t: Thread)
    ensures (t in ReaderSet(s.phases)) == WasReader(s, t)
    ensures (t in Entered(s.phases)) == WasEntered(s, t)
  {
  }

  lemma LockKeeps(s: State, t: Thread)
    requires Invariant(s) && Step(s, Lock(t)).Some?
    ensures Invariant(Step(s, Lock(t)).value)
  {
    hide Invariant;
    var s' := Step(s, Lock(t)).value;
    WordIsSmall(s);
    MoveKeeps(s, t, s'.phases[t], s'.word);
  }

  lemma WordIsSmall(s: State)
    requires Invariant(s)
    ensures s.word < 2 * WRITE_ENTERED
  {
  }

  lemma DequeueKeeps(s: State, t: Thread)
    requires Invariant(s) && Step(s, Dequeue(t)).Some?
    ensures Invariant(Step(s, Dequeue(t)).value)
  {
    hide Invariant;
    var s' := Step(s, Dequeue(t)).value;
    WordIsSmall(s);
    MoveKeeps(s, t, s'.phases[t], s'.word);
  }

  lemma TryLockKeeps(s: State, t: Thread, ownsMutex: bool)
    requires Invariant(s) && Step(s, TryLock(t, ownsMutex)).Some?
    ensures Invariant(Step(s, TryLock(t, ownsMutex)).value)
  {
    hide Invariant;
    if ownsMutex && s.word == 0 {
      MoveKeeps(s, t, Writes, WRITE_ENTERED);
    }
  }

  lemma LockSharedKeeps(s: State, t: Thread)
    requires Invariant(s) && Step(s, LockShared(t)).Some?
    ensures Invariant(Step(s, LockShared(t)).value)
  {
    hide Invariant;
    var s' := Step(s, LockShared(t)).value;
    WordIsSmall(s);
    MoveKeeps(s, t, s'.phases[t], s'.word);
  }

  lemma TryLockSharedKeeps(s: State, t: Thread, ownsMutex: bool)
    requires Invariant(s) && Step(s, TryLockShared(t, ownsMutex)).Some?
    ensures Invariant(Step(s, TryLockShared(t, ownsMutex)).value)
  {
    hide Invariant;
    if ownsMutex && s.word < MAX_READERS {
      MoveKeeps(s, t, Reads, s.word + 1);
    }
  }

  lemma SpuriousKeeps(s: State, t: Thread)
    requires Invariant(s) && Step(s, Spurious(t)).Some?
    ensures Invariant(Step(s, Spurious(t)).value)
  {
    var p := s.phases[t];
    var q := if p.Queues? then Queues(true) else Wake(p);
    if p.Reads? || p.Writes? {
      assert s.phases[t := q] == s.phases;
    } else {
      MoveKeeps(s, t, q, s.word);
    }
  }

  lemma UnlockKeeps(s: State, t: Thread)
    requires Invariant(s) && Step(s, Unlock(t)).Some?
    ensures Invariant(Step(s, Unlock(t)).value)
  {
    ThreadLeaves(s.phases, t);
    AllWoken(s.phases - {t});
    assert t in Entered(s.phases);
    forall u | u in Entered(s.phases) ensures u == t { OnlyEntered(s, t, u); }
    assert Entered(s.phases) == {t};
    assert WriteEntered(s.word);
  }

  lemma UnlockSharedKeeps(s: State, t: Thread, pick: Option<Thread>)
    requires Invariant(s) && Step(s, UnlockShared(t, pick)).Some?
    ensures Invariant(Step(s, UnlockShared(t, pick)).value)
  {
    hide ReaderSet, Entered, WordCounts;
    var left := Leave(s, t, s.word - 1);
    LeaveCounts(s, t);
    if pick.Some? { OneWokenCounts(left, pick); }
    if WriteEntered(left.word) && Readers(left.word) == 0 {
      LastReaderWakes(left, pick);
    }
    if !WriteEntered(left.word) { NoneEntered(left); }
  }

  lemma LeaveCounts(s: State, t: Thread)
    requires WordCounts(s) && IsAt(s, t, Reads) && s.word > 0
    ensures Readers(s.word) > 0 && WordCounts(Leave(s, t, s.word - 1))
  {
    ThreadLeaves(s.phases, t);
    SizeAfter(ReaderSet(s.phases), t, false);
    Membership(s, t);
    assert Entered(s.phases) - {t} == Entered(s.phases);
  }

  lemma OneWokenCounts(s: State, pick: Option<Thread>)
    requires WordCounts(s) && pick.Some? && pick.value in s.phases
    ensures WordCounts(s.(phases := WakePicked(s.phases, pick)))
  {
    OneWoken(s.phases, pick);
  }

  /** The last reader wakes the queued writer: there is none but the one that has entered. */
  lemma LastReaderWakes(left: State, pick: Option<Thread>)
    requires WordCounts(left) && MayPick(Asleep2(left.phases), pick)
    ensures pick.Some? ==> pick.value in left.phases
    ensures forall u <- WakePicked(left.phases, pick) :: WakePicked(left.phases, pick)[u] != Queues(false)
  {
    forall u | u in left.phases && left.phases[u] == Queues(false) ensures pick == Some(u) {
      assert u in Asleep2(left.phases);
      assert u in Entered(left.phases) && pick.value in Entered(left.phases);
      OnlyEntered(left, u, pick.value);
    }
  }

  /** Every step keeps the invariant. */
  lemma StepKeeps(s: State, a: Action)
    requires Invariant(s) && Step(s, a).Some?
    ensures Invariant(Step(s, a).value)
  {
    hide Invariant, Step;
    match a
    case Lock(t) => LockKeeps(s, t);
    case Dequeue(t) => DequeueKeeps(s, t);
    case TryLock(t, ownsMutex) => TryLockKeeps(s, t, ownsMutex);
    case Unlock(t) => UnlockKeeps(s, t);
    case LockShared(t) => LockSharedKeeps(s, t);
    case TryLockShared(t, ownsMutex) => TryLockSharedKeeps(s, t, ownsMutex);
    case UnlockShared(t, pick) => UnlockSharedKeeps(s, t, pick);
    case Spurious(t) => SpuriousKeeps(s, t);
  }

  /**
   The theorem about all runs, of any length and with any number of threads: the high bit is set if and only
   if exactly one writer owns the lock or queues; the low bits count the readers; an owning writer excludes readers;
   and no writer's wake-up is lost.
   */
  lemma {:induction false} EveryRun(actions: seq<Action>)
    requires Run(actions).Some?
    ensures Invariant(Run(actions).value)
    decreases |actions|
  {
    if actions == [] {
      assert ReaderSet(map[]) == {} && Entered(map[]) == {};
    } else {
      hide Invariant, Step;
      var n := |actions| - 1;
      EveryRun(actions[..n]);
      StepKeeps(Run(actions[..n]).value, actions[n]);
    }
  }

  /** While a writer has entered, no step adds a reader. */
  lemma NoNewReaders(s: State, a: Action)
    requires Invariant(s) && Step(s, a).Some? && WriteEntered(s.word)
    ensures Readers(Step(s, a).value.word) <= Readers(s.word)
    ensures ReaderSet(Step(s, a).value.phases) <= ReaderSet(s.phases)
  {
    var s' := Step(s, a).value;
    if a.UnlockShared? { LeaveCounts(s, a.t); }
    forall t | t in ReaderSet(s'.phases) ensures t in ReaderSet(s.phases) { }
  }

  // Readers at gate1

  /** A sleeping reader can rely on the wake-up of the writer that has entered. */
  predicate ReadersAwaited(s: State) {
    forall t <- s.phases :: s.phases[t] == WaitsAsReader(false) ==> WriteEntered(s.word)
  }

  lemma StepKeepsReadersAwaited(s: State, a: Action)
    requires Invariant(s) && ReadersAwaited(s) && Readers(s.word) < MAX_READERS && Step(s, a).Some?
    ensures ReadersAwaited(Step(s, a).value)
  {
    hide WordCounts;
    if a.UnlockShared? {
      LeaveCounts(s, a.t);
    }
  }

  /** The reader count stays below its maximum throughout the run. */
  predicate NeverFull(actions: seq<Action>) {
    forall k | 0 <= k <= |actions| :: Run(actions[..k]).Some? && Readers(Run(actions[..k]).value.word) < MAX_READERS
  }

  /** In a run that never reaches the maximum, no reader's wake-up is lost either. */
  lemma {:induction false} ReadersAwaitedUnlessFull(actions: seq<Action>)
    requires NeverFull(actions)
    ensures Run(actions).Some? && ReadersAwaited(Run(actions).value)
    decreases |actions|
  {
    assert actions[..|actions|] == actions;
    if actions != [] {
      hide Invariant, ReadersAwaited, Step, Readers;
      var n := |actions| - 1;
      forall k | 0 <= k <= n ensures actions[..n][..k] == actions[..k] { }
      assert NeverFull(actions[..n]);
      ReadersAwaitedUnlessFull(actions[..n]);
      EveryRun(actions[..n]);
      StepKeepsReadersAwaited(Run(actions[..n]).value, actions[n]);
    } else {
      assert Run(actions) == Some(INITIAL);
    }
  }

  /**
   In such a run a lock without owner and queued writer has no stuck waiter: every waiting thread has a wake-up
   pending.
   */
  lemma {:induction false} NoStuckWaiter(actions: seq<Action>)
    requires NeverFull(actions) && Run(actions).Some? && Run(actions).value.word == 0
    ensures var phases := Run(actions).value.phases;
            forall t <- phases :: phases[t] in {WaitsAsWriter(true), WaitsAsReader(true)}
  {
    assert actions[..|actions|] == actions;
    EveryRun(actions);
    ReadersAwaitedUnlessFull(actions);
    var s := Run(actions).value;
    NoneEntered(s);
    assert ReaderSet(s.phases) == {};
    forall t | t in s.phases ensures !s.phases[t].Reads? {
      Membership(s, t);
    }
  }
}
