/**
 Who gets the lock, who waits and who is woken: every step of the lock in terms of the threads that own it, queue or
 sleep, without a word about the state word.
 */
module SharedMutexSteps {
  import opened Optional
  import opened SharedMutex
  import opened SharedMutexProof

  /** A writer owns the lock or queues for it behind the readers. */
  predicate HasWriter(s: State) {
    exists t <- s.phases :: s.phases[t].Writes? || s.phases[t].Queues?
  }

  predicate HasReader(s: State) {
    exists t <- s.phases :: s.phases[t].Reads?
  }

  /** A reader more would be too many, or would come in front of a writer. */
  predicate ReadersHeldOff(s: State) {
    HasWriter(s) || |ReaderSet(s.phases)| >= 0x7FFF_FFFF
  }

  /** The state word and the threads agree. */
  lemma WordAndThreads(s: State)
    requires Invariant(s)
    ensures WriteEntered(s.word) <==> HasWriter(s)
    ensures Readers(s.word) == 0 <==> !HasReader(s)
    ensures s.word == 0 <==> !HasWriter(s) && !HasReader(s)
    ensures s.word < MAX_READERS <==> !ReadersHeldOff(s)
  {
    if HasWriter(s) {
      var t :| t in s.phases && (s.phases[t].Writes? || s.phases[t].Queues?);
      assert t in Entered(s.phases);
      SomeEntered(s, t);
    } else {
      assert Entered(s.phases) == {};
    }
    if HasReader(s) {
      var t :| t in s.phases && s.phases[t].Reads?;
      assert t in ReaderSet(s.phases);
    } else {
      assert ReaderSet(s.phases) == {};
    }
  }

  lemma SomeEntered(s: State, t: Thread)
    requires WordCounts(s) && t in Entered(s.phases)
    ensures WriteEntered(s.word)
  {
    assert |Entered(s.phases)| > 0;
  }

  /** The phase of a thread behind a step that takes the lock or tries to; None where it stays outside. */
  function Outcome(s: State, a: Action): Option<Phase>
    requires !a.Unlock? && !a.UnlockShared? && !a.Spurious?
  {
    match a
    case Lock(_) => Some(if HasWriter(s) then WaitsAsWriter(false) else if HasReader(s) then Queues(false) else Writes)
    case Dequeue(_) => Some(if HasReader(s) then Queues(false) else Writes)
    case TryLock(_, ownsMutex) => if ownsMutex && !HasWriter(s) && !HasReader(s) then Some(Writes) else None
    case LockShared(_) => Some(if ReadersHeldOff(s) then WaitsAsReader(false) else Reads)
    case TryLockShared(_, ownsMutex) => if ownsMutex && !ReadersHeldOff(s) then Some(Reads) else None
  }

  /**
   A writer gets the lock exactly when nobody has it, and queues exactly behind readers only; a reader gets a share
   exactly when no writer has entered and the readers are not too many. Nobody else is touched.
   */
  lemma WhoGetsTheLock(s: State, a: Action)
    requires Invariant(s) && Step(s, a).Some? && !a.Unlock? && !a.UnlockShared? && !a.Spurious?
    ensures var r := Outcome(s, a);
            Step(s, a).value.phases == if r.None? then s.phases else s.phases[a.t := r.value]
  {
    hide Invariant;
    WordAndThreads(s);
  }

  /** An owner that leaves wakes all who sleep at gate1, and nobody else. */
  lemma WhoIsWokenByWriters(s: State, t: Thread)
    requires Invariant(s) && IsAt(s, t, Writes)
    ensures Step(s, Unlock(t)).Some?
    ensures var after := Step(s, Unlock(t)).value.phases;
            && after.Keys == s.phases.Keys - {t}
            && forall u <- after ::
                 after[u] == match s.phases[u]
                             case WaitsAsWriter(_) => WaitsAsWriter(true)
                             case WaitsAsReader(_) => WaitsAsReader(true)
                             case p => p
  {
  }

  /** A reader that leaves as the last in front of a writer wakes one who sleeps at gate2, if anybody does. */
  predicate LetsWriterIn(s: State) {
    HasWriter(s) && |ReaderSet(s.phases)| == 1
  }

  /** One that leaves a full lock without a writer wakes one who sleeps at gate1. */
  predicate MakesRoom(s: State) {
    !HasWriter(s) && |ReaderSet(s.phases)| == 0x7FFF_FFFF
  }

  /** Who sleeps at gate1, in lock or in lock_shared, and who sleeps at gate2. */
  function SleepersAtGate1(s: State): set<Thread> {
    set t | t in s.phases && (s.phases[t] == WaitsAsWriter(false) || s.phases[t] == WaitsAsReader(false))
  }

  function SleepersAtGate2(s: State): set<Thread> {
    set t | t in s.phases && s.phases[t] == Queues(false)
  }

  /** Whom a reader that leaves may wake. */
  function Wakeable(s: State): set<Thread> {
    if LetsWriterIn(s) then SleepersAtGate2(s) else if MakesRoom(s) then SleepersAtGate1(s) else {}
  }

  /** The thread awake, waiting for the same. */
  function Awake(p: Phase): Phase {
    match p
    case WaitsAsWriter(_) => WaitsAsWriter(true)
    case WaitsAsReader(_) => WaitsAsReader(true)
    case Queues(_) => Queues(true)
    case _ => p
  }

  /** A reader that leaves wakes exactly one of those it may wake, whichever the system picks, or nobody if none is. */
  lemma WhoIsWokenByReaders(s: State, t: Thread, pick: Option<Thread>)
    requires Invariant(s) && IsAt(s, t, Reads)
    ensures Step(s, UnlockShared(t, pick)).Some? <==>
              if Wakeable(s) == {} then pick.None? else pick.Some? && pick.value in Wakeable(s)
    ensures Step(s, UnlockShared(t, pick)).Some? ==>
              Step(s, UnlockShared(t, pick)).value.phases
              == if pick.None? then s.phases - {t} else (s.phases - {t})[pick.value := Awake(s.phases[pick.value])]
  {
    hide Invariant;
    WordAndThreads(s);
    assert t in ReaderSet(s.phases);
    ReadersWord(s);
    assert Asleep1(s.phases - {t}) == SleepersAtGate1(s) && Asleep2(s.phases - {t}) == SleepersAtGate2(s);
  }

  lemma ReadersWord(s: State)
    requires Invariant(s)
    ensures Readers(s.word) == |ReaderSet(s.phases)| && Readers(s.word) <= MAX_READERS
  {
  }

  /** Asleep at a gate, with no wake-up pending. */
  predicate Sleeps(s: State, t: Thread) {
    t in SleepersAtGate1(s) || t in SleepersAtGate2(s)
  }

  /** The call a thread is in goes on with this step, or begins with it. */
  predicate IsDue(s: State, a: Action)
    requires !a.UnlockShared? && !a.Spurious?
  {
    if a.t !in s.phases then !a.Dequeue? && !a.Unlock?
    else
      match s.phases[a.t]
      case WaitsAsWriter(_) => a.Lock?
      case Queues(_) => a.Dequeue?
      case WaitsAsReader(_) => a.LockShared?
      case Writes => a.Unlock?
      case Reads => false
  }

  /** Every thread can take the step that is due, and no other, unless it sleeps: a sleeper has to be woken. */
  lemma WhoMayStep(s: State, a: Action)
    requires !a.UnlockShared? && !a.Spurious?
    ensures Step(s, a).Some? <==> IsDue(s, a) && !Sleeps(s, a.t)
  {
  }

  /** A spurious wake-up does what a wake-up does. */
  lemma WhoWakesUp(s: State, t: Thread)
    ensures Step(s, Spurious(t)).Some? <==> t in s.phases
    ensures t in s.phases ==> Step(s, Spurious(t)).value == State(s.word, s.phases[t := Awake(s.phases[t])])
  {
  }
}
