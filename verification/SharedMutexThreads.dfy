/**
 How many threads it takes to lose a reader's wake-up: readers that wait because the count is at its maximum are
 woken one at a time, and only by the reader that leaves a full lock.
 */
module SharedMutexThreads {
  import opened Optional
  import opened SharedMutex
  import opened SharedMutexProof

  /** A run of the threads 0 to n - 1. */
  predicate Within(actions: seq<Action>, n: nat) {
    forall a <- actions :: a.t < n
  }

  predicate KeysWithin(phases: map<Thread, Phase>, n: nat) {
    forall t <- phases :: t < n
  }

  lemma StepWithin(s: State, a: Action, n: nat)
    requires KeysWithin(s.phases, n) && a.t < n && Step(s, a).Some?
    ensures KeysWithin(Step(s, a).value.phases, n)
  {
  }

  lemma {:induction false} RunWithin(actions: seq<Action>, n: nat)
    requires Within(actions, n) && Run(actions).Some?
    ensures KeysWithin(Run(actions).value.phases, n)
    decreases |actions|
  {
    if actions != [] {
      hide Step;
      var k := |actions| - 1;
      RunWithin(actions[..k], n);
      StepWithin(Run(actions[..k]).value, actions[k], n);
    }
  }

  // Few threads

  /** A sleeping reader can rely on the writer that has entered, or on a reader that leaves the full lock. */
  predicate AwaitedOrFull(s: State) {
    forall t <- s.phases ::
      s.phases[t] == WaitsAsReader(false) ==> WriteEntered(s.word) || Readers(s.word) == MAX_READERS
  }

  /** Beside a full lock's readers there is room for one more thread. */
  lemma OneBeside(phases: map<Thread, Phase>, t: Thread, n: nat)
    requires n <= MAX_READERS + 1 && KeysWithin(phases, n) && |ReaderSet(phases)| == MAX_READERS
             && t in ReaderSet(phases)
    ensures |Asleep1(phases - {t})| <= 1
  {
    var readers, asleep := ReaderSet(phases), Asleep1(phases - {t});
    assert readers !! asleep;
    NumbersCount(n);
    CardinalityOfSubset(readers + asleep, Numbers(n));
  }

  function Numbers(n: nat): set<Thread> {
    if n == 0 then {} else Numbers(n - 1) + {n - 1}
  }

  lemma {:induction false} NumbersCount(n: nat)
    ensures |Numbers(n)| == n && forall t: Thread :: t in Numbers(n) <==> t < n
  {
    if n > 0 {
      NumbersCount(n - 1);
    }
  }

  lemma AtMostOne(asleep: set<Thread>, a: Thread, b: Thread)
    requires |asleep| <= 1 && a in asleep && b in asleep
    ensures a == b
  {
    if a != b { CardinalityOfSubset({a, b}, asleep); }
  }

  lemma StepKeepsAwaited(s: State, a: Action, n: nat)
    requires n <= MAX_READERS + 1 && KeysWithin(s.phases, n) && Invariant(s) && AwaitedOrFull(s) && Step(s, a).Some?
    ensures AwaitedOrFull(Step(s, a).value)
  {
    hide WordCounts, ReaderSet, Asleep1, KeysWithin;
    if a.UnlockShared? {
      LeaverWakes(s, a.t, a.pick, n);
    }
  }

  /** The reader that leaves a full lock wakes the one thread that can be asleep. */
  lemma LeaverWakes(s: State, t: Thread, pick: Option<Thread>, n: nat)
    requires n <= MAX_READERS + 1 && KeysWithin(s.phases, n) && Invariant(s) && AwaitedOrFull(s)
    requires Step(s, UnlockShared(t, pick)).Some?
    ensures AwaitedOrFull(Step(s, UnlockShared(t, pick)).value)
  {
    hide WordCounts, ReaderSet, KeysWithin;
    LeaveCounts(s, t);
    var left := Leave(s, t, s.word - 1);
    if !WriteEntered(left.word) && s.word == MAX_READERS {
      FullSet(s, t);
      OneBeside(s.phases, t, n);
      forall u | u in left.phases && left.phases[u] == WaitsAsReader(false) ensures pick == Some(u) {
        AtMostOne(Asleep1(left.phases), u, pick.value);
      }
    }
  }

  lemma FullSet(s: State, t: Thread)
    requires WordCounts(s) && s.word == MAX_READERS && IsAt(s, t, Reads)
    ensures |ReaderSet(s.phases)| == MAX_READERS && t in ReaderSet(s.phases)
  {
  }

  lemma {:induction false} FewThreadsAwaited(actions: seq<Action>, n: nat)
    requires n <= MAX_READERS + 1 && Within(actions, n) && Run(actions).Some?
    ensures AwaitedOrFull(Run(actions).value)
    decreases |actions|
  {
    if actions != [] {
      hide Invariant, AwaitedOrFull, Step, KeysWithin;
      var k := |actions| - 1;
      FewThreadsAwaited(actions[..k], n);
      RunWithin(actions[..k], n);
      EveryRun(actions[..k]);
      StepKeepsAwaited(Run(actions[..k]).value, actions[k], n);
    }
  }

  // The theorems

  /** No run of n threads leaves a reader asleep with neither a writer entered nor the lock full. */
  ghost predicate NeverLost(n: nat) {
    forall actions: seq<Action> | Within(actions, n) && Run(actions).Some? :: AwaitedOrFull(Run(actions).value)
  }

  /** No run of n threads ends at a free lock with a thread that waits and has no wake-up pending. */
  ghost predicate NeverStuck(n: nat) {
    forall actions: seq<Action> | Within(actions, n) && Run(actions).Some? && Run(actions).value.word == 0 ::
      AllPending(Run(actions).value)
  }

  predicate AllPending(s: State) {
    forall t <- s.phases :: s.phases[t] in {WaitsAsWriter(true), WaitsAsReader(true)}
  }

  /** No reader's wake-up is lost if and only if there is at most one thread more than the lock admits readers. */
  lemma NeverLostExactly(n: nat)
    ensures NeverLost(n) <==> n <= MAX_READERS + 1
  {
    hide Run, AwaitedOrFull;
    if n <= MAX_READERS + 1 {
      forall actions: seq<Action> | Within(actions, n) && Run(actions).Some? ensures AwaitedOrFull(Run(actions).value) {
        FewThreadsAwaited(actions, n);
      }
    } else {
      var actions, sleeper := OverflowLosesReader();
      Wider(actions, MAX_READERS + 2, n);
      LostState(sleeper);
    }
  }

  /** And exactly then no free lock has a stuck waiter. */
  lemma NeverStuckExactly(n: nat)
    ensures NeverStuck(n) <==> n <= MAX_READERS + 1
  {
    hide Run, AllPending;
    if n <= MAX_READERS + 1 {
      forall actions: seq<Action> | Within(actions, n) && Run(actions).Some? && Run(actions).value.word == 0
        ensures AllPending(Run(actions).value)
      {
        FewThreadsAwaited(actions, n);
        EveryRun(actions);
        FreeAndAwaited(Run(actions).value);
      }
    } else {
      var actions, sleeper := OverflowLosesReader();
      Wider(actions, MAX_READERS + 2, n);
      LostState(sleeper);
    }
  }

  lemma FreeAndAwaited(s: State)
    requires Invariant(s) && AwaitedOrFull(s) && s.word == 0
    ensures AllPending(s)
  {
    NoneEntered(s);
    assert ReaderSet(s.phases) == {};
    forall t | t in s.phases ensures !s.phases[t].Reads? {
      Membership(s, t);
    }
  }

  lemma LostState(sleeper: Thread)
    ensures var s := State(0, map[sleeper := WaitsAsReader(false)]); !AwaitedOrFull(s) && !AllPending(s)
  {
    var s := State(0, map[sleeper := WaitsAsReader(false)]);
    assert sleeper in s.phases && s.phases[sleeper] == WaitsAsReader(false);
  }

  lemma Wider(actions: seq<Action>, m: nat, n: nat)
    requires Within(actions, m) && m <= n
    ensures Within(actions, n)
  {
  }

  // One thread more

  function AllRead(n: nat): map<Thread, Phase> {
    if n == 0 then map[] else AllRead(n - 1)[n - 1 := Reads]
  }

  lemma {:induction false} WhoReads(n: nat, t: Thread)
    ensures t in AllRead(n) <==> t < n
    ensures t < n ==> AllRead(n)[t] == Reads
  {
    if n > 0 {
      WhoReads(n - 1, t);
    }
  }

  lemma {:induction false} RunMore(actions: seq<Action>, a: Action)
    requires Run(actions).Some?
    ensures Run(actions + [a]) == Step(Run(actions).value, a)
  {
    hide Step;
    assert (actions + [a])[..|actions|] == actions;
  }

  /** Any number of readers up to the maximum can hold the lock. */
  lemma {:induction false} ManyReaders(n: nat) returns (actions: seq<Action>)
    requires n <= MAX_READERS
    ensures Run(actions) == Some(State(n, AllRead(n))) && Within(actions, n)
    decreases n
  {
    if n == 0 {
      actions := [];
    } else {
      var before := ManyReaders(n - 1);
      WhoReads(n - 1, n - 1);
      RunMore(before, LockShared(n - 1));
      actions := before + [LockShared(n - 1)];
      assert AllRead(n) == AllRead(n - 1)[n - 1 := Reads];
    }
  }

  /** Readers leave one after the other, and the sleeping reader is not woken. */
  lemma {:induction false} AllLeave(before: seq<Action>, s: State, sleeper: Thread, n: nat)
    returns (actions: seq<Action>)
    requires Run(before) == Some(s) && s.word < MAX_READERS && IsAt(s, sleeper, WaitsAsReader(false))
    requires (forall t <- s.phases :: t != sleeper ==> s.phases[t] == Reads) && s.word == |s.phases| - 1
    requires Within(before, n)
    ensures Run(actions) == Some(State(0, map[sleeper := WaitsAsReader(false)])) && Within(actions, n)
    decreases s.word
  {
    if s.word == 0 {
      actions := before;
      OnlySleeper(s.phases, sleeper);
    } else {
      hide Run, Step;
      var t := SomeReader(s.phases, sleeper);
      RunWithin(before, n);
      var a := UnlockShared(t, None);
      RunMore(before, a);
      var s' := State(s.word - 1, s.phases - {t});
      LeavesSilently(s, t);
      assert s'.phases.Keys == s.phases.Keys - {t};
      actions := AllLeave(before + [a], s', sleeper, n);
    }
  }

  lemma LeavesSilently(s: State, t: Thread)
    requires IsAt(s, t, Reads) && 0 < s.word < MAX_READERS
    ensures Step(s, UnlockShared(t, None)) == Some(State(s.word - 1, s.phases - {t}))
  {
  }

  lemma OnlySleeper(phases: map<Thread, Phase>, sleeper: Thread)
    requires sleeper in phases && |phases| == 1
    ensures phases == map[sleeper := phases[sleeper]]
  {
    assert phases.Keys == {sleeper} by {
      assert |phases.Keys - {sleeper}| == 0;
    }
  }

  lemma SomeReader(phases: map<Thread, Phase>, sleeper: Thread) returns (t: Thread)
    requires sleeper in phases && |phases| > 1
    ensures t in phases && t != sleeper
  {
    var rest := phases.Keys - {sleeper};
    assert |rest| > 0;
    t :| t in rest;
  }

  /**
   One thread more, and a reader is lost: when two readers wait because the count is at its maximum, only one is
   woken. There is a run at whose end nobody owns the lock, nobody queues, and a reader sleeps at gate1.
   */
  lemma OverflowLosesReader() returns (actions: seq<Action>, sleeper: Thread)
    ensures Run(actions) == Some(State(0, map[sleeper := WaitsAsReader(false)])) && Within(actions, MAX_READERS + 2)
  {
    var full := ManyReaders(MAX_READERS);
    var a, b := MAX_READERS, MAX_READERS + 1;
    sleeper := b;
    var r1 := full + [LockShared(a)];
    RunMore(full, LockShared(a));
    WhoReads(MAX_READERS, a);
    WhoReads(MAX_READERS, b);
    var r2 := r1 + [LockShared(b)];
    RunMore(r1, LockShared(b));
    var waiting := AllRead(MAX_READERS)[a := WaitsAsReader(false)][b := WaitsAsReader(false)];
    assert Run(r2) == Some(State(MAX_READERS, waiting));
    var r3, s3 := OneLeavesFull(r2, waiting, a, b);
    actions := AllLeave(r3, s3, b, MAX_READERS + 2);
  }

  /** The first reader leaves and wakes `a`, the second leaves silently, `a` takes the lock. */
  lemma OneLeavesFull(before: seq<Action>, waiting: map<Thread, Phase>, a: Thread, b: Thread)
    returns (after: seq<Action>, s: State)
    requires a == MAX_READERS && b == MAX_READERS + 1
    requires waiting == AllRead(MAX_READERS)[a := WaitsAsReader(false)][b := WaitsAsReader(false)]
    requires Run(before) == Some(State(MAX_READERS, waiting)) && Within(before, MAX_READERS + 2)
    ensures Within(after, MAX_READERS + 2)
    ensures Run(after) == Some(s) && s.word == MAX_READERS - 1 == |s.phases| - 1
    ensures IsAt(s, b, WaitsAsReader(false)) && forall t <- s.phases :: t != b ==> s.phases[t] == Reads
  {
    hide AllRead, Step, Run;
    WhoReads(MAX_READERS, 0);
    WhoReads(MAX_READERS, 1);
    WhoReads(MAX_READERS, a);
    WhoReads(MAX_READERS, b);
    var a1, a2, a3 := UnlockShared(0, Some(a)), UnlockShared(1, None), LockShared(a);
    var p1 := (waiting - {0})[a := WaitsAsReader(true)];
    var p2 := p1 - {1};
    FullReaderLeaves(waiting, 0, a);
    RunMore(before, a1);
    LeavesSilently(State(MAX_READERS - 1, p1), 1);
    RunMore(before + [a1], a2);
    RunMore(before + [a1] + [a2], a3);
    after := before + [a1] + [a2] + [a3];
    s := State(MAX_READERS - 1, p2[a := Reads]);
    assert Step(State(MAX_READERS - 2, p2), a3) == Some(s) by { Retries(State(MAX_READERS - 2, p2), a); }
    OneBehind(s.phases, a, b);
  }

  /** Two have left, one has come in, one sleeps. */
  lemma OneBehind(phases: map<Thread, Phase>, a: Thread, b: Thread)
    requires a == MAX_READERS && b == MAX_READERS + 1
    requires phases == ((AllRead(MAX_READERS)[a := WaitsAsReader(false)][b := WaitsAsReader(false)] - {0})
                         [a := WaitsAsReader(true)] - {1})[a := Reads]
    ensures |phases| == MAX_READERS && b in phases && phases[b] == WaitsAsReader(false)
    ensures forall t <- phases :: t != b ==> phases[t] == Reads
  {
    hide AllRead;
    WhoReads(MAX_READERS, 0);
    WhoReads(MAX_READERS, 1);
    WhoReads(MAX_READERS, a);
    WhoReads(MAX_READERS, b);
    Population(MAX_READERS);
    assert |phases| == |phases.Keys|;
    assert phases.Keys == AllRead(MAX_READERS).Keys - {0} - {1} + {a} + {b};
    forall t | t in phases && t != b ensures phases[t] == Reads { WhoReads(MAX_READERS, t); }
  }

  lemma FullReaderLeaves(phases: map<Thread, Phase>, t: Thread, a: Thread)
    requires t in phases && phases[t] == Reads && a in phases && phases[a] == WaitsAsReader(false)
    ensures Step(State(MAX_READERS, phases), UnlockShared(t, Some(a)))
         == Some(State(MAX_READERS - 1, (phases - {t})[a := WaitsAsReader(true)]))
  {
    assert a in Asleep1(phases - {t});
  }

  lemma Retries(s: State, a: Thread)
    requires IsAt(s, a, WaitsAsReader(true)) && s.word < MAX_READERS
    ensures Step(s, LockShared(a)) == Some(State(s.word + 1, s.phases[a := Reads]))
  {
  }

  lemma {:induction false} Population(n: nat)
    ensures |AllRead(n).Keys| == n
    decreases n
  {
    if n > 0 {
      Population(n - 1);
      WhoReads(n - 1, n - 1);
      OneMore(AllRead(n - 1), n - 1);
    }
  }

  lemma OneMore(phases: map<Thread, Phase>, t: Thread)
    requires t !in phases
    ensures |phases[t := Reads].Keys| == |phases.Keys| + 1
  {
    assert phases[t := Reads].Keys == phases.Keys + {t};
  }
}
