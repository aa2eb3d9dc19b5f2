/**
 Every job that was ever pushed is in exactly one place: in the queue, in the hands of exactly one looper, or
 among the finished ones, there once. Jobs leave the queue in the order of submission.
 */
module ThreadPoolProof {
  import opened Optional
  import opened ThreadPool

  /** Which looper has which job. */
  function Holdings(loopers: map<Id, Looper>): map<Id, Job> {
    map l | l in loopers && loopers[l].isJob && loopers[l].func.Some? :: loopers[l].func.value
  }

  /** How a looper's fields belong together at each place of its thread. */
  predicate Coherent(x: Looper) {
    match x.pc
    case Starting => x == NEW_LOOPER
    case AtBusy => x.state == Busy && (x.isJob <==> x.func.Some?)
    case Running => x.state == Busy && x.isJob && x.func.Some?
    case AtIdle => x.state == Idle && !x.isJob && x.func.None?
    case Enrolling => x.state == Idle && !x.isJob && x.func.None?
    case Waiting =>
      if x.state == Idle then !x.isJob && x.func.None? else x.state == Busy && x.isJob && x.func.Some?
  }

  /** The queue holds the jobs from number `first` on, in order. */
  predicate InOrder(queue: seq<Job>, first: nat, pushed: nat) {
    first + |queue| == pushed && forall k | 0 <= k < |queue| :: queue[k] == first + k
  }

  /** The jobs in front of number `first` have left the queue: each is held by exactly one looper or finished once. */
  predicate Accounted(first: nat, holdings: map<Id, Job>, finished: seq<Job>) {
    && (forall j: Job | j < first :: j in finished || j in holdings.Values)
    && (forall j <- finished :: j < first && j !in holdings.Values)
    && (forall a, b | 0 <= a < b < |finished| :: finished[a] != finished[b])
    && (forall l <- holdings :: holdings[l] < first)
    && (forall l <- holdings, m <- holdings :: l != m ==> holdings[l] != holdings[m])
  }

  predicate Invariant(s: Pool) {
    && |s.queue| <= s.pushed
    && InOrder(s.queue, s.pushed - |s.queue|, s.pushed)
    && Accounted(s.pushed - |s.queue|, Holdings(s.loopers), s.finished)
    && (forall l <- s.loopers :: Coherent(s.loopers[l]))
    && (forall k | 0 <= k < |s.idle| :: s.idle[k] in s.loopers)
    && (forall c <- s.calls :: !s.calls[c].Pushed? ==> s.calls[c].looper in s.loopers)
  }

  // Holdings

  lemma HoldingsAfter(loopers: map<Id, Looper>, l: Id, x: Looper)
    ensures Holdings(loopers[l := x])
         == if x.isJob && x.func.Some? then Holdings(loopers)[l := x.func.value] else Holdings(loopers) - {l}
  {
  }

  /** A job leaves the queue into empty hands. */
  lemma TakesOne(first: nat, holdings: map<Id, Job>, finished: seq<Job>, l: Id)
    requires Accounted(first, holdings, finished) && l !in holdings
    ensures Accounted(first + 1, holdings[l := first], finished)
  {
    var after := holdings[l := first];
    forall j: Job | j < first + 1 ensures j in finished || j in after.Values {
      if j == first {
        assert after[l] == first;
      } else if j !in finished {
        var m :| m in holdings && holdings[m] == j;
        assert after[m] == j;
      }
    }
  }

  /** A job ends. */
  lemma EndsOne(first: nat, holdings: map<Id, Job>, finished: seq<Job>, l: Id)
    requires Accounted(first, holdings, finished) && l in holdings
    ensures Accounted(first, holdings - {l}, finished + [holdings[l]])
  {
    var after, ended := holdings - {l}, finished + [holdings[l]];
    forall j: Job | j < first ensures j in ended || j in after.Values {
      if j !in ended {
        assert j !in finished && j != ended[|finished|];
        var m :| m in holdings && holdings[m] == j;
        assert after[m] == j;
      }
    }
    assert holdings[l] in holdings.Values;
  }

  lemma OutOfOrderNever(queue: seq<Job>, first: nat, pushed: nat)
    requires InOrder(queue, first, pushed) && queue != []
    ensures queue[0] == first && InOrder(queue[1..], first + 1, pushed)
  {
  }

  // Steps

  /** A looper moves on without taking or ending a job. */
  lemma MovesKeep(s: Pool, l: Id, x: Looper)
    requires Invariant(s) && Coherent(x)
    requires if l in s.loopers then x.isJob == s.loopers[l].isJob && x.func == s.loopers[l].func else !x.isJob
    ensures Invariant(With(s, l, x))
  {
    hide Accounted, InOrder;
    HoldingsAfter(s.loopers, l, x);
    if l in s.loopers && x.isJob && x.func.Some? {
      assert Holdings(s.loopers)[l] == x.func.value;
      assert Holdings(s.loopers)[l := x.func.value] == Holdings(s.loopers);
    } else {
      assert Holdings(s.loopers) - {l} == Holdings(s.loopers);
    }
  }

  /** A looper with empty hands loads from the queue. */
  lemma PopKeeps(s: Pool, l: Id, x: Looper, pc: Pc)
    requires Invariant(s) && l in s.loopers && l !in Holdings(s.loopers)
    requires !x.isJob && Coherent(x.(func := None)) && (pc.Waiting? || pc.AtBusy? || pc.Running?)
    ensures Invariant(PopInto(s, l, x, pc))
  {
    hide Accounted, InOrder, Holdings;
    if s.queue == [] {
      HoldingsAfter(s.loopers, l, x.(func := None));
      assert Holdings(s.loopers) - {l} == Holdings(s.loopers);
    } else {
      var first := s.pushed - |s.queue|;
      OutOfOrderNever(s.queue, first, s.pushed);
      TakesOne(first, Holdings(s.loopers), s.finished, l);
      HoldingsAfter(s.loopers, l, Looper(pc, Busy, true, Some(s.queue[0])));
    }
  }

  lemma EmptyHands(s: Pool, l: Id)
    requires l in s.loopers && !(s.loopers[l].isJob && s.loopers[l].func.Some?)
    ensures l !in Holdings(s.loopers)
  {
  }

  lemma FinishKeeps(s: Pool, l: Id)
    requires Invariant(s) && Step(s, Finish(l)).Some?
    ensures Invariant(Step(s, Finish(l)).value)
  {
    hide Accounted, InOrder, Holdings, PopInto;
    var x := Looper(AtIdle, Idle, false, None);
    var first := s.pushed - |s.queue|;
    assert Coherent(s.loopers[l]);
    assert l in Holdings(s.loopers) && Holdings(s.loopers)[l] == s.loopers[l].func.value by { FullHands(s, l); }
    EndsOne(first, Holdings(s.loopers), s.finished, l);
    HoldingsAfter(s.loopers, l, x);
    var ended := With(s, l, x).(finished := s.finished + [s.loopers[l].func.value]);
    assert Invariant(ended);
    EmptyHands(ended, l);
    PopKeeps(ended, l, x, Running);
    SamePop(s, ended, l, x);
  }

  /** The looper's old fields are overwritten anyway. */
  lemma SamePop(s: Pool, ended: Pool, l: Id, x: Looper)
    requires ended == With(s, l, x).(finished := ended.finished) && x.func.None?
    ensures PopInto(ended, l, x, Running) == PopInto(s.(finished := ended.finished), l, x, Running)
  {
    assert s.loopers[l := x][l := x] == s.loopers[l := x];
    if s.queue != [] {
      var y := Looper(Running, Busy, true, Some(s.queue[0]));
      assert s.loopers[l := x][l := y] == s.loopers[l := y];
    }
  }

  lemma FullHands(s: Pool, l: Id)
    requires l in s.loopers && s.loopers[l].isJob && s.loopers[l].func.Some?
    ensures l in Holdings(s.loopers) && Holdings(s.loopers)[l] == s.loopers[l].func.value
  {
  }

  lemma {:induction false} RemoveKeeps(ids: seq<Id>, id: Id, k: nat)
    requires k < |Remove(ids, id)|
    ensures Remove(ids, id)[k] in ids && Remove(ids, id)[k] != id
    decreases |ids|
  {
    if ids[0] == id {
      RemoveKeeps(ids[1..], id, k);
    } else if k > 0 {
      RemoveKeeps(ids[1..], id, k - 1);
    }
  }

  lemma PushKeeps(s: Pool, c: Caller, runImmediately: bool)
    requires Invariant(s) && Step(s, Push(c, runImmediately)).Some?
    ensures Invariant(Step(s, Push(c, runImmediately)).value)
  {
    hide Accounted, Holdings;
  }

  lemma ChooseKeeps(s: Pool, c: Caller, created: Id)
    requires Invariant(s) && Step(s, Choose(c, created)).Some?
    ensures Invariant(Step(s, Choose(c, created)).value)
  {
    hide Accounted, Holdings, InOrder;
    if s.idle != [] {
      var rest := Remove(s.idle, s.idle[0]);
      forall k: nat | k < |rest| ensures rest[k] in s.loopers { RemoveKeeps(s.idle, s.idle[0], k); }
    } else if s.calls[c].runImmediately {
      MovesKeep(s, created, NEW_LOOPER);
    }
  }

  lemma TriggerKeeps(s: Pool, c: Caller)
    requires Invariant(s) && Step(s, Trigger(c)).Some?
    ensures Invariant(Step(s, Trigger(c)).value)
  {
    hide Accounted, Holdings, InOrder, PopInto;
    var l := s.calls[c].looper;
    var done := s.(calls := s.calls - {c});
    assert Invariant(done);
    if s.loopers[l].state == Idle {
      assert Coherent(s.loopers[l]);
      EmptyHands(done, l);
      PopKeeps(done, l, s.loopers[l], Waiting);
    }
  }

  lemma LoopKeeps(s: Pool, a: Action)
    requires Invariant(s) && Step(s, a).Some? && (a.Start? || a.Begin? || a.Load? || a.Enroll? || a.Wake?)
    ensures Invariant(Step(s, a).value)
  {
    hide Accounted, Holdings, InOrder, PopInto, Invariant;
    Fine(s, a.l);
    if a.Load? {
      EmptyHands(s, a.l);
      PopKeeps(s, a.l, s.loopers[a.l].(pc := Enrolling), AtBusy);
    } else {
      var x := Step(s, a).value.loopers[a.l];
      MovesKeep(s, a.l, x);
      if a.Enroll? { Enrolled(With(s, a.l, x), a.l); }
    }
  }

  lemma Fine(s: Pool, l: Id)
    requires Invariant(s) && l in s.loopers
    ensures Coherent(s.loopers[l])
  {
  }

  lemma Enrolled(s: Pool, l: Id)
    requires Invariant(s) && l in s.loopers
    ensures Invariant(s.(idle := s.idle + [l]))
  {
  }

  lemma TestKeeps(s: Pool, c: Caller)
    requires Invariant(s) && Step(s, Test(c)).Some?
    ensures Invariant(Step(s, Test(c)).value)
  {
  }

  lemma StepKeeps(s: Pool, a: Action)
    requires Invariant(s) && Step(s, a).Some?
    ensures Invariant(Step(s, a).value)
  {
    hide Invariant, Step;
    match a
    case Push(c, runImmediately) => PushKeeps(s, c, runImmediately);
    case Choose(c, created) => ChooseKeeps(s, c, created);
    case Test(c) => TestKeeps(s, c);
    case Trigger(c) => TriggerKeeps(s, c);
    case Finish(l) => FinishKeeps(s, l);
    case _ => LoopKeeps(s, a);
  }

  lemma {:induction false} InitialHolds(n: nat)
    ensures Invariant(Initial(n)) && Holdings(Created(n)) == map[]
    ensures forall l <- Created(n) :: Created(n)[l] == NEW_LOOPER
  {
    if n > 0 {
      InitialHolds(n - 1);
      HoldingsAfter(Created(n - 1), n - 1, NEW_LOOPER);
    }
  }

  /**
   The theorem about all runs, with any number of loopers, callers and jobs: every job ever pushed is queued, held by
   exactly one looper, or finished exactly once; the queue is in the order of submission; a looper that waits in the
   idle state holds no job; and the idle list names loopers only.
   */
  lemma {:induction false} EveryRun(n: nat, actions: seq<Action>)
    requires Run(n, actions).Some?
    ensures Invariant(Run(n, actions).value)
    decreases |actions|
  {
    if actions == [] {
      InitialHolds(n);
    } else {
      hide Invariant, Step;
      var k := |actions| - 1;
      EveryRun(n, actions[..k]);
      StepKeeps(Run(n, actions[..k]).value, actions[k]);
    }
  }

  /** The same as a sum: the jobs pushed are the jobs queued, held and finished. */
  lemma Conservation(s: Pool)
    requires Invariant(s)
    ensures multiset(Numbers(s.pushed)) == multiset(s.queue) + multiset(Holdings(s.loopers).Values)
            + multiset(s.finished)
  {
    hide Holdings, Coherent;
    var held: set<Job> := Holdings(s.loopers).Values;
    forall j: Job
      ensures multiset(Numbers(s.pushed))[j] == multiset(s.queue)[j] + multiset(held)[j] + multiset(s.finished)[j]
    {
      NumberOnce(s.pushed, j);
      QueuedOnce(s.queue, s.pushed - |s.queue|, s.pushed, j);
      FinishedOnce(s.finished, j);
      if j in held { var l :| l in Holdings(s.loopers) && Holdings(s.loopers)[l] == j; }
    }
  }

  function Numbers(n: nat): seq<Job> {
    if n == 0 then [] else Numbers(n - 1) + [n - 1]
  }

  lemma {:induction false} NumberOnce(n: nat, j: Job)
    ensures multiset(Numbers(n))[j] == if j < n then 1 else 0
  {
    if n > 0 {
      NumberOnce(n - 1, j);
    }
  }

  lemma {:induction false} QueuedOnce(queue: seq<Job>, first: nat, pushed: nat, j: Job)
    requires InOrder(queue, first, pushed)
    ensures multiset(queue)[j] == if first <= j < pushed then 1 else 0
    decreases |queue|
  {
    if queue != [] {
      assert queue == [queue[0]] + queue[1..];
      QueuedOnce(queue[1..], first + 1, pushed, j);
    }
  }

  lemma {:induction false} FinishedOnce(finished: seq<Job>, j: Job)
    requires forall a, b | 0 <= a < b < |finished| :: finished[a] != finished[b]
    ensures multiset(finished)[j] == if j in finished then 1 else 0
    decreases |finished|
  {
    if finished != [] {
      assert finished == [finished[0]] + finished[1..];
      FinishedOnce(finished[1..], j);
    }
  }

  /** A job a looper holds stays in its hands until it is finished: nothing overwrites it. */
  lemma NeverOverwritten(s: Pool, a: Action, l: Id)
    requires Invariant(s) && Step(s, a).Some? && l in Holdings(s.loopers)
    ensures var s', j := Step(s, a).value, Holdings(s.loopers)[l];
            (l in Holdings(s'.loopers) && Holdings(s'.loopers)[l] == j) || s'.finished == s.finished + [j]
  {
    hide Accounted, InOrder;
    Fine(s, l);
  }

  /** Finished jobs stay finished, in the order in which they ended. */
  lemma FinishedGrows(s: Pool, a: Action)
    requires Step(s, a).Some?
    ensures s.finished <= Step(s, a).value.finished
  {
  }
}
