/**
 What each step of the pool does with jobs: who takes one from the queue, which one, and that nobody passes a job by.
 */
module ThreadPoolSteps {
  import opened Optional
  import opened ThreadPool
  import opened ThreadPoolProof

  /** The looper that looks for a job in this step: before it idles, behind a job, or woken by a caller. */
  function Seeker(s: Pool, a: Action): Option<Id> {
    match a
    case Load(l) => Some(l)
    case Finish(l) => Some(l)
    case Trigger(c) =>
      if c in s.calls && s.calls[c].Tested? && s.calls[c].looper in s.loopers
        && s.loopers[s.calls[c].looper].state == Idle
      then Some(s.calls[c].looper)
      else None
    case _ => None
  }

  /** What the queue becomes: a push puts the next job last, a seeker takes the first if there is one. */
  function QueueAfter(s: Pool, a: Action): seq<Job> {
    if a.Push? then s.queue + [s.pushed]
    else if Seeker(s, a).Some? && |s.queue| > 0 then s.queue[1..]
    else s.queue
  }

  /** Jobs are put and taken by these steps only, and a seeker never leaves a job in the queue. */
  lemma QueueChanges(s: Pool, a: Action)
    requires Invariant(s) && Step(s, a).Some?
    ensures Step(s, a).value.queue == QueueAfter(s, a)
    ensures Step(s, a).value.pushed == s.pushed + if a.Push? then 1 else 0
    ensures Step(s, a).value.finished == s.finished + if a.Finish? then [Holdings(s.loopers)[a.l]] else []
  {
    if a.Finish? { assert Coherent(s.loopers[a.l]); }
  }

  /** Who holds which job behind a step: as before, but for a job that ends and a job that is taken. */
  lemma HoldingsChange(s: Pool, a: Action)
    requires Invariant(s) && Step(s, a).Some?
    ensures var before := Holdings(s.loopers) - (if a.Finish? then {a.l} else {});
            var l := Seeker(s, a);
            Holdings(Step(s, a).value.loopers)
            == if l.Some? && |s.queue| > 0 then before[l.value := s.queue[0]] else before
  {
    hide Accounted, InOrder;
    var s' := Step(s, a).value;
    match a
    case Push(_, _) => assert Holdings(s.loopers) - {} == Holdings(s.loopers);
    case Test(_) => assert Holdings(s.loopers) - {} == Holdings(s.loopers);
    case Choose(_, created) =>
      if s'.loopers != s.loopers { HoldingsAfter(s.loopers, created, NEW_LOOPER); }
      assert Holdings(s.loopers) - {created} == Holdings(s.loopers) - {} == Holdings(s.loopers);
    case Trigger(c) => TouchedLooper(s, s', s.calls[c].looper);
    case Finish(l) => TouchedLooper(s, s', l);
    case Start(l) => TouchedLooper(s, s', l);
    case Begin(l) => TouchedLooper(s, s', l);
    case Load(l) => TouchedLooper(s, s', l);
    case Enroll(l) => TouchedLooper(s, s', l);
    case Wake(l) => TouchedLooper(s, s', l);
  }

  /** One looper has changed: so has what it holds. */
  lemma TouchedLooper(s: Pool, s': Pool, l: Id)
    requires l in s.loopers && l in s'.loopers && s'.loopers == s.loopers[l := s'.loopers[l]]
    ensures var x := s'.loopers[l];
            Holdings(s'.loopers)
            == if x.isJob && x.func.Some? then Holdings(s.loopers)[l := x.func.value] else Holdings(s.loopers) - {l}
    ensures Holdings(s.loopers) - {} == Holdings(s.loopers)
    ensures l !in Holdings(s.loopers) ==> Holdings(s.loopers) - {l} == Holdings(s.loopers)
    ensures l in Holdings(s.loopers) ==> Holdings(s.loopers)[l := Holdings(s.loopers)[l]] == Holdings(s.loopers)
    ensures s.queue != [] ==> (Holdings(s.loopers) - {l})[l := s.queue[0]] == Holdings(s.loopers)[l := s.queue[0]]
  {
    HoldingsAfter(s.loopers, l, s'.loopers[l]);
  }

  /** Where the thread of a looper goes: it runs exactly with a job, and waits exactly without one. */
  lemma WhereLoopersGo(s: Pool, a: Action)
    requires Invariant(s) && Step(s, a).Some? && (a.Begin? || a.Load? || a.Finish? || a.Wake?)
    ensures var l, looper := a.l, Step(s, a).value.loopers[a.l];
            && (a.Begin? ==> looper.pc == if l in Holdings(s.loopers) then Running else AtIdle)
            && (a.Load? ==> looper.pc == if s.queue != [] then AtBusy else Enrolling)
            && (a.Finish? ==> looper.pc == if s.queue != [] then Running else AtIdle)
            && (a.Wake? ==> looper.pc == if l in Holdings(s.loopers) then AtBusy else AtIdle)
  {
    assert Coherent(s.loopers[a.l]);
  }

  /** A call chooses the looper that has been idle for longest, and takes it off the list; it makes one if it may. */
  lemma WhoIsChosen(s: Pool, c: Caller, created: Id)
    requires Invariant(s) && c in s.calls && s.calls[c].Pushed? && created !in s.loopers
    ensures Step(s, Choose(c, created)).Some?
    ensures var s' := Step(s, Choose(c, created)).value;
            if s.idle != [] then
              && s'.calls == s.calls[c := Chosen(s.idle[0])] && s'.loopers == s.loopers
              && s.idle[0] !in s'.idle
              && forall l | l != s.idle[0] :: multiset(s'.idle)[l] == multiset(s.idle)[l]
            else if s.calls[c].runImmediately then
              s'.calls == s.calls[c := Chosen(created)] && s'.loopers == s.loopers[created := NEW_LOOPER]
            else s'.calls == s.calls - {c} && s'.loopers == s.loopers
  {
    if s.idle != [] { Removes(s.idle, s.idle[0]); }
  }

  lemma {:induction false} Removes(ids: seq<Id>, id: Id)
    ensures id !in Remove(ids, id)
    ensures forall l | l != id :: multiset(Remove(ids, id))[l] == multiset(ids)[l]
  {
    if ids != [] {
      Removes(ids[1..], id);
      assert ids == [ids[0]] + ids[1..];
    }
  }

  /** A chosen looper is triggered further only if it is idle; else the call gives up. */
  lemma WhoIsTested(s: Pool, c: Caller)
    requires Invariant(s) && c in s.calls && s.calls[c].Chosen?
    ensures Step(s, Test(c)).Some?
    ensures var l := s.calls[c].looper;
            l in s.loopers
            && Step(s, Test(c)).value
               == s.(calls := if s.loopers[l].state == Idle then s.calls[c := Tested(l)] else s.calls - {c})
  {
  }

  /** To begin with there are `n` loopers, numbered from 0, none of which has started. */
  lemma {:induction false} FirstLoopers(n: nat)
    ensures forall l: Id :: l in Initial(n).loopers <==> l < n
    ensures forall l <- Initial(n).loopers :: Initial(n).loopers[l] == NEW_LOOPER
  {
    if n > 0 {
      FirstLoopers(n - 1);
    }
  }
}
