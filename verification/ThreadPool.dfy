/**
 `CThreadPool`: callers push jobs on a queue and trigger loopers; loopers take jobs from the queue and run
 them. A step is what one thread does between two moments at which another one could get in. A looper holds
 its own mutex except while it waits, so a caller gets hold of it only then.
 Destruction, failures to create a thread and jobs that throw are left out.
 */
module ThreadPool {
  import opened Optional

  /** A job is known by its number in the order of submission. */
  type Job = nat
  type Id = nat
  type Caller = nat

  datatype LooperState = NotCreated | Exit | Busy | Idle

  /** Where a looper's thread is in `run_routin`. */
  datatype Pc =
    | Starting      // before the mutex is taken for the first time
    | AtBusy        // at the test of _is_job_
    | Running       // in the job
    | AtIdle        // about to load a job
    | Enrolling     // without a job, about to enter the idle list
    | Waiting       // on _wake_thread_, the mutex released

  datatype Looper = Looper(pc: Pc, state: LooperState, isJob: bool, func: Option<Job>)

  /** A call of `run_thread`: behind the push, behind the choice of a looper, behind the unlocked test of its state. */
  datatype Call = Pushed(runImmediately: bool) | Chosen(looper: Id) | Tested(looper: Id)

  datatype Pool = Pool(
    queue: seq<Job>,
    pushed: nat,
    finished: seq<Job>,
    loopers: map<Id, Looper>,
    idle: seq<Id>,
    calls: map<Caller, Call>)

  const NEW_LOOPER := Looper(Starting, NotCreated, false, None)

  /** The pool behind its constructor: `n` loopers, no job. */
  function Initial(n: nat): Pool {
    Pool([], 0, [], Created(n), [], map[])
  }

  function Created(n: nat): map<Id, Looper> {
    if n == 0 then map[] else Created(n - 1)[n - 1 := NEW_LOOPER]
  }

  /** `list::remove`: all occurrences. */
  function Remove(ids: seq<Id>, id: Id): seq<Id> {
    if ids == [] then []
    else if ids[0] == id then Remove(ids[1..], id)
    else [ids[0]] + Remove(ids[1..], id)
  }

  datatype Action =
    | Push(c: Caller, runImmediately: bool)   // push_runfunc
    | Choose(c: Caller, created: Id)            // the section under mtx_map_list
    | Test(c: Caller)                         // trig_run_func, before it locks
    | Trigger(c: Caller)                      // trig_run_func, under _mtx_wake_
    | Start(l: Id)
    | Begin(l: Id)                            // the test of _is_job_
    | Finish(l: Id)                           // a job ends, and the next is loaded
    | Load(l: Id)                             // IDLE: load a job
    | Enroll(l: Id)                           // push_looper, and wait
    | Wake(l: Id)                             // the wait ends, notified or not

  /** Put a looper's new state. */
  function With(s: Pool, l: Id, looper: Looper): Pool {
    s.(loopers := s.loopers[l := looper])
  }

  /** `pop_runfunc` into a looper's _run_func_; a job makes it busy at `pc`. */
  function PopInto(s: Pool, l: Id, looper: Looper, pc: Pc): Pool {
    if s.queue == [] then With(s, l, looper.(func := None))
    else With(s, l, Looper(pc, Busy, true, Some(s.queue[0]))).(queue := s.queue[1..])
  }

  predicate At(s: Pool, l: Id, pc: Pc) {
    l in s.loopers && s.loopers[l].pc == pc
  }

  /** The pool behind a step; None when the thread is not where the step begins. */
  function Step(s: Pool, a: Action): Option<Pool> {
    match a
    case Push(c, runImmediately) =>
      if c in s.calls then None
      else Some(s.(queue := s.queue + [s.pushed], pushed := s.pushed + 1,
                 calls := s.calls[c := Pushed(runImmediately)]))
    case Choose(c, created) =>
      if c !in s.calls || !s.calls[c].Pushed? || created in s.loopers then None
      else if s.idle != [] then
        var l := s.idle[0];
        if l !in s.loopers then Some(s.(calls := s.calls - {c}))     // logic_error: "There is a bug"
        else Some(s.(idle := Remove(s.idle, l), calls := s.calls[c := Chosen(l)]))
      else if s.calls[c].runImmediately then
        Some(With(s, created, NEW_LOOPER).(calls := s.calls[c := Chosen(created)]))
      else Some(s.(calls := s.calls - {c}))                          // logic_error: no looper; the job stays queued
    case Test(c) =>
      if c !in s.calls || !s.calls[c].Chosen? then None
      else
        var l := s.calls[c].looper;
        if l in s.loopers && s.loopers[l].state == Idle then Some(s.(calls := s.calls[c := Tested(l)]))
        else Some(s.(calls := s.calls - {c}))
    case Trigger(c) =>
      if c !in s.calls || !s.calls[c].Tested? || !At(s, s.calls[c].looper, Waiting) then None
      else
        var l := s.calls[c].looper;
        var done := s.(calls := s.calls - {c});
        if s.loopers[l].state == Idle then Some(PopInto(done, l, s.loopers[l], Waiting)) else Some(done)
    case Start(l) =>
      if At(s, l, Starting) then Some(With(s, l, s.loopers[l].(pc := AtBusy, state := Busy))) else None
    case Begin(l) =>
      if !At(s, l, AtBusy) then None
      else if s.loopers[l].isJob then Some(With(s, l, s.loopers[l].(pc := Running)))
      else Some(With(s, l, s.loopers[l].(pc := AtIdle, state := Idle)))
    case Finish(l) =>
      if !At(s, l, Running) || s.loopers[l].func.None? then None
      else
        var ended := s.(finished := s.finished + [s.loopers[l].func.value]);
        Some(PopInto(ended, l, Looper(AtIdle, Idle, false, None), Running))
    case Load(l) =>
      if At(s, l, AtIdle) then Some(PopInto(s, l, s.loopers[l].(pc := Enrolling), AtBusy)) else None
    case Enroll(l) =>
      if At(s, l, Enrolling) then Some(With(s, l, s.loopers[l].(pc := Waiting)).(idle := s.idle + [l])) else None
    case Wake(l) =>
      if !At(s, l, Waiting) then None
      else Some(With(s, l, s.loopers[l].(pc := if s.loopers[l].state == Idle then AtIdle else AtBusy)))
  }

  /** A run of a pool with `n` loopers to begin with. */
  function Run(n: nat, actions: seq<Action>): Option<Pool> {
    if actions == [] then Some(Initial(n))
    else
      var before := Run(n, actions[..|actions| - 1]);
      if before.None? then None else Step(before.value, actions[|actions| - 1])
  }
}
