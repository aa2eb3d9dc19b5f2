/**
 `CThreadPool` and `OpenLOOPER` as objects: the pool's queue, idle list and looper map, and the fields of
 each looper, changed by one step of one thread at a time.
 */
module ThreadPoolObject {
  import opened Optional
  import opened ThreadPool
  import opened ThreadPoolProof

  class OpenLooper {
    var pc: Pc              // where its thread is
    var state: LooperState  // _state_
    var isJob: bool         // _is_job_
    var func: Option<Job>   // _run_func_

    constructor ()
      ensures Value() == NEW_LOOPER
    {
      pc, state, isJob, func := Starting, NotCreated, false, None;
    }

    function Value(): Looper
      reads this
    {
      Looper(pc, state, isJob, func)
    }
  }

  class CThreadPool {
    var queue: seq<Job>              // _q_runfunc_
    var idles: seq<Id>               // _idles_list_
    var thrMap: map<Id, OpenLooper>  // _thr_map_
    var calls: map<Caller, Call>     // the calls of run_thread in progress
    ghost var pushed: nat
    ghost var finished: seq<Job>

    /** No looper is in the map twice. */
    ghost predicate Separate()
      reads this
    {
      forall l <- thrMap, m <- thrMap :: l != m ==> thrMap[l] != thrMap[m]
    }

    ghost function Loopers(): map<Id, Looper>
      reads this, thrMap.Values
    {
      map l | l in thrMap :: thrMap[l].Value()
    }

    ghost function Current(): Pool
      reads this, thrMap.Values
    {
      Pool(queue, pushed, finished, Loopers(), idles, calls)
    }

    ghost predicate Valid()
      reads this, thrMap.Values
    {
      Separate() && Invariant(Current())
    }

    constructor (n: nat)
      ensures Valid() && Current() == Initial(n)
      ensures forall l <- thrMap :: fresh(thrMap[l])
    {
      queue, idles, thrMap, calls, pushed, finished := [], [], map[], map[], 0, [];
      new;
      var i := 0;
      assert Loopers() == Created(0);
      while i < n
        invariant i <= n && Separate() && (forall l <- thrMap :: fresh(thrMap[l]) && l < i) && Loopers() == Created(i)
        invariant queue == [] && idles == [] && calls == map[] && pushed == 0 && finished == []
        modifies this`thrMap
      {
        CreateLoop(i);
        i := i + 1;
      }
      InitialHolds(n);
    }

    /** `create_loop` and `create_loop_no_locker`. */
    method CreateLoop(l: Id)
      requires Separate() && l !in thrMap
      modifies this`thrMap
      ensures Separate() && thrMap.Keys == old(thrMap.Keys) + {l} && fresh(thrMap[l])
      ensures forall m <- old(thrMap) :: thrMap[m] == old(thrMap[m])
      ensures Loopers() == old(Loopers())[l := NEW_LOOPER]
    {
      var looper := new OpenLooper();
      thrMap := thrMap[l := looper];
      assert forall m <- old(thrMap) :: thrMap[m] == old(thrMap)[m];
      assert Loopers() == old(Loopers())[l := NEW_LOOPER];
    }

    /** `pop_runfunc`. */
    method PopRunFunc() returns (func: Option<Job>)
      modifies this`queue
      ensures if old(queue) == [] then func.None? && queue == []
              else func == Some(old(queue)[0]) && queue == old(queue)[1..]
    {
      func := None;
      if |queue| > 0 {
        func := Some(queue[0]);
        queue := queue[1..];
      }
    }

    /** The map of values when one looper has changed. */
    twostate lemma OneChanged(l: Id)
      requires old(Separate()) && thrMap == old(thrMap) && l in thrMap
      requires forall m <- thrMap :: m != l ==> thrMap[m].Value() == old(thrMap[m].Value())
      ensures Loopers() == old(Loopers())[l := thrMap[l].Value()]
    {
    }

    /** The map of values when no looper has changed. */
    twostate lemma Same()
      requires thrMap == old(thrMap) && forall m <- thrMap :: thrMap[m].Value() == old(thrMap[m].Value())
      ensures Loopers() == old(Loopers())
    {
    }

    // run_thread

    /** `push_runfunc`: the new job has the next number. */
    method Push(c: Caller, runImmediately: bool, job: Job)
      requires Valid() && c !in calls && job == pushed
      modifies this
      ensures Valid() && Step(old(Current()), Action.Push(c, runImmediately)) == Some(Current())
    {
      hide Invariant;
      StepKeeps(Current(), Action.Push(c, runImmediately));
      queue := queue + [job];
      pushed := pushed + 1;
      calls := calls[c := Pushed(runImmediately)];
      Same();
    }

    /** The section under mtx_map_list: the first idle looper, or a new one. False when it throws. */
    method Choose(c: Caller, created: Id) returns (found: bool)
      requires Valid() && c in calls && calls[c].Pushed? && created !in thrMap
      modifies this
      ensures Valid() && Step(old(Current()), Action.Choose(c, created)) == Some(Current())
      ensures found == (old(idles) != [] || old(calls[c]).runImmediately)
      ensures found ==> c in calls && calls[c].Chosen? && calls[c].looper in thrMap
    {
      hide Invariant;
      StepKeeps(Current(), Action.Choose(c, created));
      found := true;
      if |idles| > 0 {
        var l := idles[0];
        IdleKnown(Current());
        idles := Remove(idles, l);
        calls := calls[c := Chosen(l)];
        Same();
      } else if calls[c].runImmediately {
        CreateLoop(created);
        label Here:
        calls := calls[c := Chosen(created)];
        Same@Here();
      } else {
        found := false;
        calls := calls - {c};
        Same();
      }
    }

    /** The branch that reports "a bug about thread-unsafe" is never taken. */
    lemma IdleKnown(s: Pool)
      requires Invariant(s) && s.idle != []
      ensures s.idle[0] in s.loopers
    {
    }

    lemma ChosenKnown(s: Pool, c: Caller)
      requires Invariant(s) && c in s.calls && !s.calls[c].Pushed?
      ensures s.calls[c].looper in s.loopers
    {
    }

    /** `trig_run_func`, before it locks. */
    method Test(c: Caller) returns (goesOn: bool)
      requires Valid() && c in calls && calls[c].Chosen?
      modifies this
      ensures Valid() && Step(old(Current()), Action.Test(c)) == Some(Current())
    {
      hide Invariant;
      ChosenKnown(Current(), c);
      StepKeeps(Current(), Action.Test(c));
      var l := calls[c].looper;
      goesOn := thrMap[l].state == Idle;
      calls := if goesOn then calls[c := Tested(l)] else calls - {c};
      Same();
    }

    /** `trig_run_func` with the looper's mutex, which the looper has released by waiting. */
    method Trigger(c: Caller) returns (ret: bool)
      requires Valid() && c in calls && calls[c].Tested?
      requires calls[c].looper in thrMap && thrMap[calls[c].looper].pc == Waiting
      modifies this, thrMap.Values
      ensures Valid() && Step(old(Current()), Action.Trigger(c)) == Some(Current())
    {
      hide Invariant;
      StepKeeps(Current(), Action.Trigger(c));
      var l := calls[c].looper;
      var looper := thrMap[l];
      ret := false;
      calls := calls - {c};
      if looper.state == Idle {
        var func := PopRunFunc();
        looper.func := func;
        if func.Some? {
          looper.isJob := true;
          looper.state := Busy;
          ret := true;
        }
        OneChanged(l);
      } else {
        Same();
      }
    }

    // run_routin

    method Start(l: Id)
      requires Valid() && l in thrMap && thrMap[l].pc == Starting
      modifies this, thrMap.Values
      ensures Valid() && Step(old(Current()), Action.Start(l)) == Some(Current())
    {
      hide Invariant;
      StepKeeps(Current(), Action.Start(l));
      thrMap[l].state := Busy;
      thrMap[l].pc := AtBusy;
      OneChanged(l);
    }

    /** The test of _is_job_. */
    method Begin(l: Id)
      requires Valid() && l in thrMap && thrMap[l].pc == AtBusy
      modifies this, thrMap.Values
      ensures Valid() && Step(old(Current()), Action.Begin(l)) == Some(Current())
    {
      hide Invariant;
      StepKeeps(Current(), Action.Begin(l));
      if thrMap[l].isJob {
        thrMap[l].pc := Running;
      } else {
        thrMap[l].state := Idle;
        thrMap[l].pc := AtIdle;
      }
      OneChanged(l);
    }

    /** The job ends; the next one is loaded, or the looper becomes idle. */
    method Finish(l: Id)
      requires Valid() && l in thrMap && thrMap[l].pc == Running
      modifies this, thrMap.Values
      ensures Valid() && Step(old(Current()), Action.Finish(l)) == Some(Current())
      ensures old(thrMap[l].func).Some? && finished == old(finished) + [old(thrMap[l].func).value]
    {
      hide Invariant;
      Fine(Current(), l);
      StepKeeps(Current(), Action.Finish(l));
      finished := finished + [thrMap[l].func.value];
      var func := PopRunFunc();
      thrMap[l].func := func;
      if func.None? {
        thrMap[l].isJob := false;
        thrMap[l].state := Idle;
        thrMap[l].pc := AtIdle;
      }
      OneChanged(l);
    }

    /** In the idle state: load a job. */
    method Load(l: Id)
      requires Valid() && l in thrMap && thrMap[l].pc == AtIdle
      modifies this, thrMap.Values
      ensures Valid() && Step(old(Current()), Action.Load(l)) == Some(Current())
    {
      hide Invariant;
      StepKeeps(Current(), Action.Load(l));
      var func := PopRunFunc();
      thrMap[l].func := func;
      if func.Some? {
        thrMap[l].state := Busy;
        thrMap[l].isJob := true;
        thrMap[l].pc := AtBusy;
      } else {
        thrMap[l].pc := Enrolling;
      }
      OneChanged(l);
    }

    /** `push_looper`, and the wait begins. */
    method Enroll(l: Id)
      requires Valid() && l in thrMap && thrMap[l].pc == Enrolling
      modifies this, thrMap.Values
      ensures Valid() && Step(old(Current()), Action.Enroll(l)) == Some(Current())
    {
      hide Invariant;
      StepKeeps(Current(), Action.Enroll(l));
      idles := idles + [l];
      thrMap[l].pc := Waiting;
      OneChanged(l);
    }

    /** The wait ends, notified or spuriously. */
    method Wake(l: Id)
      requires Valid() && l in thrMap && thrMap[l].pc == Waiting
      modifies this, thrMap.Values
      ensures Valid() && Step(old(Current()), Action.Wake(l)) == Some(Current())
    {
      hide Invariant;
      StepKeeps(Current(), Action.Wake(l));
      thrMap[l].pc := if thrMap[l].state == Idle then AtIdle else AtBusy;
      OneChanged(l);
    }
  }
}
