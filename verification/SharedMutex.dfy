/**
 `__shared_mutex_cv`: a reader/writer lock made of one state word, a mutex and two condition variables.
 Every stretch of code that holds the mutex is one step; waiting on a condition variable ends a step.
 Any number of threads take part; a thread is known by a number.
 */
module SharedMutex {
  import opened Optional

  /** _S_write_entered, the high bit of the state word, and _S_max_readers, all other bits. */
  const WRITE_ENTERED := 0x8000_0000
  const MAX_READERS := 0x7FFF_FFFF

  type Thread = nat

  /** Where a thread is. A thread in the wait set of a gate has no wake-up pending until it is `woken`. */
  datatype Phase =
    | WaitsAsWriter(woken: bool)   // at gate1, in lock
    | Queues(woken: bool)          // at gate2, in lock
    | WaitsAsReader(woken: bool)   // at gate1, in lock_shared
    | Writes                       // owns the lock
    | Reads                        // owns a share

  /** The state word, and the phase of every thread that is not outside the lock. */
  datatype State = State(word: nat, phases: map<Thread, Phase>)

  const INITIAL := State(0, map[])

  predicate WriteEntered(word: nat) {
    word >= WRITE_ENTERED
  }

  function Readers(word: nat): nat {
    if WriteEntered(word) then word - WRITE_ENTERED else word
  }

  predicate IsAt(s: State, t: Thread, p: Phase) {
    t in s.phases && s.phases[t] == p
  }

  function Enter(s: State, t: Thread, p: Phase, word: nat): State {
    State(word, s.phases[t := p])
  }

  function Leave(s: State, t: Thread, word: nat): State {
    State(word, s.phases - {t})
  }

  /** The wait set of gate1 is woken. */
  function NotifyAll(phases: map<Thread, Phase>): map<Thread, Phase> {
    map t | t in phases :: Wake(phases[t])
  }

  function Wake(p: Phase): Phase {
    match p
    case WaitsAsWriter(_) => WaitsAsWriter(true)
    case WaitsAsReader(_) => WaitsAsReader(true)
    case _ => p
  }

  /** The threads in a wait set that have no wake-up pending. */
  function Asleep1(phases: map<Thread, Phase>): set<Thread> {
    set t | t in phases && phases[t] in {WaitsAsWriter(false), WaitsAsReader(false)}
  }

  function Asleep2(phases: map<Thread, Phase>): set<Thread> {
    set t | t in phases && phases[t] == Queues(false)
  }

  /**
   `notify_one`: one of the sleeping threads, whichever the system picks, is woken; nothing happens if there is
   none.
   */
  predicate MayPick(asleep: set<Thread>, pick: Option<Thread>) {
    if asleep == {} then pick.None? else pick.Some? && pick.value in asleep
  }

  function WakePicked(phases: map<Thread, Phase>, pick: Option<Thread>): map<Thread, Phase>
    requires pick.Some? ==> pick.value in phases
  {
    if pick.None? then phases
    else
      var woken := match phases[pick.value]
                   case Queues(_) => Queues(true)
                   case p => Wake(p);
      phases[pick.value := woken]
  }

  /** A step: a critical section of one thread, or a spurious wake-up. */
  datatype Action =
    | Lock(t: Thread)                            // lock, from outside or woken at gate1
    | Dequeue(t: Thread)                         // lock, woken at gate2
    | TryLock(t: Thread, ownsMutex: bool)
    | Unlock(t: Thread)
    | LockShared(t: Thread)                      // lock_shared, from outside or woken at gate1
    | TryLockShared(t: Thread, ownsMutex: bool)
    | UnlockShared(t: Thread, pick: Option<Thread>)
    | Spurious(t: Thread)

  /** The state behind a step; None when the thread is not where the step begins. */
  function Step(s: State, a: Action): Option<State> {
    match a
    case Lock(t) =>
      if t in s.phases && s.phases[t] != WaitsAsWriter(true) then None
      else if WriteEntered(s.word) then Some(Enter(s, t, WaitsAsWriter(false), s.word))
      else if Readers(s.word) == 0 then Some(Enter(s, t, Writes, s.word + WRITE_ENTERED))
      else Some(Enter(s, t, Queues(false), s.word + WRITE_ENTERED))
    case Dequeue(t) =>
      if !IsAt(s, t, Queues(true)) then None
      else if Readers(s.word) == 0 then Some(Enter(s, t, Writes, s.word))
      else Some(Enter(s, t, Queues(false), s.word))
    case TryLock(t, ownsMutex) =>
      if t in s.phases then None
      else if ownsMutex && s.word == 0 then Some(Enter(s, t, Writes, WRITE_ENTERED))
      else Some(s)
    case Unlock(t) =>
      if !IsAt(s, t, Writes) then None
      else Some(State(0, NotifyAll(s.phases - {t})))
    case LockShared(t) =>
      if t in s.phases && s.phases[t] != WaitsAsReader(true) then None
      else if s.word < MAX_READERS then Some(Enter(s, t, Reads, s.word + 1))
      else Some(Enter(s, t, WaitsAsReader(false), s.word))
    case TryLockShared(t, ownsMutex) =>
      if t in s.phases then None
      else if ownsMutex && s.word < MAX_READERS then Some(Enter(s, t, Reads, s.word + 1))
      else Some(s)
    case UnlockShared(t, pick) =>
      if !IsAt(s, t, Reads) || s.word == 0 then None
      else
        var left := Leave(s, t, s.word - 1);
        if WriteEntered(left.word) then
          if Readers(left.word) == 0 then Picked(left, Asleep2(left.phases), pick) else Unpicked(left, pick)
        else if s.word == MAX_READERS then Picked(left, Asleep1(left.phases), pick)
        else Unpicked(left, pick)
    case Spurious(t) =>
      if t !in s.phases then None
      else
        match s.phases[t]
        case Queues(_) => Some(Enter(s, t, Queues(true), s.word))
        case p => Some(Enter(s, t, Wake(p), s.word))
  }

  function Picked(s: State, asleep: set<Thread>, pick: Option<Thread>): Option<State> {
    if MayPick(asleep, pick) && (pick.Some? ==> pick.value in s.phases)
    then Some(s.(phases := WakePicked(s.phases, pick)))
    else None
  }

  function Unpicked(s: State, pick: Option<Thread>): Option<State> {
    if pick.None? then Some(s) else None
  }

  /** A run: the state behind all steps; None when one of them could not be taken. */
  function Run(actions: seq<Action>): Option<State> {
    if actions == [] then Some(INITIAL)
    else
      var before := Run(actions[..|actions| - 1]);
      if before.None? then None else Step(before.value, actions[|actions| - 1])
  }
}
