/**
 `__shared_mutex_cv` as an object: its methods, each cut into the stretches that hold the mutex. What the
 system keeps, the wait sets and pending wake-ups of the two gates, is kept with each thread's phase.
 */
module SharedMutexObject {
  import opened Optional
  import opened SharedMutex
  import opened SharedMutexProof

  newtype uint32 = x: int | 0 <= x < 0x1_0000_0000

  const WRITE_ENTERED_BIT: uint32 := 0x8000_0000
  const MAX_READER_BITS: uint32 := 0x7FFF_FFFF

  class SharedMutexCv {
    var state: uint32                  // _M_state
    var phases: map<Thread, Phase>

    constructor ()
      ensures Current() == INITIAL && Invariant(Current())
    {
      state, phases := 0, map[];
      EveryRun([]);
    }

    ghost function Current(): State
      reads this
    {
      State(state as int, phases)
    }

    /** _M_write_entered. */
    predicate Entered()
      reads this
    {
      state / WRITE_ENTERED_BIT == 1
    }

    /** _M_readers. */
    function ReaderBits(): uint32
      reads this
    {
      state % WRITE_ENTERED_BIT
    }

    lemma Bits()
      ensures Entered() == WriteEntered(state as int) && ReaderBits() as int == Readers(state as int)
    {
    }

    /** `lock` up to the end of its first wait that does not succeed: entered from outside, or woken at gate1. */
    method Lock(t: Thread) returns (owns: bool)
      requires Invariant(Current()) && (t in phases ==> phases[t] == WaitsAsWriter(true))
      modifies this
      ensures Step(old(Current()), Action.Lock(t)) == Some(Current()) && Invariant(Current())
      ensures owns == IsAt(Current(), t, Writes)
    {
      hide Invariant;
      LockKeeps(Current(), t);
      Bits();
      owns := false;
      if Entered() {
        phases := phases[t := WaitsAsWriter(false)];
        return;
      }
      state := state + WRITE_ENTERED_BIT;
      Bits();
      if ReaderBits() == 0 {
        phases := phases[t := Writes];
        owns := true;
      } else {
        phases := phases[t := Queues(false)];
      }
    }

    /** `lock`, woken at gate2. */
    method Dequeue(t: Thread) returns (owns: bool)
      requires Invariant(Current()) && IsAt(Current(), t, Queues(true))
      modifies this
      ensures Step(old(Current()), Action.Dequeue(t)) == Some(Current()) && Invariant(Current())
      ensures owns == IsAt(Current(), t, Writes)
    {
      hide Invariant;
      DequeueKeeps(Current(), t);
      Bits();
      owns := ReaderBits() == 0;
      phases := phases[t := if owns then Writes else Queues(false)];
    }

    method TryLock(t: Thread, ownsMutex: bool) returns (owns: bool)
      requires Invariant(Current()) && t !in phases
      modifies this
      ensures Step(old(Current()), Action.TryLock(t, ownsMutex)) == Some(Current()) && Invariant(Current())
      ensures owns == IsAt(Current(), t, Writes)
    {
      hide Invariant;
      TryLockKeeps(Current(), t, ownsMutex);
      owns := ownsMutex && state == 0;
      if owns {
        state := WRITE_ENTERED_BIT;
        phases := phases[t := Writes];
      }
    }

    method Unlock(t: Thread)
      requires Invariant(Current()) && IsAt(Current(), t, Writes)
      modifies this
      ensures Step(old(Current()), Action.Unlock(t)) == Some(Current()) && Invariant(Current())
    {
      UnlockKeeps(Current(), t);
      state := 0;
      phases := phases - {t};
      phases := NotifyAll(phases);
    }

    /** `lock_shared` up to the end of a wait that does not succeed: entered from outside, or woken at gate1. */
    method LockShared(t: Thread) returns (owns: bool)
      requires Invariant(Current()) && (t in phases ==> phases[t] == WaitsAsReader(true))
      modifies this
      ensures Step(old(Current()), Action.LockShared(t)) == Some(Current()) && Invariant(Current())
      ensures owns == IsAt(Current(), t, Reads)
    {
      hide Invariant;
      LockSharedKeeps(Current(), t);
      owns := state < MAX_READER_BITS;
      if owns {
        state := state + 1;
      }
      phases := phases[t := if owns then Reads else WaitsAsReader(false)];
    }

    method TryLockShared(t: Thread, ownsMutex: bool) returns (owns: bool)
      requires Invariant(Current()) && t !in phases
      modifies this
      ensures Step(old(Current()), Action.TryLockShared(t, ownsMutex)) == Some(Current()) && Invariant(Current())
      ensures owns == IsAt(Current(), t, Reads)
    {
      hide Invariant;
      TryLockSharedKeeps(Current(), t, ownsMutex);
      owns := false;
      if !ownsMutex {
        return;
      }
      if state < MAX_READER_BITS {
        state := state + 1;
        phases := phases[t := Reads];
        owns := true;
      }
    }

    /** Which thread `notify_one` wakes is the system's choice; nobody is woken when nobody sleeps. */
    method NotifyOne(asleep: set<Thread>) returns (pick: Option<Thread>)
      requires asleep <= phases.Keys
      modifies this`phases
      ensures MayPick(asleep, pick) && (pick.Some? ==> pick.value in old(phases))
              && phases == WakePicked(old(phases), pick)
    {
      pick := None;
      if asleep != {} {
        var t :| t in asleep;
        pick := Some(t);
        phases := WakePicked(phases, pick);
      }
    }

    /** The assertion that there is a reader holds: `t` is one. */
    method UnlockShared(t: Thread) returns (pick: Option<Thread>)
      requires Invariant(Current()) && IsAt(Current(), t, Reads)
      modifies this
      ensures Step(old(Current()), Action.UnlockShared(t, pick)) == Some(Current()) && Invariant(Current())
    {
      hide Invariant, WordCounts;
      ReaderCounted(t);
      ghost var before := Current();
      pick := None;
      var prev := state;
      state := state - 1;
      phases := phases - {t};
      Bits();
      if Entered() {
        if ReaderBits() == 0 {
          pick := NotifyOne(Asleep2(phases));
        }
      } else if prev == MAX_READER_BITS {
        pick := NotifyOne(Asleep1(phases));
      }
      UnlockSharedKeeps(before, t, pick);
    }

    lemma ReaderCounted(t: Thread)
      requires Invariant(Current()) && IsAt(Current(), t, Reads)
      ensures state > 0
    {
      Membership(Current(), t);
    }
  }
}
