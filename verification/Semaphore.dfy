/** The counting semaphore and the mutex of sys_arch.c. A semaphore stores its count plus one, so
    that zeroed memory is not a valid one; a failed LWIP_ASSERT ends the run. */
module Semaphore {
  import opened Basics
  import opened Mailbox

  /** One call of the waiting callback: the value it leaves in the semaphore, and its result. */
  datatype Visit = Visit(value: int, expectSomething: bool)

  datatype Acquired = Acquired(waited: nat) | TimedOut | StillWaiting | AssertFailed

  /** The visit at which an endless wait ends: the first that leaves a count, or fails a check. */
  function WakeAt(visits: seq<Visit>): (k: nat)
    ensures k <= |visits|
    ensures forall j :: 0 <= j < k ==> visits[j].value == 1 && !visits[j].expectSomething
    ensures k < |visits| ==> visits[k].value != 1 || visits[k].expectSomething
  {
    if visits == [] || visits[0].value != 1 || visits[0].expectSomething then 0
    else 1 + WakeAt(visits[1..])
  }

  class Sem {
    var sem: int

    ghost predicate Valid()
      reads this
    {
      sem > 0
    }

    ghost function Count(): int
      reads this
    {
      sem - 1
    }

    /** sys_sem_new. */
    constructor (count: nat)
      ensures Valid() && Count() == count
    {
      sem := count + 1;
    }

    /** sys_sem_signal. */
    method Signal()
      requires Valid()
      modifies this
      ensures Valid() && Count() == old(Count()) + 1
    {
      sem := sem + 1;
    }

    /** sys_arch_sem_wait: a success takes exactly one count from what the last callback left and
        reports fewer rounds than SYS_ARCH_TIMEOUT; a timeout takes nothing. */
    method Wait(timeout: nat, callback: Option<seq<Visit>>) returns (r: Acquired)
      requires Valid()
      modifies this
      ensures old(Count()) > 0 ==> r == Acquired(0) && Count() == old(Count()) - 1
      ensures old(Count()) == 0 && timeout == 0 ==>
        match callback
        case None => r == AssertFailed
        case Some(visits) =>
          var k := WakeAt(visits);
          if k == |visits| then r == StillWaiting && Count() == 0
          else if visits[k].value <= 1 then r == AssertFailed
          else r == Acquired(if k + 1 < 0xFFFF_FFFF then k + 1 else 0xFFFF_FFFE) && Count() == visits[k].value - 2
      ensures old(Count()) == 0 && timeout != 0 ==>
        if callback.None? then r == TimedOut && Count() == 0
        else if callback.value == [] then r == StillWaiting && Count() == 0
        else
          var v := callback.value[0];
          if v.value <= 0 || (v.expectSomething && v.value == 1) then r == AssertFailed
          else if v.value == 1 then r == TimedOut && Count() == 0
          else r == Acquired(1) && Count() == v.value - 2
      ensures r != AssertFailed ==> Valid()
      ensures r.Acquired? ==> r.waited < 0xFFFF_FFFF
    {
      var ret: nat := 0;
      if sem == 1 {
        if timeout == 0 {
          if callback.None? {
            return AssertFailed;
          }
          var visits := callback.value;
          var i := 0;
          while sem == 1 && i < |visits|
            invariant 0 <= i <= |visits| && sem > 0
            invariant sem == 1 ==> i <= WakeAt(visits) && ret == Min(i, SYS_ARCH_TIMEOUT - 1)
            invariant sem != 1 ==> i == WakeAt(visits) + 1 && sem == visits[i - 1].value
            invariant sem != 1 ==> ret == Min(i, SYS_ARCH_TIMEOUT - 1)
          {
            sem := visits[i].value;
            if sem <= 0 || (visits[i].expectSomething && sem <= 1) {
              return AssertFailed;
            }
            ret := ret + 1;
            if ret == SYS_ARCH_TIMEOUT {
              ret := ret - 1;
            }
            i := i + 1;
          }
          if sem == 1 {
            return StillWaiting;
          }
        } else {
          if callback.Some? {
            if callback.value == [] {
              return StillWaiting;
            }
            sem := callback.value[0].value;
            if callback.value[0].expectSomething && sem <= 1 {
              return AssertFailed;
            }
          }
          if sem <= 0 {
            return AssertFailed;
          }
          if sem == 1 {
            return TimedOut;
          }
          ret := 1;
        }
      }
      sem := sem - 1;
      r := Acquired(ret);
    }
  }

  // ---- The mutex: a counter that checks the pairing of lock and unlock ----

  datatype LockOp = Lock | Unlock

  class Mutex {
    var mutex: int

    constructor ()
      ensures mutex == 1
    {
      mutex := 1;
    }

    /** sys_mutex_lock and sys_mutex_unlock; false when an assertion fails. */
    method Do(op: LockOp) returns (ok: bool)
      modifies this
      ensures (ok, mutex) == MutexStep(old(mutex), op)
      ensures op == Lock ==> ok == (old(mutex) == 1) && mutex == if ok then 2 else old(mutex)
      ensures op == Unlock ==> ok == (old(mutex) >= 2) && mutex == if old(mutex) >= 1 then old(mutex) - 1 else old(mutex)
    {
      match op {
        case Lock =>
          if mutex != 1 {
            return false;
          }
          mutex := mutex + 1;
          ok := mutex >= 1;
        case Unlock =>
          if !(mutex >= 1) {
            return false;
          }
          mutex := mutex - 1;
          ok := mutex >= 1;
      }
    }
  }

  function MutexStep(m: int, op: LockOp): (bool, int) {
    match op
    case Lock => if m == 1 then (true, 2) else (false, m)
    case Unlock => if m >= 1 then (m - 1 >= 1, m - 1) else (false, m)
  }

  predicate Clean(m: int, ops: seq<LockOp>)
    decreases |ops|
  {
    ops == [] || (MutexStep(m, ops[0]).0 && Clean(MutexStep(m, ops[0]).1, ops[1..]))
  }

  /** From a new mutex a sequence passes every assertion exactly when it alternates, lock first. */
  lemma {:induction false} CleanIffPaired(ops: seq<LockOp>, locked: bool)
    ensures Clean(if locked then 2 else 1, ops)
            <==> forall i :: 0 <= i < |ops| ==> ops[i] == (if (i % 2 == 0) == locked then Unlock else Lock)
    decreases |ops|
  {
    if ops != [] {
      var first := if locked then Unlock else Lock;
      if ops[0] == first {
        CleanIffPaired(ops[1..], !locked);
        forall i | 0 <= i < |ops| - 1
          ensures ops[1..][i] == (if (i % 2 == 0) == !locked then Unlock else Lock)
                  <==> ops[i + 1] == (if ((i + 1) % 2 == 0) == locked then Unlock else Lock)
        {
          assert (i % 2 == 0) != ((i + 1) % 2 == 0);
        }
      }
    }
  }
}
