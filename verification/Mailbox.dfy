/** The mailbox of sys_arch.c: a circular buffer that must behave as a queue, with re-entrant
    waits. A failed LWIP_ASSERT ends the run; asserts says whether the build checks them. */
module Mailbox {
  import opened Basics
  import RingSlots

  const SYS_ARCH_TIMEOUT: nat := 0xFFFF_FFFF
  const DEFAULT_SIZE: nat := 1024

  type Msg = nat   // a pointer

  const NULL: Msg := 0

  datatype Op = Post(m: Msg) | TryPost(m: Msg) | TryFetch

  /** Broken: an assertion failed, or a build without assertions overran a full mailbox. */
  datatype Reply = Ok | ErrMem | Got(m: Msg) | Empty | Broken

  // ---- The queue the mailbox stands for ----

  /** With assertions on, the last slot cannot be used: a head that has caught up with the tail is
      taken for a full mailbox. */
  function Capacity(size: nat, asserts: bool): nat {
    if asserts && size > 0 then size - 1 else size
  }

  function Fifo(q: seq<Msg>, size: nat, asserts: bool, op: Op): (r: (seq<Msg>, Reply)) {
    match op
    case Post(m) =>
      if |q| >= Capacity(size, asserts) then (q, Broken) else (q + [m], Ok)
    case TryPost(m) =>
      if |q| == size then (q, ErrMem)
      else if |q| >= Capacity(size, asserts) then (q, Broken) else (q + [m], Ok)
    case TryFetch =>
      if q == [] then (q, Empty) else (q[1..], Got(q[0]))
  }

  /** A run of operations from queue q: the final queue and the replies, up to a broken one. */
  function FifoRun(q: seq<Msg>, size: nat, asserts: bool, ops: seq<Op>): (r: (seq<Msg>, seq<Reply>))
    decreases |ops|
  {
    if ops == [] then (q, [])
    else
      var (q1, reply) := Fifo(q, size, asserts, ops[0]);
      if reply == Broken then (q1, [Broken])
      else var (q2, replies) := FifoRun(q1, size, asserts, ops[1..]); (q2, [reply] + replies)
  }

  /** The messages a run accepted, and those it delivered, in order. */
  function Accepted(ops: seq<Op>, replies: seq<Reply>): seq<Msg> {
    if ops == [] || replies == [] then []
    else (if !ops[0].TryFetch? && replies[0] == Ok then [ops[0].m] else []) + Accepted(ops[1..], replies[1..])
  }

  function Delivered(replies: seq<Reply>): seq<Msg> {
    if replies == [] then [] else (if replies[0].Got? then [replies[0].m] else []) + Delivered(replies[1..])
  }

  /** Conservation: over any run, what was queued and what was accepted is what was delivered and
      what is still queued, in the same order. */
  lemma {:induction false} NothingLostOrReordered(q: seq<Msg>, size: nat, asserts: bool, ops: seq<Op>)
    ensures var r := FifoRun(q, size, asserts, ops);
            q + Accepted(ops, r.1) == Delivered(r.1) + r.0
    decreases |ops|
  {
    if ops != [] {
      var (q1, reply) := Fifo(q, size, asserts, ops[0]);
      if reply == Broken {
        assert Accepted(ops, [Broken]) == [] by { assert [Broken][1..] == []; }
        assert Delivered([Broken]) == [] by { assert [Broken][1..] == []; }
      } else {
        NothingLostOrReordered(q1, size, asserts, ops[1..]);
        var (q2, replies) := FifoRun(q1, size, asserts, ops[1..]);
        FirstReply(q, q1, ops, reply, replies, size, asserts);
        var del := if reply.Got? then [reply.m] else [];
        assert (del + Delivered(replies)) + q2 == del + (Delivered(replies) + q2);
      }
    }
  }

  lemma {:induction false} FirstReply(q: seq<Msg>, q1: seq<Msg>, ops: seq<Op>, reply: Reply, replies: seq<Reply>, size: nat, asserts: bool)
    requires ops != [] && Fifo(q, size, asserts, ops[0]) == (q1, reply) && reply != Broken
    ensures q + Accepted(ops, [reply] + replies)
            == (if reply.Got? then [reply.m] else []) + (q1 + Accepted(ops[1..], replies))
    ensures Delivered([reply] + replies) == (if reply.Got? then [reply.m] else []) + Delivered(replies)
  {
    assert ([reply] + replies)[1..] == replies;
    var acc := Accepted(ops[1..], replies);
    assert Accepted(ops, [reply] + replies) == (if !ops[0].TryFetch? && reply == Ok then [ops[0].m] else []) + acc;
    if reply == Ok {
      assert q + ([ops[0].m] + acc) == (q + [ops[0].m]) + acc;
    } else if reply.Got? {
      assert q + acc == [q[0]] + (q[1..] + acc);
    }
  }

  /** Runs hold at most the capacity, with assertions on they never see ERR_MEM, and a broken run
      ends where it breaks. */
  lemma {:induction false} CapacityKept(q: seq<Msg>, size: nat, asserts: bool, ops: seq<Op>)
    requires size > 0 && |q| <= Capacity(size, asserts)
    ensures var r := FifoRun(q, size, asserts, ops);
            && |r.0| <= Capacity(size, asserts)
            && |r.1| <= |ops| && (asserts ==> ErrMem !in r.1)
            && (Broken !in r.1 ==> |r.1| == |ops|)
            && (forall k :: 0 <= k < |r.1| && r.1[k] == Broken ==> k == |r.1| - 1)
    decreases |ops|
  {
    if ops != [] {
      var (q1, reply) := Fifo(q, size, asserts, ops[0]);
      if reply != Broken {
        CapacityKept(q1, size, asserts, ops[1..]);
        var (q2, replies) := FifoRun(q1, size, asserts, ops[1..]);
        if Broken in replies {
          InTail(reply, replies);
        }
      }
    }
  }

  lemma InTail(reply: Reply, replies: seq<Reply>)
    ensures Broken in [reply] + replies <==> reply == Broken || Broken in replies
  {
    if Broken in replies {
      var k :| 0 <= k < |replies| && replies[k] == Broken;
      assert ([reply] + replies)[k + 1] == Broken;
    }
  }

  /** Operation k comes while nothing is broken, and is a post that finds the capacity used up.
      Without assertions sys_mbox_trypost refuses instead. */
  predicate PostAtCapacity(q: seq<Msg>, size: nat, asserts: bool, ops: seq<Op>, k: nat)
    requires k < |ops|
  {
    var (before, replies) := FifoRun(q, size, asserts, ops[..k]);
    Broken !in replies && (ops[k].Post? || (ops[k].TryPost? && asserts)) && |before| == Capacity(size, asserts)
  }

  lemma LaterPost(q: seq<Msg>, size: nat, asserts: bool, ops: seq<Op>, k: nat)
    requires 0 < k < |ops|
    ensures var (q1, reply) := Fifo(q, size, asserts, ops[0]);
            PostAtCapacity(q, size, asserts, ops, k)
            <==> reply != Broken && PostAtCapacity(q1, size, asserts, ops[1..], k - 1)
  {
    var (q1, reply) := Fifo(q, size, asserts, ops[0]);
    assert ops[..k][1..] == ops[1..][..k - 1];
    InTail(reply, FifoRun(q1, size, asserts, ops[1..][..k - 1]).1);
    hide Fifo;
  }

  lemma {:induction false} BrokenIffPostAtCapacity(q: seq<Msg>, size: nat, asserts: bool, ops: seq<Op>)
    requires size > 0 && |q| <= Capacity(size, asserts)
    ensures Broken in FifoRun(q, size, asserts, ops).1
            <==> exists k :: 0 <= k < |ops| && PostAtCapacity(q, size, asserts, ops, k)
    decreases |ops|
  {
    if ops != [] {
      var (q1, reply) := Fifo(q, size, asserts, ops[0]);
      assert FifoRun(q, size, asserts, ops[..0]) == (q, []);
      assert reply == Broken <==> PostAtCapacity(q, size, asserts, ops, 0);
      InTail(reply, FifoRun(q1, size, asserts, ops[1..]).1);
      hide PostAtCapacity;
      if reply != Broken {
        BrokenIffPostAtCapacity(q1, size, asserts, ops[1..]);
      }
      forall k | 0 < k < |ops|
        ensures PostAtCapacity(q, size, asserts, ops, k)
                <==> reply != Broken && PostAtCapacity(q1, size, asserts, ops[1..], k - 1)
      {
        LaterPost(q, size, asserts, ops, k);
      }
      if k :| 0 <= k < |ops[1..]| && PostAtCapacity(q1, size, asserts, ops[1..], k) && reply != Broken {
        assert PostAtCapacity(q, size, asserts, ops, k + 1);
      }
    }
  }

  /** A mailbox holds at most its capacity, size - 1 with assertions on, and a run breaks exactly if
      some post finds that many messages queued; with assertions on ERR_MEM is never seen. */
  lemma EffectiveCapacity(q: seq<Msg>, size: nat, asserts: bool, ops: seq<Op>)
    requires size > 0 && |q| <= Capacity(size, asserts)
    ensures var r := FifoRun(q, size, asserts, ops);
            && |r.0| <= (if asserts then size - 1 else size)
            && |r.1| <= |ops| && (asserts ==> ErrMem !in r.1)
            && (Broken !in r.1 ==> |r.1| == |ops|)
            && (forall k :: 0 <= k < |r.1| && r.1[k] == Broken ==> k == |r.1| - 1)
            && (Broken in r.1 <==> exists k :: 0 <= k < |ops| && PostAtCapacity(q, size, asserts, ops, k))
  {
    CapacityKept(q, size, asserts, ops);
    BrokenIffPostAtCapacity(q, size, asserts, ops);
    hide FifoRun, PostAtCapacity;
  }

  /** The run from operation i, taken one operation further. */
  lemma RunFrom(q: seq<Msg>, size: nat, asserts: bool, ops: seq<Op>, i: nat, replies: seq<Reply>)
    requires i < |ops|
    ensures var (q1, r) := Fifo(q, size, asserts, ops[i]);
            var (rest, tail) := FifoRun(q, size, asserts, ops[i..]);
            if r == Broken then (rest, tail) == (q1, [Broken])
            else rest == FifoRun(q1, size, asserts, ops[i + 1..]).0
                 && replies + tail == (replies + [r]) + FifoRun(q1, size, asserts, ops[i + 1..]).1
  {
    assert ops[i..][1..] == ops[i + 1..];
  }

  // ---- What a wait sees ----

  /** One call of the waiting callback: what it does with the mailbox, and its return value. */
  datatype Visit = Visit(ops: seq<Op>, expectSomething: bool)

  datatype Waited = Woken(rounds: nat, q: seq<Msg>) | Asleep(q: seq<Msg>) | Failed

  /** The endless wait, watched for as many callbacks as visits lists. */
  function WaitLoop(q: seq<Msg>, size: nat, asserts: bool, visits: seq<Visit>): (w: Waited)
    ensures w.Woken? ==> 0 < w.rounds <= |visits| && w.q != []
    decreases |visits|
  {
    if visits == [] then Asleep(q)
    else
      var (q1, replies) := FifoRun(q, size, asserts, visits[0].ops);
      if Broken in replies || (asserts && visits[0].expectSomething && q1 == []) then Failed
      else if q1 != [] then Woken(1, q1)
      else match WaitLoop(q1, size, asserts, visits[1..])
        case Woken(rounds, q2) => Woken(rounds + 1, q2)
        case w => w
  }

  /** Waiting: the callbacks watched do not end the call. NotRun: an assertion failed. */
  datatype Fetched = Message(waited: nat, m: Msg) | Timeout | Waiting | NotRun

  /** Ring positions below two laps. */
  function Wrap(k: nat, size: nat): nat
    requires k < 2 * size
  {
    if k < size then k else k - size
  }

  lemma WrapIsMod(k: nat, size: nat)
    requires k < 2 * size
    ensures Wrap(k, size) == k % size
  {
    if k < size {
      RingSlots.DivModUnique(k, size, 0, k);
    } else {
      RingSlots.DivModUnique(k, size, 1, k - size);
    }
  }

  // ---- The circular buffer ----

  /** The messages in used slots from tail on. */
  function Window(mem: seq<Msg>, tail: nat, used: nat): (q: seq<Msg>)
    requires tail < |mem| && used <= |mem|
    ensures |q| == used
  {
    seq(used, i requires 0 <= i < used => mem[Wrap(tail + i, |mem|)])
  }

  lemma WindowGrows(mem: seq<Msg>, tail: nat, used: nat, m: Msg)
    requires tail < |mem| && used < |mem|
    ensures Window(mem[Wrap(tail + used, |mem|) := m], tail, used + 1) == Window(mem, tail, used) + [m]
    ensures Wrap(tail + used, |mem|) + 1 < |mem| ==> Wrap(tail + used, |mem|) + 1 == Wrap(tail + (used + 1), |mem|)
    ensures Wrap(tail + used, |mem|) + 1 == |mem| ==> Wrap(tail + (used + 1), |mem|) == 0
  {
    var slot := Wrap(tail + used, |mem|);
    forall i | 0 <= i < used + 1
      ensures Window(mem[slot := m], tail, used + 1)[i] == (Window(mem, tail, used) + [m])[i]
    {
      assert i < used ==> Wrap(tail + i, |mem|) != slot;
    }
  }

  lemma WindowShrinks(mem: seq<Msg>, tail: nat, used: nat)
    requires tail < |mem| && 0 < used <= |mem|
    ensures Window(mem, tail, used)[0] == mem[tail]
    ensures Window(mem, Wrap(tail + 1, |mem|), used - 1) == Window(mem, tail, used)[1..]
    ensures Wrap(Wrap(tail + 1, |mem|) + (used - 1), |mem|) == Wrap(tail + used, |mem|)
  {
    assert Window(mem, tail, used)[0] == mem[Wrap(tail + 0, |mem|)];
    var next := Wrap(tail + 1, |mem|);
    forall i | 0 <= i < used - 1
      ensures Window(mem, next, used - 1)[i] == Window(mem, tail, used)[1..][i]
    {
      assert Wrap(next + i, |mem|) == Wrap(tail + (i + 1), |mem|);
      assert Window(mem, tail, used)[i + 1] == mem[Wrap(tail + (i + 1), |mem|)];
    }
  }

  /** After a post the head meets the tail exactly if the last slot was taken. */
  lemma CaughtUp(tail: nat, used: nat, size: nat)
    requires tail < size && used < size
    ensures Wrap(tail + (used + 1), size) == tail <==> used + 1 == size
  {
  }

  class Mbox {
    const mem: array<Msg>
    var head: nat
    var tail: nat
    var used: nat
    const size: nat
    const asserts: bool

    ghost predicate Valid()
      reads this
    {
      && size > 0 && mem.Length == size
      && head < size && tail < size && used <= Capacity(size, asserts)
      && head == Wrap(tail + used, size)
    }

    /** The queued messages, oldest first. */
    ghost function Contents(): (q: seq<Msg>)
      requires Valid()
      reads this, mem
      ensures |q| == used
    {
      Window(mem[..], tail, used)
    }

    /** head is (tail + used) mod size, and message i lies at (tail + i) mod size. */
    lemma RingPositions()
      requires Valid()
      ensures head == (tail + used) % size
      ensures forall i :: 0 <= i < used ==> Contents()[i] == mem[(tail + i) % size]
    {
      WrapIsMod(tail + used, size);
      forall i | 0 <= i < used
        ensures Contents()[i] == mem[(tail + i) % size]
      {
        WrapIsMod(tail + i, size);
      }
    }

    /** sys_mbox_new. */
    constructor (requested: nat, asserts: bool)
      ensures Valid() && fresh(mem) && Contents() == [] && this.asserts == asserts
      ensures size == if requested == 0 then 1024 else requested
    {
      var mboxsize := if requested == 0 then DEFAULT_SIZE else requested;
      head, tail, used := 0, 0, 0;
      size := mboxsize;
      mem := new Msg[mboxsize](_ => 0);
      this.asserts := asserts;
    }

    /** sys_mbox_post: Ok exactly when the messages queued before were fewer than the capacity. */
    method Post(m: Msg) returns (r: Reply)
      requires Valid()
      modifies this, mem
      ensures r == Fifo(old(Contents()), size, asserts, Op.Post(m)).1
      ensures r == Ok ==> Valid() && Contents() == old(Contents()) + [m]
      ensures r == Ok <==> |old(Contents())| < if asserts then size - 1 else size
    {
      ghost var mem0, slot := mem[..], head;
      if used < size {
        WindowGrows(mem0, tail, used, m);
        CaughtUp(tail, used, size);
      }
      hide Window, Wrap;
      mem[head] := m;
      head := head + 1;
      if head >= size {
        head := 0;
      }
      if asserts && head == tail {
        return Broken;
      }
      used := used + 1;
      r := if used > size then Broken else Ok;
      assert mem[..] == mem0[slot := m];
    }

    /** sys_mbox_trypost. */
    method TryPost(m: Msg) returns (r: Reply)
      requires Valid()
      modifies this, mem
      ensures r == Fifo(old(Contents()), size, asserts, Op.TryPost(m)).1
      ensures r == Ok <==> |old(Contents())| < if asserts then size - 1 else size
      ensures r == ErrMem <==> |old(Contents())| == size
      ensures r != Broken ==> Valid() && Contents() == Fifo(old(Contents()), size, asserts, Op.TryPost(m)).0
      ensures r == Ok ==> Contents() == old(Contents()) + [m]
      ensures r == ErrMem ==> Contents() == old(Contents())
    {
      if used == size {
        return ErrMem;
      }
      r := Post(m);
    }

    /** sys_arch_mbox_tryfetch. With msg NULL, that is, wanted false, the message is taken off the
        queue and dropped; out is what is stored through msg. */
    method TryFetch(wanted: bool) returns (r: Reply, out: Option<Msg>)
      requires Valid()
      modifies this
      ensures Valid()
      ensures (Contents(), r) == Fifo(old(Contents()), size, asserts, Op.TryFetch)
      ensures old(Contents()) == [] ==> r == Empty && Contents() == []
      ensures old(Contents()) != [] ==> r == Got(old(Contents())[0]) && Contents() == old(Contents())[1..]
      ensures out == if wanted && r.Got? then Some(r.m) else None
    {
      out := None;
      if used == 0 {
        return Empty, out;
      }
      WindowShrinks(mem[..], tail, used);
      r := Got(mem[tail]);
      if wanted {
        out := Some(mem[tail]);
      }
      tail := tail + 1;
      if tail >= size {
        tail := 0;
      }
      used := used - 1;
    }

    method Do(op: Op) returns (r: Reply)
      requires Valid()
      modifies this, mem
      ensures r == Fifo(old(Contents()), size, asserts, op).1
      ensures r != Broken ==> Valid() && Contents() == Fifo(old(Contents()), size, asserts, op).0
    {
      match op {
        case Post(m) => r := Post(m);
        case TryPost(m) => r := TryPost(m);
        case TryFetch => var out; r, out := TryFetch(true);
      }
    }

    /** One call of the waiting callback. */
    method CallBack(v: Visit) returns (broken: bool)
      requires Valid()
      modifies this, mem
      ensures broken <==> Broken in FifoRun(old(Contents()), size, asserts, v.ops).1
      ensures !broken ==> Valid() && Contents() == FifoRun(old(Contents()), size, asserts, v.ops).0
    {
      var i := 0;
      ghost var q0 := Contents();
      ghost var replies: seq<Reply> := [];
      assert v.ops[0..] == v.ops;
      assert [] + FifoRun(q0, size, asserts, v.ops).1 == FifoRun(q0, size, asserts, v.ops).1;
      hide Fifo, FifoRun;
      while i < |v.ops|
        invariant 0 <= i <= |v.ops| && Valid() && Broken !in replies
        invariant FifoRun(q0, size, asserts, v.ops)
          == (FifoRun(Contents(), size, asserts, v.ops[i..]).0,
              replies + FifoRun(Contents(), size, asserts, v.ops[i..]).1)
      {
        RunFrom(Contents(), size, asserts, v.ops, i, replies);
        var r := Do(v.ops[i]);
        if r == Broken {
          return true;
        }
        replies := replies + [r];
        i := i + 1;
      }
      return false;
    }

    /** The do-while loop of an endless wait; Asleep when the callbacks watched brought nothing. */
    method WaitForMessage(visits: seq<Visit>) returns (ret: nat, woken: bool, failed: bool)
      requires Valid() && used == 0
      modifies this, mem
      ensures var w := WaitLoop(old(Contents()), size, asserts, visits);
        && failed == w.Failed? && woken == w.Woken?
        && (!failed ==> Valid() && Contents() == w.q)
        && (woken ==> ret == Min(w.rounds, SYS_ARCH_TIMEOUT - 1))
    {
      ret, woken, failed := 0, false, false;
      var i := 0;
      ghost var q0 := Contents();
      while i < |visits|
        invariant 0 <= i <= |visits| && Valid() && used == 0 && !woken && !failed
        invariant ret == Min(i, SYS_ARCH_TIMEOUT - 1)
        invariant WaitLoop(q0, size, asserts, visits) == match WaitLoop([], size, asserts, visits[i..])
          case Woken(rounds, q) => Woken(rounds + i, q)
          case w => w
      {
        assert Contents() == [];
        assert visits[i..][1..] == visits[i + 1..];
        failed := CallBack(visits[i]);
        if failed || (asserts && visits[i].expectSomething && used == 0) {
          failed := true;
          return;
        }
        ret := ret + 1;
        if ret == SYS_ARCH_TIMEOUT {
          ret := ret - 1;
        }
        if used != 0 {
          woken := true;
          return;
        }
        assert Contents() == [];
        i := i + 1;
      }
      assert Contents() == [];
    }

    /** sys_arch_mbox_fetch. The waiting callback is None or its successive visits. */
    method Fetch(timeout: nat, callback: Option<seq<Visit>>, wanted: bool) returns (r: Fetched, out: Option<Msg>)
      requires Valid()
      modifies this, mem
      ensures r == FetchSpec(old(Contents()), size, asserts, timeout, callback).0
      ensures out == if !wanted then None else match r
        case Message(_, m) => Some(m)
        case Timeout => Some(NULL)
        case _ => None
      ensures r != NotRun ==> Valid()
      ensures r != NotRun ==> Contents() == FetchSpec(old(Contents()), size, asserts, timeout, callback).1
    {
      var ret := 0;
      out := None;
      if used == 0 {
        assert Contents() == [];
        if timeout == 0 {
          if callback.None? {
            return NotRun, out;
          }
          var woken, failed;
          ret, woken, failed := WaitForMessage(callback.value);
          if failed {
            return NotRun, out;
          } else if !woken {
            return Waiting, out;
          }
        } else {
          if callback.Some? {
            if callback.value == [] {
              return Waiting, out;
            }
            var failed := CallBack(callback.value[0]);
            if failed || (asserts && callback.value[0].expectSomething && used == 0) {
              return NotRun, out;
            }
          }
          if used == 0 {
            assert Contents() == [];
            if wanted {
              out := Some(NULL);
            }
            return Timeout, out;
          }
          ret := 1;
        }
      }
      var m;
      m, out := TryFetch(wanted);
      assert m.Got?;
      r := Message(ret, m.m);
    }
  }

  /** What a fetch returns and leaves in the queue. */
  function FetchSpec(q: seq<Msg>, size: nat, asserts: bool, timeout: nat, callback: Option<seq<Visit>>)
    : (r: (Fetched, seq<Msg>))
  {
    if q != [] then (Message(0, q[0]), q[1..])
    else if timeout == 0 then
      if callback.None? then (NotRun, q)
      else match WaitLoop(q, size, asserts, callback.value)
        case Woken(rounds, q1) => (Message(Min(rounds, SYS_ARCH_TIMEOUT - 1), q1[0]), q1[1..])
        case Asleep(q1) => (Waiting, q1)
        case Failed => (NotRun, q)
    else if callback.None? then (Timeout, q)
    else if callback.value == [] then (Waiting, q)
    else
      var v := callback.value[0];
      var (q1, replies) := FifoRun(q, size, asserts, v.ops);
      if Broken in replies || (asserts && v.expectSomething && q1 == []) then (NotRun, q1)
      else if q1 == [] then (Timeout, q1)
      else (Message(1, q1[0]), q1[1..])
  }

  /** The queue after the first k visits of the callback. */
  function QueueAfter(q: seq<Msg>, size: nat, asserts: bool, visits: seq<Visit>, k: nat): seq<Msg>
    requires k <= |visits|
  {
    if k == 0 then q else FifoRun(QueueAfter(q, size, asserts, visits, k - 1), size, asserts, visits[k - 1].ops).0
  }

  lemma {:induction false} QueueAfterFirst(q: seq<Msg>, size: nat, asserts: bool, visits: seq<Visit>, k: nat)
    requires 0 < k <= |visits|
    ensures QueueAfter(q, size, asserts, visits, k)
            == QueueAfter(FifoRun(q, size, asserts, visits[0].ops).0, size, asserts, visits[1..], k - 1)
  {
    if k > 1 { QueueAfterFirst(q, size, asserts, visits, k - 1); }
  }

  /** The endless wait stops at the first visit that leaves a message. */
  lemma {:induction false} WokenAtFirstMessage(q: seq<Msg>, size: nat, asserts: bool, visits: seq<Visit>)
    requires q == [] && WaitLoop(q, size, asserts, visits).Woken?
    ensures var w := WaitLoop(q, size, asserts, visits);
            && w.rounds <= |visits| && w.q == QueueAfter(q, size, asserts, visits, w.rounds) != []
            && forall j :: 0 <= j < w.rounds ==> QueueAfter(q, size, asserts, visits, j) == []
    decreases |visits|
  {
    var q1 := FifoRun(q, size, asserts, visits[0].ops).0;
    var w := WaitLoop(q, size, asserts, visits);
    QueueAfterFirst(q, size, asserts, visits, w.rounds);
    if q1 == [] {
      WokenAtFirstMessage(q1, size, asserts, visits[1..]);
      forall j | 0 <= j < w.rounds
        ensures QueueAfter(q, size, asserts, visits, j) == []
      {
        if j > 0 { QueueAfterFirst(q, size, asserts, visits, j); }
      }
    }
  }

  // What ends a wait: the first visit that fails a check or leaves a message.

  ghost predicate LeavesAt(q: seq<Msg>, size: nat, asserts: bool, visits: seq<Visit>, k: nat)
    requires k < |visits|
  {
    QueueAfter(q, size, asserts, visits, k + 1) != []
  }

  ghost predicate FailsAt(q: seq<Msg>, size: nat, asserts: bool, visits: seq<Visit>, k: nat)
    requires k < |visits|
  {
    || Broken in FifoRun(QueueAfter(q, size, asserts, visits, k), size, asserts, visits[k].ops).1
    || (asserts && visits[k].expectSomething && QueueAfter(q, size, asserts, visits, k + 1) == [])
  }

  /** The first k visits leave the queue empty and fail no check. */
  ghost predicate Quiet(q: seq<Msg>, size: nat, asserts: bool, visits: seq<Visit>, k: nat)
    requires k <= |visits|
  {
    forall j :: 0 <= j < k ==> !LeavesAt(q, size, asserts, visits, j) && !FailsAt(q, size, asserts, visits, j)
  }

  /** Seen from after the first visit, everything happens one visit earlier. */
  lemma OneVisitOn(q: seq<Msg>, size: nat, asserts: bool, visits: seq<Visit>, k: nat)
    requires k + 1 < |visits|
    ensures var q1 := FifoRun(q, size, asserts, visits[0].ops).0;
            && LeavesAt(q, size, asserts, visits, k + 1) == LeavesAt(q1, size, asserts, visits[1..], k)
            && FailsAt(q, size, asserts, visits, k + 1) == FailsAt(q1, size, asserts, visits[1..], k)
            && QueueAfter(q, size, asserts, visits, k + 2) == QueueAfter(q1, size, asserts, visits[1..], k + 1)
  {
    QueueAfterFirst(q, size, asserts, visits, k + 1);
    QueueAfterFirst(q, size, asserts, visits, k + 2);
    hide FifoRun, QueueAfter;
  }

  lemma QuietOn(q: seq<Msg>, size: nat, asserts: bool, visits: seq<Visit>, k: nat)
    requires k < |visits| && Quiet(q, size, asserts, visits, 1)
    ensures Quiet(q, size, asserts, visits, k + 1)
            <==> Quiet(FifoRun(q, size, asserts, visits[0].ops).0, size, asserts, visits[1..], k)
  {
    hide FifoRun, QueueAfter, LeavesAt, FailsAt;
    var q1 := FifoRun(q, size, asserts, visits[0].ops).0;
    forall j | 0 <= j < k
      ensures LeavesAt(q, size, asserts, visits, j + 1) == LeavesAt(q1, size, asserts, visits[1..], j)
      ensures FailsAt(q, size, asserts, visits, j + 1) == FailsAt(q1, size, asserts, visits[1..], j)
    {
      OneVisitOn(q, size, asserts, visits, j);
    }
    if Quiet(q, size, asserts, visits, k + 1) {
      forall j | 0 <= j < k
        ensures !LeavesAt(q1, size, asserts, visits[1..], j) && !FailsAt(q1, size, asserts, visits[1..], j)
      {
        assert !LeavesAt(q, size, asserts, visits, j + 1) && !FailsAt(q, size, asserts, visits, j + 1);
      }
    }
    if Quiet(q1, size, asserts, visits[1..], k) {
      forall j | 0 <= j < k + 1
        ensures !LeavesAt(q, size, asserts, visits, j) && !FailsAt(q, size, asserts, visits, j)
      {
        assert j > 0 ==> !LeavesAt(q1, size, asserts, visits[1..], j - 1) && !FailsAt(q1, size, asserts, visits[1..], j - 1);
      }
    }
  }

  /** Where the visits come to an event, if they do. */
  lemma {:induction false} FirstEvent(q: seq<Msg>, size: nat, asserts: bool, visits: seq<Visit>) returns (k: nat)
    ensures k <= |visits| && Quiet(q, size, asserts, visits, k)
    ensures k < |visits| ==> LeavesAt(q, size, asserts, visits, k) || FailsAt(q, size, asserts, visits, k)
  {
    hide LeavesAt, FailsAt;
    k := 0;
    while k < |visits| && !LeavesAt(q, size, asserts, visits, k) && !FailsAt(q, size, asserts, visits, k)
      invariant k <= |visits| && Quiet(q, size, asserts, visits, k)
    {
      k := k + 1;
    }
  }

  /** A wait on an empty mailbox, from the first event of its visits. */
  lemma {:induction false} WaitAt(q: seq<Msg>, size: nat, asserts: bool, visits: seq<Visit>, k: nat)
    requires q == [] && k <= |visits| && Quiet(q, size, asserts, visits, k)
    requires k < |visits| ==> LeavesAt(q, size, asserts, visits, k) || FailsAt(q, size, asserts, visits, k)
    ensures WaitLoop(q, size, asserts, visits)
            == if k == |visits| then Asleep([])
               else if FailsAt(q, size, asserts, visits, k) then Failed
               else Woken(k + 1, QueueAfter(q, size, asserts, visits, k + 1))
    decreases |visits|
  {
    if visits != [] {
      var q1 := FifoRun(q, size, asserts, visits[0].ops).0;
      assert QueueAfter(q, size, asserts, visits, 0) == q && QueueAfter(q, size, asserts, visits, 1) == q1;
      if k > 0 {
        assert !LeavesAt(q, size, asserts, visits, 0) && !FailsAt(q, size, asserts, visits, 0);
        assert Quiet(q, size, asserts, visits, 1);
        QuietOn(q, size, asserts, visits, k - 1);
        if k < |visits| { OneVisitOn(q, size, asserts, visits, k - 1); }
        hide QueueAfter, LeavesAt, FailsAt, Quiet;
        WaitAt(q1, size, asserts, visits[1..], k - 1);
      }
    }
  }

  /** Visit k wakes the wait: the first to leave a message, no check having failed. */
  ghost predicate WakesAt(q: seq<Msg>, size: nat, asserts: bool, visits: seq<Visit>, k: nat)
    requires k < |visits|
  {
    && Quiet(q, size, asserts, visits, k)
    && LeavesAt(q, size, asserts, visits, k) && !FailsAt(q, size, asserts, visits, k)
  }

  /** Visit k ends the run: it fails a check before any message was left. */
  ghost predicate BreaksAt(q: seq<Msg>, size: nat, asserts: bool, visits: seq<Visit>, k: nat)
    requires k < |visits|
  {
    Quiet(q, size, asserts, visits, k) && FailsAt(q, size, asserts, visits, k)
  }

  /** An endless wait is woken exactly if some visit wakes it, fails exactly if a check fails first,
      and otherwise goes on. */
  lemma WaitEnds(visits: seq<Visit>, size: nat, asserts: bool)
    ensures var w := WaitLoop([], size, asserts, visits);
      && (w.Woken? <==> exists k :: 0 <= k < |visits| && WakesAt([], size, asserts, visits, k))
      && (w.Failed? <==> exists k :: 0 <= k < |visits| && BreaksAt([], size, asserts, visits, k))
      && (w.Asleep? <==> Quiet([], size, asserts, visits, |visits|))
      && (w.Asleep? ==> w.q == [])
      && (w.Woken? ==> WakesAt([], size, asserts, visits, w.rounds - 1))
      && (w.Woken? ==> w.q == QueueAfter([], size, asserts, visits, w.rounds))
  {
    var k := FirstEvent([], size, asserts, visits);
    WaitAt([], size, asserts, visits, k);
    hide WaitLoop, QueueAfter, LeavesAt, FailsAt;
    forall j | 0 <= j < |visits| && Quiet([], size, asserts, visits, j)
        && (LeavesAt([], size, asserts, visits, j) || FailsAt([], size, asserts, visits, j))
      ensures j == k
    {
    }
    if k < |visits| {
      assert FailsAt([], size, asserts, visits, k) ==> BreaksAt([], size, asserts, visits, k);
      assert !FailsAt([], size, asserts, visits, k) ==> WakesAt([], size, asserts, visits, k);
    }
  }

  lemma FirstVisit(q: seq<Msg>, size: nat, asserts: bool, visits: seq<Visit>)
    requires visits != []
    ensures var (q1, replies) := FifoRun(q, size, asserts, visits[0].ops);
            && QueueAfter(q, size, asserts, visits, 1) == q1
            && (LeavesAt(q, size, asserts, visits, 0) <==> q1 != [])
            && (FailsAt(q, size, asserts, visits, 0)
                <==> Broken in replies || (asserts && visits[0].expectSomething && q1 == []))
            && Quiet(q, size, asserts, visits, 0)
  {
    assert QueueAfter(q, size, asserts, visits, 0) == q;
  }

  /** The visits a fetch may make: all of them without a timeout, otherwise one. */
  function Seen(timeout: nat, visits: seq<Visit>): (n: nat)
    ensures n <= |visits|
  {
    if timeout != 0 && |visits| > 1 then 1 else |visits|
  }

  /** How a fetch ends, in all cases: with a message that is there or that wakes it; with a timeout
      after at most one visit, which left nothing; still waiting, after visits that left nothing; or
      at a failed assertion, for want of a callback or in a visit. */
  lemma FetchEnds(q: seq<Msg>, size: nat, asserts: bool, timeout: nat, callback: Option<seq<Visit>>)
    ensures var r := FetchSpec(q, size, asserts, timeout, callback).0;
      var visits := if callback.None? then [] else callback.value;
      && (r.Message? <==>
            q != [] || exists k :: 0 <= k < Seen(timeout, visits) && WakesAt(q, size, asserts, visits, k))
      && (r == Timeout <==>
            q == [] && timeout != 0 && (callback.None? || (visits != [] && Quiet(q, size, asserts, visits, 1))))
      && (r == Waiting <==>
            q == [] && callback.Some? && Quiet(q, size, asserts, visits, |visits|) && (timeout == 0 || visits == []))
      && (r == NotRun <==>
            q == [] && ((callback.None? && timeout == 0)
            || exists k :: 0 <= k < Seen(timeout, visits) && BreaksAt(q, size, asserts, visits, k)))
  {
    var visits := if callback.None? then [] else callback.value;
    if q == [] {
      if timeout == 0 {
        WaitEnds(visits, size, asserts);
        hide WaitLoop, QueueAfter, LeavesAt, FailsAt, Quiet, FifoRun;
      } else if visits != [] {
        FirstVisit(q, size, asserts, visits);
        hide WaitLoop, QueueAfter, LeavesAt, FailsAt, FifoRun;
        assert WakesAt(q, size, asserts, visits, 0)
            <==> LeavesAt(q, size, asserts, visits, 0) && !FailsAt(q, size, asserts, visits, 0);
        assert BreaksAt(q, size, asserts, visits, 0) <==> FailsAt(q, size, asserts, visits, 0);
      }
    }
  }

  /** What a fetch takes: one that delivers, the front message of the queue as its last callback,
      number k, left it, after fewer rounds than SYS_ARCH_TIMEOUT; one that times out or waits on,
      nothing. */
  lemma FetchTakesOneOrNone(q: seq<Msg>, size: nat, asserts: bool, timeout: nat, callback: Option<seq<Visit>>)
    returns (k: nat)
    ensures var (r, rest) := FetchSpec(q, size, asserts, timeout, callback);
      var visits := if callback.None? then [] else callback.value;
      match r
      case Message(waited, m) =>
        && k <= Seen(timeout, visits) && waited == Min(k, 0xFFFF_FFFE)
        && QueueAfter(q, size, asserts, visits, k) == [m] + rest
        && forall j :: 0 <= j < k ==> QueueAfter(q, size, asserts, visits, j) == []
      case NotRun => true
      case _ => q == rest == []
  {
    k := 0;
    var visits := if callback.None? then [] else callback.value;
    assert QueueAfter(q, size, asserts, visits, 0) == q;
    if q == [] && timeout == 0 {
      WaitEnds(visits, size, asserts);
      if WaitLoop(q, size, asserts, visits).Woken? {
        k := WaitLoop(q, size, asserts, visits).rounds;
        WokenAtFirstMessage(q, size, asserts, visits);
      }
      hide WaitLoop, QueueAfter, Quiet, WakesAt, BreaksAt;
    } else if q == [] && visits != [] {
      k := 1;
      FirstVisit(q, size, asserts, visits);
      hide WaitLoop, QueueAfter, Quiet;
    }
  }

  // ---- A fetch with callbacks is a run of plain operations ----

  /** A run one operation longer at the front. */
  lemma FrontOp(q: seq<Msg>, size: nat, asserts: bool, ops: seq<Op>)
    requires ops != [] && Broken !in FifoRun(q, size, asserts, ops).1
    ensures var (q1, reply) := Fifo(q, size, asserts, ops[0]);
            var (q2, replies) := FifoRun(q1, size, asserts, ops[1..]);
            && reply != Broken && Broken !in replies
            && FifoRun(q, size, asserts, ops) == (q2, [reply] + replies)
  {
    hide Fifo;
  }

  lemma {:induction false} RunThen(q: seq<Msg>, size: nat, asserts: bool, a: seq<Op>, b: seq<Op>)
    requires Broken !in FifoRun(q, size, asserts, a).1
    ensures var (q1, first) := FifoRun(q, size, asserts, a);
            var (q2, second) := FifoRun(q1, size, asserts, b);
            FifoRun(q, size, asserts, a + b) == (q2, first + second)
    decreases |a|
  {
    hide Fifo;
    if a == [] {
      assert a + b == b;
      assert [] + FifoRun(q, size, asserts, b).1 == FifoRun(q, size, asserts, b).1;
    } else {
      var (q1, reply) := Fifo(q, size, asserts, a[0]);
      FrontOp(q, size, asserts, a);
      RunThen(q1, size, asserts, a[1..], b);
      assert (a + b)[1..] == a[1..] + b;
      var (q2, replies) := FifoRun(q1, size, asserts, a[1..]);
      var second := FifoRun(q2, size, asserts, b).1;
      assert [reply] + (replies + second) == ([reply] + replies) + second;
    }
  }

  /** Everything the callbacks do, one after the other. */
  function OpsOf(visits: seq<Visit>): seq<Op> {
    if visits == [] then [] else visits[0].ops + OpsOf(visits[1..])
  }

  lemma {:induction false} WokenRun(q: seq<Msg>, size: nat, asserts: bool, visits: seq<Visit>)
    requires WaitLoop(q, size, asserts, visits).Woken?
    ensures var w := WaitLoop(q, size, asserts, visits);
            var (q1, replies) := FifoRun(q, size, asserts, OpsOf(visits[..w.rounds]));
            q1 == w.q && Broken !in replies
    decreases |visits|
  {
    var w := WaitLoop(q, size, asserts, visits);
    var (q1, replies) := FifoRun(q, size, asserts, visits[0].ops);
    assert visits[..w.rounds][1..] == visits[1..][..w.rounds - 1];
    RunThen(q, size, asserts, visits[0].ops, OpsOf(visits[1..][..w.rounds - 1]));
    if q1 == [] {
      WokenRun(q1, size, asserts, visits[1..]);
    } else {
      assert visits[1..][..0] == [];
    }
  }

  lemma ThenFetch(q: seq<Msg>, size: nat, asserts: bool, ops: seq<Op>)
    requires Broken !in FifoRun(q, size, asserts, ops).1
    ensures var (q1, first) := FifoRun(q, size, asserts, ops);
            FifoRun(q, size, asserts, ops + [TryFetch])
            == if q1 == [] then (q1, first + [Empty]) else (q1[1..], first + [Got(q1[0])])
  {
    var q1 := FifoRun(q, size, asserts, ops).0;
    RunThen(q, size, asserts, ops, [TryFetch]);
    assert [TryFetch][1..] == [];
    assert [Reply.Empty] + [] == [Reply.Empty];
    assert q1 != [] ==> [Got(q1[0])] + [] == [Got(q1[0])];
  }

  /** A fetch that returns does to the queue what its callbacks' operations and one tryfetch do, and
      gives the answer of that tryfetch; so conservation and capacity hold for runs with blocking
      fetches too, and for a fetch that blocks inside the callback of another. */
  lemma FetchIsARun(q: seq<Msg>, size: nat, asserts: bool, timeout: nat, callback: Option<seq<Visit>>)
    returns (k: nat)
    ensures var (r, rest) := FetchSpec(q, size, asserts, timeout, callback);
            var visits := if callback.None? then [] else callback.value;
            r.Message? || r.Timeout? ==>
              && k <= |visits| && (timeout != 0 ==> k <= 1)
              && var run := FifoRun(q, size, asserts, OpsOf(visits[..k]) + [TryFetch]);
                 && run.0 == rest && Broken !in run.1 && run.1 != []
                 && run.1[|run.1| - 1] == (if r.Timeout? then Empty else Got(r.m))
                 && (r.Message? ==> r.waited == Min(k, SYS_ARCH_TIMEOUT - 1))
  {
    var (r, rest) := FetchSpec(q, size, asserts, timeout, callback);
    var visits := if callback.None? then [] else callback.value;
    k := 0;
    if r.Message? || r.Timeout? {
      assert visits[..0] == [];
      if q == [] && timeout == 0 {
        k := WaitLoop(q, size, asserts, visits).rounds;
        WokenRun(q, size, asserts, visits);
      } else if q == [] && visits != [] {
        k := 1;
        assert visits[..1][1..] == [] && visits[0].ops + [] == visits[0].ops;
        assert OpsOf(visits[..1]) == visits[0].ops;
      }
      ThenFetch(q, size, asserts, OpsOf(visits[..k]));
    }
  }
}
