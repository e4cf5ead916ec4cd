/** What every run of the transmit ring keeps, and exactly when a call may be made. */
module EthTxProperties {
  import opened RingSlots
  import opened EthDescriptors
  import opened EthTx

  lemma SlotOwner(s: State, i: nat) returns (k: nat)
    requires Inv(s) && i < |s.status|
    ensures Slot(k, |s.status|) == i && |s.sent| <= k < |s.sent| + |s.status|
    ensures k == |s.sent| + (i - |s.sent|) % |s.status|
    ensures Owned(s.status[i]) <==> k < |s.handed|
  {
    hide Slot, Awake, Owned;
    k := SlotOnto(|s.sent|, i, |s.status|);
    LapOffset(|s.sent|, k, |s.status|);
  }

  /** The engine's descriptors are one circular arc from its cursor, one for each frame handed over
      and not yet sent; the driver's cursor stands at the end of the arc. */
  predicate IsArc(s: State)
    requires Shape(s)
  {
    var n, held := |s.status|, |s.handed| - |s.sent|;
    && 0 <= held <= n
    && s.cur == |s.sent| % n
    && (!Published(s.pc) ==> s.set_ == |s.handed| % n)
    && forall i :: 0 <= i < n ==> (Owned(s.status[i]) <==> (i - |s.sent|) % n < held)
  }

  lemma ArcOf(s: State)
    requires Inv(s)
    ensures IsArc(s)
  {
    hide Awake, Owned, Slot;
    SlotIsMod(|s.sent|, |s.status|);
    SlotIsMod(|s.handed|, |s.status|);
    forall i | 0 <= i < |s.status|
      ensures Owned(s.status[i]) <==> (i - |s.sent|) % |s.status| < |s.handed| - |s.sent|
    {
      var k := SlotOwner(s, i);
    }
  }

  lemma OwnershipArc(s0: State, ls: seq<Label>)
    requires Initial(s0) && Legal(s0, ls)
    ensures IsArc(Run(s0, ls))
  {
    RunInv(s0, ls);
    ArcOf(Run(s0, ls));
  }

  /** Guarded or not, the engine sleeps in front of work only between the ownership store and the
      poll demand. */
  lemma NoLostWakeup(s0: State, ls: seq<Label>)
    requires Initial(s0) && Legal(s0, ls)
    ensures var s := Run(s0, ls);
            s.suspended && |s.sent| < |s.handed| ==> s.pc.TestTbu? || s.pc.ClearTbu? || s.pc.Poll?
  {
    RunInv(s0, ls);
    WorkAtCursor(Run(s0, ls));
  }

  /** Descriptor i is ready for the engine and describes the frame at its place in the arc. */
  ghost predicate Whole(s: State, i: nat)
    requires Shape(s) && i < |s.status|
  {
    var k := |s.sent| + (i - |s.sent|) % |s.status|;
    && k < |s.handed|
    && s.status[i] & 0x3000_0000 == 0x3000_0000
    && s.control[i] == |s.handed[k]|
    && s.mem[1520 * i..1520 * i + |s.handed[k]|] == s.handed[k]
  }

  lemma OwnedIsWhole(s: State, i: nat)
    requires Sound(s, true) && i < |s.status| && Owned(s.status[i])
    ensures Whole(s, i)
  {
    var k := SlotOwner(s, i);
    assert Intact(s, k, true);
    hide Slot, Owned, Awake, Draft, Ring;
    var frame := s.handed[k];
    assert forall j {:trigger frame[j]} :: 0 <= j < |frame| ==> s.mem[Base(i) + j] == frame[j];
  }

  /** While every call finds its descriptor free and fits its buffer, a descriptor the engine may
      read carries both segment bits, the right length and the whole frame, and the wire shows the
      frames handed over, in order. */
  lemma PublishedWhole(s0: State, ls: seq<Label>)
    requires Initial(s0) && Legal(s0, ls) && Guarded(s0, ls)
    ensures var s := Run(s0, ls);
            && s.sent <= s.handed && s.refused == []
            && forall i :: 0 <= i < |s.status| && Owned(s.status[i]) ==> Whole(s, i)
  {
    RunGood(s0, ls);
    var s := Run(s0, ls);
    hide Legal, Run, Guarded, Owned, Whole, Draft, Ring, Intact;
    forall i | 0 <= i < |s.status| && Owned(s.status[i])
      ensures Whole(s, i)
    {
      OwnedIsWhole(s, i);
    }
  }

  // ---- Everything handed over is sent ----

  predicate IsDma(l: Label) { l.DmaRead? || l.DmaDone? || l.DmaSuspend? }

  /** Bytes still to be read, one more for closing each frame. */
  function Load(fs: seq<seq<byte>>): nat {
    if fs == [] then 0 else |fs[0]| + 1 + Load(fs[1..])
  }

  /** Steps the engine has before it when the driver leaves it alone, falling asleep included. */
  function Ahead(s: State): int
    requires |s.sent| <= |s.handed|
  {
    Load(s.handed[|s.sent|..]) - |s.sending| + if s.suspended then 0 else 1
  }

  lemma DmaShrinks(s: State, l: Label)
    requires Good(s) && IsDma(l) && Enabled(s, l)
    ensures Good(Apply(s, l)) && Ahead(Apply(s, l)) == Ahead(s) - 1
    ensures Apply(s, l).pc == s.pc && Apply(s, l).handed == s.handed
  {
    StepGood(s, l);
    WorkAtCursor(s);
    hide Owned, Awake, Draft, Admitted;
    if |s.sent| < |s.handed| {
      OldestLength(s, true);
      hide Intact;
      assert s.handed[|s.sent|..][1..] == s.handed[|s.sent| + 1..];
    }
  }

  lemma OldestLength(s: State, all: bool)
    requires Sound(s, all) && |s.sent| < |s.handed|
    ensures s.control[s.cur] == |s.handed[|s.sent|]| && s.sending <= s.handed[|s.sent|]
  {
    assert Intact(s, |s.sent|, all);
  }

  /** An engine that cannot move while the driver is idle sleeps behind the last frame. */
  lemma StoppedMeansDone(s: State)
    requires Good(s) && s.pc.Idle? && forall l :: IsDma(l) ==> !Enabled(s, l)
    ensures s.suspended && s.sent == s.handed
  {
    WorkAtCursor(s);
    assert !Owned(0);
    hide Owned, Slot, Draft, Intact;
    assert !Enabled(s, DmaRead) && !Enabled(s, DmaDone(0)) && !Enabled(s, DmaSuspend);
  }

  /** After any guarded run that ends between calls, the engine left alone makes exactly the steps
      ahead of it and, when it can make no more, has sent every frame handed over. */
  lemma {:induction false} EveryFrameSent(s0: State, ls: seq<Label>, more: seq<Label>)
    requires Initial(s0) && Legal(s0, ls) && Guarded(s0, ls) && Run(s0, ls).pc.Idle?
    requires Legal(s0, ls + more) && forall k :: 0 <= k < |more| ==> IsDma(more[k])
    ensures var s, t := Run(s0, ls), Run(s0, ls + more);
            && |s.sent| <= |s.handed| && |t.sent| <= |t.handed|
            && Guarded(s0, ls + more) && t.pc.Idle? && t.handed == s.handed
            && |more| == Ahead(s) - Ahead(t)
            && ((forall l :: IsDma(l) ==> !Enabled(t, l)) <==> Ahead(t) == 0)
            && (Ahead(t) == 0 ==> t.sent == s.handed)
    decreases |more|
  {
    hide Good, Apply, Enabled, Ahead;
    if more == [] {
      assert ls + more == ls;
    } else {
      var last := |more| - 1;
      var all := ls + more;
      assert all[..|all| - 1] == ls + more[..last] && all[|all| - 1] == more[last];
      EveryFrameSent(s0, ls, more[..last]);
      RunGood(s0, ls + more[..last]);
      DmaShrinks(Run(s0, ls + more[..last]), more[last]);
    }
    RunGood(s0, ls + more);
    StepsAhead(Run(s0, ls + more));
  }

  lemma StepsAhead(s: State)
    requires Good(s) && s.pc.Idle?
    ensures |s.sent| <= |s.handed|
    ensures (forall l :: IsDma(l) ==> !Enabled(s, l)) <==> Ahead(s) == 0
    ensures Ahead(s) == 0 ==> s.sent == s.handed
  {
    hide Draft, Intact;
    if forall l :: IsDma(l) ==> !Enabled(s, l) {
      StoppedMeansDone(s);
    } else {
      var l :| IsDma(l) && Enabled(s, l);
      WorkAtCursor(s);
      if |s.sent| < |s.handed| { OldestLength(s, true); }
    }
  }

  // ---- Exactly when low_level_output may be called ----

  ghost predicate NoEnter(ls: seq<Label>) {
    forall k :: 0 <= k < |ls| ==> !ls[k].Enter?
  }

  /** The driver's next store lies beyond the current descriptor's buffer. */
  predicate Spilling(s: State) {
    s.pc.Fill? && 1520 <= s.pc.l < |s.pc.f|
  }

  /** However the engine moves meanwhile, the call's frame is not refused (low_level_output would
      still report ERR_OK), the wire stays right and no store misses the buffer. */
  ghost predicate CallIsSafe(s0: State, ls: seq<Label>, f: seq<byte>)
    requires Initial(s0) && Legal(s0, ls)
  {
    forall rest :: NoEnter(rest) && Legal(s0, ls + [Enter(f)] + rest) ==>
      var s := Run(s0, ls + [Enter(f)] + rest);
      s.refused == Run(s0, ls).refused && s.sent <= s.handed && !Spilling(s)
  }

  lemma StaysGuarded(s0: State, ls: seq<Label>, f: seq<byte>, rest: seq<Label>)
    requires Initial(s0) && Legal(s0, ls) && Guarded(s0, ls) && Admissible(Run(s0, ls), f)
    requires NoEnter(rest) && Legal(s0, ls + [Enter(f)] + rest)
    ensures Guarded(s0, ls + [Enter(f)] + rest)
    decreases |rest|
  {
    hide Admissible;
    var all := ls + [Enter(f)] + rest;
    if rest == [] {
      assert all[..|all| - 1] == ls;
    } else {
      assert all[..|all| - 1] == ls + [Enter(f)] + rest[..|rest| - 1];
      assert all[|all| - 1] == rest[|rest| - 1];
      StaysGuarded(s0, ls, f, rest[..|rest| - 1]);
    }
  }

  lemma {:induction false} LengthKept(s0: State, ls: seq<Label>)
    requires Initial(s0) && Legal(s0, ls)
    ensures |Run(s0, ls).status| == |s0.status|
  {
    if ls != [] {
      hide Apply, Enabled;
      LengthKept(s0, ls[..|ls| - 1]);
    }
  }

  /** A call is safe exactly when the current descriptor is the driver's, that is, when fewer
      frames than descriptors are waiting, and the frame fits its buffer. */
  lemma SafeIffFree(s0: State, ls: seq<Label>, f: seq<byte>)
    requires Initial(s0) && Legal(s0, ls) && Guarded(s0, ls) && Run(s0, ls).pc.Idle? && |f| < 0x1_0000
    ensures CallIsSafe(s0, ls, f) <==> MayEnter(Run(s0, ls)) && |f| <= 1520
    ensures MayEnter(Run(s0, ls)) <==> |Run(s0, ls).handed| - |Run(s0, ls).sent| < |s0.status|
  {
    RunGood(s0, ls);
    RoomToEnter(Run(s0, ls));
    LengthKept(s0, ls);
    if !MayEnter(Run(s0, ls)) {
      var rest := RefusedIfFull(s0, ls, f);
      assert |Run(s0, ls + [Enter(f)] + rest).refused| > |Run(s0, ls).refused|;
    } else if |f| > ETH_MAX_PACKET_SIZE {
      var rest, t := CallCopies(Run(s0, ls), f, ETH_MAX_PACKET_SIZE);
      ContinueCall(s0, ls, f, rest, t);
      assert Spilling(Run(s0, ls + [Enter(f)] + rest));
    } else {
      forall rest | NoEnter(rest) && Legal(s0, ls + [Enter(f)] + rest)
        ensures var s := Run(s0, ls + [Enter(f)] + rest);
                s.refused == Run(s0, ls).refused && s.sent <= s.handed && !Spilling(s)
      {
        StaysGuarded(s0, ls, f, rest);
        RunGood(s0, ls + [Enter(f)] + rest);
      }
    }
  }

  // ---- Schedules ----

  /** The steps ls lead from s to t, whatever came before. */
  ghost predicate Goes(s: State, ls: seq<Label>, t: State)
    decreases |ls|
  {
    Shape(s) && if ls == [] then t == s else Enabled(s, ls[0]) && Goes(Apply(s, ls[0]), ls[1..], t)
  }

  lemma {:induction false} Then(s: State, a: seq<Label>, t: State, b: seq<Label>, u: State)
    requires Goes(s, a, t) && Goes(t, b, u)
    ensures Goes(s, a + b, u) && (NoEnter(a) && NoEnter(b) ==> NoEnter(a + b))
    decreases |a|
  {
    hide Shape, Enabled, Apply;
    if a == [] {
      assert a + b == b;
    } else {
      assert (a + b)[1..] == a[1..] + b;
      Then(Apply(s, a[0]), a[1..], t, b, u);
    }
  }

  /** The steps of a call, and what follows them. */
  lemma ThenInCall(s: State, f: seq<byte>, a: seq<Label>, t: State, b: seq<Label>, u: State)
    requires Goes(s, [Enter(f)] + a, t) && Goes(t, b, u) && NoEnter(a) && NoEnter(b)
    ensures Goes(s, [Enter(f)] + (a + b), u) && NoEnter(a + b)
  {
    hide Goes;
    Then(s, [Enter(f)] + a, t, b, u);
    assert [Enter(f)] + a + b == [Enter(f)] + (a + b);
  }

  /** One step more. */
  lemma Step(s: State, a: seq<Label>, t: State, l: Label)
    requires Goes(s, a, t) && Shape(t) && Enabled(t, l)
    ensures Goes(s, a + [l], Apply(t, l)) && (NoEnter(a) && !l.Enter? ==> NoEnter(a + [l]))
  {
    hide Shape, Enabled, Apply;
    assert [l][1..] == [];
    assert Goes(t, [l], Apply(t, l)) by { ShapeKept(t, l); }
    Then(s, a, t, [l], Apply(t, l));
  }

  lemma ShapeKept(s: State, l: Label)
    requires Shape(s) && Enabled(s, l)
    ensures Shape(Apply(s, l))
  {
  }

  /** A run goes on with any steps its last state allows. */
  lemma {:induction false} Continue(s0: State, ls: seq<Label>, more: seq<Label>, t: State)
    requires Initial(s0) && Legal(s0, ls) && Goes(Run(s0, ls), more, t)
    ensures Legal(s0, ls + more) && Run(s0, ls + more) == t
    decreases |more|
  {
    hide Initial, Legal, Run, Shape, Enabled, Apply;
    if more == [] {
      assert ls + more == ls;
    } else {
      Extend(s0, ls, more[0]);
      Continue(s0, ls + [more[0]], more[1..], t);
      assert ls + [more[0]] + more[1..] == ls + more;
    }
  }

  /** The same for a call and what follows it. */
  lemma ContinueCall(s0: State, ls: seq<Label>, f: seq<byte>, rest: seq<Label>, t: State)
    requires Initial(s0) && Legal(s0, ls) && Goes(Run(s0, ls), [Enter(f)] + rest, t)
    ensures Legal(s0, ls + [Enter(f)] + rest) && Run(s0, ls + [Enter(f)] + rest) == t
  {
    Continue(s0, ls, [Enter(f)] + rest, t);
    assert ls + ([Enter(f)] + rest) == ls + [Enter(f)] + rest;
  }

  lemma CopyOne(s: State, f: seq<byte>, u: State, m: nat)
    requires Shape(s) && Shape(u) && 0 < m <= |f| && u == s.(mem := u.mem, pc := Fill(f, m - 1))
    requires forall j :: 0 <= j < m - 1 ==> u.mem[Base(s.set_) + j] == f[j]
    ensures Enabled(u, Cpu)
    ensures var t := Apply(u, Cpu);
            && t == s.(mem := t.mem, pc := Fill(f, m)) && Shape(t)
            && forall j :: 0 <= j < m ==> t.mem[Base(s.set_) + j] == f[j]
  {
  }

  /** The driver alone copies the first m bytes of its frame. */
  lemma {:induction false} CopyBytes(s: State, f: seq<byte>, m: nat) returns (ls: seq<Label>, t: State)
    requires Shape(s) && s.pc == Fill(f, 0) && m <= |f|
    ensures NoEnter(ls) && Goes(s, ls, t)
    ensures t == s.(mem := t.mem, pc := Fill(f, m)) && Shape(t)
    ensures forall j :: 0 <= j < m ==> t.mem[Base(s.set_) + j] == f[j]
  {
    if m == 0 {
      ls, t := [], s;
    } else {
      var some, u := CopyBytes(s, f, m - 1);
      ls, t := some + [Cpu], Apply(u, Cpu);
      CopyOne(s, f, u, m);
      hide Goes, Shape, Enabled, Apply;
      Step(s, some, u, Cpu);
    }
  }

  /** A call of which nothing but the driver's first m copies has happened. */
  lemma CallCopies(s: State, f: seq<byte>, m: nat) returns (ls: seq<Label>, t: State)
    requires Shape(s) && s.pc.Idle? && m <= |f| < CHAIN_LIMIT
    ensures NoEnter(ls) && Goes(s, [Enter(f)] + ls, t)
    ensures t == s.(mem := t.mem, pc := Fill(f, m)) && Shape(t)
    ensures forall j :: 0 <= j < m ==> t.mem[Base(s.set_) + j] == f[j]
  {
    var u := Apply(s, Enter(f));
    Step(s, [], s, Enter(f));
    assert [] + [Enter(f)] == [Enter(f)];
    ls, t := CopyBytes(u, f, m);
    hide Goes;
    Then(s, [Enter(f)], u, ls, t);
  }

  /** A call whose driver alone copies the whole frame and comes to the ownership test. */
  lemma CopyAll(s: State, f: seq<byte>) returns (ls: seq<Label>, t: State)
    requires Shape(s) && s.pc.Idle? && |f| < CHAIN_LIMIT
    ensures NoEnter(ls) && Goes(s, [Enter(f)] + ls, t)
    ensures t == s.(mem := t.mem, pc := TestOwn(f)) && Shape(t)
  {
    hide Goes, Owned;
    var copies, u := CallCopies(s, f, |f|);
    Step(s, [Enter(f)] + copies, u, Cpu);
    ls, t := copies + [Cpu], Apply(u, Cpu);
    assert [Enter(f)] + copies + [Cpu] == [Enter(f)] + ls;
  }

  /** On a full ring, if the engine does not move, the frame is refused. */
  lemma RefusedIfFull(s0: State, ls: seq<Label>, f: seq<byte>) returns (rest: seq<Label>)
    requires Initial(s0) && Legal(s0, ls) && Run(s0, ls).pc.Idle? && !MayEnter(Run(s0, ls)) && |f| < CHAIN_LIMIT
    ensures NoEnter(rest) && Legal(s0, ls + [Enter(f)] + rest)
    ensures var s, t := Run(s0, ls), Run(s0, ls + [Enter(f)] + rest);
            t.pc.Idle? && t.refused == s.refused + [f] && t.handed == s.handed && t.set_ == s.set_
  {
    hide Initial, Legal, Run, Owned, Goes;
    var s := Run(s0, ls);
    var copies, u := CopyAll(s, f);
    Step(s, [Enter(f)] + copies, u, Cpu);
    rest := copies + [Cpu];
    assert [Enter(f)] + copies + [Cpu] == [Enter(f)] + rest;
    ContinueCall(s0, ls, f, rest, Apply(u, Cpu));
  }

  lemma SliceGrows(read: seq<byte>, mem: seq<byte>, lo: nat, hi: nat)
    requires lo < hi <= |mem|
    ensures read + mem[lo..hi] == read + mem[lo..hi - 1] + [mem[hi - 1]]
  {
    assert mem[lo..hi] == mem[lo..hi - 1] + [mem[hi - 1]];
  }

  lemma ReadOne(s: State, u: State, m: nat)
    requires Shape(s) && Shape(u) && !s.suspended && Owned(s.status[s.cur]) && |s.sending| < m <= s.control[s.cur]
    requires u == s.(sending := u.sending)
    requires u.sending == s.sending + s.mem[Base(s.cur) + |s.sending|..Base(s.cur) + m - 1]
    ensures Enabled(u, DmaRead)
    ensures var t := Apply(u, DmaRead);
            && t == s.(sending := t.sending) && Shape(t)
            && t.sending == s.sending + s.mem[Base(s.cur) + |s.sending|..Base(s.cur) + m]
  {
    hide Owned;
    SliceGrows(s.sending, s.mem, Base(s.cur) + |s.sending|, Base(s.cur) + m);
  }

  /** The engine alone reads its frame up to byte m. */
  lemma {:induction false} ReadBytes(s: State, m: nat) returns (ls: seq<Label>, t: State)
    requires Shape(s) && !s.suspended && Owned(s.status[s.cur]) && |s.sending| <= m <= s.control[s.cur]
    ensures NoEnter(ls) && Goes(s, ls, t)
    ensures t == s.(sending := t.sending) && Shape(t)
    ensures t.sending == s.sending + s.mem[Base(s.cur) + |s.sending|..Base(s.cur) + m]
    decreases m
  {
    hide Owned;
    if m == |s.sending| {
      ls, t := [], s;
    } else {
      var some, u := ReadBytes(s, m - 1);
      ls, t := some + [DmaRead], Apply(u, DmaRead);
      ReadOne(s, u, m);
      hide Goes, Shape, Enabled, Apply, Base;
      Step(s, some, u, DmaRead);
    }
  }

  /** The frame sent at position k is what the engine reads from memory. */
  predicate SentAsRead(s: State, t: State, k: nat)
    requires Shape(s) && k < |t.sent|
  {
    var i := Slot(k, |s.status|);
    && |t.sent[k]| == s.control[i]
    && forall j {:trigger t.sent[k][j]} :: First(s, k, false) <= j < s.control[i] ==>
         t.sent[k][j] == s.mem[Base(i) + j]
  }

  /** The engine is awake and has not read past the frame at its cursor. */
  predicate Ready(s: State)
    requires Shape(s)
  {
    !s.suspended && |s.sending| <= s.control[s.cur]
  }

  lemma CloseFrame(s: State, u: State)
    requires Inv(s) && |s.sent| < |s.handed| && Ready(s) && Shape(u)
    requires u == s.(sending := u.sending) && |u.sending| == s.control[s.cur]
    requires u.sending == s.sending + s.mem[Base(s.cur) + |s.sending|..Base(s.cur) + s.control[s.cur]]
    ensures Enabled(u, DmaDone(0))
    ensures var t := Apply(u, DmaDone(0));
            && t == s.(status := t.status, cur := t.cur, sent := t.sent, sending := []) && Shape(t) && Ready(t)
            && |t.sent| == |s.sent| + 1 && SentAsRead(s, t, |s.sent|)
  {
    WorkAtCursor(s);
    assert s.cur == Slot(|s.sent|, |s.status|);
    assert !Owned(0);
    hide Owned, Inv, Slot;
  }

  /** The engine alone completes the frame at its cursor with what memory then holds. */
  lemma SendOne(s: State) returns (ls: seq<Label>, t: State)
    requires Inv(s) && |s.sent| < |s.handed| && Ready(s)
    ensures NoEnter(ls) && Goes(s, ls, t)
    ensures t == s.(status := t.status, cur := t.cur, sent := t.sent, sending := []) && Inv(t) && Ready(t)
    ensures |t.sent| == |s.sent| + 1 && SentAsRead(s, t, |s.sent|)
  {
    WorkAtCursor(s);
    hide Goes, Owned, Ring, Awake, Slot, SentAsRead;
    var u;
    ls, u := ReadBytes(s, s.control[s.cur]);
    CloseFrame(s, u);
    hide Enabled, Apply;
    Step(s, ls, u, DmaDone(0));
    ls, t := ls + [DmaDone(0)], Apply(u, DmaDone(0));
    GoesInv(s, ls, t);
  }

  lemma {:induction false} GoesInv(s: State, ls: seq<Label>, t: State)
    requires Inv(s) && Goes(s, ls, t)
    ensures Inv(t)
    decreases |ls|
  {
    if ls != [] {
      StepInv(s, ls[0]);
      hide Inv, Apply, Enabled;
      GoesInv(Apply(s, ls[0]), ls[1..], t);
    }
  }

  /** The engine alone sends everything up to position k. */
  lemma {:induction false} SendThrough(s: State, k: nat) returns (ls: seq<Label>, t: State)
    requires Inv(s) && |s.sent| <= k < |s.handed| && Ready(s)
    ensures NoEnter(ls) && Goes(s, ls, t)
    ensures t == s.(status := t.status, cur := t.cur, sent := t.sent, sending := []) && Inv(t) && Ready(t)
    ensures |t.sent| == k + 1 && SentAsRead(s, t, k)
    decreases k
  {
    hide Goes, Ring, Awake, Slot, Owned, Enabled, Ready, SentAsRead;
    if k == |s.sent| {
      ls, t := SendOne(s);
    } else {
      var some, u := SendThrough(s, k - 1);
      ls, t := SendOne(u);
      Then(s, some, u, ls, t);
      ls := some + ls;
      ReadLater(s, u, t, k);
    }
  }

  /** Memory does not change while the engine moves alone. */
  lemma ReadLater(s: State, u: State, t: State, k: nat)
    requires Shape(s) && Shape(u) && |s.status| == |u.status| && |s.sent| < k == |u.sent| < |t.sent|
    requires u.control == s.control && u.mem == s.mem && u.sending == [] && SentAsRead(u, t, k)
    ensures SentAsRead(s, t, k)
  {
    hide Slot;
  }

  /** On a free descriptor the driver alone goes from the ownership test to the ownership store. */
  lemma StoreAlone(s: State) returns (ls: seq<Label>, t: State)
    requires Shape(s) && s.pc.TestOwn? && MayEnter(s)
    ensures NoEnter(ls) && Goes(s, ls, t)
    ensures t == s.(status := t.status, control := s.control[s.set_ := LengthWord(|s.pc.f|)], pc := TestTbu,
                    handed := s.handed + [s.pc.f]) && Shape(t)
  {
    var a := Apply(s, Cpu);
    Step(s, [], s, Cpu);
    var b := Apply(a, Cpu);
    Step(s, [] + [Cpu], a, Cpu);
    var w := SegmentsWritten(b);
    var c := Apply(b, Cpu);
    hide Goes, Owned;
    Step(s, [] + [Cpu] + [Cpu], b, Cpu);
    var x := PublishStep(c);
    Step(s, [] + [Cpu] + [Cpu] + [Cpu], c, Cpu);
    ls, t := [] + [Cpu] + [Cpu] + [Cpu] + [Cpu], Apply(c, Cpu);
  }

  /** The driver alone ends its call, waking a sleeping engine. */
  lemma WakeAlone(s: State) returns (ls: seq<Label>, t: State)
    requires Shape(s) && s.pc.TestTbu?
    ensures NoEnter(ls) && Goes(s, ls, t)
    ensures t == s.(set_ := Succ(s.set_, |s.status|), tbu := t.tbu, suspended := t.suspended, pc := Idle) && Shape(t)
  {
    var u := Apply(s, Cpu);
    Step(s, [], s, Cpu);
    hide Goes;
    ls := [] + [Cpu];
    if s.tbu {
      Step(s, ls, u, Cpu);
      Step(s, ls + [Cpu], Apply(u, Cpu), Cpu);
      u := Apply(Apply(u, Cpu), Cpu);
      ls := ls + [Cpu] + [Cpu];
    }
    Step(s, ls, u, Cpu);
    ls, t := ls + [Cpu], Apply(u, Cpu);
  }

  /** On a free descriptor the driver alone publishes its frame, and the engine is awake. */
  lemma PublishAlone(s: State) returns (ls: seq<Label>, t: State)
    requires Inv(s) && s.pc.TestOwn? && MayEnter(s)
    ensures NoEnter(ls) && Goes(s, ls, t)
    ensures t == s.(status := t.status, control := s.control[s.set_ := LengthWord(|s.pc.f|)], pc := Idle,
                    handed := s.handed + [s.pc.f], set_ := Succ(s.set_, |s.status|), tbu := t.tbu, suspended := false)
    ensures Inv(t)
  {
    var store, u := StoreAlone(s);
    var wake, v := WakeAlone(u);
    Then(s, store, u, wake, v);
    ls, t := store + wake, v;
    GoesInv(s, ls, t);
    WorkAtCursor(t);
    assert |s.sent| <= |s.handed|;
  }

  // ---- Exactly which frames a call may not put over a busy buffer ----

  /** Frame f would change byte j of waiting frame k, which the engine has still to read. */
  predicate ClashesAt(s: State, f: seq<byte>, k: nat, j: nat)
    requires Shape(s)
  {
    k < |s.handed| && j < |s.handed[k]| && !AgreesAt(s, f, false, k, j)
  }

  /** However the engine moves, a call with frame f leaves the wire a prefix of the frames handed
      over. */
  ghost predicate WireSafe(s0: State, ls: seq<Label>, f: seq<byte>)
    requires Initial(s0) && Legal(s0, ls)
  {
    forall rest :: NoEnter(rest) && Legal(s0, ls + [Enter(f)] + rest) ==>
      var s := Run(s0, ls + [Enter(f)] + rest); s.sent <= s.handed
  }

  /** A call puts on the wire a frame nobody handed over, under some schedule, exactly when its
      frame is longer than the length field can say or would change, from the current buffer on, a
      byte of a waiting frame that is still to be read. */
  lemma WireSafeIff(s0: State, ls: seq<Label>, f: seq<byte>)
    requires Initial(s0) && Legal(s0, ls) && Guarded(s0, ls)
    requires Run(s0, ls).pc.Idle? && |f| < 0x1_0000
    ensures WireSafe(s0, ls, f) <==> |f| <= 8191 && Agrees(Run(s0, ls), f, false)
  {
    var s := Run(s0, ls);
    if !Agrees(s, f, false) {
      hide AgreesAt;
      var k: nat, j: nat :| k < |s.handed| && j < |s.handed[k]| && !AgreesAt(s, f, false, k, j);
      var rest := OverrunCorrupts(s0, ls, f, k, j);
    } else if |f| > TX_TBS1 {
      var rest := OverlongCorrupts(s0, ls, f);
    } else {
      forall rest | NoEnter(rest) && Legal(s0, ls + [Enter(f)] + rest)
        ensures var t := Run(s0, ls + [Enter(f)] + rest); t.sent <= t.handed
      {
        OverlayHarmless(s0, ls, f, rest);
        SentIsPrefix(Run(s0, ls + [Enter(f)] + rest), false);
      }
    }
  }

  /** What is in memory for the frame at position k is not that frame. */
  predicate Mismatch(s: State, k: nat, j: nat)
    requires Shape(s)
  {
    var i := Slot(k, |s.status|);
    && |s.sent| <= k < |s.handed| && Ready(s)
    && (s.control[i] == |s.handed[k]| ==>
          First(s, k, false) <= j < |s.handed[k]| && s.mem[Base(i) + j] != s.handed[k][j])
  }

  lemma SendsWrong(s: State, k: nat, j: nat) returns (ls: seq<Label>, t: State)
    requires Inv(s) && Mismatch(s, k, j)
    ensures NoEnter(ls) && Goes(s, ls, t) && !(t.sent <= t.handed)
  {
    ls, t := SendThrough(s, k);
    hide Inv, Goes, Slot;
    if |t.sent[k]| == |t.handed[k]| {
      assert t.sent[k][j] != t.handed[k][j];
    }
    assert t.sent[k] != t.handed[k];
  }

  /** The engine waits while the clashing byte is stored, then sends what it finds. */
  lemma OverrunCorrupts(s0: State, ls: seq<Label>, f: seq<byte>, k: nat, j: nat) returns (rest: seq<Label>)
    requires Initial(s0) && Legal(s0, ls) && Guarded(s0, ls) && |f| < CHAIN_LIMIT
    requires Run(s0, ls).pc.Idle? && ClashesAt(Run(s0, ls), f, k, j)
    ensures NoEnter(rest) && Legal(s0, ls + [Enter(f)] + rest)
    ensures var t := Run(s0, ls + [Enter(f)] + rest); !(t.sent <= t.handed)
  {
    RunGood(s0, ls);
    hide Initial, Legal, Run, Guarded;
    var t;
    rest, t := ClashSent(Run(s0, ls), f, k, j);
    ContinueCall(s0, ls, f, rest, t);
  }

  lemma ClashSent(s: State, f: seq<byte>, k: nat, j: nat) returns (rest: seq<Label>, t: State)
    requires Good(s) && s.pc.Idle? && |f| < CHAIN_LIMIT && ClashesAt(s, f, k, j)
    ensures NoEnter(rest) && Goes(s, [Enter(f)] + rest, t) && !(t.sent <= t.handed)
  {
    var u;
    rest, u := ClashStored(s, f, k, j);
    GoesInv(s, [Enter(f)] + rest, u);
    hide Mismatch, Good, Inv, Goes, ClashesAt, NoEnter;
    var sends;
    sends, t := SendsWrong(u, k, j);
    ThenInCall(s, f, rest, u, sends, t);
    rest := rest + sends;
  }

  lemma ClashStored(s: State, f: seq<byte>, k: nat, j: nat) returns (copies: seq<Label>, t: State)
    requires Good(s) && s.pc.Idle? && |f| < CHAIN_LIMIT && ClashesAt(s, f, k, j)
    ensures NoEnter(copies) && Goes(s, [Enter(f)] + copies, t) && Shape(t) && Mismatch(t, k, j)
  {
    assert Shape(s) && |s.sent| <= k < |s.handed|;
    hide Good, Goes, Slot, Owned, Base, Mismatch, Ready;
    WaitingReady(s, k);
    var at := Base(Slot(k, |s.status|)) + j - Base(s.set_);
    copies, t := CallCopies(s, f, at + 1);
    assert t.mem[Base(s.set_) + at] == f[at];
    hide Shape, NoEnter;
    MismatchStored(s, t, f, k, j, at);
  }

  lemma MismatchStored(s: State, t: State, f: seq<byte>, k: nat, j: nat, at: nat)
    requires Shape(s) && Shape(t) && t == s.(mem := t.mem, pc := t.pc)
    requires |s.sent| <= k && ClashesAt(s, f, k, j) && Ready(s) && s.control[Slot(k, |s.status|)] == |s.handed[k]|
    requires at == Base(Slot(k, |s.status|)) + j - Base(s.set_) && at < |f|
    requires Base(s.set_) + at < |t.mem| && t.mem[Base(s.set_) + at] == f[at]
    ensures Mismatch(t, k, j)
  {
    hide Slot, Owned, Base;
  }

  /** Between calls a waiting frame finds the engine awake and its descriptor with its length. */
  lemma WaitingReady(s: State, k: nat)
    requires Good(s) && s.pc.Idle? && |s.sent| <= k < |s.handed|
    ensures Ready(s) && s.control[Slot(k, |s.status|)] == |s.handed[k]|
  {
    WorkAtCursor(s);
    OldestLength(s, true);
    assert Intact(s, k, true);
  }

  /** The engine alone sends everything there is. */
  lemma SendAll(s: State) returns (ls: seq<Label>, t: State)
    requires Inv(s) && if |s.sent| < |s.handed| then Ready(s) else s.sending == []
    ensures NoEnter(ls) && Goes(s, ls, t) && Inv(t)
    ensures t == s.(status := t.status, cur := t.cur, sent := t.sent, sending := []) && |t.sent| == |s.handed|
  {
    if |s.sent| < |s.handed| {
      ls, t := SendThrough(s, |s.handed| - 1);
    } else {
      ls, t := [], s;
    }
  }

  /** A frame whose length the descriptor cannot hold goes out cut. */
  lemma OverlongCorrupts(s0: State, ls: seq<Label>, f: seq<byte>) returns (rest: seq<Label>)
    requires Initial(s0) && Legal(s0, ls) && Guarded(s0, ls) && 8191 < |f| < 0x1_0000
    requires Run(s0, ls).pc.Idle?
    ensures NoEnter(rest) && Legal(s0, ls + [Enter(f)] + rest)
    ensures var t := Run(s0, ls + [Enter(f)] + rest); !(t.sent <= t.handed)
  {
    RunGood(s0, ls);
    var s := Run(s0, ls);
    if |s.sent| < |s.handed| { WaitingReady(s, |s.handed| - 1); }
    assert Inv(s) && (|s.sent| == |s.handed| ==> s.sending == []) && |s.sent| <= |s.handed|;
    hide Initial, Legal, Run, Guarded, Good, Inv;
    var t;
    rest, t := OverlongSent(Run(s0, ls), f);
    ContinueCall(s0, ls, f, rest, t);
  }

  lemma OverlongSent(s: State, f: seq<byte>) returns (rest: seq<Label>, t: State)
    requires Inv(s) && s.pc.Idle? && TX_TBS1 < |f| < CHAIN_LIMIT
    requires if |s.sent| < |s.handed| then Ready(s) else s.sending == []
    ensures NoEnter(rest) && Goes(s, [Enter(f)] + rest, t) && !(t.sent <= t.handed)
  {
    hide Ring, Awake, Goes, Enabled, Owned;
    var u, v, sends, last;
    rest, u := CopyAll(s, f);
    GoesInv(s, [Enter(f)] + rest, u);
    sends, v := SendAll(u);
    last, t := CutFrame(v);
    hide Inv, Shape;
    Then(u, sends, v, last, t);
    ThenInCall(s, f, rest, u, sends + last, t);
    rest := rest + (sends + last);
  }

  lemma CutFrame(s: State) returns (ls: seq<Label>, t: State)
    requires Inv(s) && s.pc.TestOwn? && |s.pc.f| > TX_TBS1 && |s.sent| == |s.handed| && s.sending == []
    ensures NoEnter(ls) && Goes(s, ls, t) && !(t.sent <= t.handed)
  {
    RoomToEnter(s);
    assert s.set_ == Slot(|s.handed|, |s.status|) == s.cur;
    var publish, u := PublishAlone(s);
    assert Mismatch(u, |s.handed|, 0);
    hide Inv, Goes, Mismatch;
    var sends, v := SendsWrong(u, |s.handed|, 0);
    Then(s, publish, u, sends, v);
    ls, t := publish + sends, v;
  }

  /** Without a clash no point of any schedule shows harm. */
  lemma {:induction false} OverlayHarmless(s0: State, ls: seq<Label>, f: seq<byte>, rest: seq<Label>)
    requires Initial(s0) && Legal(s0, ls) && Guarded(s0, ls) && Run(s0, ls).pc.Idle?
    requires |f| <= TX_TBS1 && Agrees(Run(s0, ls), f, false)
    requires NoEnter(rest) && Legal(s0, ls + [Enter(f)] + rest)
    ensures Sound(Run(s0, ls + [Enter(f)] + rest), false)
    decreases |rest|
  {
    var all := ls + [Enter(f)] + rest;
    hide Sound, Agrees, Apply, Enabled;
    if rest == [] {
      assert all[..|all| - 1] == ls && all[|all| - 1] == Enter(f);
      RunGood(s0, ls);
      SoundForUnread(Run(s0, ls));
      StepSound(Run(s0, ls), Enter(f), false);
    } else {
      assert all[..|all| - 1] == ls + [Enter(f)] + rest[..|rest| - 1];
      assert all[|all| - 1] == rest[|rest| - 1];
      OverlayHarmless(s0, ls, f, rest[..|rest| - 1]);
      StepSound(Run(s0, all[..|all| - 1]), rest[|rest| - 1], false);
    }
  }

  lemma SentIsPrefix(s: State, all: bool)
    requires Sound(s, all)
    ensures s.sent <= s.handed
  {
    assert s.sent == s.handed[..|s.sent|];
    hide Intact, Draft, Ring;
  }

  lemma SoundForUnread(s: State)
    requires Sound(s, true) && s.pc.Idle?
    ensures Sound(s, false)
  {
    hide Slot, Owned, Ring, Awake;
    forall k | |s.sent| <= k < |s.handed|
      ensures Intact(s, k, false)
    {
      assert Intact(s, k, true);
    }
  }

  // ---- The failures happen ----

  /** A call the engine does not come between. */
  lemma CallAlone(s0: State, ls: seq<Label>, f: seq<byte>) returns (rest: seq<Label>)
    requires Initial(s0) && Legal(s0, ls) && Guarded(s0, ls)
    requires Run(s0, ls).pc.Idle? && Admissible(Run(s0, ls), f)
    ensures Legal(s0, ls + [Enter(f)] + rest) && Guarded(s0, ls + [Enter(f)] + rest)
    ensures var s, t := Run(s0, ls), Run(s0, ls + [Enter(f)] + rest);
            t.pc.Idle? && t.handed == s.handed + [f] && t.sent == s.sent && t.sending == s.sending
  {
    RunInv(s0, ls);
    hide Initial, Legal, Run, Guarded, Inv, Goes, Shape, Admissible, Enabled, NoEnter;
    var t;
    rest, t := CallPublishes(Run(s0, ls), f);
    ContinueCall(s0, ls, f, rest, t);
    StaysGuarded(s0, ls, f, rest);
  }

  lemma CallPublishes(s: State, f: seq<byte>) returns (rest: seq<Label>, t: State)
    requires Inv(s) && s.pc.Idle? && Admissible(s, f)
    ensures NoEnter(rest) && Goes(s, [Enter(f)] + rest, t)
    ensures t.pc.Idle? && t.handed == s.handed + [f] && t.sent == s.sent && t.sending == s.sending
  {
    hide Ring, Awake, Goes, Owned, Enabled;
    var u, publish;
    rest, u := CopyAll(s, f);
    GoesInv(s, [Enter(f)] + rest, u);
    publish, t := PublishAlone(u);
    hide Inv, Shape;
    ThenInCall(s, f, rest, u, publish, t);
    rest := rest + publish;
  }

  /** Calls that come faster than the engine sends fill the ring with one-byte frames. */
  lemma {:induction false} FillRing(s0: State, k: nat) returns (ls: seq<Label>)
    requires Initial(s0) && k <= |s0.status|
    ensures Legal(s0, ls) && Guarded(s0, ls)
    ensures var s := Run(s0, ls);
            && s.pc.Idle? && |s.handed| == k && s.sent == [] && s.sending == []
            && forall i :: 0 <= i < k ==> s.handed[i] == [0]
  {
    if k == 0 {
      ls := [];
      assert Run(s0, ls) == s0;
    } else {
      hide Legal, Run, Guarded;
      ls := FillRing(s0, k - 1);
      SafeIffFree(s0, ls, [0]);
      var call := CallAlone(s0, ls, [0]);
      ls := ls + [Enter([0])] + call;
    }
  }

  /** From every start-up, with any number of descriptors, one call too many puts on the wire a frame
      that nobody handed over. */
  lemma OverrunHappens(s0: State) returns (ls: seq<Label>, f: seq<byte>, rest: seq<Label>)
    requires Initial(s0)
    ensures Legal(s0, ls) && Guarded(s0, ls) && Run(s0, ls).pc.Idle? && !MayEnter(Run(s0, ls))
    ensures NoEnter(rest) && Legal(s0, ls + [Enter(f)] + rest)
    ensures var t := Run(s0, ls + [Enter(f)] + rest); !(t.sent <= t.handed)
  {
    ls := FillRing(s0, |s0.status|);
    f := [1];
    SafeIffFree(s0, ls, f);
    LengthKept(s0, ls);
    RunInv(s0, ls);
    var s := Run(s0, ls);
    SlotPeriod(0, |s.status|);
    assert ClashesAt(s, f, 0, 0);
    rest := OverrunCorrupts(s0, ls, f, 0, 0);
  }
}
