/** What every run of the receive ring keeps, from start-up to any reachable state. */
module EthRxProperties {
  import opened RingSlots
  import opened EthDescriptors
  import opened EthRx

  lemma SlotOwner(s: State, i: nat)
    requires Inv(s) && i < |s.status|
    ensures !Owned(s.status[i]) <==> (i - Released(s)) % |s.status| < |s.deposited| - Released(s)
  {
    hide PayloadLength, Slot, Data, Awake, Owned;
    var k := SlotOnto(Released(s), i, |s.status|);
    LapOffset(Released(s), k, |s.status|);
    if k < |s.deposited| {
      assert s.status[Slot(k, |s.status|)] == s.deposited[k].status;
    }
  }

  /** The driver's descriptors are one circular arc: it starts at the oldest descriptor not yet
      given back, the one in hand included, and ends at the DMA cursor. */
  predicate IsArc(s: State)
    requires Shape(s)
  {
    var n, first, held := |s.status|, Released(s), |s.deposited| - Released(s);
    && 0 <= held <= n
    && s.cur == (first + held) % n
    && s.get == Taken(s) % n
    && forall i :: 0 <= i < n ==> (!Owned(s.status[i]) <==> (i - first) % n < held)
  }

  lemma ArcOf(s: State)
    requires Inv(s)
    ensures IsArc(s)
  {
    hide Data, Awake, Owned, Slot, PayloadLength;
    SlotIsMod(|s.deposited|, |s.status|);
    SlotIsMod(Taken(s), |s.status|);
    forall i | 0 <= i < |s.status|
      ensures !Owned(s.status[i]) <==> (i - Released(s)) % |s.status| < |s.deposited| - Released(s)
    {
      SlotOwner(s, i);
    }
  }

  lemma OwnershipArc(s0: State, ls: seq<Label>)
    requires Initial(s0) && Legal(s0, ls)
    ensures IsArc(Run(s0, ls))
  {
    RunInv(s0, ls);
    ArcOf(Run(s0, ls));
  }

  /** While a frame is being copied out, no DMA access can reach its buffer or its descriptor. */
  lemma CopyIsUndisturbed(s0: State, ls: seq<Label>, l: Label)
    requires Initial(s0) && Legal(s0, ls)
    requires Enabled(Run(s0, ls), l) && !l.Cpu? && InHand(Run(s0, ls).pc)
    ensures var s, t := Run(s0, ls), Apply(Run(s0, ls), l);
            && t.buf[s.pc.d] == s.buf[s.pc.d] && t.status[s.pc.d] == s.status[s.pc.d]
            && !Owned(s.status[s.pc.d])
  {
    RunInv(s0, ls);
    var s := Run(s0, ls);
    assert s.status[Slot(Released(s), |s.status|)] == s.deposited[Released(s)].status;
  }

  function Payloads(ds: seq<Deposit>): (r: seq<seq<byte>>)
    ensures |r| == |ds|
  {
    seq(|ds|, k requires 0 <= k < |ds| => DepositPayload(ds[k]))
  }

  function OutcomeFrames(os: seq<Outcome>): (r: seq<seq<byte>>)
    ensures |r| == |os|
  {
    seq(|os|, k requires 0 <= k < |os| => OutcomeData(os[k]))
  }

  /** The frame the driver is working on, read from the ring or, once given back, from its pbufs. */
  function Current(s: State): seq<seq<byte>>
    requires Shape(s)
  {
    if InHand(s.pc) then [Payload(s.status[s.pc.d], s.buf[s.pc.d])]
    else if Returned(s.pc) then [ChainData(s.pc.p)]
    else []
  }

  /** The frames still in the ring, read from descriptor memory in ring order from the cursor. */
  function Waiting(s: State): seq<seq<byte>>
    requires Shape(s) && Taken(s) <= |s.deposited|
  {
    seq(|s.deposited| - Taken(s), j requires 0 <= j =>
      var i := Slot(Taken(s) + j, |s.status|); Payload(s.status[i], s.buf[i]))
  }

  lemma FrameAt(s: State, k: nat)
    requires Inv(s) && k < |s.deposited|
    ensures Payloads(s.deposited)[k] == (OutcomeFrames(s.outcomes) + Current(s) + Waiting(s))[k]
  {
    hide PayloadLength, Payload, HardwareStatus, Owned, Slot, Awake;
    if k >= Released(s) {
      var i := Slot(k, |s.status|);
      assert s.status[i] == s.deposited[k].status && s.buf[i] == s.deposited[k].buffer;
    }
    if k >= Taken(s) {
      assert Waiting(s)[k - Taken(s)] == DepositPayload(s.deposited[k]);
    }
  }

  /** Exactly once and in order: the frames passed on or dropped, then the one in work, then the
      ring contents, are the frames the DMA engine deposited; an errored or partial entry counts
      as an empty frame. */
  lemma ExactlyOnceInOrder(s0: State, ls: seq<Label>)
    requires Initial(s0) && Legal(s0, ls)
    ensures var s := Run(s0, ls);
            && Taken(s) <= |s.deposited|
            && Payloads(s.deposited) == OutcomeFrames(s.outcomes) + Current(s) + Waiting(s)
  {
    RunInv(s0, ls);
    hide DepositPayload, Payload, Legal, Run, Data, Awake;
    var s := Run(s0, ls);
    forall k | 0 <= k < |s.deposited|
      ensures Payloads(s.deposited)[k] == (OutcomeFrames(s.outcomes) + Current(s) + Waiting(s))[k]
    {
      FrameAt(s, k);
    }
  }

  /** The engine sleeps in front of work only between the ownership store and the poll demand. */
  lemma NoLostWakeup(s0: State, ls: seq<Label>)
    requires Initial(s0) && Legal(s0, ls)
    ensures var s := Run(s0, ls);
            && (s.suspended && Owned(s.status[s.cur]) ==> s.pc.TestRbu? || s.pc.ClearRbu? || s.pc.Poll?)
            && (s.pc.Idle? && |s.outcomes| == |s.deposited| ==>
                  !s.suspended && forall i :: 0 <= i < |s.status| ==> Owned(s.status[i]))
  {
    RunInv(s0, ls);
    OwnershipArc(s0, ls);
    var s := Run(s0, ls);
    if s.pc.Idle? && |s.outcomes| == |s.deposited| {
      forall i | 0 <= i < |s.status|
        ensures Owned(s.status[i])
      {
        assert (i - Released(s)) % |s.status| >= 0;
      }
    }
  }

  /** The engine takes in the next frame, whatever its status word, exactly while fewer than all
      descriptors hold frames of the driver's; only between the ownership store and the poll demand
      may it still be asleep. So a sleeping engine means a full ring or a driver about to wake it. */
  lemma AcceptsIffRoom(s0: State, ls: seq<Label>, w: bv32)
    requires Initial(s0) && Legal(s0, ls) && HardwareStatus(w)
    ensures var s := Run(s0, ls);
            !(s.pc.TestRbu? || s.pc.ClearRbu? || s.pc.Poll?) ==>
              (Enabled(s, DmaDone(w)) <==> |s.deposited| - Released(s) < |s.status|)
  {
    RunInv(s0, ls);
    var s := Run(s0, ls);
    hide Legal, Run, PayloadLength, Data, Slot, HardwareStatus, Owned;
    var f := |s.deposited|;
    if f < Released(s) + |s.status| {
      assert Owned(s.status[Slot(f, |s.status|)]);
    } else if Enabled(s, DmaDone(w)) {
      RoomAtCursor(s);
    }
  }

  /** Some call in the run found no frame waiting for the driver. */
  ghost predicate EnteredEmpty(s0: State, ls: seq<Label>)
    requires Initial(s0) && Legal(s0, ls)
  {
    ls != [] &&
    var before := ls[..|ls| - 1];
    EnteredEmpty(s0, before)
    || (ls[|ls| - 1].Enter? && |Run(s0, before).outcomes| == |Run(s0, before).deposited|)
  }

  /** A call is on its way to a store through the null descriptor, or has made it, exactly in the
      runs that called low_level_input, at some point, while the ring held no frame for the driver. */
  lemma {:induction false} DoomedIffEnteredEmpty(s0: State, ls: seq<Label>)
    requires Initial(s0) && Legal(s0, ls)
    ensures Doomed(Run(s0, ls).pc) <==> EnteredEmpty(s0, ls)
  {
    hide Inv, Owned, PayloadLength, Apply, Enabled;
    if ls == [] {
      assert Run(s0, ls) == s0;
    } else {
      var before := ls[..|ls| - 1];
      DoomedIffEnteredEmpty(s0, before);
      RunInv(s0, before);
      StepDooms(Run(s0, before), ls[|ls| - 1]);
    }
  }

  lemma StepDooms(s: State, l: Label)
    requires Inv(s) && Enabled(s, l)
    ensures Doomed(Apply(s, l).pc) <==> Doomed(s.pc) || (l.Enter? && |s.outcomes| == |s.deposited|)
  {
    match l {
      case Enter => EnterInv(s); hide PayloadLength, Slot, Inv, Owned;
      case Cpu(ok) => CpuDooms(s, ok); hide CpuStep, Inv, Doomed;
      case _ => hide CpuStep, Inv, Doomed, Owned, HardwareStatus;
    }
  }

  lemma CpuDooms(s: State, ok: bool)
    requires Shape(s) && Enabled(s, Cpu(ok))
    ensures Doomed(CpuStep(s, ok).pc) <==> Doomed(s.pc)
  {
    hide PayloadLength;
  }

  /** The most accesses a call has before it: it ends in the idle state or in the fault. */
  function Remaining(s: State): nat
    requires Shape(s)
  {
    match s.pc
    case ReadStatus => ETH_MAX_PACKET_SIZE + 8
    case Alloc(_, len) => len + 7
    case Copy(_, len, out) => len - |out| + 6
    case SetOwn(_, _) => 5
    case TestRbu(_) => 4
    case ClearRbu(_) => 3
    case Poll(_) => 2
    case Hand(_) => 1
    case EmptyTestRbu => 4
    case EmptyClearRbu => 3
    case EmptyPoll => 2
    case EmptySetOwn => 1
    case _ => 0
  }

  /** Every driver step brings a call nearer to its end and no DMA step moves it back; nothing but
      the fault awaits a doomed call. */
  lemma CallAdvances(s: State, l: Label)
    requires Inv(s) && Enabled(s, l)
    ensures var t := Apply(s, l);
            && (l.Cpu? ==> Remaining(t) < Remaining(s))
            && (!l.Cpu? && !l.Enter? ==> t.pc == s.pc)
            && (Doomed(s.pc) ==> Doomed(t.pc))
            && (Remaining(s) == 0 <==> s.pc.Idle? || s.pc.Fault?)
  {
    hide PayloadLength, Slot, Ring, Data, Awake, Payload, HardwareStatus, Owned;
  }

  lemma DoomedGoesOn(s0: State, ls: seq<Label>)
    requires Initial(s0) && Legal(s0, ls) && Doomed(Run(s0, ls).pc) && !Run(s0, ls).pc.Fault?
    ensures Legal(s0, ls + [Cpu(true)])
    ensures var s, t := Run(s0, ls), Run(s0, ls + [Cpu(true)]); Doomed(t.pc) && Remaining(t) < Remaining(s)
  {
    RunInv(s0, ls);
    CallAdvances(Run(s0, ls), Cpu(true));
    Extend(s0, ls, Cpu(true));
  }

  /** A doomed call left alone makes the store through the null descriptor. */
  lemma {:induction false} DoomedReachesFault(s0: State, ls: seq<Label>) returns (more: seq<Label>)
    requires Initial(s0) && Legal(s0, ls) && Doomed(Run(s0, ls).pc)
    ensures Legal(s0, ls + more) && Run(s0, ls + more).pc.Fault?
    ensures forall k :: 0 <= k < |more| ==> more[k].Cpu?
    decreases Remaining(Run(s0, ls))
  {
    hide Initial, Legal, Run, Shape, Remaining, Doomed;
    if Run(s0, ls).pc.Fault? {
      more := [];
      assert ls + more == ls;
    } else {
      DoomedGoesOn(s0, ls);
      var rest := DoomedReachesFault(s0, ls + [Cpu(true)]);
      more := [Cpu(true)] + rest;
      assert ls + [Cpu(true)] + rest == ls + more;
    }
  }

  /** From every start-up, a call made before any frame has arrived faults. */
  lemma FaultHappens(s0: State) returns (ls: seq<Label>)
    requires Initial(s0)
    ensures Legal(s0, ls) && Run(s0, ls).pc.Fault?
  {
    assert Run(s0, []) == s0;
    InitialInv(s0);
    EnterInv(s0);
    Extend(s0, [], Enter);
    var more := DoomedReachesFault(s0, [] + [Enter]);
    ls := [] + [Enter] + more;
  }

  function Enters(ls: seq<Label>): nat {
    if ls == [] then 0 else Enters(ls[..|ls| - 1]) + if ls[|ls| - 1].Enter? then 1 else 0
  }

  lemma {:induction false} NoEnters(ls: seq<Label>)
    requires forall k :: 0 <= k < |ls| ==> ls[k].Cpu?
    ensures Enters(ls) == 0
  {
    if ls != [] { NoEnters(ls[..|ls| - 1]); }
  }

  /** The store through the null descriptor has been made, or will be without a further call. */
  ghost predicate FaultAhead(s0: State, ls: seq<Label>)
    requires Initial(s0) && Legal(s0, ls)
  {
    exists more :: Enters(more) == 0 && Legal(s0, ls + more) && Run(s0, ls + more).pc.Fault?
  }

  lemma {:induction false} EnteredBefore(s0: State, ls: seq<Label>, more: seq<Label>)
    requires Initial(s0) && Legal(s0, ls) && Legal(s0, ls + more) && Enters(more) == 0
    ensures EnteredEmpty(s0, ls + more) <==> EnteredEmpty(s0, ls)
    decreases |more|
  {
    hide Run;
    if more == [] {
      assert ls + more == ls;
    } else {
      assert (ls + more)[..|ls + more| - 1] == ls + more[..|more| - 1];
      EnteredBefore(s0, ls, more[..|more| - 1]);
    }
  }

  /** low_level_input comes to store through a null descriptor exactly in the runs that called it, at
      some point, while the ring held no frame for the driver. */
  lemma FaultIffEnteredEmpty(s0: State, ls: seq<Label>)
    requires Initial(s0) && Legal(s0, ls)
    ensures FaultAhead(s0, ls) <==> EnteredEmpty(s0, ls)
  {
    DoomedIffEnteredEmpty(s0, ls);
    hide Run, Legal, EnteredEmpty, Enters;
    if FaultAhead(s0, ls) {
      var more :| Enters(more) == 0 && Legal(s0, ls + more) && Run(s0, ls + more).pc.Fault?;
      DoomedIffEnteredEmpty(s0, ls + more);
      EnteredBefore(s0, ls, more);
    }
    if EnteredEmpty(s0, ls) {
      var more := DoomedReachesFault(s0, ls);
      NoEnters(more);
    }
  }

  // ---- Calls made while frames wait take them one by one ----

  /** Calls begun and not yet ended. */
  function Open(pc: Pc): nat { if pc.Idle? then 0 else 1 }

  lemma CpuTakes(s: State, ok: bool)
    requires Shape(s) && Enabled(s, Cpu(ok)) && !Doomed(s.pc)
    ensures var t := CpuStep(s, ok);
            && !Doomed(t.pc) && t.deposited == s.deposited
            && |t.outcomes| + Open(t.pc) == |s.outcomes| + Open(s.pc)
  {
    hide PayloadLength;
  }

  lemma StepTakes(s: State, l: Label)
    requires Inv(s) && !Doomed(s.pc) && Enabled(s, l) && (l.Enter? ==> |s.outcomes| < |s.deposited|)
    ensures var t := Apply(s, l);
            && !Doomed(t.pc) && s.deposited <= t.deposited
            && |t.outcomes| + Open(t.pc) == |s.outcomes| + Open(s.pc) + if l.Enter? then 1 else 0
  {
    match l {
      case Enter => EnterInv(s); hide PayloadLength, Slot, Inv, Owned;
      case Cpu(ok) => CpuTakes(s, ok); hide CpuStep, Inv, Doomed, Open;
      case _ => hide CpuStep, Inv, Doomed, Open, Owned, HardwareStatus;
    }
  }

  /** From between calls on, under every schedule, no more calls than frames waiting never fault and
      each adds one outcome; as many calls as frames waiting, once over, have taken them all. */
  lemma {:induction false} CallsDrain(s0: State, ls: seq<Label>, more: seq<Label>)
    requires Initial(s0) && Legal(s0, ls) && Legal(s0, ls + more) && Run(s0, ls).pc.Idle?
    requires Enters(more) <= |Run(s0, ls).deposited| - |Run(s0, ls).outcomes|
    ensures var s, t := Run(s0, ls), Run(s0, ls + more);
            && !Doomed(t.pc) && s.deposited <= t.deposited
            && |t.outcomes| + Open(t.pc) == |s.outcomes| + Enters(more)
            && (t.pc.Idle? && |t.outcomes| == |s.deposited| ==> OutcomeFrames(t.outcomes) == Payloads(s.deposited))
    decreases |more|
  {
    hide Inv, Apply, Enabled, DepositPayload, Doomed;
    if more == [] {
      assert ls + more == ls;
      NotDoomed(Run(s0, ls).pc);
    } else {
      var before, l := more[..|more| - 1], more[|more| - 1];
      assert (ls + more)[..|ls + more| - 1] == ls + before;
      CallsDrain(s0, ls, before);
      RunInv(s0, ls + before);
      if l.Enter? { EnterIdle(Run(s0, ls + before), l); }
      StepTakes(Run(s0, ls + before), l);
    }
    RunInv(s0, ls + more);
    if |Run(s0, ls + more).outcomes| == |Run(s0, ls).deposited| {
      OutcomesMatch(Run(s0, ls + more), Run(s0, ls).deposited);
    }
  }

  lemma NotDoomed(pc: Pc)
    requires pc.Idle?
    ensures !Doomed(pc)
  {
  }

  lemma EnterIdle(s: State, l: Label)
    requires Shape(s) && Enabled(s, l) && l.Enter?
    ensures s.pc.Idle?
  {
  }

  lemma OutcomesMatch(s: State, ds: seq<Deposit>)
    requires Inv(s) && ds <= s.deposited && |s.outcomes| == |ds|
    ensures OutcomeFrames(s.outcomes) == Payloads(ds)
  {
    hide DepositPayload, Ring, Awake;
    forall k | 0 <= k < |ds|
      ensures OutcomeFrames(s.outcomes)[k] == Payloads(ds)[k]
    {
      assert ds[k] == s.deposited[k];
    }
  }

  // ---- From bytes on the wire to bytes in pbufs ----

  /** x is n, and stands in bits 29 to 16 of the word. */
  predicate LengthAt(w: bv32, x: bv32, n: nat) {
    x as nat == n && x <= 0x3FFF && w & 0x3FFF_0000 == x << 16
  }

  /** The MAC has put a frame, CRC included, at the start of the buffer and, if the entry is a whole
      frame, its length into bits 29 to 16 of the status word. */
  ghost predicate Carries(d: Deposit, f: seq<byte>) {
    && f <= d.buffer && |f| <= 1520
    && (d.status & 0x8300 == 0x0300 ==> exists x: bv32 :: LengthAt(d.status, x, |f|))
  }

  /** What a frame is worth to the driver: all but the CRC, or nothing if its status word reports an
      error or not both ends of the frame. */
  function Worth(w: bv32, f: seq<byte>): seq<byte> {
    if w & 0x8300 == 0x0300 && |f| >= 4 then f[..|f| - 4] else []
  }

  lemma PayloadIsWorth(d: Deposit, f: seq<byte>)
    requires Carries(d, f) && HardwareStatus(d.status)
    ensures DepositPayload(d) == Worth(d.status, f)
  {
    hide PayloadLength, HardwareStatus, LengthAt;
    WholeFrameBits(d.status);
    if d.status & 0x8300 == 0x0300 {
      var x: bv32 :| LengthAt(d.status, x, |f|);
      WholePayload(d.status, x, |f|);
    }
    PayloadAs(d, f, d.status & 0x8300 == 0x0300);
  }

  lemma WholePayload(w: bv32, x: bv32, n: nat)
    requires LengthAt(w, x, n) && n <= 1520
    ensures PayloadLength(w) == if w & 0x8300 == 0x0300 then (n + 0xFFFC) % 0x1_0000 else 0
    ensures HardwareStatus(w) <==> w < 0x8000_0000 && (w & 0x8300 == 0x0300 ==> 4 <= n)
  {
    hide PayloadLength, HardwareStatus;
    PayloadOfStatus(w, x);
  }

  lemma PayloadAs(d: Deposit, f: seq<byte>, whole: bool)
    requires f <= d.buffer && |f| <= 1520 && whole == WholeFrame(d.status)
    requires whole ==> 4 <= |f| && PayloadLength(d.status) == (|f| + 0xFFFC) % 0x1_0000
    ensures DepositPayload(d) == if whole then f[..|f| - 4] else []
  {
    hide WholeFrame, FrameLengthField;
  }

  /** Every status word the engine has left is one it may leave. */
  lemma {:induction false} DepositsHardware(s0: State, ls: seq<Label>, k: nat)
    requires Initial(s0) && Legal(s0, ls) && k < |Run(s0, ls).deposited|
    ensures HardwareStatus(Run(s0, ls).deposited[k].status)
  {
    hide HardwareStatus, Owned, PayloadLength, Apply, Enabled;
    if ls != [] {
      var before := ls[..|ls| - 1];
      StepDeposits(Run(s0, before), ls[|ls| - 1]);
      if k < |Run(s0, before).deposited| {
        DepositsHardware(s0, before, k);
      }
    }
  }

  lemma StepDeposits(s: State, l: Label)
    requires Shape(s) && Enabled(s, l)
    ensures var t := Apply(s, l);
            if l.DmaDone? then HardwareStatus(l.w) && t.deposited == s.deposited + [Deposit(l.w, s.buf[s.cur])]
            else t.deposited == s.deposited
  {
    hide HardwareStatus, Owned, PayloadLength;
  }

  /** Every frame the engine takes in reaches its caller byte for byte, less its CRC, in order and
      once; an errored or partial one reaches it empty. */
  lemma FramesDelivered(s0: State, ls: seq<Label>, fs: seq<seq<byte>>)
    requires Initial(s0) && Legal(s0, ls)
    requires |fs| == |Run(s0, ls).deposited|
    requires forall k :: 0 <= k < |fs| ==> Carries(Run(s0, ls).deposited[k], fs[k])
    ensures var s := Run(s0, ls);
            && Taken(s) <= |fs|
            && OutcomeFrames(s.outcomes) + Current(s) + Waiting(s)
               == seq(|fs|, k requires 0 <= k < |fs| => Worth(s.deposited[k].status, fs[k]))
  {
    ExactlyOnceInOrder(s0, ls);
    hide DepositPayload, Carries, Worth, Run, Legal;
    forall k | 0 <= k < |fs|
      ensures DepositPayload(Run(s0, ls).deposited[k]) == Worth(Run(s0, ls).deposited[k].status, fs[k])
    {
      DepositsHardware(s0, ls, k);
      PayloadIsWorth(Run(s0, ls).deposited[k], fs[k]);
    }
  }

  /** Only the bytes of the buffer at the cursor differ, and they begin with f. */
  predicate Written(s: State, t: State, f: seq<byte>)
    requires Shape(s) && Shape(t)
  {
    && |s.buf| == |t.buf| && f <= t.buf[s.cur] && t == s.(buf := s.buf[s.cur := t.buf[s.cur]])
  }

  lemma {:induction false} WriteBytes(s0: State, ls: seq<Label>, f: seq<byte>) returns (more: seq<Label>)
    requires Initial(s0) && Legal(s0, ls) && |f| <= 1520
    requires var s := Run(s0, ls); !s.suspended && Owned(s.status[s.cur])
    ensures Legal(s0, ls + more) && Written(Run(s0, ls), Run(s0, ls + more), f)
    ensures forall k :: 0 <= k < |more| ==> more[k].DmaWrite?
    decreases |f|
  {
    hide Run, Legal, Owned, Initial;
    if f == [] {
      more := [];
      assert ls + more == ls;
    } else {
      var last := |f| - 1;
      var rest := WriteBytes(s0, ls, f[..last]);
      var l := DmaWrite(last, f[last]);
      Extend(s0, ls + rest, l);
      more := rest + [l];
      assert ls + more == ls + rest + [l];
    }
  }

  /** The engine, when it has a descriptor, can take in any frame of up to 1520 bytes with any status
      word the MAC may give it. */
  lemma FrameArrives(s0: State, ls: seq<Label>, f: seq<byte>, w: bv32) returns (more: seq<Label>)
    requires Initial(s0) && Legal(s0, ls) && |f| <= 1520 && HardwareStatus(w)
    requires w & 0x8300 == 0x0300 ==> exists x: bv32 :: LengthAt(w, x, |f|)
    requires var s := Run(s0, ls); !s.suspended && Owned(s.status[s.cur])
    ensures Legal(s0, ls + more) && forall k :: 0 <= k < |more| ==> more[k].DmaWrite? || more[k].DmaDone?
    ensures var s, t := Run(s0, ls), Run(s0, ls + more);
            && t.pc == s.pc && t.outcomes == s.outcomes && |t.deposited| == |s.deposited| + 1
            && s.deposited <= t.deposited
            && t.deposited[|s.deposited|].status == w && Carries(t.deposited[|s.deposited|], f)
  {
    hide Run, Legal, Owned, Initial, HardwareStatus;
    var rest := WriteBytes(s0, ls, f);
    Extend(s0, ls + rest, DmaDone(w));
    more := rest + [DmaDone(w)];
    assert ls + more == ls + rest + [DmaDone(w)];
  }

  /** The call in work has its pbufs, if it needs them yet. */
  predicate NoNull(pc: Pc) {
    pc.SetOwn? || Returned(pc) ==> pc.p.Filled?
  }

  lemma StepOn(s0: State, ls: seq<Label>)
    requires Initial(s0) && Legal(s0, ls)
    requires var pc := Run(s0, ls).pc; !pc.Idle? && !Doomed(pc) && NoNull(pc)
    ensures Legal(s0, ls + [Cpu(true)])
    ensures var s, t := Run(s0, ls), Run(s0, ls + [Cpu(true)]);
            && t.deposited == s.deposited && !Doomed(t.pc) && NoNull(t.pc) && Remaining(t) < Remaining(s)
            && if t.pc.Idle? then exists b :: t.outcomes == s.outcomes + [Passed(b, true)]
               else t.outcomes == s.outcomes
  {
    hide PayloadLength, Legal, Run, Initial, Remaining, Inv, CpuStep;
    RunInv(s0, ls);
    NeverStuck(Run(s0, ls));
    CallAdvances(Run(s0, ls), Cpu(true));
    Extend(s0, ls, Cpu(true));
    CpuOn(Run(s0, ls));
  }

  lemma CpuOn(s: State)
    requires Shape(s) && Enabled(s, Cpu(true)) && !Doomed(s.pc) && NoNull(s.pc)
    ensures var t := CpuStep(s, true);
            && t.deposited == s.deposited && !Doomed(t.pc) && NoNull(t.pc)
            && if t.pc.Idle? then exists b :: t.outcomes == s.outcomes + [Passed(b, true)]
               else t.outcomes == s.outcomes
  {
    hide PayloadLength;
  }

  /** A call with pbufs and an accepting stack ends by passing a frame on. */
  lemma {:induction false} CallEnds(s0: State, ls: seq<Label>) returns (more: seq<Label>)
    requires Initial(s0) && Legal(s0, ls)
    requires var pc := Run(s0, ls).pc; !pc.Idle? && !Doomed(pc) && NoNull(pc)
    ensures Legal(s0, ls + more) && forall k :: 0 <= k < |more| ==> more[k] == Cpu(true)
    ensures var s, t := Run(s0, ls), Run(s0, ls + more);
            && t.pc.Idle? && t.deposited == s.deposited
            && exists b :: t.outcomes == s.outcomes + [Passed(b, true)]
    decreases Remaining(Run(s0, ls))
  {
    hide Initial, Legal, Run, Shape, Remaining, Doomed, NoNull;
    StepOn(s0, ls);
    if Run(s0, ls + [Cpu(true)]).pc.Idle? {
      more := [Cpu(true)];
    } else {
      var rest := CallEnds(s0, ls + [Cpu(true)]);
      more := [Cpu(true)] + rest;
      assert ls + [Cpu(true)] + rest == ls + more;
    }
  }

  /** From every start-up, any good frame of 4 to 1520 bytes can arrive, and one call of the driver
      then passes on exactly its bytes less the CRC. */
  lemma FrameGoesThrough(s0: State, f: seq<byte>, w: bv32) returns (ls: seq<Label>)
    requires Initial(s0) && 4 <= |f| <= 1520
    requires w & 0x8000_8300 == 0x0300 && exists x: bv32 :: LengthAt(w, x, |f|)
    ensures Legal(s0, ls) && Run(s0, ls).pc.Idle?
    ensures Run(s0, ls).outcomes == [Passed(f[..|f| - 4], true)]
  {
    GoodStatus(w, |f|);
    assert Run(s0, []) == s0;
    StartsEmpty(s0);
    hide Legal, Run, Initial, Owned, HardwareStatus, Carries, Worth;
    var arrival := FrameArrives(s0, [], f, w);
    ls := EnterAndEnd(s0, [] + arrival);
    var t := Run(s0, ls);
    FramesDelivered(s0, ls, [f]);
    assert OutcomeFrames(t.outcomes) == (OutcomeFrames(t.outcomes) + Current(t) + Waiting(t))[..1];
    assert OutcomeFrames(t.outcomes)[0] == OutcomeData(t.outcomes[0]) == Worth(w, f);
    GoodWorth(w, f);
  }

  lemma StartsEmpty(s: State)
    requires Initial(s)
    ensures !s.suspended && Owned(s.status[s.cur]) && s.pc.Idle? && s.outcomes == [] && s.deposited == []
  {
    assert s.status[s.cur] == RX_OWN;
  }

  lemma GoodWorth(w: bv32, f: seq<byte>)
    requires w & 0x8300 == 0x0300 && |f| >= 4
    ensures Worth(w, f) == f[..|f| - 4]
  {
  }

  lemma GoodStatus(w: bv32, n: nat)
    requires 4 <= n <= 1520 && w & 0x8000_8300 == 0x0300 && exists x: bv32 :: LengthAt(w, x, n)
    ensures w & 0x8300 == 0x0300 && HardwareStatus(w)
  {
    hide HardwareStatus, LengthAt;
    StatusBits(w);
    var x: bv32 :| LengthAt(w, x, n);
    WholePayload(w, x, n);
  }

  lemma StatusBits(w: bv32)
    requires w & 0x8000_8300 == 0x0300
    ensures w & 0x8300 == 0x0300 && w < 0x8000_0000
  {
  }

  /** A call on a ring with a waiting frame, with pbufs and an accepting stack. */
  lemma EnterAndEnd(s0: State, ls: seq<Label>) returns (more: seq<Label>)
    requires Initial(s0) && Legal(s0, ls) && Run(s0, ls).pc.Idle?
    requires |Run(s0, ls).outcomes| < |Run(s0, ls).deposited|
    ensures ls <= more && Legal(s0, more) && Run(s0, more).pc.Idle?
    ensures Run(s0, more).deposited == Run(s0, ls).deposited
    ensures exists b :: Run(s0, more).outcomes == Run(s0, ls).outcomes + [Passed(b, true)]
  {
    var s := Run(s0, ls);
    RunInv(s0, ls);
    EnterInv(s);
    Extend(s0, ls, Enter);
    assert Apply(s, Enter).pc == ReadStatus;
    hide Run, Legal, Inv;
    var rest := CallEnds(s0, ls + [Enter]);
    more := ls + [Enter] + rest;
  }
}
