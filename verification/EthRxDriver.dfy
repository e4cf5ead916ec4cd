/** ethernetif.c's receive path as it runs: global cursor, descriptor words and status flags
    updated in place, with the DMA engine acting between the accesses. */
module EthRxDriver {
  import opened Basics
  import opened EthDescriptors
  import opened EthRx
  import opened RingSlots
  import Pbufs

  lemma EmptyMeansOwned(s0: State, ls: seq<Label>)
    requires Initial(s0) && Legal(s0, ls) && Run(s0, ls).pc.Idle?
    ensures var s := Run(s0, ls); Owned(s.status[s.get]) <==> |s.deposited| == |s.outcomes|
  {
    RunInv(s0, ls);
    EnterInv(Run(s0, ls));
  }

  lemma FrameInWork(s0: State, ls: seq<Label>)
    requires Initial(s0) && Legal(s0, ls) && (Run(s0, ls).pc.Alloc? || Run(s0, ls).pc.Hand?)
    ensures var s := Run(s0, ls);
            && |s.outcomes| < |s.deposited|
            && (s.pc.Alloc? ==> s.pc.len == PayloadLength(s.deposited[|s.outcomes|].status))
            && (s.pc.Hand? ==> ChainData(s.pc.p) == DepositPayload(s.deposited[|s.outcomes|]))
  {
    RunInv(s0, ls);
  }

  lemma AwakeUnlessFlagged(s0: State, ls: seq<Label>)
    requires Initial(s0) && Legal(s0, ls) && !Run(s0, ls).rbu
    requires !Run(s0, ls).pc.Poll? && !Run(s0, ls).pc.EmptyPoll?
    ensures !Run(s0, ls).suspended
  {
    RunInv(s0, ls);
  }

  lemma CursorReturned(s: State)
    requires Inv(s) && s.pc.ReadStatus?
    ensures !Owned(s.status[s.get])
  {
    assert s.status[Slot(Taken(s), |s.status|)] == s.deposited[Taken(s)].status;
  }

  class Driver {
    // Descriptor words and buffers, and the chain of next-descriptor addresses.
    var status: seq<bv32>
    var buf: seq<seq<byte>>
    const next: seq<nat>
    // DMARxDescToGet.
    var toGet: nat
    // The DMA engine: its cursor, whether it sleeps, and the RBU bit of ETH->DMASTS.
    var cursor: nat
    var suspended: bool
    var rbu: bool
    // The transition system's view of this run.
    ghost var pc: Pc
    ghost var deposited: seq<Deposit>
    ghost var outcomes: seq<Outcome>
    ghost const start: State
    ghost var trace: seq<Label>

    ghost function Abs(): State
      reads this
    {
      State(status, buf, toGet, cursor, suspended, rbu, pc, deposited, outcomes)
    }

    /** The state is the one a legal run of the transition system reaches. */
    ghost predicate Valid()
      reads this
    {
      Chained(next, |status|) && Initial(start) && Legal(start, trace) && Run(start, trace) == Abs()
    }

    constructor (count: nat)
      requires count > 0
      ensures Valid() && |status| == count && pc == Idle && trace == []
      ensures forall i :: 0 <= i < count ==> status[i] == 0x8000_0000
    {
      var chain := ChainInit(count);
      var words := seq(count, _ => RX_OWN);
      var buffers := seq(count, _ => seq(ETH_MAX_PACKET_SIZE, _ => 0 as byte));
      next, status, buf, toGet, cursor, suspended, rbu := chain, words, buffers, 0, 0, false, false;
      pc, deposited, outcomes, trace := Idle, [], [], [];
      start := State(words, buffers, 0, 0, false, false, Idle, [], []);
    }

    ghost method Record(before: State, l: Label)
      requires Initial(start) && Legal(start, trace) && Run(start, trace) == before
      requires Chained(next, |status|)
      requires Enabled(before, l) && Abs() == Apply(before, l)
      modifies this`trace
      ensures Valid() && trace == old(trace) + [l]
    {
      trace := trace + [l];
      assert trace[..|trace| - 1] == old(trace);
    }

    /** What no step before the hand-over changes, and DMA progress. */
    twostate predicate Kept()
      reads this
    {
      outcomes == old(outcomes) && old(deposited) <= deposited && |status| == old(|status|)
    }

    /** Any number of DMA steps. */
    method Dma()
      requires Valid()
      modifies this
      ensures Valid() && Kept() && pc == old(pc) && toGet == old(toGet)
    {
      var steps: nat := *;
      while steps > 0
        invariant Valid() && Kept() && pc == old(pc) && toGet == old(toGet)
      {
        DmaStep();
        steps := steps - 1;
      }
    }

    method DmaStep()
      requires Valid()
      modifies this
      ensures Valid() && Kept() && pc == old(pc) && toGet == old(toGet)
    {
      ghost var before := Abs();
      assert Shape(before);
      var off: nat, b: byte, w: bv32, done: bool := *, *, *, *;
      if suspended {
      } else if !Owned(status[cursor]) {
        suspended, rbu := true, true;
        Record(before, DmaSuspend);
      } else if done && HardwareStatus(w) {
        deposited := deposited + [Deposit(w, buf[cursor])];
        status := status[cursor := w];
        cursor := next[cursor];
        Record(before, DmaDone(w));
      } else if off < ETH_MAX_PACKET_SIZE {
        buf := buf[cursor := buf[cursor][off := b]];
        Record(before, DmaWrite(off, b));
      }
    }

    /** One of the driver's own steps, taken on fields already updated. */
    ghost method RecordCpu(before: State, ok: bool)
      requires Initial(start) && Legal(start, trace) && Run(start, trace) == before
      requires Chained(next, |status|)
      requires Enabled(before, Cpu(ok)) && Abs() == CpuStep(before, ok)
      modifies this`trace
      ensures Valid()
    {
      Record(before, Cpu(ok));
    }

    method CopyByte(d: nat, len: nat, l: nat) returns (b: byte)
      requires Valid() && pc.Copy? && pc.d == d && pc.len == len && |pc.out| == l < len
      modifies this
      ensures Valid() && Kept() && pc == Copy(d, len, old(pc.out) + [b])
    {
      Dma();
      hide PayloadLength, Legal, Run, Apply;
      ghost var before := Abs();
      assert Shape(before);
      b := buf[d][l];
      pc := Copy(d, len, pc.out + [b]);
      RecordCpu(before, true);
    }

    /** memcpy of one pbuf's worth of frame bytes, a DMA step possible between any two bytes. */
    method CopyInto(q: array<byte>, d: nat, len: nat, l: nat)
      requires Valid() && pc.Copy? && pc.d == d && pc.len == len && |pc.out| == l
      requires l + q.Length <= len
      modifies this, q
      ensures Valid() && Kept() && pc == Copy(d, len, old(pc.out) + q[..])
    {
      hide Legal, Run;
      var j := 0;
      while j < q.Length
        invariant 0 <= j <= q.Length
        invariant Valid() && Kept() && pc == Copy(d, len, old(pc.out) + q[..j])
      {
        q[j] := CopyByte(d, len, l + j);
        assert q[..j + 1] == q[..j] + [q[j]];
        j := j + 1;
      }
      assert q[..j] == q[..];
    }

    /** ETH_RxPkt_ChainMode's ownership test, and what follows when the DMA engine holds the ring. */
    method TestOwnership() returns (found: bool)
      requires Valid() && pc == Idle
      modifies this
      ensures Valid() && Kept()
      ensures found == old(!Owned(status[toGet]))
      ensures pc == if found then ReadStatus else EmptySetOwn
    {
      hide PayloadLength, Legal, Run;
      ghost var before := Abs();
      assert Shape(before);
      found := !Owned(status[toGet]);
      pc := if found then ReadStatus else EmptyTestRbu;
      Record(before, Enter);
      if !found {
        ResumeReception();
      }
    }

    method ReadRbu() returns (set_: bool)
      requires Valid() && (pc.TestRbu? || pc.EmptyTestRbu?)
      modifies this
      ensures Valid() && Kept() && set_ == rbu
      ensures pc == if set_ then (if old(pc).TestRbu? then ClearRbu(old(pc.p)) else EmptyClearRbu) else Resumed(old(pc))
    {
      Dma();
      hide PayloadLength, Legal, Run, Apply;
      ghost var before := Abs();
      assert Shape(before);
      set_ := rbu;
      pc := if set_ then (if pc.TestRbu? then ClearRbu(pc.p) else EmptyClearRbu) else Resumed(pc);
      RecordCpu(before, true);
    }

    /** Writing the RBU bit of the status register clears it. */
    method WriteStatusRbu()
      requires Valid() && (pc.ClearRbu? || pc.EmptyClearRbu?)
      modifies this
      ensures Valid() && Kept() && !rbu
      ensures pc == if old(pc).ClearRbu? then Poll(old(pc.p)) else EmptyPoll
    {
      Dma();
      hide PayloadLength, Legal, Run, Apply;
      ghost var before := Abs();
      assert Shape(before);
      rbu := false;
      pc := if pc.ClearRbu? then Poll(pc.p) else EmptyPoll;
      RecordCpu(before, true);
    }

    /** Any write to the poll demand register wakes the engine. */
    method WritePollDemand()
      requires Valid() && (pc.Poll? || pc.EmptyPoll?)
      modifies this
      ensures Valid() && Kept() && pc == Resumed(old(pc)) && !suspended
    {
      Dma();
      hide PayloadLength, Legal, Run, Apply;
      ghost var before := Abs();
      assert Shape(before);
      suspended := false;
      pc := Resumed(pc);
      RecordCpu(before, true);
    }

    /** Where the driver stands once reception is resumed. */
    static ghost function Resumed(pc: Pc): Pc {
      match pc
      case TestRbu(p) => Hand(p)
      case Poll(p) => Hand(p)
      case _ => EmptySetOwn
    }

    /** Clear a set RBU flag and resume reception. The engine is awake at the end: with the flag
        clear it was not asleep. */
    method ResumeReception()
      requires Valid() && (pc.TestRbu? || pc.EmptyTestRbu?)
      modifies this
      ensures Valid() && Kept() && pc == Resumed(old(pc)) && !suspended
    {
      hide Legal, Run;
      var set_ := ReadRbu();
      if set_ {
        WriteStatusRbu();
        WritePollDemand();
      } else {
        AwakeUnlessFlagged(start, trace);
      }
    }

    /** The length of the frame, its descriptor, and the cursor's advance. */
    method TakeDescriptor() returns (d: nat, len: nat)
      requires Valid() && pc == ReadStatus
      modifies this
      ensures Valid() && Kept() && pc == Alloc(d, len)
      ensures d == old(toGet) && toGet == Succ(d, |status|)
      ensures !Owned(status[d]) && len == PayloadLength(status[d]) <= ETH_MAX_PACKET_SIZE
    {
      Dma();
      RunInv(start, trace);
      NeverStuck(Abs());
      CursorReturned(Abs());
      hide PayloadLength, Legal, Run, Apply, Inv, Owned;
      ghost var before := Abs();
      assert Shape(before);
      d, len := toGet, PayloadLength(status[toGet]);
      toGet, pc := next[toGet], Alloc(d, len);
      RecordCpu(before, true);
    }

    method BeginCopy(d: nat, len: nat, ok: bool)
      requires Valid() && pc == Alloc(d, len)
      modifies this
      ensures Valid() && Kept()
      ensures if ok then pc == Copy(d, len, []) else pc.SetOwn? && pc.d == d && pc.p.Null?
    {
      Dma();
      hide PayloadLength, Legal, Run, Apply;
      ghost var before := Abs();
      assert Shape(before);
      pc := if ok then Copy(d, len, []) else SetOwn(d, Null(buf[d][..len]));
      RecordCpu(before, ok);
    }

    method EndCopy(d: nat, len: nat)
      requires Valid() && pc.Copy? && pc.d == d && pc.len == len == |pc.out|
      modifies this
      ensures Valid() && Kept() && pc == SetOwn(d, Filled(old(pc.out)))
    {
      Dma();
      hide PayloadLength, Legal, Run, Apply;
      ghost var before := Abs();
      assert Shape(before);
      pc := SetOwn(d, Filled(pc.out));
      RecordCpu(before, true);
    }

    /** pbuf_alloc, and the scatter loop over the chain it returns. */
    method Scatter(d: nat, len: nat, pool: nat) returns (p: Option<Pbufs.Chain>)
      requires Valid() && pc == Alloc(d, len)
      modifies this
      ensures Valid() && Kept() && pc.SetOwn? && pc.d == d
      ensures p.None? <==> pool < Pbufs.PoolPbufs(len)
      ensures p.None? <==> pc.p.Null?
      ensures p.Some? ==> fresh(p.value) && Pbufs.Concat(Pbufs.Payloads(p.value)) == pc.p.data
    {
      hide Legal, Run;
      p := Pbufs.PbufAlloc(len, pool);
      BeginCopy(d, len, p.Some?);
      if p.Some? {
        FillChain(p.value, d, len);
        EndCopy(d, len);
      }
    }

    method FillChain(chain: Pbufs.Chain, d: nat, len: nat)
      requires Valid() && pc == Copy(d, len, [])
      requires Pbufs.Distinct(chain) && Pbufs.TotalLength(chain, |chain|) == len
      modifies this, set q | q in chain
      ensures Valid() && Kept() && pc.Copy? && pc.d == d && pc.len == len && |pc.out| == len
      ensures pc.out == Pbufs.Concat(Pbufs.Payloads(chain)) && Pbufs.Scattered(pc.out, Pbufs.Payloads(chain))
    {
      hide PayloadLength, Legal, Run, Apply;
      var i, l := 0, 0;
      ghost var filled: seq<seq<byte>> := [];
      while i < |chain|
        invariant 0 <= i <= |chain| && |filled| == i
        invariant forall k :: 0 <= k < i ==> chain[k][..] == filled[k]
        invariant Valid() && Kept() && pc == Copy(d, len, Pbufs.Concat(filled))
        invariant l == |pc.out| == Pbufs.TotalLength(chain, i)
      {
        var q := chain[i];
        Pbufs.TotalLengthGrows(chain, i + 1, |chain|);
        CopyInto(q, d, len, l);
        Pbufs.ConcatSnoc(filled, q[..]);
        filled := filled + [q[..]];
        l := l + q.Length;
        i := i + 1;
      }
      assert Pbufs.Payloads(chain) == filled;
      Pbufs.GatherScatter(pc.out, filled);
    }

    /** The descriptor goes back, and a sleeping engine is woken. */
    method Release(d: nat)
      requires Valid() && pc.SetOwn? && pc.d == d
      modifies this
      ensures Valid() && Kept() && pc == Hand(old(pc.p))
    {
      Dma();
      hide PayloadLength, Legal, Run, Apply;
      ghost var before := Abs();
      assert Shape(before);
      status := status[d := RX_OWN];
      pc := TestRbu(pc.p);
      RecordCpu(before, true);
      ResumeReception();
    }

    /** The ownership store with the NULL descriptor of an empty ring. */
    method StoreThroughNull()
      requires Valid() && pc == EmptySetOwn
      modifies this
      ensures Valid() && Kept() && pc == Fault
    {
      Dma();
      hide PayloadLength, Legal, Run, Apply;
      ghost var before := Abs();
      assert Shape(before);
      pc := Fault;
      RecordCpu(before, true);
    }

    /** low_level_input: it faults exactly when the ring holds nothing for the driver; otherwise it
        returns the oldest frame in pbufs, or NULL exactly when the pool is short of it. */
    method LowLevelInput(pool: nat) returns (fault: bool, p: Option<Pbufs.Chain>)
      requires Valid() && pc == Idle
      modifies this
      ensures Valid() && Kept()
      ensures fault == old(Owned(status[toGet])) == (|old(deposited)| == |outcomes|)
      ensures if fault then pc == Fault else pc.Hand?
      ensures !fault ==> |outcomes| < |deposited|
      ensures !fault ==> var frame := deposited[|outcomes|];
        && ChainData(pc.p) == DepositPayload(frame)
        && (p.None? <==> pc.p.Null?)
        && (p.None? <==> pool < Pbufs.PoolPbufs(PayloadLength(frame.status)))
        && (p.Some? ==> fresh(p.value) && Pbufs.Concat(Pbufs.Payloads(p.value)) == DepositPayload(frame))
    {
      hide PayloadLength, Legal, Run, DepositPayload;
      EmptyMeansOwned(start, trace);
      var found := TestOwnership();
      fault, p := !found, None;
      if found {
        var d, len := TakeDescriptor();
        FrameInWork(start, trace);
        p := Scatter(d, len, pool);
        Release(d);
        FrameInWork(start, trace);
      } else {
        StoreThroughNull();
      }
    }

    /** ethernetif_input, with the verdict of netif->input and the pool's free buffers given. */
    method EthernetifInput(pool: nat, verdict: Pbufs.Err) returns (fault: bool, err: Pbufs.Err)
      requires Valid() && pc == Idle
      modifies this
      ensures Valid() && old(deposited) <= deposited
      ensures fault == old(Owned(status[toGet])) == (|old(deposited)| == |old(outcomes)|)
      ensures fault ==> pc == Fault && outcomes == old(outcomes)
      ensures !fault ==> pc == Idle && |old(outcomes)| < |deposited|
      ensures !fault ==> var frame := deposited[|old(outcomes)|];
        if pool < Pbufs.PoolPbufs(PayloadLength(frame.status))
        then err == Pbufs.ERR_MEM && outcomes == old(outcomes) + [Dropped(DepositPayload(frame))]
        else err == verdict
             && outcomes == old(outcomes) + [Passed(DepositPayload(frame), verdict == Pbufs.ERR_OK)]
    {
      var p;
      fault, p := LowLevelInput(pool);
      if fault {
        return true, Pbufs.ERR_MEM;
      }
      Dma();
      hide PayloadLength, Legal, Run, Apply;
      err := if p.None? then Pbufs.ERR_MEM else verdict;
      ghost var before := Abs();
      assert Shape(before);
      outcomes := outcomes + [if pc.p.Filled? then Passed(pc.p.data, verdict == Pbufs.ERR_OK) else Dropped(pc.p.lost)];
      pc := Idle;
      RecordCpu(before, verdict == Pbufs.ERR_OK);
    }
  }
}
