/** ethernetif.c's transmit path as it runs: global cursor, descriptor words and status flags
    updated in place, with the DMA engine acting between the accesses. */
module EthTxDriver {
  import opened EthDescriptors
  import opened EthTx
  import Pbufs

  class Driver {
    // Descriptor words, the buffers and what lies behind them, and the chain of next-descriptor
    // addresses.
    var status: seq<bv32>
    var control: seq<nat>
    var mem: seq<byte>
    const next: seq<nat>
    // DMATxDescToSet.
    var toSet: nat
    // The DMA engine: its cursor, whether it sleeps, the TBU bit, and the frame it is reading.
    var cursor: nat
    var suspended: bool
    var tbu: bool
    var sending: seq<byte>
    // The transition system's view of this run.
    ghost var pc: Pc
    ghost var handed: seq<seq<byte>>
    ghost var refused: seq<seq<byte>>
    ghost var sent: seq<seq<byte>>
    ghost const start: State
    ghost var trace: seq<Label>

    ghost function Abs(): State
      reads this
    {
      State(status, control, mem, toSet, cursor, suspended, tbu, sending, pc, handed, refused, sent)
    }

    /** The state is the one a legal run of the transition system reaches. */
    ghost predicate Valid()
      reads this
    {
      Chained(next, |status|) && Initial(start) && Legal(start, trace) && Run(start, trace) == Abs()
    }

    constructor (count: nat)
      requires count > 0
      ensures Valid() && |status| == count && pc == Idle && trace == []
      ensures forall i :: 0 <= i < count ==> status[i] == 0x0010_0000
    {
      var chain := ChainInit(count);
      var words, controls := seq(count, _ => TX_TCH), seq(count, _ => 0 as nat);
      var memory := seq(Base(count) + CHAIN_LIMIT, _ => 0 as byte);
      next, status, control, mem, toSet, cursor := chain, words, controls, memory, 0, 0;
      suspended, tbu, sending := false, false, [];
      pc, handed, refused, sent, trace := Idle, [], [], [], [];
      start := State(words, controls, memory, 0, 0, false, false, [], Idle, [], [], []);
    }

    /** One step taken on fields already updated. */
    ghost method Record(before: State, l: Label)
      requires Initial(start) && Legal(start, trace) && Run(start, trace) == before
      requires Chained(next, |status|)
      requires Enabled(before, l) && Abs() == Apply(before, l)
      modifies this`trace
      ensures Valid() && trace == old(trace) + [l]
      ensures Guarded(start, old(trace)) && (l.Enter? ==> Admissible(before, l.f)) ==> Guarded(start, trace)
    {
      Extend(start, trace, l);
      trace := trace + [l];
      assert trace[..|trace| - 1] == old(trace);
    }

    ghost predicate AllGuarded()
      requires Valid()
      reads this
    {
      Guarded(start, trace)
    }

    /** No descriptor has gone over to the engine. */
    twostate predicate NoneGiven()
      reads this
    {
      |status| == |old(status)| && forall i :: 0 <= i < |status| && Owned(status[i]) ==> Owned(old(status)[i])
    }

    /** What no step inside a call changes; guarded runs stay so. */
    twostate predicate Kept()
      requires old(Valid()) && Valid()
      reads this
    {
      && handed == old(handed) && refused == old(refused) && old(sent) <= sent
      && |status| == old(|status|) && (old(AllGuarded()) ==> AllGuarded())
    }

    /** Any number of DMA steps. */
    method Dma()
      requires Valid()
      modifies this
      ensures Valid() && Kept() && NoneGiven() && pc == old(pc) && toSet == old(toSet)
    {
      var steps: nat := *;
      while steps > 0
        invariant Valid() && Kept() && NoneGiven() && pc == old(pc) && toSet == old(toSet)
      {
        DmaStep();
        steps := steps - 1;
      }
    }

    method DmaStep()
      requires Valid()
      modifies this
      ensures Valid() && Kept() && NoneGiven() && pc == old(pc) && toSet == old(toSet)
    {
      hide Legal, Run;
      ghost var before := Abs();
      assert Shape(before);
      var w: bv32 := *;
      if suspended {
      } else if !Owned(status[cursor]) {
        suspended, tbu := true, true;
        Record(before, DmaSuspend);
      } else if |sending| < control[cursor] {
        sending := sending + [mem[Base(cursor) + |sending|]];
        Record(before, DmaRead);
      } else if !Owned(w) {
        sent, sending := sent + [sending], [];
        status := status[cursor := w];
        cursor := next[cursor];
        Record(before, DmaDone(w));
      }
    }

    method BeginFill(ghost f: seq<byte>)
      requires Valid() && pc == Idle && |f| < CHAIN_LIMIT
      modifies this
      ensures Valid() && pc == Fill(f, 0) && toSet == old(toSet) && NoneGiven()
      ensures handed == old(handed) && refused == old(refused) && old(sent) <= sent
      ensures old(AllGuarded()) && old(!Owned(status[toSet])) && |f| <= ETH_MAX_PACKET_SIZE ==> AllGuarded()
    {
      hide Legal, Run;
      ghost var before := Abs();
      assert Shape(before);
      pc := Fill(f, 0);
      Record(before, Enter(f));
    }

    method FillByte(ghost f: seq<byte>, l: nat, b: byte)
      requires Valid() && pc == Fill(f, l) && l < |f| && f[l] == b
      modifies this
      ensures Valid() && Kept() && NoneGiven() && pc == Fill(f, l + 1) && toSet == old(toSet)
    {
      Dma();
      StoreByte(f, l, b);
    }

    method StoreByte(ghost f: seq<byte>, l: nat, b: byte)
      requires Valid() && pc == Fill(f, l) && l < |f| && f[l] == b
      modifies this
      ensures Valid() && Kept() && status == old(status) && pc == Fill(f, l + 1) && toSet == old(toSet)
    {
      hide Legal, Run, Guarded, Admissible, Owned;
      ghost var before := Abs();
      assert Shape(before);
      mem := mem[Base(toSet) + l := b];
      pc := Fill(f, l + 1);
      Record(before, Cpu);
    }

    /** memcpy of one pbuf's payload to the buffer, a DMA step possible between any two bytes. */
    method CopyFrom(q: array<byte>, ghost f: seq<byte>, l: nat)
      requires Valid() && pc == Fill(f, l) && l + q.Length <= |f| && f[l..l + q.Length] == q[..]
      modifies this
      ensures Valid() && Kept() && NoneGiven() && pc == Fill(f, l + q.Length) && toSet == old(toSet)
    {
      hide Legal, Run, Guarded, Admissible, Owned;
      var j := 0;
      while j < q.Length
        invariant 0 <= j <= q.Length
        invariant Valid() && Kept() && NoneGiven() && pc == Fill(f, l + j) && toSet == old(toSet)
      {
        assert f[l + j] == f[l..l + q.Length][j];
        FillByte(f, l + j, q[j]);
        j := j + 1;
      }
    }

    /** The gather loop of low_level_output; l ends as the length of the whole chain. */
    method Gather(p: Pbufs.Chain, ghost f: seq<byte>) returns (l: nat)
      requires Valid() && pc == Fill(f, 0) && f == Pbufs.Concat(Pbufs.Payloads(p))
      modifies this
      ensures Valid() && Kept() && NoneGiven() && toSet == old(toSet)
      ensures l == |f| && pc == TestOwn(f)
    {
      hide Legal, Run, Guarded, Admissible, Owned;
      ghost var ps := Pbufs.Payloads(p);
      l := 0;
      var i := 0;
      while i < |p|
        invariant 0 <= i <= |p| && l <= |f| && f[..l] == Pbufs.Concat(ps[..i])
        invariant Valid() && Kept() && NoneGiven() && pc == Fill(f, l) && toSet == old(toSet)
      {
        Pbufs.ConcatSplit(ps, i);
        CopyFrom(p[i], f, l);
        l := l + p[i].Length;
        i := i + 1;
      }
      assert ps[..i] == ps;
      EndFill(f, l);
    }

    method EndFill(ghost f: seq<byte>, l: nat)
      requires Valid() && pc == Fill(f, l) && l == |f|
      modifies this
      ensures Valid() && Kept() && NoneGiven() && toSet == old(toSet) && pc == TestOwn(f)
    {
      Dma();
      hide Legal, Run, Guarded, Admissible, Owned;
      ghost var before := Abs();
      assert Shape(before);
      pc := TestOwn(f);
      Record(before, Cpu);
    }

    /** The ownership test of ETH_TxPkt_ChainMode. */
    method TestOwnership(ghost f: seq<byte>) returns (free: bool)
      requires Valid() && pc == TestOwn(f)
      modifies this
      ensures Valid() && toSet == old(toSet) && handed == old(handed) && old(sent) <= sent
      ensures old(AllGuarded()) ==> AllGuarded()
      ensures if free then pc == SetLength(f) && refused == old(refused)
              else pc == Idle && refused == old(refused) + [f]
      ensures old(!Owned(status[toSet])) ==> free
    {
      Dma();
      hide Legal, Run;
      ghost var before := Abs();
      assert Shape(before);
      free := !Owned(status[toSet]);
      if free {
        pc := SetLength(f);
      } else {
        pc, refused := Idle, refused + [f];
      }
      Record(before, Cpu);
    }

    /** The store of the frame length. */
    method WriteLength(ghost f: seq<byte>, frameLength: nat)
      requires Valid() && pc == SetLength(f) && frameLength == |f| % 0x1_0000
      modifies this
      ensures Valid() && Kept() && toSet == old(toSet) && pc == SetSegments(f)
      ensures control[toSet] == frameLength % 0x2000
    {
      Dma();
      hide Legal, Run, Guarded, Admissible, Owned;
      ghost var before := Abs();
      assert Shape(before);
      control := control[toSet := frameLength % (TX_TBS1 + 1)];
      pc := SetSegments(f);
      Record(before, Cpu);
    }

    /** The store of the first and last segment bits. */
    method WriteSegments(ghost f: seq<byte>)
      requires Valid() && pc == SetSegments(f)
      modifies this
      ensures Valid() && Kept() && toSet == old(toSet) && pc == SetOwn(f)
    {
      Dma();
      StoreSegments(f);
    }

    method StoreSegments(ghost f: seq<byte>)
      requires Valid() && pc == SetSegments(f)
      modifies this
      ensures Valid() && Kept() && toSet == old(toSet) && pc == SetOwn(f)
    {
      ghost var before := Abs();
      SegmentsStep(before);
      hide Legal, Run, Guarded, Admissible, Owned, Apply, Enabled;
      status := status[toSet := status[toSet] | TX_LS | TX_FS];
      pc := SetOwn(f);
      Record(before, Cpu);
    }

    /** The store of the ownership bit: from here on the engine may read the descriptor. */
    method WriteOwn(ghost f: seq<byte>)
      requires Valid() && pc == SetOwn(f)
      modifies this
      ensures Valid() && toSet == old(toSet) && pc == TestTbu
      ensures handed == old(handed) + [f] && refused == old(refused) && old(sent) <= sent
      ensures old(AllGuarded()) ==> AllGuarded()
    {
      Dma();
      StoreOwn(f);
    }

    method StoreOwn(ghost f: seq<byte>)
      requires Valid() && pc == SetOwn(f)
      modifies this
      ensures Valid() && toSet == old(toSet) && pc == TestTbu
      ensures handed == old(handed) + [f] && refused == old(refused) && sent == old(sent)
      ensures old(AllGuarded()) ==> AllGuarded()
    {
      ghost var before := Abs();
      OwnStep(before);
      hide Legal, Run, Guarded, Admissible, Owned, Apply, Enabled;
      status := status[toSet := status[toSet] | TX_OWN];
      handed, pc := handed + [f], TestTbu;
      Record(before, Cpu);
    }

    method ReadTbu() returns (set_: bool)
      requires Valid() && pc == TestTbu
      modifies this
      ensures Valid() && Kept() && toSet == old(toSet) && pc == (if set_ then ClearTbu else Advance)
      ensures set_ == tbu
    {
      Dma();
      hide Legal, Run, Guarded, Admissible, Owned;
      ghost var before := Abs();
      assert Shape(before);
      set_ := tbu;
      pc := if set_ then ClearTbu else Advance;
      Record(before, Cpu);
    }

    /** Writing the TBU bit of the status register clears it. */
    method WriteStatusTbu()
      requires Valid() && pc == ClearTbu
      modifies this
      ensures Valid() && Kept() && toSet == old(toSet) && pc == Poll && !tbu
    {
      Dma();
      hide Legal, Run, Guarded, Admissible, Owned;
      ghost var before := Abs();
      assert Shape(before);
      tbu, pc := false, Poll;
      Record(before, Cpu);
    }

    /** Any write to the poll demand register wakes the engine. */
    method WritePollDemand()
      requires Valid() && pc == Poll
      modifies this
      ensures Valid() && Kept() && toSet == old(toSet) && pc == Advance && !suspended
    {
      Dma();
      hide Legal, Run, Guarded, Admissible, Owned;
      ghost var before := Abs();
      assert Shape(before);
      suspended, pc := false, Advance;
      Record(before, Cpu);
    }

    /** The cursor moves to the next descriptor of the chain. */
    method AdvanceCursor()
      requires Valid() && pc == Advance
      modifies this
      ensures Valid() && Kept() && pc == Idle && toSet == Succ(old(toSet), |status|)
    {
      Dma();
      hide Legal, Run, Guarded, Admissible, Owned;
      ghost var before := Abs();
      assert Shape(before);
      toSet, pc := next[toSet], Idle;
      Record(before, Cpu);
    }

    /** ETH_TxPkt_ChainMode: true for ETH_SUCCESS. */
    method TxPktChainMode(ghost f: seq<byte>, frameLength: nat) returns (success: bool)
      requires Valid() && pc == TestOwn(f) && frameLength == |f| % 0x1_0000
      modifies this
      ensures Valid() && pc == Idle && old(sent) <= sent
      ensures success ==> handed == old(handed) + [f] && refused == old(refused)
      ensures success ==> toSet == Succ(old(toSet), |status|)
      ensures !success ==> handed == old(handed) && refused == old(refused) + [f] && toSet == old(toSet)
      ensures old(!Owned(status[toSet])) ==> success
      ensures old(AllGuarded()) ==> AllGuarded()
    {
      hide Legal, Run, Guarded, Admissible, Owned;
      success := TestOwnership(f);
      if success {
        WriteLength(f, frameLength);
        WriteSegments(f);
        WriteOwn(f);
        var set_ := ReadTbu();
        if set_ {
          WriteStatusTbu();
          WritePollDemand();
        }
        AdvanceCursor();
      }
    }

    /** low_level_output: on a free descriptor the chain's bytes are handed over as one frame;
        otherwise the frame may be refused, and ERR_OK is returned all the same. */
    method LowLevelOutput(p: Pbufs.Chain) returns (err: Pbufs.Err)
      requires Valid() && pc == Idle
      requires |Pbufs.Concat(Pbufs.Payloads(p))| < CHAIN_LIMIT
      modifies this
      ensures Valid() && pc == Idle && old(sent) <= sent && err == Pbufs.ERR_OK
      ensures var f := Pbufs.Concat(Pbufs.Payloads(p));
        || (handed == old(handed) + [f] && refused == old(refused))
        || (handed == old(handed) && refused == old(refused) + [f] && old(Owned(status[toSet])))
      ensures old(!Owned(status[toSet]) && AllGuarded()) && |Pbufs.Concat(Pbufs.Payloads(p))| <= ETH_MAX_PACKET_SIZE
              ==> AllGuarded() && sent <= handed
    {
      hide Legal, Run, Guarded, Admissible, Owned;
      ghost var f := Pbufs.Concat(Pbufs.Payloads(p));
      BeginFill(f);
      var l := Gather(p, f);
      var success := TxPktChainMode(f, l % 0x1_0000);
      if AllGuarded() {
        RunGood(start, trace);
      }
      err := Pbufs.ERR_OK;
    }
  }
}
