/** The receive ring as a transition system: the driver stops at every shared load and store,
    and the DMA engine may move between any two of them. */
module EthRx {
  import opened RingSlots
  import opened EthDescriptors

  /** What the DMA engine left in a descriptor when it gave it back. */
  datatype Deposit = Deposit(status: bv32, buffer: seq<byte>)

  /** The bytes low_level_input sees in a descriptor. */
  function Payload(status: bv32, buffer: seq<byte>): seq<byte> {
    if PayloadLength(status) <= |buffer| then buffer[..PayloadLength(status)] else buffer
  }

  function DepositPayload(d: Deposit): seq<byte> {
    Payload(d.status, d.buffer)
  }

  /** pbuf_alloc's answer once the copy is over: a filled chain, or NULL and the bytes it cost. */
  datatype Chain = Filled(data: seq<byte>) | Null(lost: seq<byte>)

  /** How one call of ethernetif_input ended. */
  datatype Outcome = Passed(data: seq<byte>, accepted: bool) | Dropped(lost: seq<byte>)

  function OutcomeData(o: Outcome): seq<byte> {
    match o case Passed(data, _) => data case Dropped(lost) => lost
  }

  function ChainData(p: Chain): seq<byte> {
    match p case Filled(data) => data case Null(lost) => lost
  }

  /** Where the driver is, named after the access it performs next. */
  datatype Pc =
    | Idle
    | ReadStatus                                       // ownership test passed
    | Alloc(d: nat, len: nat)                          // descriptor taken, cursor advanced
    | Copy(d: nat, len: nat, out: seq<byte>)           // memcpy into the pbuf chain
    | SetOwn(d: nat, p: Chain)
    | TestRbu(p: Chain)
    | ClearRbu(p: Chain)
    | Poll(p: Chain)
    | Hand(p: Chain)                                   // netif->input
    | EmptyTestRbu | EmptyClearRbu | EmptyPoll | EmptySetOwn
    | Fault                                            // store through the NULL descriptor

  datatype State = State(
    status: seq<bv32>, buf: seq<seq<byte>>,
    get: nat, cur: nat,                                // driver's and DMA's cursors
    suspended: bool, rbu: bool,
    pc: Pc,
    deposited: seq<Deposit>, outcomes: seq<Outcome>)   // histories

  datatype Label =
    | Enter                                            // low_level_input is called
    | Cpu(ok: bool)                                    // ok: pbuf_alloc or netif->input succeeds
    | DmaWrite(off: nat, b: byte)
    | DmaDone(w: bv32)
    | DmaSuspend

  predicate Shape(s: State) {
    && |s.status| == |s.buf| > 0
    && s.get < |s.status| && s.cur < |s.status|
    && (forall i :: 0 <= i < |s.buf| ==> |s.buf[i]| == ETH_MAX_PACKET_SIZE)
    && (s.pc.Alloc? || s.pc.Copy? || s.pc.SetOwn? ==> s.pc.d < |s.status|)
    && (s.pc.Alloc? || s.pc.Copy? ==> s.pc.len <= ETH_MAX_PACKET_SIZE)
    && (s.pc.Copy? ==> |s.pc.out| <= s.pc.len)
  }

  predicate Enabled(s: State, l: Label)
    requires Shape(s)
  {
    match l
    case Enter => s.pc.Idle?
    case Cpu(_) => !s.pc.Idle? && !s.pc.Fault? &&
      (s.pc.ReadStatus? ==> PayloadLength(s.status[s.get]) <= ETH_MAX_PACKET_SIZE)
    case DmaWrite(off, _) => !s.suspended && Owned(s.status[s.cur]) && off < ETH_MAX_PACKET_SIZE
    case DmaDone(w) => !s.suspended && Owned(s.status[s.cur]) && HardwareStatus(w)
    case DmaSuspend => !s.suspended && !Owned(s.status[s.cur])
  }

  function CpuStep(s: State, ok: bool): (t: State)
    requires Shape(s) && Enabled(s, Cpu(ok))
    ensures Shape(t)
  {
    match s.pc
    case ReadStatus =>
      s.(pc := Alloc(s.get, PayloadLength(s.status[s.get])), get := Succ(s.get, |s.status|))
    case Alloc(d, len) =>
      s.(pc := if ok then Copy(d, len, []) else SetOwn(d, Null(s.buf[d][..len])))
    case Copy(d, len, out) =>
      if |out| < len then s.(pc := Copy(d, len, out + [s.buf[d][|out|]]))
      else s.(pc := SetOwn(d, Filled(out)))
    case SetOwn(d, p) => s.(status := s.status[d := RX_OWN], pc := TestRbu(p))
    case TestRbu(p) => s.(pc := if s.rbu then ClearRbu(p) else Hand(p))
    case ClearRbu(p) => s.(rbu := false, pc := Poll(p))
    case Poll(p) => s.(suspended := false, pc := Hand(p))
    case Hand(Filled(data)) => s.(pc := Idle, outcomes := s.outcomes + [Passed(data, ok)])
    case Hand(Null(lost)) => s.(pc := Idle, outcomes := s.outcomes + [Dropped(lost)])
    case EmptyTestRbu => s.(pc := if s.rbu then EmptyClearRbu else EmptySetOwn)
    case EmptyClearRbu => s.(rbu := false, pc := EmptyPoll)
    case EmptyPoll => s.(suspended := false, pc := EmptySetOwn)
    case EmptySetOwn => s.(pc := Fault)
  }

  function Apply(s: State, l: Label): (t: State)
    requires Shape(s) && Enabled(s, l)
    ensures Shape(t)
  {
    match l
    case Enter => s.(pc := if Owned(s.status[s.get]) then EmptyTestRbu else ReadStatus)
    case Cpu(ok) => CpuStep(s, ok)
    case DmaWrite(off, b) => s.(buf := s.buf[s.cur := s.buf[s.cur][off := b]])
    case DmaDone(w) =>
      s.(status := s.status[s.cur := w], cur := Succ(s.cur, |s.status|),
         deposited := s.deposited + [Deposit(w, s.buf[s.cur])])
    case DmaSuspend => s.(suspended := true, rbu := true)
  }

  predicate Initial(s: State) {
    && Shape(s)
    && (forall i :: 0 <= i < |s.status| ==> s.status[i] == RX_OWN)
    && s.get == 0 && s.cur == 0 && s.pc == Idle
    && !s.suspended && !s.rbu
    && s.deposited == [] && s.outcomes == []
  }

  ghost predicate Legal(s0: State, ls: seq<Label>)
    requires Initial(s0)
    decreases |ls|, 0
  {
    ls == [] ||
    (Legal(s0, ls[..|ls| - 1]) && Enabled(Run(s0, ls[..|ls| - 1]), ls[|ls| - 1]))
  }

  ghost function Run(s0: State, ls: seq<Label>): (s: State)
    requires Initial(s0) && Legal(s0, ls)
    ensures Shape(s)
    decreases |ls|, 1
  {
    if ls == [] then s0 else Apply(Run(s0, ls[..|ls| - 1]), ls[|ls| - 1])
  }

  lemma Extend(s0: State, ls: seq<Label>, l: Label)
    requires Initial(s0) && Legal(s0, ls) && Enabled(Run(s0, ls), l)
    ensures Legal(s0, ls + [l]) && Run(s0, ls + [l]) == Apply(Run(s0, ls), l)
  {
    assert (ls + [l])[..|ls|] == ls;
  }

  // ---- The invariant ----

  /** A descriptor taken from the ring and not yet given back. */
  predicate InHand(pc: Pc) { pc.Alloc? || pc.Copy? || pc.SetOwn? }

  /** A descriptor given back whose frame is still to be passed on. */
  predicate Returned(pc: Pc) { pc.TestRbu? || pc.ClearRbu? || pc.Poll? || pc.Hand? }

  predicate Doomed(pc: Pc) {
    pc.EmptyTestRbu? || pc.EmptyClearRbu? || pc.EmptyPoll? || pc.EmptySetOwn? || pc.Fault?
  }

  /** Descriptors the driver has given back, and taken, since start-up. */
  function Released(s: State): nat { |s.outcomes| + if Returned(s.pc) then 1 else 0 }

  function Taken(s: State): nat { |s.outcomes| + if Returned(s.pc) || InHand(s.pc) then 1 else 0 }

  ghost predicate Ring(s: State)
    requires Shape(s)
  {
    var n, r, f := |s.status|, Released(s), |s.deposited|;
    && Taken(s) <= f <= r + n
    && s.get == Slot(Taken(s), n) && s.cur == Slot(f, n)
    && (forall k {:trigger Slot(k, n)} :: f <= k < r + n ==> Owned(s.status[Slot(k, n)]))
    && (forall k {:trigger s.deposited[k]} {:trigger Slot(k, n)} :: r <= k < f ==>
          HardwareStatus(s.deposited[k].status)
          && s.status[Slot(k, n)] == s.deposited[k].status && s.buf[Slot(k, n)] == s.deposited[k].buffer)
  }

  ghost predicate Data(s: State)
    requires Shape(s) && Taken(s) <= |s.deposited|
  {
    && (forall k :: 0 <= k < |s.outcomes| ==> OutcomeData(s.outcomes[k]) == DepositPayload(s.deposited[k]))
    && (forall k :: 0 <= k < |s.deposited| ==> |s.deposited[k].buffer| == ETH_MAX_PACKET_SIZE)
    && (s.pc.ReadStatus? ==> Taken(s) < |s.deposited|)
    && (InHand(s.pc) ==> s.pc.d == Slot(|s.outcomes|, |s.status|))
    && (s.pc.Alloc? || s.pc.Copy? ==> s.pc.len == PayloadLength(s.deposited[|s.outcomes|].status))
    && (s.pc.Copy? ==> s.pc.out == DepositPayload(s.deposited[|s.outcomes|])[..|s.pc.out|])
    && (s.pc.SetOwn? || Returned(s.pc) ==> ChainData(s.pc.p) == DepositPayload(s.deposited[|s.outcomes|]))
  }

  ghost predicate Awake(s: State)
    requires Shape(s)
  {
    && (s.suspended ==> s.rbu || s.pc.Poll? || s.pc.EmptyPoll?)
    && (s.suspended && Owned(s.status[s.cur]) ==> s.pc.TestRbu? || s.pc.ClearRbu? || s.pc.Poll?)
  }

  ghost predicate Inv(s: State) {
    Shape(s) && Ring(s) && Data(s) && Awake(s)
  }

  lemma InitialInv(s: State)
    requires Initial(s)
    ensures Inv(s)
  {
  }

  lemma HardwarePayload(w: bv32)
    requires HardwareStatus(w)
    ensures PayloadLength(w) == if WholeFrame(w) then FrameLengthField(w) - 4 else 0
    ensures PayloadLength(w) <= ETH_MAX_PACKET_SIZE
  {
  }

  lemma EnterInv(s: State)
    requires Inv(s) && s.pc.Idle?
    ensures Inv(Apply(s, Enter))
    ensures Owned(s.status[s.get]) <==> |s.deposited| == |s.outcomes|
  {
    var k := Taken(s);
    assert s.status[Slot(k, |s.status|)] == s.status[s.get];
    if k < |s.deposited| {
      assert s.status[Slot(k, |s.status|)] == s.deposited[k].status;
    }
  }

  lemma TakeInv(s: State, ok: bool)
    requires Inv(s) && Enabled(s, Cpu(ok)) && s.pc.ReadStatus?
    ensures Inv(Apply(s, Cpu(ok)))
  {
    hide PayloadLength, HardwareStatus, Slot, Owned;
    assert s.status[Slot(Taken(s), |s.status|)] == s.deposited[Taken(s)].status;
    SlotNext(Taken(s), |s.status|);
  }

  lemma AllocInv(s: State, ok: bool)
    requires Inv(s) && Enabled(s, Cpu(ok)) && s.pc.Alloc?
    ensures Inv(Apply(s, Cpu(ok)))
  {
    hide PayloadLength, HardwareStatus, Slot, Owned;
    var r := Released(s);
    assert s.buf[Slot(r, |s.status|)] == s.deposited[r].buffer;
  }

  lemma PrefixGrows(out: seq<byte>, whole: seq<byte>, buffer: seq<byte>)
    requires |out| < |whole| <= |buffer| && whole == buffer[..|whole|] && out == whole[..|out|]
    ensures out + [buffer[|out|]] == whole[..|out| + 1]
  {
  }

  lemma CopyInv(s: State, ok: bool)
    requires Inv(s) && Enabled(s, Cpu(ok)) && s.pc.Copy?
    ensures Inv(Apply(s, Cpu(ok)))
  {
    hide PayloadLength, HardwareStatus, Slot, Owned;
    var r := Released(s);
    assert s.buf[Slot(r, |s.status|)] == s.deposited[r].buffer;
    var whole := DepositPayload(s.deposited[r]);
    if |s.pc.out| < s.pc.len {
      PrefixGrows(s.pc.out, whole, s.deposited[r].buffer);
    } else {
      assert s.pc.out == whole;
    }
  }

  lemma ReleaseInv(s: State, ok: bool)
    requires Inv(s) && Enabled(s, Cpu(ok)) && s.pc.SetOwn?
    ensures Inv(Apply(s, Cpu(ok))) && Apply(s, Cpu(ok)).status == s.status[s.pc.d := 0x8000_0000]
  {
    hide PayloadLength, HardwareStatus, Slot, Payload, DepositPayload;
    var n, r := |s.status|, Released(s);
    SlotAlone(r, r, n);
    SlotPeriod(r, n);
    assert Owned(RX_OWN);
  }

  lemma WakeInv(s: State, ok: bool)
    requires Inv(s) && Enabled(s, Cpu(ok)) && (s.pc.TestRbu? || s.pc.ClearRbu? || s.pc.Poll?)
    ensures Inv(Apply(s, Cpu(ok)))
    ensures var t := Apply(s, Cpu(ok));
            && (s.pc.TestRbu? ==> t == s.(pc := t.pc) && (t.pc.ClearRbu? <==> s.rbu))
            && (s.pc.ClearRbu? ==> !t.rbu && t.pc.Poll?)
            && (s.pc.Poll? ==> !t.suspended && t.pc.Hand?)
  {
    hide PayloadLength, HardwareStatus, Slot, Owned, Payload, DepositPayload;
  }

  lemma HandInv(s: State, ok: bool)
    requires Inv(s) && Enabled(s, Cpu(ok)) && s.pc.Hand?
    ensures Inv(Apply(s, Cpu(ok)))
  {
    hide PayloadLength, HardwareStatus, Slot, Owned, Payload, DepositPayload;
    var t := Apply(s, Cpu(ok));
    assert OutcomeData(t.outcomes[|s.outcomes|]) == ChainData(s.pc.p);
  }

  lemma EmptyInv(s: State, ok: bool)
    requires Inv(s) && Enabled(s, Cpu(ok)) && Doomed(s.pc)
    ensures Inv(Apply(s, Cpu(ok)))
  {
    hide PayloadLength, HardwareStatus, Slot, Owned, Payload, DepositPayload;
  }

  lemma CpuInv(s: State, ok: bool)
    requires Inv(s) && Enabled(s, Cpu(ok))
    ensures Inv(Apply(s, Cpu(ok)))
  {
    hide Inv, CpuStep, Apply;
    match s.pc {
      case ReadStatus => TakeInv(s, ok);
      case Alloc(_, _) => AllocInv(s, ok);
      case Copy(_, _, _) => CopyInv(s, ok);
      case SetOwn(_, _) => ReleaseInv(s, ok);
      case Hand(_) => HandInv(s, ok);
      case TestRbu(_) => WakeInv(s, ok);
      case ClearRbu(_) => WakeInv(s, ok);
      case Poll(_) => WakeInv(s, ok);
      case _ => EmptyInv(s, ok);
    }
  }

  /** The DMA engine holds its cursor descriptor only while the ring is not full of frames. */
  lemma RoomAtCursor(s: State)
    requires Inv(s) && Owned(s.status[s.cur])
    ensures |s.deposited| < Released(s) + |s.status|
  {
    var n, r := |s.status|, Released(s);
    SlotPeriod(r, n);
  }

  lemma DmaWriteInv(s: State, l: Label)
    requires Inv(s) && Enabled(s, l) && l.DmaWrite?
    ensures Inv(Apply(s, l))
  {
    hide PayloadLength, HardwareStatus, Slot, Owned;
    RoomAtCursor(s);
    SlotAlone(Released(s), |s.deposited|, |s.status|);
  }

  lemma DmaDoneInv(s: State, l: Label)
    requires Inv(s) && Enabled(s, l) && l.DmaDone?
    ensures Inv(Apply(s, l))
  {
    hide PayloadLength, HardwareStatus, Slot, Owned, Payload, DepositPayload;
    RoomAtCursor(s);
    SlotAlone(Released(s), |s.deposited|, |s.status|);
    SlotNext(|s.deposited|, |s.status|);
  }

  lemma {:induction false} RunInv(s0: State, ls: seq<Label>)
    requires Initial(s0) && Legal(s0, ls)
    ensures Inv(Run(s0, ls))
  {
    if ls == [] {
      InitialInv(s0);
    } else {
      var s, l := Run(s0, ls[..|ls| - 1]), ls[|ls| - 1];
      RunInv(s0, ls[..|ls| - 1]);
      match l {
        case Enter => EnterInv(s);
        case Cpu(ok) => CpuInv(s, ok);
        case DmaWrite(_, _) => DmaWriteInv(s, l);
        case DmaDone(_) => DmaDoneInv(s, l);
        case DmaSuspend =>
      }
    }
  }

  /** The driver is never stopped by a frame length its buffers cannot hold. */
  lemma NeverStuck(s: State)
    requires Inv(s) && !s.pc.Idle? && !s.pc.Fault?
    ensures Enabled(s, Cpu(true)) && Enabled(s, Cpu(false))
  {
    hide PayloadLength, Owned, Slot;
    if s.pc.ReadStatus? {
      var k := Taken(s);
      assert s.status[Slot(k, |s.status|)] == s.deposited[k].status;
      HardwarePayload(s.deposited[k].status);
    }
  }
}
