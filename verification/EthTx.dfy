/** The transmit ring as a transition system: the driver stops at every shared load and store,
    the DMA engine reads a buffer byte by byte and may move between any two of them. The buffers
    are one array, and a frame longer than its buffer goes on into what follows. */
module EthTx {
  import opened RingSlots
  import opened EthDescriptors

  /** Where the driver is, named after the access it performs next. */
  datatype Pc =
    | Idle
    | Fill(f: seq<byte>, l: nat)       // memcpy into the current buffer
    | TestOwn(f: seq<byte>)
    | SetLength(f: seq<byte>)
    | SetSegments(f: seq<byte>)
    | SetOwn(f: seq<byte>)
    | TestTbu | ClearTbu | Poll
    | Advance

  /** The length of a pbuf chain is a u16. */
  const CHAIN_LIMIT: nat := 0x1_0000

  datatype State = State(
    status: seq<bv32>, control: seq<nat>,
    mem: seq<byte>,                                      // Tx_Buff and what lies behind it
    set_: nat, cur: nat,                                 // driver's and DMA's cursors
    suspended: bool, tbu: bool,
    sending: seq<byte>,                                  // what the engine has read of its frame
    pc: Pc,
    handed: seq<seq<byte>>, refused: seq<seq<byte>>,     // histories of the driver's calls
    sent: seq<seq<byte>>)                                // and of the wire

  datatype Label =
    | Enter(f: seq<byte>)                                // low_level_output of a chain holding f
    | Cpu
    | DmaRead
    | DmaDone(w: bv32)
    | DmaSuspend

  function FrameOf(pc: Pc): seq<byte> {
    match pc
    case Fill(f, _) => f
    case TestOwn(f) => f
    case SetLength(f) => f
    case SetSegments(f) => f
    case SetOwn(f) => f
    case _ => []
  }

  /** (FrameLength & TBS1) of an int length passed as u16. */
  function LengthWord(l: nat): nat {
    l % 0x1_0000 % (TX_TBS1 + 1)
  }

  /** The low 13 bits. */
  lemma LengthWordBits(l: nat)
    requires l < 0x1_0000
    ensures LengthWord(l) < 0x2000 && (l - LengthWord(l)) % 0x2000 == 0
  {
  }

  /** Buffer1Addr of descriptor i, counted from the start of Tx_Buff. */
  function Base(i: nat): nat { i * ETH_MAX_PACKET_SIZE }

  predicate Shape(s: State) {
    && |s.status| == |s.control| > 0
    && s.set_ < |s.status| && s.cur < |s.status|
    && |s.mem| >= Base(|s.status|) + CHAIN_LIMIT
    && (forall i :: 0 <= i < |s.control| ==> s.control[i] <= TX_TBS1)
    && |s.sending| <= TX_TBS1
    && |FrameOf(s.pc)| < CHAIN_LIMIT
    && (s.pc.Fill? ==> s.pc.l <= |s.pc.f|)
  }

  predicate Enabled(s: State, l: Label)
    requires Shape(s)
  {
    match l
    case Enter(f) => s.pc.Idle? && |f| < CHAIN_LIMIT
    case Cpu => !s.pc.Idle?
    case DmaRead => !s.suspended && Owned(s.status[s.cur]) && |s.sending| < s.control[s.cur]
    case DmaDone(w) => !s.suspended && Owned(s.status[s.cur]) && |s.sending| >= s.control[s.cur] && !Owned(w)
    case DmaSuspend => !s.suspended && !Owned(s.status[s.cur])
  }

  function CpuStep(s: State): (t: State)
    requires Shape(s) && Enabled(s, Cpu)
    ensures Shape(t) && |t.status| == |s.status|
  {
    match s.pc
    case Fill(f, l) =>
      if l < |f| then s.(mem := s.mem[Base(s.set_) + l := f[l]], pc := Fill(f, l + 1))
      else s.(pc := TestOwn(f))
    case TestOwn(f) =>
      if Owned(s.status[s.set_]) then s.(pc := Idle, refused := s.refused + [f]) else s.(pc := SetLength(f))
    case SetLength(f) => s.(control := s.control[s.set_ := LengthWord(|f|)], pc := SetSegments(f))
    case SetSegments(f) => s.(status := s.status[s.set_ := s.status[s.set_] | TX_LS | TX_FS], pc := SetOwn(f))
    case SetOwn(f) =>
      s.(status := s.status[s.set_ := s.status[s.set_] | TX_OWN], pc := TestTbu, handed := s.handed + [f])
    case TestTbu => s.(pc := if s.tbu then ClearTbu else Advance)
    case ClearTbu => s.(tbu := false, pc := Poll)
    case Poll => s.(suspended := false, pc := Advance)
    case Advance => s.(set_ := Succ(s.set_, |s.status|), pc := Idle)
  }

  function Apply(s: State, l: Label): (t: State)
    requires Shape(s) && Enabled(s, l)
    ensures Shape(t) && |t.status| == |s.status|
  {
    match l
    case Enter(f) => s.(pc := Fill(f, 0))
    case Cpu => CpuStep(s)
    case DmaRead => s.(sending := s.sending + [s.mem[Base(s.cur) + |s.sending|]])
    case DmaDone(w) =>
      s.(status := s.status[s.cur := w], cur := Succ(s.cur, |s.status|),
         sent := s.sent + [s.sending], sending := [])
    case DmaSuspend => s.(suspended := true, tbu := true)
  }

  predicate Initial(s: State) {
    && Shape(s)
    && (forall i :: 0 <= i < |s.status| ==> s.status[i] == TX_TCH)
    && s.set_ == 0 && s.cur == 0 && s.pc == Idle
    && !s.suspended && !s.tbu && s.sending == []
    && s.handed == [] && s.refused == [] && s.sent == []
  }

  ghost predicate Legal(s0: State, ls: seq<Label>)
    requires Initial(s0)
    decreases |ls|, 0
  {
    ls == [] ||
    (Legal(s0, ls[..|ls| - 1]) && Enabled(Run(s0, ls[..|ls| - 1]), ls[|ls| - 1]))
  }

  ghost function Run(s0: State, ls: seq<Label>): (s: State)
    requires Initial(s0) && Legal(s0, ls)
    ensures Shape(s)
    decreases |ls|, 1
  {
    if ls == [] then s0 else Apply(Run(s0, ls[..|ls| - 1]), ls[|ls| - 1])
  }

  lemma Extend(s0: State, ls: seq<Label>, l: Label)
    requires Initial(s0) && Legal(s0, ls) && Enabled(Run(s0, ls), l)
    ensures Legal(s0, ls + [l]) && Run(s0, ls + [l]) == Apply(Run(s0, ls), l)
  {
    assert (ls + [l])[..|ls|] == ls;
  }

  /** The current descriptor is the driver's. */
  predicate MayEnter(s: State)
    requires Shape(s)
  {
    !Owned(s.status[s.set_])
  }

  /** What low_level_output needs of its caller: a free descriptor and a frame that fits its buffer. */
  predicate Admissible(s: State, f: seq<byte>)
    requires Shape(s)
  {
    MayEnter(s) && |f| <= ETH_MAX_PACKET_SIZE
  }

  /** Every call of the run met that demand. */
  ghost predicate Guarded(s0: State, ls: seq<Label>)
    requires Initial(s0) && Legal(s0, ls)
  {
    ls == [] ||
    var before := ls[..|ls| - 1];
    Guarded(s0, before) && (ls[|ls| - 1].Enter? ==> Admissible(Run(s0, before), ls[|ls| - 1].f))
  }

  // ---- What every run keeps ----

  /** The descriptor was published but the cursor has not moved on. */
  predicate Published(pc: Pc) { pc.TestTbu? || pc.ClearTbu? || pc.Poll? || pc.Advance? }

  predicate Writing(pc: Pc) { pc.SetLength? || pc.SetSegments? || pc.SetOwn? }

  /** The engine's descriptors, t to h round the ring, and the driver's, h to t + n. */
  ghost predicate Split(status: seq<bv32>, t: nat, h: nat)
    requires |status| > 0
  {
    && (forall k {:trigger Slot(k, |status|)} :: t <= k < h ==> Owned(status[Slot(k, |status|)]))
    && (forall k {:trigger Slot(k, |status|)} :: h <= k < t + |status| ==> !Owned(status[Slot(k, |status|)]))
  }

  ghost predicate Ring(s: State)
    requires Shape(s)
  {
    var n, t, h := |s.status|, |s.sent|, |s.handed|;
    && t <= h <= t + n
    && s.cur == Slot(t, n)
    && (if Published(s.pc) then h > 0 && s.set_ == Slot(h - 1, n) else s.set_ == Slot(h, n))
    && Split(s.status, t, h)
    && (Writing(s.pc) ==> h < t + n)
  }

  ghost predicate Awake(s: State)
    requires Shape(s)
  {
    && (s.suspended ==> s.tbu || s.pc.Poll?)
    && (s.suspended && Owned(s.status[s.cur]) ==> s.pc.TestTbu? || s.pc.ClearTbu? || s.pc.Poll?)
  }

  ghost predicate Inv(s: State) {
    Shape(s) && Ring(s) && Awake(s)
  }

  lemma OwnBits(w: bv32)
    ensures Owned(w | TX_OWN) && (w | TX_OWN) & (TX_LS | TX_FS) == w & (TX_LS | TX_FS)
  {
  }

  lemma SegmentBits(w: bv32, x: bv32)
    requires x == w | TX_LS | TX_FS
    ensures Owned(x) == Owned(w) && x & (TX_LS | TX_FS) == TX_LS | TX_FS
  {
  }

  lemma EnterInv(s: State, f: seq<byte>)
    requires Inv(s) && Enabled(s, Enter(f))
    ensures Inv(Apply(s, Enter(f)))
  {
    hide Slot, Owned;
  }

  lemma FillInv(s: State)
    requires Inv(s) && (s.pc.Fill? || s.pc.SetLength?)
    ensures Inv(Apply(s, Cpu))
  {
    hide Slot, Owned;
  }

  lemma TestInv(s: State)
    requires Inv(s) && s.pc.TestOwn?
    ensures Inv(Apply(s, Cpu))
  {
    hide Slot, Owned;
    if |s.handed| == |s.sent| + |s.status| {
      SlotPeriod(|s.sent|, |s.status|);
      assert Owned(s.status[Slot(|s.sent|, |s.status|)]);
    }
  }

  lemma SegmentsStep(s: State)
    requires Shape(s) && s.pc.SetSegments?
    ensures Enabled(s, Cpu)
    ensures Apply(s, Cpu) == s.(status := s.status[s.set_ := s.status[s.set_] | TX_LS | TX_FS], pc := SetOwn(s.pc.f))
  {
  }

  /** The three stores that publish a frame: its length, bits 29 and 28, and then bit 31. */
  lemma PublishingStores(s: State)
    requires Shape(s) && Writing(s.pc)
    ensures s.pc.SetLength? ==> Apply(s, Cpu).control == s.control[s.set_ := |s.pc.f| % 0x2000]
    ensures s.pc.SetSegments? ==> Apply(s, Cpu).status == s.status[s.set_ := s.status[s.set_] | 0x3000_0000]
    ensures s.pc.SetOwn? ==> Apply(s, Cpu).status == s.status[s.set_ := s.status[s.set_] | 0x8000_0000]
    ensures !s.pc.SetLength? ==> Apply(s, Cpu).control == s.control
  {
    hide Owned;
    if s.pc.SetSegments? {
      SegmentsStep(s);
      BothSegments(s.status[s.set_]);
      hide Apply;
    }
  }

  lemma BothSegments(w: bv32)
    ensures w | TX_LS | TX_FS == w | 0x3000_0000
  {
  }

  /** What the store of the segment bits does, the bits of its word aside. */
  lemma SegmentsWritten(s: State) returns (w: bv32)
    requires Shape(s) && s.pc.SetSegments?
    ensures Enabled(s, Cpu) && Owned(w) == Owned(s.status[s.set_]) && w & (TX_LS | TX_FS) == TX_LS | TX_FS
    ensures Apply(s, Cpu) == s.(status := s.status[s.set_ := w], pc := SetOwn(s.pc.f))
  {
    SegmentsStep(s);
    hide Owned, Apply, Enabled;
    w := s.status[s.set_] | TX_LS | TX_FS;
    SegmentBits(s.status[s.set_], w);
  }

  lemma SegmentsInv(s: State)
    requires Inv(s) && s.pc.SetSegments?
    ensures Inv(Apply(s, Cpu))
  {
    var w := SegmentsWritten(s);
    hide Slot, Owned, Apply, CpuStep;
  }

  lemma SplitMoves(status: seq<bv32>, t: nat, h: nat, w: bv32)
    requires |status| > 0 && Split(status, t, h) && t <= h < t + |status| && Owned(w)
    ensures Split(status[Slot(h, |status|) := w], t, h + 1)
  {
    hide Slot, Owned;
    SlotAlone(t, h, |status|);
  }

  lemma OwnStep(s: State)
    requires Shape(s) && s.pc.SetOwn?
    ensures Enabled(s, Cpu)
    ensures Apply(s, Cpu) ==
            s.(status := s.status[s.set_ := s.status[s.set_] | TX_OWN], pc := TestTbu, handed := s.handed + [s.pc.f])
  {
  }

  /** What the ownership store does, the bits of its word aside. */
  lemma PublishStep(s: State) returns (w: bv32)
    requires Shape(s) && s.pc.SetOwn?
    ensures Enabled(s, Cpu) && Owned(w) && w & (TX_LS | TX_FS) == s.status[s.set_] & (TX_LS | TX_FS)
    ensures Apply(s, Cpu) == s.(status := s.status[s.set_ := w], pc := TestTbu, handed := s.handed + [s.pc.f])
  {
    OwnStep(s);
    w := s.status[s.set_] | TX_OWN;
    OwnBits(s.status[s.set_]);
    hide Owned;
  }

  lemma PublishInv(s: State)
    requires Inv(s) && s.pc.SetOwn?
    ensures Inv(Apply(s, Cpu))
  {
    var w := PublishStep(s);
    SplitMoves(s.status, |s.sent|, |s.handed|, w);
    hide Slot, Owned, Split, Apply, CpuStep;
  }

  lemma WakeInv(s: State)
    requires Inv(s) && Published(s.pc)
    ensures Inv(Apply(s, Cpu))
    ensures var t := Apply(s, Cpu);
            && (s.pc.TestTbu? ==> t == s.(pc := t.pc) && (t.pc.ClearTbu? <==> s.tbu))
            && (s.pc.ClearTbu? ==> !t.tbu && t.pc.Poll?)
            && (s.pc.Poll? ==> !t.suspended && t.pc.Advance?)
  {
    hide Slot, Owned;
    SlotNext(|s.handed| - 1, |s.status|);
  }

  /** The engine owns its cursor's descriptor exactly while something is left to send. */
  lemma WorkAtCursor(s: State)
    requires Inv(s)
    ensures Owned(s.status[s.cur]) <==> |s.sent| < |s.handed|
  {
    hide Slot, Owned;
    assert s.status[Slot(|s.sent|, |s.status|)] == s.status[s.cur];
  }

  lemma DmaInv(s: State, l: Label)
    requires Inv(s) && Enabled(s, l) && (l.DmaRead? || l.DmaDone? || l.DmaSuspend?)
    ensures Inv(Apply(s, l))
  {
    hide Slot, Owned;
    WorkAtCursor(s);
    SlotAlone(|s.sent|, |s.sent|, |s.status|);
    SlotPeriod(|s.sent|, |s.status|);
    SlotNext(|s.sent|, |s.status|);
  }

  lemma StepInv(s: State, l: Label)
    requires Inv(s) && Enabled(s, l)
    ensures Inv(Apply(s, l))
  {
    hide Inv, CpuStep, Apply;
    match l {
      case Enter(f) => EnterInv(s, f);
      case Cpu =>
        if s.pc.Fill? || s.pc.SetLength? { FillInv(s); }
        else if s.pc.TestOwn? { TestInv(s); }
        else if Published(s.pc) { WakeInv(s); }
        else if s.pc.SetSegments? { SegmentsInv(s); }
        else { PublishInv(s); }
      case _ => DmaInv(s, l);
    }
  }

  lemma {:induction false} RunInv(s0: State, ls: seq<Label>)
    requires Initial(s0) && Legal(s0, ls)
    ensures Inv(Run(s0, ls))
  {
    if ls != [] {
      hide Inv, Apply, Enabled;
      RunInv(s0, ls[..|ls| - 1]);
      StepInv(Run(s0, ls[..|ls| - 1]), ls[|ls| - 1]);
    }
  }

  // ---- Frames in memory ----

  /** Memory from address at on holds f, from byte first on. */
  ghost predicate Holds(mem: seq<byte>, at: nat, f: seq<byte>, first: nat) {
    at + |f| <= |mem| && forall j {:trigger f[j]} :: first <= j < |f| ==> mem[at + j] == f[j]
  }

  /** The first byte of waiting frame k that matters: with all set every byte does, otherwise the
      oldest frame counts only as far as the engine has still to read it. */
  function First(s: State, k: nat, all: bool): nat {
    if !all && k == |s.sent| then |s.sending| else 0
  }

  /** Position k is published: segment bits, length and bytes of its frame are in place. */
  ghost predicate Intact(s: State, k: nat, all: bool)
    requires Shape(s) && k < |s.handed|
  {
    var i := Slot(k, |s.status|);
    && s.status[i] & (TX_LS | TX_FS) == TX_LS | TX_FS
    && s.control[i] == |s.handed[k]|
    && Holds(s.mem, Base(i), s.handed[k], First(s, k, all))
  }

  /** Copied to the current buffer, f would not change byte j of waiting frame k. */
  predicate AgreesAt(s: State, f: seq<byte>, all: bool, k: nat, j: nat)
    requires Shape(s) && k < |s.handed| && j < |s.handed[k]|
  {
    var at := Base(Slot(k, |s.status|)) + j - Base(s.set_);
    |s.sent| <= k && First(s, k, all) <= j && 0 <= at < |f| ==> f[at] == s.handed[k][j]
  }

  ghost predicate Agrees(s: State, f: seq<byte>, all: bool)
    requires Shape(s)
  {
    forall k: nat, j: nat :: k < |s.handed| && j < |s.handed[k]| ==> AgreesAt(s, f, all, k, j)
  }

  ghost predicate Data(s: State, all: bool)
    requires Shape(s) && |s.sent| <= |s.handed|
  {
    && (forall k {:trigger Intact(s, k, all)} :: |s.sent| <= k < |s.handed| ==> Intact(s, k, all))
    && s.sent == s.handed[..|s.sent|]
    && (if |s.sent| < |s.handed| then s.sending <= s.handed[|s.sent|] else s.sending == [])
  }

  /** The frame being prepared, as far as the driver has come. */
  ghost predicate Draft(s: State, all: bool)
    requires Shape(s)
  {
    && |FrameOf(s.pc)| <= TX_TBS1
    && (s.pc.Fill? ==> Agrees(s, s.pc.f, all) && Holds(s.mem, Base(s.set_), s.pc.f[..s.pc.l], 0))
    && (s.pc.TestOwn? || Writing(s.pc) ==> Holds(s.mem, Base(s.set_), FrameOf(s.pc), 0))
    && (s.pc.SetSegments? || s.pc.SetOwn? ==> s.control[s.set_] == |FrameOf(s.pc)|)
    && (s.pc.SetOwn? ==> s.status[s.set_] & (TX_LS | TX_FS) == TX_LS | TX_FS)
  }

  ghost predicate Sound(s: State, all: bool) {
    Inv(s) && Data(s, all) && Draft(s, all)
  }

  lemma RoomToEnter(s: State)
    requires Inv(s) && s.set_ == Slot(|s.handed|, |s.status|)
    ensures MayEnter(s) <==> |s.handed| < |s.sent| + |s.status|
  {
    hide Slot, Owned;
    if |s.handed| == |s.sent| + |s.status| {
      SlotPeriod(|s.sent|, |s.status|);
      assert Owned(s.status[Slot(|s.sent|, |s.status|)]);
    } else {
      assert !Owned(s.status[Slot(|s.handed|, |s.status|)]);
    }
  }

  /** A published frame stays intact as long as its descriptor and the memory do. */
  lemma IntactStays(s: State, t: State, k: nat, all: bool)
    requires Shape(s) && Shape(t) && |s.status| == |t.status| && |s.sent| <= k < |s.handed| <= |t.handed|
    requires t.handed[k] == s.handed[k] && t.mem == s.mem && First(s, k, all) <= First(t, k, all)
    requires var i := Slot(k, |s.status|); t.status[i] == s.status[i] && t.control[i] == s.control[i]
    requires Intact(s, k, all)
    ensures Intact(t, k, all)
  {
    hide Slot, Shape;
  }

  lemma AllIntactStay(s: State, t: State, all: bool)
    requires Shape(s) && Shape(t) && |s.status| == |t.status| && |s.sent| <= |t.sent| <= |s.handed| <= |t.handed|
    requires t.mem == s.mem && s.handed == t.handed[..|s.handed|]
    requires forall k {:trigger Slot(k, |s.status|)} :: |t.sent| <= k < |s.handed| ==>
      t.status[Slot(k, |s.status|)] == s.status[Slot(k, |s.status|)]
      && t.control[Slot(k, |s.status|)] == s.control[Slot(k, |s.status|)]
    requires if |t.sent| == |s.sent| then |s.sending| <= |t.sending| else t.sending == []
    requires forall k {:trigger Intact(s, k, all)} :: |s.sent| <= k < |s.handed| ==> Intact(s, k, all)
    ensures forall k {:trigger Intact(t, k, all)} :: |t.sent| <= k < |s.handed| ==> Intact(t, k, all)
  {
    hide Slot, Shape, Intact;
    forall k | |t.sent| <= k < |s.handed|
      ensures Intact(t, k, all)
    {
      var i := Slot(k, |s.status|);
      assert t.handed[..|s.handed|][k] == t.handed[k];
      IntactStays(s, t, k, all);
    }
  }

  lemma EnterSound(s: State, f: seq<byte>, all: bool)
    requires Sound(s, all) && Enabled(s, Enter(f)) && Agrees(s, f, all) && |f| <= TX_TBS1
    ensures Sound(Apply(s, Enter(f)), all)
  {
    StepInv(s, Enter(f));
    hide Slot, Owned, Ring, Awake, Intact, AgreesAt;
    var t := Apply(s, Enter(f));
    AllIntactStay(s, t, all);
    AgreesStays(s, t, f, all);
  }

  /** With fewer bytes still to be read, f agrees all the more. */
  lemma AgreesStays(s: State, t: State, f: seq<byte>, all: bool)
    requires Shape(s) && Shape(t) && |s.status| == |t.status| && s.set_ == t.set_ && t.handed == s.handed
    requires if |t.sent| == |s.sent| then |s.sending| <= |t.sending| else |t.sent| > |s.sent|
    requires Agrees(s, f, all)
    ensures Agrees(t, f, all)
  {
    hide Slot, Shape;
    forall k: nat, j: nat | k < |t.handed| && j < |t.handed[k]|
      ensures AgreesAt(t, f, all, k, j)
    {
      assert AgreesAt(s, f, all, k, j);
    }
  }

  /** A byte of f lands on a waiting frame only where the two agree. */
  lemma FillIntact(s: State, k: nat, all: bool)
    requires Shape(s) && s.pc.Fill? && s.pc.l < |s.pc.f| && |s.sent| <= k < |s.handed|
    requires Intact(s, k, all) && Agrees(s, s.pc.f, all)
    ensures Intact(Apply(s, Cpu), k, all)
  {
    var t, i := Apply(s, Cpu), Slot(k, |s.status|);
    hide Slot, Shape;
    forall j {:trigger s.handed[k][j]} | First(s, k, all) <= j < |s.handed[k]|
      ensures t.mem[Base(i) + j] == s.handed[k][j]
    {
      assert AgreesAt(s, s.pc.f, all, k, j);
    }
  }

  lemma FillByteSound(s: State, all: bool)
    requires Sound(s, all) && s.pc.Fill? && s.pc.l < |s.pc.f|
    ensures Sound(Apply(s, Cpu), all)
  {
    StepInv(s, Cpu);
    hide Slot, Owned, Ring, Awake, AgreesAt;
    var t := Apply(s, Cpu);
    AgreesStays(s, t, s.pc.f, all);
    forall k | |s.sent| <= k < |s.handed|
      ensures Intact(t, k, all)
    {
      FillIntact(s, k, all);
    }
    FillHolds(s.mem, Base(s.set_), s.pc.f, s.pc.l);
    hide Intact, Agrees, Holds;
  }

  lemma FillEndSound(s: State, all: bool)
    requires Sound(s, all) && s.pc.Fill? && s.pc.l >= |s.pc.f|
    ensures Sound(Apply(s, Cpu), all)
  {
    StepInv(s, Cpu);
    assert s.pc.f[..s.pc.l] == s.pc.f;
    hide Slot, Owned, Ring, Awake, Intact, Agrees, Holds;
    AllIntactStay(s, Apply(s, Cpu), all);
  }

  lemma FillHolds(mem: seq<byte>, at: nat, f: seq<byte>, l: nat)
    requires l < |f| && at + |f| <= |mem| && Holds(mem, at, f[..l], 0)
    ensures Holds(mem[at + l := f[l]], at, f[..l + 1], 0)
  {
    forall j {:trigger f[..l + 1][j]} | 0 <= j < l + 1
      ensures mem[at + l := f[l]][at + j] == f[..l + 1][j]
    {
      if j < l { assert f[..l][j] == f[..l + 1][j]; }
    }
  }

  lemma TestSound(s: State, all: bool)
    requires Sound(s, all) && s.pc.TestOwn?
    ensures Sound(Apply(s, Cpu), all)
  {
    StepInv(s, Cpu);
    hide Slot, Owned, Ring, Awake, Intact, Agrees, Holds;
    AllIntactStay(s, Apply(s, Cpu), all);
  }

  lemma LengthSound(s: State, all: bool)
    requires Sound(s, all) && s.pc.SetLength?
    ensures Sound(Apply(s, Cpu), all)
  {
    StepInv(s, Cpu);
    SlotAlone(|s.sent|, |s.handed|, |s.status|);
    hide Slot, Owned, Split, Awake, Intact, Agrees, Holds;
    AllIntactStay(s, Apply(s, Cpu), all);
  }

  lemma SegmentsSound(s: State, all: bool)
    requires Sound(s, all) && s.pc.SetSegments?
    ensures Sound(Apply(s, Cpu), all)
  {
    StepInv(s, Cpu);
    SlotAlone(|s.sent|, |s.handed|, |s.status|);
    var w := SegmentsWritten(s);
    hide Slot, Owned, Split, Awake, Intact, Agrees, Holds, Apply, CpuStep;
    AllIntactStay(s, Apply(s, Cpu), all);
  }

  lemma PublishSound(s: State, all: bool)
    requires Sound(s, all) && s.pc.SetOwn?
    ensures Sound(Apply(s, Cpu), all)
  {
    StepInv(s, Cpu);
    SlotAlone(|s.sent|, |s.handed|, |s.status|);
    var w := PublishStep(s);
    hide Slot, Owned, Split, Awake, Agrees, Apply, CpuStep;
    var t := Apply(s, Cpu);
    PublishedIntact(s, t, all);
    hide Intact, Holds;
    AllIntactStay(s, t, all);
    assert s.handed == t.handed[..|s.handed|];
    assert t.sent == t.handed[..|t.sent|];
  }

  /** The descriptor just published describes the frame just handed over. */
  lemma PublishedIntact(s: State, t: State, all: bool)
    requires Sound(s, all) && s.pc.SetOwn? && Shape(t) && t.mem == s.mem && t.control == s.control
    requires |t.status| == |s.status| && t.status[s.set_] & (TX_LS | TX_FS) == s.status[s.set_] & (TX_LS | TX_FS)
    requires t.handed == s.handed + [s.pc.f] && t.sent == s.sent && t.sending == s.sending
    ensures Intact(t, |s.handed|, all)
  {
    hide Slot, Owned, Split, Awake, Shape;
    assert s.set_ == Slot(|s.handed|, |t.status|);
    assert First(t, |s.handed|, all) == 0;
  }

  lemma WakeSound(s: State, all: bool)
    requires Sound(s, all) && Published(s.pc)
    ensures Sound(Apply(s, Cpu), all)
  {
    StepInv(s, Cpu);
    hide Slot, Owned, Ring, Awake, Intact, Agrees, Holds;
    AllIntactStay(s, Apply(s, Cpu), all);
  }

  lemma ReadSound(s: State, all: bool)
    requires Sound(s, all) && Enabled(s, DmaRead)
    ensures Sound(Apply(s, DmaRead), all)
  {
    StepInv(s, DmaRead);
    WorkAtCursor(s);
    assert Intact(s, |s.sent|, all);
    var t, frame := Apply(s, DmaRead), s.handed[|s.sent|];
    assert s.mem[Base(s.cur) + |s.sending|] == frame[|s.sending|] by {
      assert s.cur == Slot(|s.sent|, |s.status|);
    }
    hide Slot, Owned, Ring, Awake, Intact, Agrees, Holds;
    assert s.sending + [frame[|s.sending|]] == frame[..|s.sending| + 1];
    AllIntactStay(s, t, all);
    if s.pc.Fill? { AgreesStays(s, t, s.pc.f, all); }
  }

  lemma DoneSound(s: State, w: bv32, all: bool)
    requires Sound(s, all) && Enabled(s, DmaDone(w))
    ensures Sound(Apply(s, DmaDone(w)), all)
  {
    StepInv(s, DmaDone(w));
    WorkAtCursor(s);
    SlotAlone(|s.sent|, |s.sent|, |s.status|);
    assert Intact(s, |s.sent|, all);
    assert s.cur == Slot(|s.sent|, |s.status|);
    hide Slot, Owned, Split, Awake, Intact, Agrees, Holds;
    var t := Apply(s, DmaDone(w));
    assert s.sending == s.handed[|s.sent|];
    assert s.handed[..|s.sent| + 1] == s.handed[..|s.sent|] + [s.handed[|s.sent|]];
    AllIntactStay(s, t, all);
    if s.pc.Fill? { AgreesStays(s, t, s.pc.f, all); }
  }

  lemma SuspendSound(s: State, all: bool)
    requires Sound(s, all) && Enabled(s, DmaSuspend)
    ensures Sound(Apply(s, DmaSuspend), all)
  {
    StepInv(s, DmaSuspend);
    hide Slot, Owned, Ring, Awake, Intact, AgreesAt, Holds;
    var t := Apply(s, DmaSuspend);
    AllIntactStay(s, t, all);
    if s.pc.Fill? { AgreesStays(s, t, s.pc.f, all); }
  }

  lemma CpuSound(s: State, all: bool)
    requires Sound(s, all) && Enabled(s, Cpu)
    ensures Sound(Apply(s, Cpu), all)
  {
    hide Sound, CpuStep, Apply;
    if s.pc.Fill? { if s.pc.l < |s.pc.f| { FillByteSound(s, all); } else { FillEndSound(s, all); } }
    else if s.pc.TestOwn? { TestSound(s, all); }
    else if s.pc.SetLength? { LengthSound(s, all); }
    else if s.pc.SetSegments? { SegmentsSound(s, all); }
    else if s.pc.SetOwn? { PublishSound(s, all); }
    else { WakeSound(s, all); }
  }

  lemma StepSound(s: State, l: Label, all: bool)
    requires Sound(s, all) && Enabled(s, l)
    requires l.Enter? ==> Agrees(s, l.f, all) && |l.f| <= TX_TBS1
    ensures Sound(Apply(s, l), all)
  {
    hide Sound, CpuStep, Apply;
    match l {
      case Enter(f) => EnterSound(s, f, all);
      case Cpu => CpuSound(s, all);
      case DmaRead => ReadSound(s, all);
      case DmaDone(w) => DoneSound(s, w, all);
      case DmaSuspend => SuspendSound(s, all);
    }
  }

  // ---- What runs that guard their calls keep ----

  /** The call in progress fits its buffer and found it free, all calls before did, and none was
      refused. */
  predicate Admitted(s: State)
    requires Shape(s)
  {
    && s.refused == [] && |FrameOf(s.pc)| <= ETH_MAX_PACKET_SIZE && (s.pc.Fill? || s.pc.TestOwn? ==> MayEnter(s))
    && forall k :: 0 <= k < |s.handed| ==> |s.handed[k]| <= ETH_MAX_PACKET_SIZE
  }

  lemma StepAdmitted(s: State, l: Label)
    requires Inv(s) && Admitted(s) && Enabled(s, l) && (l.Enter? ==> Admissible(s, l.f))
    ensures Admitted(Apply(s, l))
  {
    hide Slot, Ring, Awake;
  }

  ghost predicate Good(s: State) { Sound(s, true) && Admitted(s) }

  lemma BasesApart(i: nat, j: nat)
    requires i != j
    ensures Base(i) + ETH_MAX_PACKET_SIZE <= Base(j) || Base(j) + ETH_MAX_PACKET_SIZE <= Base(i)
  {
  }

  /** A frame that fits its free buffer touches no other buffer. */
  lemma AdmissibleAgrees(s: State, f: seq<byte>)
    requires Good(s) && s.pc.Idle? && Admissible(s, f)
    ensures Agrees(s, f, true)
  {
    RoomToEnter(s);
    SlotAlone(|s.sent|, |s.handed|, |s.status|);
    forall k: nat, j: nat | k < |s.handed| && j < |s.handed[k]|
      ensures AgreesAt(s, f, true, k, j)
    {
      if |s.sent| <= k {
        assert Slot(k, |s.status|) != s.set_;
        BasesApart(Slot(k, |s.status|), s.set_);
      }
    }
  }

  lemma StepGood(s: State, l: Label)
    requires Good(s) && Enabled(s, l) && (l.Enter? ==> Admissible(s, l.f))
    ensures Good(Apply(s, l))
  {
    if l.Enter? { AdmissibleAgrees(s, l.f); }
    StepSound(s, l, true);
    StepAdmitted(s, l);
  }

  lemma {:induction false} RunGood(s0: State, ls: seq<Label>)
    requires Initial(s0) && Legal(s0, ls) && Guarded(s0, ls)
    ensures Good(Run(s0, ls))
  {
    if ls != [] {
      var s, l := Run(s0, ls[..|ls| - 1]), ls[|ls| - 1];
      RunGood(s0, ls[..|ls| - 1]);
      hide Good, Admissible, Apply, Enabled;
      StepGood(s, l);
    } else {
      hide Slot;
    }
  }
}
