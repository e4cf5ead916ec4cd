/** Pool entries and DMA descriptors of the zero-copy receive path: the receive interrupt takes one
    of each, the pbuf free hook gives both back in two stores that the interrupt may come between
    unless the section is protected. */
module ZeroCopyRx {

  const RX_POOL_SIZE: nat := 10

  /** Where the thread that frees a pbuf is in my_pbuf_free_custom. */
  datatype Hook = Outside | Entered(e: nat) | DescriptorFreed(e: nat)

  datatype State = State(
    freePool: set<nat>,            // free entries of RX_POOL
    freeDesc: set<nat>,            // descriptors the MAC may fill
    live: map<nat, nat>,           // entries of pbufs in use, with their dma_descriptor
    hook: Hook,
    fault: bool)                   // the interrupt stored through a NULL pool entry

  datatype Label =
    | Irq(d: nat, e: nat, accepted: bool)   // a frame arrived in d; e is what the pool hands out
    | IrqDry(d: nat)                        // a frame arrived in d and the pool is empty
    | Free(e: nat)                          // the last reference to a pbuf goes
    | FreeDescriptor
    | FreeEntry

  /** Pool size, number of descriptors, and whether SYS_ARCH_PROTECT holds the interrupt off. */
  datatype Setup = Setup(pool: nat, descriptors: nat, protected: bool)

  predicate Enabled(c: Setup, s: State, l: Label) {
    !s.fault &&
    match l
    case Irq(d, e, _) => (c.protected ==> s.hook.Outside?) && d in s.freeDesc && e in s.freePool
    case IrqDry(d) => (c.protected ==> s.hook.Outside?) && d in s.freeDesc && s.freePool == {}
    case Free(e) => s.hook.Outside? && e in s.live
    case FreeDescriptor => s.hook.Entered? && s.hook.e in s.live
    case FreeEntry => s.hook.DescriptorFreed?
  }

  function Apply(c: Setup, s: State, l: Label): State
    requires Enabled(c, s, l)
  {
    match l
    case Irq(d, e, accepted) =>
      // A refused frame runs the free hook inside the interrupt and gives both back at once.
      if accepted then s.(freePool := s.freePool - {e}, freeDesc := s.freeDesc - {d}, live := s.live[e := d])
      else s
    case IrqDry(_) => s.(fault := true)
    case Free(e) => s.(hook := Entered(e))
    case FreeDescriptor =>
      s.(freeDesc := s.freeDesc + {s.live[s.hook.e]}, live := s.live - {s.hook.e}, hook := DescriptorFreed(s.hook.e))
    case FreeEntry => s.(freePool := s.freePool + {s.hook.e}, hook := Outside)
  }

  function Numbers(n: nat): (r: set<nat>)
    ensures |r| == n && forall k: nat :: k in r <==> k < n
  {
    if n == 0 then {} else
    var r := Numbers(n - 1);
    assert n - 1 !in r;
    r + {n - 1}
  }

  function Initial(c: Setup): State {
    State(Numbers(c.pool), Numbers(c.descriptors), map[], Outside, false)
  }

  ghost predicate Legal(c: Setup, ls: seq<Label>)
    decreases |ls|, 0
  {
    ls == [] || (Legal(c, ls[..|ls| - 1]) && Enabled(c, Run(c, ls[..|ls| - 1]), ls[|ls| - 1]))
  }

  ghost function Run(c: Setup, ls: seq<Label>): State
    requires Legal(c, ls)
    decreases |ls|, 1
  {
    if ls == [] then Initial(c) else Apply(c, Run(c, ls[..|ls| - 1]), ls[|ls| - 1])
  }

  lemma Extend(c: Setup, ls: seq<Label>, l: Label)
    requires Legal(c, ls) && Enabled(c, Run(c, ls), l)
    ensures Legal(c, ls + [l]) && Run(c, ls + [l]) == Apply(c, Run(c, ls), l)
  {
    assert (ls + [l])[..|ls|] == ls;
  }

  // ---- What every run keeps, protected or not ----

  /** An entry that belongs neither to the pool nor to a pbuf: its descriptor is already back. */
  function Limbo(s: State): set<nat> {
    if s.hook.DescriptorFreed? then {s.hook.e} else {}
  }

  ghost predicate Inv(c: Setup, s: State) {
    // Every entry is in exactly one place, every descriptor likewise, one to one for live pbufs.
    && s.freePool !! s.live.Keys && s.freePool !! Limbo(s) && s.live.Keys !! Limbo(s)
    && (forall e :: e in s.live ==> s.live[e] !in s.freeDesc)
    && (forall e, f :: e in s.live && f in s.live && e != f ==> s.live[e] != s.live[f])
    && |s.freePool| + |s.live| + |Limbo(s)| == c.pool
    && |s.freeDesc| + |s.live| == c.descriptors
    && (s.hook.Entered? ==> s.hook.e in s.live)
    && (s.fault ==> |s.live| < c.descriptors && s.freePool == {})
  }

  lemma AddedEntry(m: map<nat, nat>, e: nat, d: nat)
    requires e !in m
    ensures |m[e := d]| == |m| + 1
  {
    assert m[e := d].Keys == m.Keys + {e};
    assert |m[e := d]| == |m[e := d].Keys|;
  }

  lemma RemovedEntry(m: map<nat, nat>, e: nat)
    requires e in m
    ensures |m - {e}| == |m| - 1
  {
    assert (m - {e}).Keys == m.Keys - {e};
    assert |m - {e}| == |(m - {e}).Keys|;
  }

  lemma IrqInv(c: Setup, s: State, l: Label)
    requires Inv(c, s) && Enabled(c, s, l) && l.Irq?
    ensures Inv(c, Apply(c, s, l))
  {
    AddedEntry(s.live, l.e, l.d);
  }

  lemma FreeDescriptorInv(c: Setup, s: State)
    requires Inv(c, s) && Enabled(c, s, FreeDescriptor)
    ensures Inv(c, Apply(c, s, FreeDescriptor))
  {
    RemovedEntry(s.live, s.hook.e);
  }

  lemma StepInv(c: Setup, s: State, l: Label)
    requires Inv(c, s) && Enabled(c, s, l)
    ensures Inv(c, Apply(c, s, l))
  {
    match l {
      case Irq(_, _, _) => IrqInv(c, s, l);
      case FreeDescriptor => FreeDescriptorInv(c, s);
      case IrqDry(d) => assert |s.freeDesc| == |s.freeDesc - {d}| + 1;
      case _ =>
    }
  }

  lemma {:induction false} RunInv(c: Setup, ls: seq<Label>)
    requires Legal(c, ls)
    ensures Inv(c, Run(c, ls))
  {
    if ls != [] {
      RunInv(c, ls[..|ls| - 1]);
      StepInv(c, Run(c, ls[..|ls| - 1]), ls[|ls| - 1]);
    }
  }

  /** The hook never frees an entry or a descriptor that is already free. */
  lemma NoDoubleFree(c: Setup, ls: seq<Label>)
    requires Legal(c, ls)
    ensures var s := Run(c, ls);
            && (s.hook.Entered? ==> s.hook.e in s.live && s.live[s.hook.e] !in s.freeDesc)
            && (s.hook.DescriptorFreed? ==> s.hook.e !in s.freePool && s.hook.e !in s.live)
            && (forall e, f :: e in s.live && f in s.live && e != f ==> s.live[e] != s.live[f])
  {
    RunInv(c, ls);
  }

  // ---- Each entry and each descriptor is freed once for every time it is taken ----

  ghost function EntryTakes(ls: seq<Label>, e: nat): nat {
    if ls == [] then 0
    else var l := ls[|ls| - 1];
      EntryTakes(ls[..|ls| - 1], e) + if l.Irq? && l.accepted && l.e == e then 1 else 0
  }

  ghost function EntryFrees(c: Setup, ls: seq<Label>, e: nat): nat
    requires Legal(c, ls)
  {
    if ls == [] then 0
    else var before := ls[..|ls| - 1];
      EntryFrees(c, before, e) + if ls[|ls| - 1].FreeEntry? && Run(c, before).hook.e == e then 1 else 0
  }

  ghost function DescriptorTakes(ls: seq<Label>, d: nat): nat {
    if ls == [] then 0
    else var l := ls[|ls| - 1];
      DescriptorTakes(ls[..|ls| - 1], d) + if l.Irq? && l.accepted && l.d == d then 1 else 0
  }

  ghost function DescriptorFrees(c: Setup, ls: seq<Label>, d: nat): nat
    requires Legal(c, ls)
  {
    if ls == [] then 0
    else var before := ls[..|ls| - 1];
      var s := Run(c, before);
      DescriptorFrees(c, before, d) + if ls[|ls| - 1].FreeDescriptor? && s.live[s.hook.e] == d then 1 else 0
  }

  predicate EntryHeld(s: State, e: nat) {
    e in s.live || e in Limbo(s)
  }

  ghost predicate DescriptorHeld(s: State, d: nat) {
    exists e :: e in s.live && s.live[e] == d
  }

  lemma {:induction false} EntryFreedOnce(c: Setup, ls: seq<Label>, e: nat)
    requires Legal(c, ls)
    ensures EntryTakes(ls, e) == EntryFrees(c, ls, e) + if EntryHeld(Run(c, ls), e) then 1 else 0
  {
    if ls != [] {
      var before := ls[..|ls| - 1];
      EntryFreedOnce(c, before, e);
      RunInv(c, before);
    }
  }

  lemma DescriptorStep(c: Setup, s: State, l: Label, d: nat)
    requires Inv(c, s) && Enabled(c, s, l)
    ensures DescriptorHeld(Apply(c, s, l), d) <==>
            (DescriptorHeld(s, d) && !(l.FreeDescriptor? && s.live[s.hook.e] == d))
            || (l.Irq? && l.accepted && l.d == d)
    ensures l.Irq? && l.d == d ==> !DescriptorHeld(s, d)
    ensures l.FreeDescriptor? && s.live[s.hook.e] == d ==> DescriptorHeld(s, d)
  {
    var t := Apply(c, s, l);
    if DescriptorHeld(s, d) {
      var e :| e in s.live && s.live[e] == d;
      assert e in t.live ==> t.live[e] == d;
    }
    if l.Irq? && l.accepted {
      assert t.live[l.e] == l.d;
    }
  }

  lemma {:induction false} DescriptorFreedOnce(c: Setup, ls: seq<Label>, d: nat)
    requires Legal(c, ls)
    ensures DescriptorTakes(ls, d) == DescriptorFrees(c, ls, d) + if DescriptorHeld(Run(c, ls), d) then 1 else 0
  {
    if ls != [] {
      var before := ls[..|ls| - 1];
      hide Inv, DescriptorHeld;
      DescriptorFreedOnce(c, before, d);
      RunInv(c, before);
      DescriptorStep(c, Run(c, before), ls[|ls| - 1], d);
    } else {
      assert !DescriptorHeld(Initial(c), d);
    }
  }

  // ---- Exactly when the pool never runs dry ----

  /** With the section protected, as many descriptors as entries will do; without, the entry in
      limbo costs one. */
  predicate Sufficient(c: Setup) {
    c.descriptors == 0 || (if c.protected then c.descriptors <= c.pool else c.descriptors < c.pool)
  }

  ghost predicate NeverDry(c: Setup) {
    forall ls :: Legal(c, ls) ==> !Run(c, ls).fault
  }

  lemma {:induction false} SufficientKeepsWet(c: Setup, ls: seq<Label>)
    requires Sufficient(c) && Legal(c, ls)
    ensures !Run(c, ls).fault
  {
    if ls != [] {
      var before := ls[..|ls| - 1];
      SufficientKeepsWet(c, before);
      RunInv(c, before);
    }
  }

  /** Frames that arrive faster than pbufs are freed take k entries and k descriptors. */
  lemma {:induction false} Fill(c: Setup, k: nat) returns (ls: seq<Label>)
    requires k <= c.pool && k <= c.descriptors
    ensures Legal(c, ls)
    ensures var s := Run(c, ls); |s.live| == k && s.hook.Outside? && !s.fault
  {
    if k == 0 {
      ls := [];
      assert Run(c, ls) == Initial(c);
    } else {
      ls := Fill(c, k - 1);
      RunInv(c, ls);
      var s := Run(c, ls);
      var e :| e in s.freePool;
      var d :| d in s.freeDesc;
      Extend(c, ls, Irq(d, e, true));
      ls := ls + [Irq(d, e, true)];
    }
  }

  lemma DryRun(c: Setup) returns (ls: seq<Label>)
    requires !Sufficient(c)
    ensures Legal(c, ls) && Run(c, ls).fault
  {
    ls := Fill(c, c.pool);
    RunInv(c, ls);
    if c.descriptors == c.pool {
      var s := Run(c, ls);
      var e :| e in s.live;
      Extend(c, ls, Free(e));
      ls := ls + [Free(e)];
      Extend(c, ls, FreeDescriptor);
      ls := ls + [FreeDescriptor];
      RunInv(c, ls);
    }
    var s := Run(c, ls);
    var d :| d in s.freeDesc;
    Extend(c, ls, IrqDry(d));
    ls := ls + [IrqDry(d)];
  }

  /** The pool allocation in the interrupt always succeeds exactly when the set-up is sufficient. */
  lemma NeverDryIffSufficient(c: Setup)
    ensures NeverDry(c) <==> Sufficient(c)
  {
    if Sufficient(c) {
      forall ls | Legal(c, ls)
        ensures !Run(c, ls).fault
      {
        SufficientKeepsWet(c, ls);
      }
    } else {
      var ls := DryRun(c);
    }
  }

  /** RX_POOL's ten entries serve up to ten descriptors behind a protected section, but only nine
      with this port's empty SYS_ARCH_PROTECT. */
  lemma ShippedPool(descriptors: nat)
    ensures NeverDry(Setup(RX_POOL_SIZE, descriptors, true)) <==> descriptors <= 10
    ensures NeverDry(Setup(RX_POOL_SIZE, descriptors, false)) <==> descriptors <= 9
  {
    NeverDryIffSufficient(Setup(RX_POOL_SIZE, descriptors, true));
    NeverDryIffSufficient(Setup(RX_POOL_SIZE, descriptors, false));
  }

  // ---- The handlers as they run ----

  class Driver {
    const setup: Setup
    var freePool: set<nat>
    var freeDesc: set<nat>
    var live: map<nat, nat>
    var fault: bool
    // Whether a section in progress holds the interrupt off.
    var masked: bool
    // The transition system's view of this run.
    ghost var hook: Hook
    ghost var trace: seq<Label>

    ghost function Abs(): State
      reads this
    {
      State(freePool, freeDesc, live, hook, fault)
    }

    /** The state is the one a legal run of the transition system reaches. */
    ghost predicate Valid()
      reads this
    {
      Legal(setup, trace) && Run(setup, trace) == Abs() && masked == (setup.protected && !hook.Outside?)
    }

    constructor (setup: Setup)
      ensures Valid() && this.setup == setup && hook == Outside && trace == []
    {
      this.setup := setup;
      freePool, freeDesc, live, fault := Numbers(setup.pool), Numbers(setup.descriptors), map[], false;
      masked, hook, trace := false, Outside, [];
    }

    ghost method Record(before: State, l: Label)
      requires Legal(setup, trace) && Run(setup, trace) == before
      requires Enabled(setup, before, l) && Abs() == Apply(setup, before, l)
      requires masked == (setup.protected && !hook.Outside?)
      modifies this`trace
      ensures Valid()
    {
      Extend(setup, trace, l);
      trace := trace + [l];
    }

    /** The pbufs in use stay so, with their descriptors. */
    twostate predicate Kept()
      reads this
    {
      hook == old(hook) && masked == old(masked) && forall e :: e in old(live) ==> e in live && live[e] == old(live)[e]
    }

    /** eth_rx_irq for a frame in descriptor d; accepted is netif->input's verdict. */
    method EthRxIrq(d: nat, accepted: bool)
      requires Valid() && !fault && d in freeDesc && !masked
      modifies this
      ensures Valid() && Kept()
      ensures fault <==> old(freePool) == {}
      ensures !fault && accepted ==> freeDesc == old(freeDesc) - {d}
      ensures !fault && accepted ==>
        exists e :: e in old(freePool) && freePool == old(freePool) - {e} && live == old(live)[e := d]
      ensures !fault && !accepted ==> Abs() == old(Abs())
    {
      RunInv(setup, trace);
      ghost var before := Abs();
      hide Legal, Run;
      if freePool == {} {
        fault := true;
        Record(before, IrqDry(d));
      } else {
        var e :| e in freePool;
        if accepted {
          freePool, freeDesc, live := freePool - {e}, freeDesc - {d}, live[e := d];
        }
        Record(before, Irq(d, e, accepted));
      }
    }

    /** Any interrupts before the next store; none while a protected section holds them off. */
    method Interrupts()
      requires Valid()
      modifies this
      ensures Valid() && Kept() && (masked ==> Abs() == old(Abs()))
    {
      hide Legal, Run;
      var frames: nat := *;
      while frames > 0
        invariant Valid() && Kept() && (masked ==> Abs() == old(Abs()))
      {
        var d: nat, accepted: bool := *, *;
        if !masked && !fault && d in freeDesc {
          EthRxIrq(d, accepted);
        }
        frames := frames - 1;
      }
    }

    method Protect(e: nat)
      requires Valid() && !fault && hook.Outside? && e in live
      modifies this
      ensures Valid() && Abs() == old(Abs()).(hook := Entered(e)) && masked == setup.protected
    {
      ghost var before := Abs();
      hide Legal, Run;
      masked, hook := setup.protected, Entered(e);
      Record(before, Free(e));
    }

    method FreeRxDmaDescriptor(e: nat)
      requires Valid() && !fault && hook == Entered(e) && e in live
      modifies this
      ensures Valid() && masked == old(masked)
      ensures Abs() == State(old(freePool), old(freeDesc) + {old(live)[e]}, old(live) - {e}, DescriptorFreed(e), false)
    {
      ghost var before := Abs();
      hide Legal, Run;
      freeDesc, live, hook := freeDesc + {live[e]}, live - {e}, DescriptorFreed(e);
      Record(before, FreeDescriptor);
    }

    method MempoolFree(e: nat)
      requires Valid() && !fault && hook == DescriptorFreed(e)
      modifies this
      ensures Valid() && Abs() == old(Abs()).(freePool := old(freePool) + {e}, hook := Outside)
    {
      ghost var before := Abs();
      hide Legal, Run;
      freePool, masked, hook := freePool + {e}, false, Outside;
      Record(before, FreeEntry);
    }

    /** my_pbuf_free_custom on the pbuf of entry e. A section that holds the interrupt off gives back
        exactly that entry and its descriptor; without one the interrupt may meanwhile take the
        descriptor again, and fault when the set-up is not sufficient. */
    method MyPbufFreeCustom(e: nat)
      requires Valid() && !fault && hook.Outside? && e in live
      modifies this
      ensures Valid() && (Sufficient(setup) ==> !fault)
      ensures !fault ==> hook.Outside? && e in freePool && e !in live
      ensures setup.protected ==>
        Abs() == State(old(freePool) + {e}, old(freeDesc) + {old(live)[e]}, old(live) - {e}, Outside, false)
    {
      hide Legal, Run, Inv;
      Protect(e);
      Interrupts();
      if !fault {
        FreeRxDmaDescriptor(e);
        Interrupts();
        if !fault {
          NoDoubleFree(setup, trace);
          MempoolFree(e);
        }
      }
      if Sufficient(setup) {
        SufficientKeepsWet(setup, trace);
      }
    }
  }
}
