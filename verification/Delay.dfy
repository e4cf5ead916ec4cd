/** hy_system.c's delays: a time split into reloads that the 24-bit SysTick counter can hold. */
module Delay {
  import opened Basics

  const TWO24: nat := 0x100_0000
  const STEP_DELAY_MS: nat := 50

  type u32 = x: int | 0 <= x < TWO32

  function Product32(a: u32, b: u32): u32 { a * b % TWO32 }

  /** The values HySystemDelayMs programs, as the 24-bit LOAD register keeps them. */
  function Reloads(ms: nat, fac: u32): (r: seq<nat>)
    requires ms < TWO32
  {
    if ms == 0 then []
    else if ms > STEP_DELAY_MS then [Product32(STEP_DELAY_MS, fac) % TWO24] + Reloads(ms - STEP_DELAY_MS, fac)
    else [Product32(ms, fac) % TWO24]
  }

  function Sum(s: seq<nat>): nat {
    if s == [] then 0 else s[0] + Sum(s[1..])
  }

  lemma {:induction false} SumConcat(s: seq<nat>, t: seq<nat>)
    ensures Sum(s + t) == Sum(s) + Sum(t)
    decreases |s|
  {
    if s == [] {
      assert s + t == t;
    } else {
      assert (s + t)[1..] == s[1..] + t;
      SumConcat(s[1..], t);
    }
  }

  class SysTick {
    const clock: u32               // SystemCoreClock
    var loads: seq<nat>            // what LOAD has held

    constructor (clock: u32)
      ensures this.clock == clock && loads == []
    {
      this.clock, loads := clock, [];
    }

    /** The store of _delay_com. */
    method DelayCom(ticks: u32)
      modifies this
      ensures loads == old(loads) + [ticks % TWO24]
    {
      loads := loads + [ticks % TWO24];
    }

    method DelayMs(time: u32)
      modifies this
      ensures loads == old(loads) + Reloads(time, clock / 1000)
    {
      var fac: u32 := clock / 1000;
      var ms: u32, ticks: u32 := time, 0;
      ghost var done: seq<nat> := [];
      while ms > 0
        invariant loads == old(loads) + done && done + Reloads(ms, fac) == Reloads(time, fac)
      {
        ghost var rest := Reloads(ms, fac);
        if ms > STEP_DELAY_MS {
          ticks := Product32(STEP_DELAY_MS, fac);
          ms := ms - STEP_DELAY_MS;
        } else {
          ticks := Product32(ms, fac);
          ms := 0;
        }
        assert rest == [ticks % TWO24] + Reloads(ms, fac);
        assert done + rest == (done + [ticks % TWO24]) + Reloads(ms, fac);
        DelayCom(ticks);
        done := done + [ticks % TWO24];
      }
    }

    /** HySystemDelayS: the reloads add up to 1000 ms for each second, exactly when a step fits. */
    method DelayS(s: u32)
      modifies this
      ensures old(loads) <= loads && |loads| == |old(loads)| + 20 * s
      ensures var fac := clock / 1000;
        Sum(loads[|old(loads)|..]) == 1000 * s * fac <==> s == 0 || 50 * fac < 0x100_0000
    {
      hide Reloads, Sum;
      ghost var fac: u32 := clock / 1000;
      ghost var half := Reloads(500, fac);
      ghost var done: seq<nat> := [];
      assert Sum(done) == 0 by { EmptySum(); }
      ReloadCount(500, fac);
      var i: nat := 0;
      while i < s
        invariant i <= s && loads == old(loads) + done && |done| == 20 * i && Sum(done) == i * Sum(half + half)
      {
        DelayMs(500);
        DelayMs(500);
        SecondAdded(done, half + half, i);
        done := done + (half + half);
        i := i + 1;
      }
      Seconds(s, fac, half);
      assert loads[|old(loads)|..] == done;
    }
  }

  lemma EmptySum()
    ensures Sum([]) == 0
  {
  }

  lemma SecondAdded(done: seq<nat>, pair: seq<nat>, i: nat)
    requires Sum(done) == i * Sum(pair)
    ensures Sum(done + pair) == (i + 1) * Sum(pair)
  {
    hide Sum;
    SumConcat(done, pair);
    StepProduct(i, 1, Sum(pair));
  }

  /** s seconds of two half-second delays each. */
  lemma Seconds(s: nat, fac: u32, half: seq<nat>)
    requires half == Reloads(500, fac)
    ensures s * Sum(half + half) == 1000 * s * fac <==> s == 0 || STEP_DELAY_MS * fac < TWO24
  {
    hide Sum, Reloads;
    SumConcat(half, half);
    ConservedIff(500, fac);
    assert 1000 * s * fac == s * (1000 * fac);
    if s != 0 && s * Sum(half + half) == s * (1000 * fac) {
      assert s * (Sum(half + half) - 1000 * fac) == 0;
    }
  }

  /** One reload for each step begun. */
  lemma {:induction false} ReloadCount(ms: nat, fac: u32)
    requires ms < TWO32
    ensures |Reloads(ms, fac)| == (ms + 49) / 50
  {
    if ms > STEP_DELAY_MS { ReloadCount(ms - STEP_DELAY_MS, fac); }
  }

  /** Reload i holds the low 24 bits of its step's ticks: the cut to 32 bits on the way loses nothing
      more. */
  lemma {:induction false} ReloadAt(ms: nat, fac: u32, i: nat)
    requires ms < TWO32 && 50 * i < ms
    ensures i < |Reloads(ms, fac)|
    ensures Reloads(ms, fac)[i] == (if ms - 50 * i < 50 then ms - 50 * i else 50) * fac % 0x100_0000
  {
    CutTwice((if ms < 50 then ms else 50) * fac);
    if i > 0 {
      ReloadAt(ms - 50, fac, i - 1);
    }
  }

  lemma CutTwice(x: nat)
    ensures x % TWO32 % 0x100_0000 == x % 0x100_0000
  {
    assert x == x / TWO32 * 0x100 * 0x100_0000 + x % TWO32;
  }

  /** Dropping the high bits, first 32 and then 24, never gains ticks. */
  lemma Truncated(a: u32, fac: u32)
    ensures Product32(a, fac) % TWO24 <= a * fac
    ensures Product32(a, fac) % TWO24 == a * fac <==> a * fac < TWO24
  {
    assert a * fac >= 0;
  }

  lemma StepProduct(a: nat, b: nat, fac: nat)
    ensures (a + b) * fac == a * fac + b * fac
    ensures a <= b ==> a * fac <= b * fac
  {
    if a <= b {
      assert b * fac == a * fac + (b - a) * fac;
    }
  }

  lemma {:induction false} NeverLonger(ms: nat, fac: u32)
    requires ms < TWO32
    ensures Sum(Reloads(ms, fac)) <= ms * fac
  {
    if ms > STEP_DELAY_MS {
      var first := Product32(STEP_DELAY_MS, fac) % TWO24;
      var rest := Reloads(ms - STEP_DELAY_MS, fac);
      NeverLonger(ms - STEP_DELAY_MS, fac);
      Truncated(STEP_DELAY_MS, fac);
      StepProduct(STEP_DELAY_MS, ms - STEP_DELAY_MS, fac);
      assert ([first] + rest)[1..] == rest;
    } else if ms > 0 {
      Truncated(ms, fac);
    }
  }

  /** The reloads add up to the time asked for exactly when the longest of them fits the counter;
      otherwise the delay is short. */
  lemma {:induction false} ConservedIff(ms: nat, fac: u32)
    requires ms < TWO32
    ensures Sum(Reloads(ms, fac)) == ms * fac <==> (if ms < 50 then ms else 50) * fac < 0x100_0000
    ensures Sum(Reloads(ms, fac)) <= ms * fac
  {
    NeverLonger(ms, fac);
    if ms > STEP_DELAY_MS {
      var less := ms - STEP_DELAY_MS;
      ConservedIff(less, fac);
      NeverLonger(less, fac);
      Truncated(STEP_DELAY_MS, fac);
      StepProduct(STEP_DELAY_MS, less, fac);
      StepProduct(Min(less, STEP_DELAY_MS), STEP_DELAY_MS, fac);
      assert ([Product32(STEP_DELAY_MS, fac) % TWO24] + Reloads(less, fac))[1..] == Reloads(less, fac);
    } else if ms > 0 {
      Truncated(ms, fac);
    }
  }

  /** The first clock, in kHz, on which a whole step is too long for the counter. */
  lemma ShortDelay()
    ensures Sum(Reloads(50, 335545)) < 50 * 335545
  {
    hide Reloads, Sum;
    ConservedIff(STEP_DELAY_MS, 335545);
  }

  /** For clocks from 1 kHz to 335 MHz: ceil(ms / 50) reloads, none of them zero (a zero LOAD would
      never count down), no product cut to 32 or 24 bits, and ms * fac ticks in all. */
  lemma {:induction false} DelayConserved(ms: nat, fac: u32)
    requires ms < TWO32 && 1 <= fac <= 335544
    ensures |Reloads(ms, fac)| == (ms + 49) / 50
    ensures forall i :: 0 <= i < |Reloads(ms, fac)| ==>
              0 < Reloads(ms, fac)[i] == Min(ms - i * 50, 50) * fac < 0x100_0000
    ensures Sum(Reloads(ms, fac)) == ms * fac
  {
    hide Product32, Sum;
    ReloadCount(ms, fac);
    ConservedIff(ms, fac);
    StepProduct(Min(ms, STEP_DELAY_MS), STEP_DELAY_MS, fac);
    Nonzero(Min(ms, STEP_DELAY_MS), fac);
    if ms > STEP_DELAY_MS {
      var r, rest := Reloads(ms, fac), Reloads(ms - STEP_DELAY_MS, fac);
      DelayConserved(ms - STEP_DELAY_MS, fac);
      Truncated(STEP_DELAY_MS, fac);
      forall i | 0 <= i < |r|
        ensures 0 < r[i] == Min(ms - i * STEP_DELAY_MS, STEP_DELAY_MS) * fac < TWO24
      {
        assert i > 0 ==> r[i] == rest[i - 1];
      }
    } else if ms > 0 {
      Truncated(ms, fac);
    }
  }

  lemma Nonzero(a: nat, fac: nat)
    requires fac > 0
    ensures a > 0 ==> a * fac > 0
  {
  }
}
