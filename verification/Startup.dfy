/** __cmsis_start of cmsis_gcc.h: initialised data copied and bss cleared, table by table, in one
    word-addressed memory. */
module Startup {

  type Word = bv32

  /** A run of len words of memory. */
  datatype Region = Region(start: nat, len: nat) {
    predicate Within(size: nat) { start + len <= size }

    predicate Holds(a: nat) { start <= a < start + len }
  }

  /** One entry of the copy table, and of the zero table. */
  datatype Copy = Copy(src: nat, dest: nat, wlen: nat) {
    function Source(): Region { Region(src, wlen) }

    function Dest(): Region { Region(dest, wlen) }
  }

  predicate Apart(a: Region, b: Region) {
    a.start + a.len <= b.start || b.start + b.len <= a.start || a.len == 0 || b.len == 0
  }

  ghost predicate TablesFit(copies: seq<Copy>, zeros: seq<Region>, size: nat) {
    && (forall i :: 0 <= i < |copies| ==> copies[i].Source().Within(size) && copies[i].Dest().Within(size))
    && (forall i :: 0 <= i < |zeros| ==> zeros[i].Within(size))
  }

  /** A copy runs upwards, so it may move its words down over their own source. */
  predicate CopySafe(c: Copy) {
    Apart(c.Source(), c.Dest()) || c.dest <= c.src
  }

  /** No destination overlaps another destination or a zero region, and no source an earlier
      destination. Zero regions may overlap each other and the sources, which are read before. */
  ghost predicate TablesSafe(copies: seq<Copy>, zeros: seq<Region>) {
    && (forall i :: 0 <= i < |copies| ==> CopySafe(copies[i]))
    && (forall i, j :: 0 <= i < j < |copies| ==> Apart(copies[i].Dest(), copies[j].Dest()))
    && (forall i, j :: 0 <= j < i < |copies| ==> Apart(copies[i].Source(), copies[j].Dest()))
    && (forall i, j :: 0 <= i < |copies| && 0 <= j < |zeros| ==> Apart(copies[i].Dest(), zeros[j]))
  }

  /** Regions are apart exactly if no word lies in both. */
  lemma ApartMeans(a: Region, b: Region)
    ensures Apart(a, b) <==> forall x: nat :: !InBoth(a, b, x)
  {
    if !Apart(a, b) {
      assert InBoth(a, b, if a.start < b.start then b.start else a.start);
    }
  }

  predicate InBoth(a: Region, b: Region, x: nat) {
    a.start <= x < a.start + a.len && b.start <= x < b.start + b.len
  }

  /** A copy is unsafe exactly if its destination starts inside its source, after the first word. */
  lemma CopySafeMeans(c: Copy)
    ensures CopySafe(c) <==> !(c.src < c.dest < c.src + c.wlen)
  {
  }

  // ---- What the loops do, with no demand on the tables ----

  /** k words of a copy, first to last. */
  function CopyWords(m: seq<Word>, c: Copy, k: nat): (r: seq<Word>)
    requires c.Source().Within(|m|) && c.Dest().Within(|m|) && k <= c.wlen
    ensures |r| == |m|
  {
    if k == 0 then m
    else var p := CopyWords(m, c, k - 1); p[c.dest + k - 1 := p[c.src + k - 1]]
  }

  function Clear(m: seq<Word>, z: Region, k: nat): (r: seq<Word>)
    requires z.Within(|m|) && k <= z.len
    ensures |r| == |m|
  {
    if k == 0 then m else Clear(m, z, k - 1)[z.start + k - 1 := 0]
  }

  function CopyTables(m: seq<Word>, copies: seq<Copy>, k: nat): (r: seq<Word>)
    requires TablesFit(copies, [], |m|) && k <= |copies|
    ensures |r| == |m|
  {
    if k == 0 then m
    else var p := CopyTables(m, copies, k - 1); CopyWords(p, copies[k - 1], copies[k - 1].wlen)
  }

  function ZeroTables(m: seq<Word>, zeros: seq<Region>, k: nat): (r: seq<Word>)
    requires TablesFit([], zeros, |m|) && k <= |zeros|
    ensures |r| == |m|
  {
    if k == 0 then m
    else var p := ZeroTables(m, zeros, k - 1); Clear(p, zeros[k - 1], zeros[k - 1].len)
  }

  /** The two table loops, word by word on the memory itself. */
  method CmsisStart(mem: array<Word>, copies: seq<Copy>, zeros: seq<Region>)
    requires TablesFit(copies, zeros, mem.Length)
    modifies mem
    ensures mem[..] == ZeroTables(CopyTables(old(mem[..]), copies, |copies|), zeros, |zeros|)
  {
    ghost var m0 := mem[..];
    var t := 0;
    while t < |copies|
      invariant 0 <= t <= |copies| && mem[..] == CopyTables(m0, copies, t)
    {
      var c := copies[t];
      ghost var m1 := mem[..];
      var i := 0;
      while i < c.wlen
        invariant 0 <= i <= c.wlen && mem[..] == CopyWords(m1, c, i)
      {
        mem[c.dest + i] := mem[c.src + i];
        i := i + 1;
      }
      t := t + 1;
    }
    ghost var m2 := mem[..];
    t := 0;
    while t < |zeros|
      invariant 0 <= t <= |zeros| && mem[..] == ZeroTables(m2, zeros, t)
    {
      var z := zeros[t];
      ghost var m3 := mem[..];
      var i := 0;
      while i < z.len
        invariant 0 <= i <= z.len && mem[..] == Clear(m3, z, i)
      {
        mem[z.start + i] := 0;
        i := i + 1;
      }
      t := t + 1;
    }
  }

  // ---- What that means for disjoint tables ----

  ghost predicate Untouched(copies: seq<Copy>, zeros: seq<Region>, a: nat) {
    && (forall i :: 0 <= i < |copies| ==> !(copies[i].dest <= a < copies[i].dest + copies[i].wlen))
    && (forall i :: 0 <= i < |zeros| ==> !(zeros[i].start <= a < zeros[i].start + zeros[i].len))
  }

  lemma {:induction false} ClearAt(m: seq<Word>, z: Region, k: nat, a: nat)
    requires z.Within(|m|) && k <= z.len && a < |m|
    ensures Clear(m, z, k)[a] == if z.start <= a < z.start + k then 0 else m[a]
  {
    if k > 0 { ClearAt(m, z, k - 1, a); }
  }

  /** A safe copy leaves the source's words at its destination. */
  lemma {:induction false} CopyAt(m: seq<Word>, c: Copy, k: nat, a: nat)
    requires c.Source().Within(|m|) && c.Dest().Within(|m|) && k <= c.wlen && a < |m|
    requires CopySafe(c)
    ensures CopyWords(m, c, k)[a] == if c.dest <= a < c.dest + k then m[c.src + (a - c.dest)] else m[a]
  {
    if k > 0 {
      CopyAt(m, c, k - 1, a);
      CopyAt(m, c, k - 1, c.src + k - 1);
    }
  }

  lemma {:induction false} OverlapRepeats(m: seq<Word>, c: Copy, k: nat)
    requires c.Source().Within(|m|) && c.Dest().Within(|m|) && c.src < c.dest < c.src + c.wlen && 0 < k <= c.wlen
    ensures CopyWords(m, c, k)[c.dest] == m[c.src]
    ensures c.dest - c.src < k ==> CopyWords(m, c, k)[c.dest + (c.dest - c.src)] == m[c.src]
  {
    if k > 1 {
      OverlapRepeats(m, c, k - 1);
    } else {
      assert CopyWords(m, c, 0) == m;
    }
  }

  /** The copy as intended, on a given memory. */
  ghost predicate CopiesRight(m: seq<Word>, c: Copy)
    requires c.Source().Within(|m|) && c.Dest().Within(|m|)
  {
    forall a :: c.dest <= a < c.dest + c.wlen ==> CopyWords(m, c, c.wlen)[a] == m[c.src + (a - c.dest)]
  }

  ghost predicate AlwaysRight(c: Copy, size: nat)
    requires c.Source().Within(size) && c.Dest().Within(size)
  {
    forall m: seq<Word> :: |m| == size ==> CopiesRight(m, c)
  }

  /** A copy puts its source's words at its destination, whatever the memory holds, exactly when it is
      safe: otherwise it repeats its first words. */
  lemma CopyRightIffSafe(c: Copy, size: nat)
    requires c.Source().Within(size) && c.Dest().Within(size)
    ensures AlwaysRight(c, size) <==> !(c.src < c.dest < c.src + c.wlen)
  {
    CopySafeMeans(c);
    if CopySafe(c) {
      forall m: seq<Word> | |m| == size
        ensures CopiesRight(m, c)
      {
        forall a | c.dest <= a < c.dest + c.wlen
          ensures CopyWords(m, c, c.wlen)[a] == m[c.src + (a - c.dest)]
        {
          CopyAt(m, c, c.wlen, a);
        }
      }
    } else {
      var m := seq(size, a => if a == c.src then 1 as Word else 0);
      OverlapRepeats(m, c, c.wlen);
      assert CopyWords(m, c, c.wlen)[c.dest + (c.dest - c.src)] == 1 && m[c.dest] == 0;
      assert !CopiesRight(m, c);
    }
  }

  lemma {:induction false} CopyLeaves(m: seq<Word>, c: Copy, k: nat, a: nat)
    requires c.Source().Within(|m|) && c.Dest().Within(|m|) && k <= c.wlen && a < |m| && !c.Dest().Holds(a)
    ensures CopyWords(m, c, k)[a] == m[a]
  {
    if k > 0 { CopyLeaves(m, c, k - 1, a); }
  }

  /** Words outside the first k destinations keep their contents, whatever the copies overlap. */
  lemma {:induction false} CopiesLeave(m: seq<Word>, copies: seq<Copy>, k: nat, a: nat)
    requires TablesFit(copies, [], |m|) && k <= |copies| && a < |m|
    requires forall i :: 0 <= i < k ==> !copies[i].Dest().Holds(a)
    ensures CopyTables(m, copies, k)[a] == m[a]
  {
    hide CopyWords;
    if k > 0 {
      CopiesLeave(m, copies, k - 1, a);
      CopyLeaves(CopyTables(m, copies, k - 1), copies[k - 1], copies[k - 1].wlen, a);
    }
  }

  /** A word of destination i holds its source word: no earlier copy reaches the source, no later
      one the destination. */
  lemma {:induction false} CopiesAt(m: seq<Word>, copies: seq<Copy>, zeros: seq<Region>, k: nat, i: nat, a: nat)
    requires TablesFit(copies, zeros, |m|) && TablesSafe(copies, zeros) && i < k <= |copies|
    requires copies[i].Dest().Holds(a)
    ensures CopyTables(m, copies, k)[a] == m[copies[i].src + (a - copies[i].dest)]
  {
    hide CopyWords;
    var c, p := copies[k - 1], CopyTables(m, copies, k - 1);
    CopyAt(p, c, c.wlen, a);
    if i == k - 1 {
      CopiesLeave(m, copies, k - 1, c.src + (a - c.dest));
    } else {
      assert Apart(copies[i].Dest(), c.Dest());
      CopiesAt(m, copies, zeros, k - 1, i, a);
    }
  }

  lemma {:induction false} ZerosAt(m: seq<Word>, zeros: seq<Region>, k: nat, a: nat)
    requires TablesFit([], zeros, |m|) && k <= |zeros| && a < |m|
    ensures ZeroTables(m, zeros, k)[a] == if exists i :: 0 <= i < k && zeros[i].Holds(a) then 0 else m[a]
  {
    if k > 0 {
      ZerosAt(m, zeros, k - 1, a);
      ClearAt(ZeroTables(m, zeros, k - 1), zeros[k - 1], zeros[k - 1].len, a);
    }
  }

  /** After start-up every destination holds its source's original words, every zero region is
      zero, and every other word of memory is untouched. */
  lemma StartupMemory(m: seq<Word>, copies: seq<Copy>, zeros: seq<Region>, a: nat)
    requires TablesFit(copies, zeros, |m|) && TablesSafe(copies, zeros) && a < |m|
    ensures var r := ZeroTables(CopyTables(m, copies, |copies|), zeros, |zeros|);
            && (forall i :: 0 <= i < |copies| && copies[i].dest <= a < copies[i].dest + copies[i].wlen ==>
                  r[a] == m[copies[i].src + (a - copies[i].dest)])
            && (forall i :: 0 <= i < |zeros| && zeros[i].start <= a < zeros[i].start + zeros[i].len ==> r[a] == 0)
            && (Untouched(copies, zeros, a) ==> r[a] == m[a])
  {
    hide CopyTables, ZeroTables;
    forall i | 0 <= i < |copies| && copies[i].Dest().Holds(a)
      ensures CopyTables(m, copies, |copies|)[a] == m[copies[i].src + (a - copies[i].dest)]
    {
      CopiesAt(m, copies, zeros, |copies|, i, a);
    }
    if Untouched(copies, zeros, a) {
      CopiesLeave(m, copies, |copies|, a);
    }
    ZerosAt(CopyTables(m, copies, |copies|), zeros, |zeros|, a);
    forall i, j | 0 <= i < |copies| && 0 <= j < |zeros| && copies[i].Dest().Holds(a)
      ensures !zeros[j].Holds(a)
    {
      assert Apart(copies[i].Dest(), zeros[j]);
    }
  }
}
