/** hy_uart.c's transmit loops: bytes written to the data register and a bounded number of polls of
    the completion flag for each, and the newline expansion on top of them. */
module Uart {

  /** Polls after which a byte counts as not acknowledged. */
  const LIMIT: nat := 0x1CE2

  /** Values of the 16-bit byte counter. */
  const WRAP: nat := 0x1_0000

  const EOF: int := -1
  const NUL: Byte := 0
  const NL: Byte := 10
  const CR: Byte := 13

  type Byte = b: int | 0 <= b < 256

  /** The completion flag as poll number k of the port's life finds it. */
  type Flags = nat -> bool

  /** Polls a wait makes: the first is number at, and stop the first it may no longer make. */
  function Polls(flags: Flags, at: nat, stop: nat): (n: nat)
    requires at < stop
    ensures 1 <= n <= stop - at
    decreases stop - at
  {
    if at + 1 == stop || flags(at) then 1 else 1 + Polls(flags, at + 1, stop)
  }

  /** One of those polls, but not the last, finds the flag set. */
  ghost predicate SeenBefore(flags: Flags, at: nat, stop: nat) {
    exists p: nat :: at <= p < stop - 1 && flags(p)
  }

  /** A wait makes its last permitted poll exactly when no earlier one found the flag; what that
      last poll finds makes no difference. */
  lemma {:induction false} PollsToTheFlag(flags: Flags, at: nat, stop: nat)
    requires at < stop
    ensures Polls(flags, at, stop) < stop - at <==> SeenBefore(flags, at, stop)
    ensures var last := at + Polls(flags, at, stop) - 1;
            (last < stop - 1 ==> flags(last)) && forall p: nat :: at <= p < last ==> !flags(p)
    decreases stop - at
  {
    if at + 1 < stop && !flags(at) {
      PollsToTheFlag(flags, at + 1, stop);
    }
  }

  /** The number of the first poll for byte k of a transfer whose polls begin with number at. */
  function StartOf(flags: Flags, at: nat, k: nat): nat {
    if k == 0 then at else var s := StartOf(flags, at, k - 1); s + Polls(flags, s, s + LIMIT)
  }

  /** Byte k is acknowledged before its last permitted poll. */
  ghost predicate Acked(flags: Flags, at: nat, k: nat) {
    SeenBefore(flags, StartOf(flags, at, k), StartOf(flags, at, k) + LIMIT)
  }

  lemma {:induction false} TransferBound(flags: Flags, at: nat, k: nat)
    ensures at + k <= StartOf(flags, at, k) <= at + k * 0x1CE2
  {
    if k > 0 { TransferBound(flags, at, k - 1); }
  }

  /** The bytes n passes of a buffer send write: its 16-bit index starts over after 65536. */
  function Streamed(str: seq<Byte>, n: nat): (s: seq<Byte>)
    requires n <= |str| || WRAP <= |str|
  {
    if n == 0 then [] else Streamed(str, n - 1) + [str[(n - 1) % WRAP]]
  }

  lemma {:induction false} StreamedPrefix(str: seq<Byte>, n: nat)
    requires n <= |str| && n <= WRAP
    ensures Streamed(str, n) == str[..n]
  {
    if n > 0 { StreamedPrefix(str, n - 1); }
  }

  /** The port behind a live handle. */
  class Port {
    var written: seq<Byte>         // everything stored to the data register
    var polls: nat                 // polls of the flag so far
    const flags: Flags

    constructor (flags: Flags)
      ensures written == [] && polls == 0 && this.flags == flags
    {
      written, polls, this.flags := [], 0, flags;
    }

    method SendData(b: Byte)
      modifies this
      ensures written == old(written) + [b] && polls == old(polls)
    {
      written := written + [b];
    }

    /** The inner do-while loop of both send functions. */
    method WaitForFlag() returns (count: nat)
      modifies this
      ensures count == Polls(flags, old(polls), old(polls) + 0x1CE2) && polls == old(polls) + count
      ensures written == old(written)
      ensures count == 0x1CE2 <==> !SeenBefore(flags, old(polls), old(polls) + 0x1CE2)
    {
      PollsToTheFlag(flags, polls, polls + LIMIT);
      hide SeenBefore;
      count := 0;
      var set_ := false;
      while count == 0 || (!set_ && count != LIMIT)
        invariant count <= LIMIT && polls == old(polls) + count && written == old(written)
        invariant (set_ || count == LIMIT) ==> count == Polls(flags, old(polls), old(polls) + LIMIT)
        invariant !set_ && count < LIMIT ==>
                    Polls(flags, old(polls), old(polls) + LIMIT) == count + Polls(flags, polls, old(polls) + LIMIT)
        decreases LIMIT - count
      {
        set_ := flags(polls);
        polls := polls + 1;
        count := count + 1;
      }
    }

    /** One byte written and waited for; false when the last permitted poll was made. */
    method SendAndWait(b: Byte) returns (acked: bool)
      modifies this
      ensures written == old(written) + [b]
      ensures polls == old(polls) + Polls(flags, old(polls), old(polls) + 0x1CE2)
      ensures acked == SeenBefore(flags, old(polls), old(polls) + 0x1CE2)
    {
      hide SeenBefore, Polls;
      SendData(b);
      var count := WaitForFlag();
      acked := count != LIMIT;
    }
  }

  /** HyUartSendByte. */
  method SendByte(handle: Port?, b: Byte) returns (r: int)
    modifies handle
    ensures handle == null ==> r == -1
    ensures handle != null ==>
      && handle.written == old(handle.written) + [b]
      && handle.polls == old(handle.polls) + Polls(handle.flags, old(handle.polls), old(handle.polls) + 0x1CE2)
      && r == if SeenBefore(handle.flags, old(handle.polls), old(handle.polls) + 0x1CE2) then b else -1
  {
    if handle == null {
      return -1;
    }
    var acked := handle.SendAndWait(b);
    r := if acked then b else EOF;
  }

  /** How many bytes a buffer send attempts: its loop tests the length after the first. */
  function Attempts(len: nat): nat { if len == 0 then 1 else len }

  /** After rounds passes the loop goes round again: every byte so far was acknowledged and the
      16-bit counter is still below the length. */
  ghost predicate GoesOn(flags: Flags, at: nat, len: nat, rounds: nat) {
    && (forall k: nat :: k < rounds ==> Acked(flags, at, k))
    && (rounds == 0 || rounds % WRAP < len)
  }

  /** The loop comes to its pass number passes, counted from 0. */
  ghost predicate Reached(flags: Flags, at: nat, len: nat, passes: nat) {
    forall k: nat :: k < passes ==> GoesOn(flags, at, len, k)
  }

  /** One pass further, with i the counter as the loop keeps it. */
  lemma NextPass(flags: Flags, at: nat, str: seq<Byte>, len: nat, passes: nat, i: nat)
    requires Attempts(len) <= |str| && i == passes % WRAP
    requires Reached(flags, at, len, passes) && GoesOn(flags, at, len, passes)
    requires passes <= |str| || WRAP <= |str|
    ensures i < |str| && (passes < |str| || WRAP <= |str|) && (i + 1) % WRAP == (passes + 1) % WRAP
    ensures Streamed(str, passes + 1) == Streamed(str, passes) + [str[i]]
    ensures var p := StartOf(flags, at, passes);
            && StartOf(flags, at, passes + 1) == p + Polls(flags, p, p + 0x1CE2)
            && Acked(flags, at, passes) == SeenBefore(flags, p, p + 0x1CE2)
    ensures Reached(flags, at, len, passes + 1)
    ensures GoesOn(flags, at, len, passes + 1) <==> Acked(flags, at, passes) && (passes + 1) % WRAP < len
  {
    hide SeenBefore;
  }

  /** What a buffer send returns, if it ends within the passes watched. */
  datatype Returned = Result(value: int) | StillSending

  /** HyUartSendBuf, for any length, watched for a number of passes: it ends at the first pass after
      which the loop does not go on, returns the bytes acknowledged, in 16 bits, and has written one
      byte a pass. */
  method SendBuf(handle: Port?, str: seq<Byte>, len: nat, watch: nat) returns (r: Returned, passes: nat)
    requires Attempts(len) <= |str|
    modifies handle
    ensures handle == null ==> r == Result(-1) && passes == 0
    ensures passes <= watch && (passes <= |str| || 0x1_0000 <= |str|)
    ensures handle != null ==>
      && Reached(handle.flags, old(handle.polls), len, passes)
      && (r == StillSending <==> GoesOn(handle.flags, old(handle.polls), len, passes))
      && (r == StillSending ==> passes == watch)
      && (r.Result? ==> passes > 0)
      && (r.Result? ==>
            r.value == (if Acked(handle.flags, old(handle.polls), passes - 1) then passes else passes - 1) % 0x1_0000)
      && handle.written == old(handle.written) + Streamed(str, passes)
      && handle.polls == StartOf(handle.flags, old(handle.polls), passes)
  {
    passes := 0;
    if handle == null {
      return Result(-1), 0;
    }
    ghost var flags, at, before := handle.flags, handle.polls, handle.written;
    assert Reached(flags, at, len, 0) && GoesOn(flags, at, len, 0);
    assert StartOf(flags, at, 0) == at && Streamed(str, 0) == [];
    hide GoesOn, Reached, Acked, SeenBefore, Polls, StartOf, Streamed;
    var i: nat := 0;
    while passes < watch
      invariant passes <= watch && i == passes % WRAP && (passes <= |str| || WRAP <= |str|)
      invariant Reached(flags, at, len, passes) && GoesOn(flags, at, len, passes)
      invariant handle.polls == StartOf(flags, at, passes)
      invariant handle.written == before + Streamed(str, passes)
    {
      NextPass(flags, at, str, len, passes, i);
      var acked := handle.SendAndWait(str[i]);
      passes := passes + 1;
      if !acked {
        return Result(i), passes;
      }
      i := (i + 1) % WRAP;
      if i >= len {
        return Result(i), passes;
      }
    }
    r := StillSending;
  }

  /** For the lengths its counter can reach, a buffer send ends within max(len, 1) passes, having
      acknowledged the longest prefix it can: that prefix was written, and one byte more if it is
      not all of the buffer. */
  lemma SendBufPrefix(flags: Flags, at: nat, str: seq<Byte>, len: nat, passes: nat)
    requires len <= 0xFFFF && Attempts(len) <= |str|
    requires Reached(flags, at, len, passes)
    ensures passes <= Attempts(len) && !GoesOn(flags, at, len, Attempts(len))
    ensures Streamed(str, passes) == str[..passes]
    ensures StartOf(flags, at, passes) <= at + passes * 0x1CE2
    ensures passes > 0 && !GoesOn(flags, at, len, passes) ==>
      var n := if Acked(flags, at, passes - 1) then passes else passes - 1;
      && n % 0x1_0000 == n <= Attempts(len) && (forall k: nat :: k < n ==> Acked(flags, at, k))
      && (n < Attempts(len) ==> !Acked(flags, at, n))
      && passes == if n < Attempts(len) then n + 1 else n
  {
    hide Acked, StartOf, Streamed;
    assert !GoesOn(flags, at, len, Attempts(len));
    StreamedPrefix(str, passes);
    TransferBound(flags, at, passes);
    if passes > 0 {
      assert GoesOn(flags, at, len, passes - 1);
    }
  }

  /** A buffer send ends exactly when its length fits the counter or some byte is never
      acknowledged. */
  lemma SendBufEnds(flags: Flags, at: nat, len: nat)
    ensures (exists rounds: nat :: !GoesOn(flags, at, len, rounds))
            <==> len <= 0xFFFF || exists k: nat :: !Acked(flags, at, k)
  {
    hide Acked;
    if len <= 0xFFFF {
      assert !GoesOn(flags, at, len, Attempts(len));
    } else if k: nat :| !Acked(flags, at, k) {
      assert !GoesOn(flags, at, len, k + 1);
    }
  }

  /** A length the counter cannot reach, on a port that always acknowledges: the loop never ends. */
  lemma EndlessSend(flags: Flags, at: nat, rounds: nat)
    requires forall p: nat :: flags(p)
    ensures GoesOn(flags, at, 0x1_0000, rounds)
  {
    hide StartOf;
    forall k: nat
      ensures Acked(flags, at, k)
    {
      assert flags(StartOf(flags, at, k));
    }
  }

  // ---- Newline expansion ----

  function Expanded(b: Byte): seq<Byte> { if b == NL then [NL, CR] else [b] }

  function Expand(s: seq<Byte>): seq<Byte> {
    if s == [] then [] else Expand(s[..|s| - 1]) + Expanded(s[|s| - 1])
  }

  lemma ExpandNext(s: seq<Byte>, i: nat)
    requires i < |s|
    ensures Expand(s[..i + 1]) == Expand(s[..i]) + Expanded(s[i])
  {
    assert s[..i + 1][..i] == s[..i];
  }

  /** Every newline goes out as the bytes 10 and 13, every other byte as itself, each displaced by one
      byte for every newline before it. */
  lemma {:induction false} ExpandAt(s: seq<Byte>, i: nat)
    requires i < |s|
    ensures |Expand(s)| == |s| + multiset(s)[10]
    ensures var o := i + multiset(s[..i])[10];
            if s[i] == 10 then o + 1 < |Expand(s)| && Expand(s)[o] == 10 && Expand(s)[o + 1] == 13
            else o < |Expand(s)| && Expand(s)[o] == s[i]
    decreases |s|
  {
    var last := |s| - 1;
    var init := s[..last];
    assert s == init + [s[last]];
    if last == 0 {
      assert Expand(init) == [] && Expand(s) == Expanded(s[last]);
    } else if i < last {
      ExpandAt(init, i);
      assert init[..i] == s[..i] && init[i] == s[i];
    } else {
      ExpandAt(init, 0);
    }
  }

  /** A reader that drops the byte after every newline. */
  function Collapse(s: seq<Byte>): seq<Byte>
    decreases |s|
  {
    if s == [] then []
    else if s[0] == NL then [NL] + Collapse(if |s| > 1 then s[2..] else [])
    else [s[0]] + Collapse(s[1..])
  }

  lemma CollapseOne(b: Byte, t: seq<Byte>)
    ensures Collapse(Expanded(b) + t) == [b] + Collapse(t)
  {
    var s := Expanded(b) + t;
    if b == NL {
      assert s[2..] == t;
    } else {
      assert s[1..] == t;
    }
  }

  lemma {:induction false} CollapseExpandThen(s: seq<Byte>, t: seq<Byte>)
    ensures Collapse(Expand(s) + t) == s + Collapse(t)
    decreases |s|
  {
    if s == [] {
      assert [] + t == t;
    } else {
      var last := |s| - 1;
      assert Expand(s) + t == Expand(s[..last]) + (Expanded(s[last]) + t);
      CollapseExpandThen(s[..last], Expanded(s[last]) + t);
      CollapseOne(s[last], t);
      assert s[..last] + ([s[last]] + Collapse(t)) == s + Collapse(t);
    }
  }

  /** Expansion loses nothing, whatever the text already contains. */
  lemma CollapseExpand(s: seq<Byte>)
    ensures Collapse(Expand(s)) == s
  {
    CollapseExpandThen(s, []);
    assert Expand(s) + [] == Expand(s) && s + Collapse([]) == s;
  }

  ghost predicate NoNul(str: seq<Byte>, n: int) {
    0 <= n <= |str| && NUL !in str[..n]
  }

  /** Length of the text _write prints: up to the first NUL, and at most len. */
  ghost predicate TextLength(str: seq<Byte>, len: int, n: int) {
    NoNul(str, n) && (n == 0 || n <= len) && (n >= len || (n < |str| && str[n] == NUL))
  }

  /** It is the first position at which a 0 stands or len is reached; there is no other. */
  lemma TextLengthMeans(str: seq<Byte>, len: int, n: int)
    ensures TextLength(str, len, n) <==>
            0 <= n <= |str| && (n >= len || (n < |str| && str[n] == 0))
            && forall k :: 0 <= k < n ==> k < len && str[k] != 0
  {
    if 0 <= n <= |str| && NUL !in str[..n] {
      forall k | 0 <= k < n ensures str[k] != 0 {
        assert str[k] == str[..n][k];
      }
    }
    if 0 < n <= |str| {
      assert str[n - 1] == str[..n][n - 1];
    }
  }

  /** What the code may read: as far as the first NUL or, failing that, the byte after len. */
  ghost predicate Readable(str: seq<Byte>, len: int) {
    |str| > (if len > 0 then len else 0) || NUL in str
  }

  lemma NextChar(str: seq<Byte>, len: int, i: nat)
    requires Readable(str, len) && NoNul(str, i) && i < len && i < |str| && str[i] != NUL
    ensures NoNul(str, i + 1) && i + 1 < |str|
  {
    assert str[..i + 1] == str[..i] + [str[i]];
    assert str == str[..i + 1] + str[i + 1..];
  }

  /** One pass of _write's loop; whether the bytes were acknowledged is not looked at. */
  method SendExpanded(debug: Port?, b: Byte)
    modifies debug
    ensures debug != null ==> debug.written == old(debug.written) + Expanded(b)
  {
    var sent := SendByte(debug, b);
    if b == NL {
      sent := SendByte(debug, CR);
    }
  }

  /** _write: the printable prefix goes out with every newline expanded, acknowledged or not; with
      no debug port nothing goes out and the same length is returned. */
  method Write(debug: Port?, fd: int, str: seq<Byte>, len: int) returns (r: int)
    requires fd <= 2 ==> Readable(str, len)
    modifies debug
    ensures fd > 2 ==> r == -1 && (debug != null ==> debug.written == old(debug.written))
    ensures fd <= 2 ==> TextLength(str, len, r)
    ensures fd <= 2 && debug != null ==> debug.written == old(debug.written) + Expand(str[..r])
  {
    if fd > 2 {
      return -1;
    }
    assert Expand([]) == [] && NoNul(str, 0) && |str| > 0;
    hide Expand, Expanded, Readable, NoNul;
    ghost var before := if debug == null then [] else debug.written;
    ghost var sent: seq<Byte> := [];
    var i: nat := 0;
    while str[i] != NUL && i < len
      invariant i < |str| && NoNul(str, i) && (i == 0 || i <= len)
      invariant sent == Expand(str[..i]) && (debug != null ==> debug.written == before + sent)
      decreases len - i
    {
      SendExpanded(debug, str[i]);
      ExpandNext(str, i);
      NextChar(str, len, i);
      assert (before + sent) + Expanded(str[i]) == before + (sent + Expanded(str[i]));
      sent := sent + Expanded(str[i]);
      i := i + 1;
    }
    r := i;
  }
}
