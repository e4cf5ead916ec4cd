/** Chains of packet buffers: each pbuf is its payload array, a chain the sequence of them. */
module Pbufs {
  import opened Basics
  import opened EthDescriptors

  const PBUF_POOL_BUFSIZE: nat := 1500

  type Chain = seq<array<byte>>

  /** lwIP's err_t. */
  datatype Err = ERR_OK | ERR_MEM | ERR_OTHER(code: int)

  ghost predicate Distinct(chain: Chain) {
    forall i, j :: 0 <= i < j < |chain| ==> chain[i] != chain[j]
  }

  function Payloads(chain: Chain): (ps: seq<seq<byte>>)
    reads chain
    ensures |ps| == |chain| && forall i :: 0 <= i < |chain| ==> ps[i] == chain[i][..]
  {
    seq(|chain|, i requires 0 <= i < |chain| reads chain => chain[i][..])
  }

  /** Payloads one after the other. */
  function Concat(ps: seq<seq<byte>>): seq<byte> {
    if ps == [] then [] else Concat(ps[..|ps| - 1]) + ps[|ps| - 1]
  }

  lemma ConcatSnoc(ps: seq<seq<byte>>, q: seq<byte>)
    ensures Concat(ps + [q]) == Concat(ps) + q
  {
    assert (ps + [q])[..|ps|] == ps;
  }

  /** Where payload i lies in the whole. */
  lemma {:induction false} ConcatSplit(ps: seq<seq<byte>>, i: nat)
    requires i < |ps|
    ensures var l := |Concat(ps[..i])|;
            && l + |ps[i]| <= |Concat(ps)|
            && Concat(ps)[..l] == Concat(ps[..i])
            && Concat(ps)[l..l + |ps[i]|] == ps[i]
            && Concat(ps)[..l + |ps[i]|] == Concat(ps[..i + 1])
    decreases |ps|
  {
    var last := |ps| - 1;
    assert ps[..i + 1][..i] == ps[..i];
    if i == last {
      assert ps[..i + 1] == ps;
    } else {
      ConcatSplit(ps[..last], i);
      assert ps[..last][..i] == ps[..i] && ps[..last][..i + 1] == ps[..i + 1];
    }
  }

  /** Length of the first i payloads, where payload i starts in the whole. */
  function Offset(ps: seq<seq<byte>>, i: nat): nat
    requires i <= |ps|
  {
    if i == 0 then 0 else Offset(ps, i - 1) + |ps[i - 1]|
  }

  predicate HoldsPiece(frame: seq<byte>, ps: seq<seq<byte>>, i: nat)
    requires i < |ps|
  {
    var o := Offset(ps, i);
    o + |ps[i]| <= |frame| && ps[i] == frame[o..o + |ps[i]|]
  }

  /** What the scatter loop puts in a chain whose lengths sum to the frame's. */
  ghost predicate Scattered(frame: seq<byte>, ps: seq<seq<byte>>) {
    Offset(ps, |ps|) == |frame| && forall i :: 0 <= i < |ps| ==> HoldsPiece(frame, ps, i)
  }

  lemma {:induction false} GatheredPrefix(frame: seq<byte>, ps: seq<seq<byte>>, i: nat)
    requires Scattered(frame, ps) && i <= |ps|
    ensures Offset(ps, i) <= |frame| && Concat(ps[..i]) == frame[..Offset(ps, i)]
  {
    if i > 0 {
      hide Concat;
      GatheredPrefix(frame, ps, i - 1);
      assert HoldsPiece(frame, ps, i - 1);
      ConcatSnoc(ps[..i - 1], ps[i - 1]);
      assert ps[..i] == ps[..i - 1] + [ps[i - 1]];
    }
  }

  lemma {:induction false} GatheredLength(ps: seq<seq<byte>>, i: nat)
    requires i <= |ps|
    ensures |Concat(ps[..i])| == Offset(ps, i)
  {
    if i > 0 {
      GatheredLength(ps, i - 1);
      assert ps[..i] == ps[..i - 1] + [ps[i - 1]];
      ConcatSnoc(ps[..i - 1], ps[i - 1]);
    }
  }

  /** Gather undoes scatter however the frame is split, and a chain that gathers to the frame is
      one that scatter fills. */
  lemma GatherScatter(frame: seq<byte>, ps: seq<seq<byte>>)
    ensures Scattered(frame, ps) <==> Concat(ps) == frame
  {
    assert ps[..|ps|] == ps;
    if Scattered(frame, ps) {
      GatheredPrefix(frame, ps, |ps|);
    }
    if Concat(ps) == frame {
      GatheredLength(ps, |ps|);
      forall i | 0 <= i < |ps|
        ensures HoldsPiece(frame, ps, i)
      {
        GatheredLength(ps, i);
        ConcatSplit(ps, i);
      }
    }
  }

  function TotalLength(chain: Chain, count: nat): (l: nat)
    requires count <= |chain|
  {
    if count == 0 then 0 else TotalLength(chain, count - 1) + chain[count - 1].Length
  }

  lemma {:induction false} TotalLengthGrows(chain: Chain, i: nat, j: nat)
    requires i <= j <= |chain|
    ensures TotalLength(chain, i) <= TotalLength(chain, j)
    decreases j
  {
    if i < j { TotalLengthGrows(chain, i, j - 1); }
  }

  lemma {:induction false} TotalLengthPrefix(chain: Chain, q: array<byte>, count: nat)
    requires count <= |chain|
    ensures TotalLength(chain + [q], count) == TotalLength(chain, count)
  {
    if count > 0 { TotalLengthPrefix(chain, q, count - 1); }
  }

  /** How many pool buffers pbuf_alloc takes for a length: at least one. */
  function PoolPbufs(len: nat): (count: nat) {
    if len <= PBUF_POOL_BUFSIZE then 1 else 1 + PoolPbufs(len - PBUF_POOL_BUFSIZE)
  }

  /** One buffer for every 1500 bytes begun, and one for an empty frame. */
  lemma {:induction false} PoolCount(len: nat)
    ensures PoolPbufs(len) == if len == 0 then 1 else (len + 1499) / 1500
  {
    if len > 1500 { PoolCount(len - 1500); }
  }

  /** pbuf_alloc from the buffer pool: a chain of full buffers and a last, shorter one; NULL when
      the pool has too few left. */
  method PbufAlloc(len: nat, pool: nat) returns (p: Option<Chain>)
    ensures p.None? <==> pool < PoolPbufs(len)
    ensures p.Some? ==> fresh(p.value) && Distinct(p.value) && TotalLength(p.value, |p.value|) == len
    ensures p.Some? ==> |p.value| == PoolPbufs(len)
    ensures p.Some? ==> forall i :: 0 <= i < |p.value| ==>
              p.value[i].Length == if len - 1500 * i < 1500 then len - 1500 * i else 1500
  {
    var chain: Chain := [];
    var rem: nat, left: nat := len, pool;
    var more := true;
    while more
      invariant fresh(chain) && Distinct(chain)
      invariant TotalLength(chain, |chain|) + rem == len
      invariant left + |chain| == pool
      invariant more ==> rem == len - 1500 * |chain|
      invariant forall i :: 0 <= i < |chain| ==>
                  chain[i].Length == if len - 1500 * i < 1500 then len - 1500 * i else 1500
      invariant more ==> PoolPbufs(len) == |chain| + PoolPbufs(rem)
      invariant !more ==> rem == 0 && PoolPbufs(len) == |chain|
      decreases if more then rem + 1 else 0
    {
      if left == 0 {
        return None;
      }
      left := left - 1;
      var qlen := if rem < PBUF_POOL_BUFSIZE then rem else PBUF_POOL_BUFSIZE;
      var q := new byte[qlen];
      TotalLengthPrefix(chain, q, |chain|);
      chain := chain + [q];
      rem := rem - qlen;
      more := rem > 0;
    }
    p := Some(chain);
  }
}
