/** DMA descriptor words and the chain initialisation shared by both rings. */
module EthDescriptors {
  import opened RingSlots

  type byte = bv8

  const ETH_MAX_PACKET_SIZE: nat := 1520

  // Receive descriptor, status word.
  const RX_OWN: bv32 := 0x8000_0000
  const RX_FL: bv32 := 0x3FFF_0000
  const RX_ES: bv32 := 0x0000_8000
  const RX_FS: bv32 := 0x0000_0200
  const RX_LS: bv32 := 0x0000_0100

  // Transmit descriptor, status word and control word.
  const TX_OWN: bv32 := 0x8000_0000
  const TX_LS: bv32 := 0x2000_0000
  const TX_FS: bv32 := 0x1000_0000
  const TX_TCH: bv32 := 0x0010_0000
  const TX_TBS1: nat := 0x1FFF

  /** Both kinds of descriptor carry the ownership bit in the same place. */
  predicate Owned(w: bv32) {
    w & RX_OWN != 0
  }

  /** A frame without error summary that fits one descriptor. */
  predicate WholeFrame(w: bv32) {
    w & RX_ES == 0 && w & RX_LS != 0 && w & RX_FS != 0
  }

  function FrameLengthField(w: bv32): nat {
    ((w & RX_FL) >> 16) as nat
  }

  /** The u16 length low_level_input works with: the field less the 4 bytes of CRC in u32
      arithmetic, then truncated; 0 for an errored or partial entry. */
  function PayloadLength(w: bv32): (len: nat)
    ensures len < 0x1_0000
  {
    if WholeFrame(w) then (FrameLengthField(w) - 4) % 0x1_0000_0000 % 0x1_0000 else 0
  }

  /** What the MAC promises about a status word it writes back: ownership is returned, and a
      whole frame, CRC included, fits the buffer. */
  predicate HardwareStatus(w: bv32) {
    !Owned(w) && (WholeFrame(w) ==> 4 <= FrameLengthField(w) <= ETH_MAX_PACKET_SIZE)
  }

  lemma OwnedIsTopBit(w: bv32)
    ensures Owned(w) <==> w >= 0x8000_0000
  {
  }

  /** A status word with x in its length field, bits 29 to 16. Its frame is whole if bit 15 (error
      summary) is clear and bits 9 and 8 (first and last descriptor) are set. The payload is then x
      less the 4 bytes of CRC, in u16 arithmetic, and otherwise empty. */
  lemma PayloadOfStatus(w: bv32, x: bv32)
    requires x <= 0x3FFF && w & 0x3FFF_0000 == x << 16
    ensures PayloadLength(w) == if w & 0x8300 == 0x0300 then (x as nat + 0xFFFC) % 0x1_0000 else 0
    ensures HardwareStatus(w) <==> w < 0x8000_0000 && (w & 0x8300 == 0x0300 ==> 4 <= x as nat <= 1520)
  {
    OwnedIsTopBit(w);
    WholeFrameBits(w);
    LengthFieldBits(w, x);
    StatusMeans(w, x as nat, w & 0x8300 == 0x0300, w < 0x8000_0000);
  }

  lemma StatusMeans(w: bv32, n: nat, whole: bool, returned: bool)
    requires FrameLengthField(w) == n < 0x4000 && WholeFrame(w) == whole && !Owned(w) == returned
    ensures PayloadLength(w) == if whole then (n + 0xFFFC) % 0x1_0000 else 0
    ensures HardwareStatus(w) <==> returned && (whole ==> 4 <= n <= 1520)
  {
    hide WholeFrame, FrameLengthField, Owned;
    LessCrc(n);
  }

  lemma LessCrc(n: nat)
    requires n < 0x4000
    ensures (n - 4) % 0x1_0000_0000 % 0x1_0000 == (n + 0xFFFC) % 0x1_0000
  {
  }

  lemma WholeFrameBits(w: bv32)
    ensures WholeFrame(w) <==> w & 0x8300 == 0x0300
  {
  }

  lemma LengthFieldBits(w: bv32, x: bv32)
    requires x <= 0x3FFF && w & 0x3FFF_0000 == x << 16
    ensures FrameLengthField(w) == x as nat < 0x4000
  {
  }

  function Succ(i: nat, n: nat): (j: nat)
    requires i < n
    ensures j < n
  {
    if i + 1 < n then i + 1 else 0
  }

  /** The next-descriptor addresses as both chain-init functions write them. */
  method ChainInit(count: nat) returns (next: seq<nat>)
    requires count > 0
    ensures Chained(next, count)
  {
    next := seq(count, _ => 0);
    for i := 0 to count
      invariant |next| == count
      invariant forall k :: 0 <= k < i ==> next[k] == Succ(k, count)
    {
      if i < count - 1 {
        next := next[i := i + 1];
      } else {
        next := next[i := 0];
      }
    }
  }

  ghost predicate Chained(next: seq<nat>, n: nat) {
    |next| == n && n > 0 && forall i :: 0 <= i < n ==> next[i] == Succ(i, n)
  }

  function Follow(next: seq<nat>, steps: nat): (i: nat)
    requires Chained(next, |next|)
    ensures i < |next|
  {
    if steps == 0 then 0 else next[Follow(next, steps - 1)]
  }

  /** The chain is one cycle through every descriptor: following it k times from the first
      descriptor reaches number k modulo the ring length, so each is met once per lap. */
  lemma {:induction false} ChainIsOneCycle(next: seq<nat>, k: nat)
    requires Chained(next, |next|)
    ensures Follow(next, k) == k % |next|
    decreases k
  {
    SlotIsMod(k, |next|);
    if k > 0 {
      ChainIsOneCycle(next, k - 1);
      SlotIsMod(k - 1, |next|);
      SlotNext(k - 1, |next|);
    }
  }
}
