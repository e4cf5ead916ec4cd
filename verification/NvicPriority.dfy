/** Interrupt priorities stored as bytes (core_armv8mml.h) and packed four to a word
    (core_armv8mbl.h, core_cm0plus.h): two representations of one map. */
module NvicPriority {
  import opened Basics
  import opened NvicCodec

  /** A part with this many IPR words: 124 for Armv8-M, 8 for Cortex-M0+. */
  predicate ValidIrq(irqn: int, words: nat) {
    -8 <= irqn < 4 * words
  }

  /** The byte-wide array has room for the last twelve exceptions. */
  predicate ByteIrq(irqn: int, words: nat) {
    -12 <= irqn < 4 * words
  }

  // The index macros, on the IRQ number cast to uint32_t.

  function U32(irqn: int): int { irqn % TWO32 }

  function BitShift(irqn: int): bv32 {
    match U32(irqn) % 4
    case 0 => 0
    case 1 => 8
    case 2 => 16
    case _ => 24
  }

  function ShpIdx(irqn: int): int { (U32(irqn) % 16 - 8) % TWO32 / 4 }

  function IpIdx(irqn: int): int { U32(irqn) / 4 }

  /** Byte index of a system handler in the byte-wide array. */
  function ShpByteIdx(irqn: int): int { (U32(irqn) % 16 - 4) % TWO32 }

  lemma IndicesInRange(irqn: int, words: nat)
    requires ValidIrq(irqn, words) && 4 * words < TWO32
    ensures irqn >= 0 ==> 0 <= IpIdx(irqn) < words && U32(irqn) == irqn
    ensures irqn < 0 ==> 0 <= ShpIdx(irqn) < 2
  {
  }

  lemma ByteIndicesInRange(irqn: int, words: nat)
    requires ByteIrq(irqn, words) && 4 * words < TWO32
    ensures irqn >= 0 ==> U32(irqn) == irqn
    ensures irqn < 0 ==> 0 <= ShpByteIdx(irqn) == irqn + 12 < 12
  {
  }

  /** Among the exceptions, exactly the last eight have a field in the two packed handler words, and
      exactly the last twelve a byte in the byte-wide array. */
  lemma PackedHandlersOnly(irqn: int)
    requires -16 <= irqn < 0
    ensures ShpIdx(irqn) < 2 <==> irqn >= -8
    ensures ShpByteIdx(irqn) < 12 <==> irqn >= -12
  {
  }

  predicate IsByte(v: bv32) { v <= 0xFF }

  predicate LaneShift(shift: bv32) { shift == 0 || shift == 8 || shift == 16 || shift == 24 }

  /** One byte of a word. */
  function Lane(w: bv32, shift: bv32): bv32
    requires LaneShift(shift)
  {
    (w >> shift) & 0xFF
  }

  /** The read-modify-write of one byte of a word. */
  function WithLane(w: bv32, shift: bv32, v: bv32): bv32
    requires LaneShift(shift)
  {
    (w & !(0xFF << shift)) | (v << shift)
  }

  lemma WordLanes(w: bv32, s: bv32, v: bv32, t: bv32, x: bv32, before: bv32, after: bv32)
    requires LaneShift(s) && LaneShift(t) && IsByte(v)
    requires x == (w & !(0xFF << s)) | (v << s)
    requires before == (w >> t) & 0xFF && after == (x >> t) & 0xFF
    ensures after == if t == s then v else before
  {
  }

  lemma LaneBits(w: bv32, t: bv32, lane: bv32)
    requires LaneShift(t) && lane == Lane(w, t)
    ensures lane == (w >> t) & 0xFF
  {
  }

  /** A read-modify-write changes its own byte of the word only. */
  lemma LaneOfWithLane(w: bv32, s: bv32, v: bv32, t: bv32)
    requires LaneShift(s) && LaneShift(t) && IsByte(v)
    ensures Lane(WithLane(w, s, v), t) == if t == s then v else Lane(w, t)
  {
    hide LaneShift, IsByte;
    var x := WithLane(w, s, v);
    var before, after := Lane(w, t), Lane(x, t);
    LaneBits(x, t, after);
    WordLanes(w, s, v, t, x, before, after);
  }

  /** What a priority puts into its 8-bit field, and what is read back from a field. */
  function Field(priority: bv32, bits: bv32): (f: bv32)
    requires PrioBits(bits)
    ensures IsByte(f)
  {
    (priority << (8 - bits)) & 0xFF
  }

  function Level(field: bv32, bits: bv32): bv32
    requires PrioBits(bits)
  {
    field >> (8 - bits)
  }

  /** A field holds the implemented bits of a priority and nothing else. */
  lemma LevelOfField(priority: bv32, bits: bv32)
    requires PrioBits(bits)
    ensures Level(Field(priority, bits), bits) == Cut(priority, bits)
  {
  }

  // ---- The two register files, and the map they stand for ----

  datatype Packed = Packed(ipr: seq<bv32>, shpr: seq<bv32>)

  datatype Bytes = Bytes(ipr: seq<bv8>, shpr: seq<bv8>)

  predicate PackedShape(p: Packed, words: nat) {
    |p.ipr| == words && |p.shpr| == 2 && 4 * words < TWO32
  }

  predicate BytesShape(b: Bytes, words: nat) {
    |b.ipr| == 4 * words && |b.shpr| == 12 && 4 * words < TWO32
  }

  lemma ShiftIsLane(irqn: int)
    ensures LaneShift(BitShift(irqn))
  {
  }

  /** The 8-bit field of an interrupt in either file. */
  function PackedField(p: Packed, irqn: int): bv32
    requires PackedShape(p, |p.ipr|) && ValidIrq(irqn, |p.ipr|)
  {
    IndicesInRange(irqn, |p.ipr|);
    ShiftIsLane(irqn);
    Lane(if irqn >= 0 then p.ipr[IpIdx(irqn)] else p.shpr[ShpIdx(irqn)], BitShift(irqn))
  }

  function ByteField(b: Bytes, irqn: int): bv32
    requires BytesShape(b, |b.ipr| / 4) && ByteIrq(irqn, |b.ipr| / 4)
  {
    ByteIndicesInRange(irqn, |b.ipr| / 4);
    (if irqn >= 0 then b.ipr[U32(irqn)] else b.shpr[ShpByteIdx(irqn)]) as bv32
  }

  /** __NVIC_SetPriority on packed words. */
  function SetPacked(p: Packed, bits: bv32, irqn: int, priority: bv32): (q: Packed)
    requires PackedShape(p, |p.ipr|) && ValidIrq(irqn, |p.ipr|) && PrioBits(bits)
    ensures PackedShape(q, |p.ipr|)
  {
    IndicesInRange(irqn, |p.ipr|);
    ShiftIsLane(irqn);
    if irqn >= 0 then
      p.(ipr := p.ipr[IpIdx(irqn) := WithLane(p.ipr[IpIdx(irqn)], BitShift(irqn), Field(priority, bits))])
    else
      p.(shpr := p.shpr[ShpIdx(irqn) := WithLane(p.shpr[ShpIdx(irqn)], BitShift(irqn), Field(priority, bits))])
  }

  /** __NVIC_SetPriority on bytes. */
  function SetBytes(b: Bytes, bits: bv32, irqn: int, priority: bv32): (c: Bytes)
    requires BytesShape(b, |b.ipr| / 4) && ByteIrq(irqn, |b.ipr| / 4) && PrioBits(bits)
    ensures BytesShape(c, |b.ipr| / 4)
  {
    ByteIndicesInRange(irqn, |b.ipr| / 4);
    if irqn >= 0 then b.(ipr := b.ipr[U32(irqn) := Field(priority, bits) as bv8])
    else b.(shpr := b.shpr[ShpByteIdx(irqn) := Field(priority, bits) as bv8])
  }

  lemma ShiftTellsLane(m: int, n: int)
    requires -16 <= m < TWO32 && -16 <= n < TWO32
    ensures BitShift(m) == BitShift(n) <==> m % 4 == n % 4
  {
    assert U32(m) % 4 == m % 4;
    assert U32(n) % 4 == n % 4;
  }

  lemma HandlerSlot(irqn: int)
    requires -8 <= irqn < 0
    ensures ShpIdx(irqn) == irqn / 4 + 2
  {
  }

  /** Two interrupts of the same kind never share both word and lane. */
  lemma SlotsDiffer(m: int, n: int, words: nat)
    requires ValidIrq(m, words) && ValidIrq(n, words) && 4 * words < TWO32 && m != n
    ensures m >= 0 && n >= 0 && IpIdx(m) == IpIdx(n) ==> BitShift(m) != BitShift(n)
    ensures m < 0 && n < 0 && ShpIdx(m) == ShpIdx(n) ==> BitShift(m) != BitShift(n)
  {
    hide BitShift;
    ShiftTellsLane(m, n);
    assert m % 4 == n % 4 && m / 4 == n / 4 ==> m == n;
    if m >= 0 && n >= 0 {
      assert IpIdx(m) == m / 4 && IpIdx(n) == n / 4;
    } else if m < 0 && n < 0 {
      HandlerSlot(m);
      HandlerSlot(n);
    }
  }

  /** A packed set changes the field of its own interrupt and of no other. */
  lemma PackedSetFrame(p: Packed, bits: bv32, irqn: int, priority: bv32, other: int)
    requires PackedShape(p, |p.ipr|) && PrioBits(bits)
    requires ValidIrq(irqn, |p.ipr|) && ValidIrq(other, |p.ipr|)
    ensures PackedField(SetPacked(p, bits, irqn, priority), other)
            == if other == irqn then Field(priority, bits) else PackedField(p, other)
  {
    hide Lane, WithLane, Field, LaneShift, IsByte, BitShift, IpIdx, ShpIdx;
    IndicesInRange(irqn, |p.ipr|);
    IndicesInRange(other, |p.ipr|);
    ShiftIsLane(irqn);
    ShiftIsLane(other);
    var w := if irqn >= 0 then p.ipr[IpIdx(irqn)] else p.shpr[ShpIdx(irqn)];
    LaneOfWithLane(w, BitShift(irqn), Field(priority, bits), BitShift(other));
    if irqn != other { SlotsDiffer(irqn, other, |p.ipr|); }
  }

  lemma ByteSetFrame(b: Bytes, bits: bv32, irqn: int, priority: bv32, other: int)
    requires BytesShape(b, |b.ipr| / 4) && PrioBits(bits)
    requires ByteIrq(irqn, |b.ipr| / 4) && ByteIrq(other, |b.ipr| / 4)
    ensures ByteField(SetBytes(b, bits, irqn, priority), other)
            == if other == irqn then Field(priority, bits) else ByteField(b, other)
  {
    hide Field, U32, ShpByteIdx;
    ByteIndicesInRange(irqn, |b.ipr| / 4);
    ByteIndicesInRange(other, |b.ipr| / 4);
    assert Field(priority, bits) as bv8 as bv32 == Field(priority, bits);
  }

  /** __NVIC_GetPriority of either file. */
  function GetPacked(p: Packed, bits: bv32, irqn: int): bv32
    requires PackedShape(p, |p.ipr|) && ValidIrq(irqn, |p.ipr|) && PrioBits(bits)
  {
    Level(PackedField(p, irqn), bits)
  }

  function GetBytes(b: Bytes, bits: bv32, irqn: int): bv32
    requires BytesShape(b, |b.ipr| / 4) && ByteIrq(irqn, |b.ipr| / 4) && PrioBits(bits)
  {
    Level(ByteField(b, irqn), bits)
  }

  /** The priority map: a set is seen by the next get of the same interrupt, cut to the implemented
      bits, and by no other get. */
  lemma GetAfterSet(p: Packed, bits: bv32, irqn: int, priority: bv32, other: int)
    requires PackedShape(p, |p.ipr|) && PrioBits(bits)
    requires ValidIrq(irqn, |p.ipr|) && ValidIrq(other, |p.ipr|)
    ensures GetPacked(SetPacked(p, bits, irqn, priority), bits, other)
            == if other == irqn then Cut(priority, bits) else GetPacked(p, bits, other)
  {
    hide PackedField, SetPacked, Field, Level, Cut;
    PackedSetFrame(p, bits, irqn, priority, other);
    LevelOfField(priority, bits);
  }

  lemma ByteGetAfterSet(b: Bytes, bits: bv32, irqn: int, priority: bv32, other: int)
    requires BytesShape(b, |b.ipr| / 4) && PrioBits(bits)
    requires ByteIrq(irqn, |b.ipr| / 4) && ByteIrq(other, |b.ipr| / 4)
    ensures GetBytes(SetBytes(b, bits, irqn, priority), bits, other)
            == if other == irqn then Cut(priority, bits) else GetBytes(b, bits, other)
  {
    hide ByteField, SetBytes, Field, Level, Cut;
    ByteSetFrame(b, bits, irqn, priority, other);
    LevelOfField(priority, bits);
  }

  /** An encoded pair survives the byte registers: what is set, read back and decoded is the pair. */
  lemma PairThroughBytes(b: Bytes, bits: bv32, irqn: int, group: bv32, preempt: bv32, sub: bv32)
    requires BytesShape(b, |b.ipr| / 4) && PrioBits(bits) && ByteIrq(irqn, |b.ipr| / 4)
    ensures var code := GetBytes(SetBytes(b, bits, irqn, EncodePriority(group, bits, preempt, sub)), bits, irqn);
            && DecodePreempt(group, bits, code) == Cut(preempt, PreemptBits(group, bits))
            && DecodeSub(group, bits, code) == Cut(sub, SubBits(group, bits))
  {
    hide GetBytes, SetBytes, EncodePriority, DecodePreempt, DecodeSub, Cut, Fits, PreemptBits, SubBits;
    var code := EncodePriority(group, bits, preempt, sub);
    ByteGetAfterSet(b, bits, irqn, code, irqn);
    DecodeAfterEncode(group, bits, preempt, sub);
    MaskIdentity(bits, code);
  }

  /** And the packed ones. */
  lemma PairThroughRegisters(p: Packed, bits: bv32, irqn: int, group: bv32, preempt: bv32, sub: bv32)
    requires PackedShape(p, |p.ipr|) && PrioBits(bits) && ValidIrq(irqn, |p.ipr|)
    ensures var code := GetPacked(SetPacked(p, bits, irqn, EncodePriority(group, bits, preempt, sub)), bits, irqn);
            && DecodePreempt(group, bits, code) == Cut(preempt, PreemptBits(group, bits))
            && DecodeSub(group, bits, code) == Cut(sub, SubBits(group, bits))
  {
    hide GetPacked, SetPacked, EncodePriority, DecodePreempt, DecodeSub, Cut, Fits, PreemptBits, SubBits;
    var code := EncodePriority(group, bits, preempt, sub);
    GetAfterSet(p, bits, irqn, code, irqn);
    DecodeAfterEncode(group, bits, preempt, sub);
    MaskIdentity(bits, code);
  }

  // ---- Every run of sets and gets gives the same answers on both files ----

  datatype Op = Set(irqn: int, priority: bv32) | Get(irqn: int)

  predicate ValidOps(ops: seq<Op>, words: nat) {
    forall i :: 0 <= i < |ops| ==> ValidIrq(ops[i].irqn, words)
  }

  function RunPacked(p: Packed, bits: bv32, ops: seq<Op>): seq<bv32>
    requires PackedShape(p, |p.ipr|) && ValidOps(ops, |p.ipr|) && PrioBits(bits)
    decreases |ops|
  {
    if ops == [] then []
    else match ops[0]
      case Set(irqn, priority) => RunPacked(SetPacked(p, bits, irqn, priority), bits, ops[1..])
      case Get(irqn) => [GetPacked(p, bits, irqn)] + RunPacked(p, bits, ops[1..])
  }

  function RunBytes(b: Bytes, bits: bv32, ops: seq<Op>): seq<bv32>
    requires BytesShape(b, |b.ipr| / 4) && ValidOps(ops, |b.ipr| / 4) && PrioBits(bits)
    decreases |ops|
  {
    if ops == [] then []
    else match ops[0]
      case Set(irqn, priority) => RunBytes(SetBytes(b, bits, irqn, priority), bits, ops[1..])
      case Get(irqn) => [GetBytes(b, bits, irqn)] + RunBytes(b, bits, ops[1..])
  }

  ghost predicate Agree(p: Packed, b: Bytes)
    requires PackedShape(p, |p.ipr|) && BytesShape(b, |p.ipr|)
  {
    forall irqn {:trigger ByteField(b, irqn)} :: ValidIrq(irqn, |p.ipr|) ==> PackedField(p, irqn) == ByteField(b, irqn)
  }

  lemma SetKeepsAgreement(p: Packed, b: Bytes, bits: bv32, irqn: int, priority: bv32)
    requires PackedShape(p, |p.ipr|) && BytesShape(b, |p.ipr|) && PrioBits(bits) && ValidIrq(irqn, |p.ipr|)
    requires Agree(p, b)
    ensures Agree(SetPacked(p, bits, irqn, priority), SetBytes(b, bits, irqn, priority))
  {
    hide PackedField, ByteField, SetPacked, SetBytes, Field;
    forall other | ValidIrq(other, |p.ipr|)
      ensures PackedField(SetPacked(p, bits, irqn, priority), other) == ByteField(SetBytes(b, bits, irqn, priority), other)
    {
      PackedSetFrame(p, bits, irqn, priority, other);
      ByteSetFrame(b, bits, irqn, priority, other);
      assert PackedField(p, other) == ByteField(b, other);
    }
  }

  lemma {:induction false} AgreeingRuns(p: Packed, b: Bytes, bits: bv32, ops: seq<Op>)
    requires PackedShape(p, |p.ipr|) && BytesShape(b, |p.ipr|) && PrioBits(bits) && ValidOps(ops, |p.ipr|)
    requires Agree(p, b)
    ensures RunPacked(p, bits, ops) == RunBytes(b, bits, ops)
    decreases |ops|
  {
    hide PackedField, ByteField, SetPacked, SetBytes, Level, Agree;
    if ops != [] {
      match ops[0] {
        case Set(irqn, priority) =>
          SetKeepsAgreement(p, b, bits, irqn, priority);
          AgreeingRuns(SetPacked(p, bits, irqn, priority), SetBytes(b, bits, irqn, priority), bits, ops[1..]);
        case Get(irqn) =>
          AgreeAt(p, b, irqn);
          AgreeingRuns(p, b, bits, ops[1..]);
      }
    }
  }

  lemma AgreeAt(p: Packed, b: Bytes, irqn: int)
    requires PackedShape(p, |p.ipr|) && BytesShape(b, |p.ipr|) && Agree(p, b) && ValidIrq(irqn, |p.ipr|)
    ensures PackedField(p, irqn) == ByteField(b, irqn)
  {
  }

  // ---- The two files as memory ----

  /** Byte j of a word in little-endian memory. */
  function MemoryByte(w: bv32, j: int): bv32 {
    if j == 0 then w & 0xFF
    else if j == 1 then (w >> 8) & 0xFF
    else if j == 2 then (w >> 16) & 0xFF
    else w >> 24
  }

  /** The words hold the bytes: from the first IPR byte on, and from handler byte 4 on. */
  ghost predicate SameMemory(p: Packed, b: Bytes)
    requires PackedShape(p, |p.ipr|) && BytesShape(b, |p.ipr|)
  {
    && (forall n {:trigger b.ipr[n]} :: 0 <= n < 4 * |p.ipr| ==> MemoryByte(p.ipr[n / 4], n % 4) == b.ipr[n] as bv32)
    && (forall n {:trigger b.shpr[n]} :: 4 <= n < 12 ==> MemoryByte(p.shpr[n / 4 - 1], n % 4) == b.shpr[n] as bv32)
  }

  lemma LaneIsByte(w: bv32, shift: bv32, j: int)
    requires 0 <= j < 4 && shift == if j == 0 then 0 else if j == 1 then 8 else if j == 2 then 16 else 24
    ensures Lane(w, shift) == MemoryByte(w, j)
  {
    if j == 3 { TopByte(w); }
  }

  lemma TopByte(w: bv32)
    ensures (w >> 24) & 0xFF == w >> 24
  {
  }

  lemma ShiftOf(irqn: int)
    requires -16 <= irqn < TWO32
    ensures var j := irqn % 4;
            BitShift(irqn) == if j == 0 then 0 else if j == 1 then 8 else if j == 2 then 16 else 24
  {
    assert U32(irqn) % 4 == irqn % 4;
  }

  /** The field of an interrupt is the byte at its number, and that of a handler byte number + 12. */
  lemma FieldIsByte(p: Packed, irqn: int)
    requires PackedShape(p, |p.ipr|) && ValidIrq(irqn, |p.ipr|)
    ensures PackedField(p, irqn)
            == MemoryByte(if irqn >= 0 then p.ipr[irqn / 4] else p.shpr[(irqn + 12) / 4 - 1], irqn % 4)
  {
    hide Lane, BitShift, MemoryByte, LaneShift;
    IndicesInRange(irqn, |p.ipr|);
    ShiftIsLane(irqn);
    ShiftOf(irqn);
    if irqn < 0 { HandlerSlot(irqn); }
    LaneIsByte(if irqn >= 0 then p.ipr[irqn / 4] else p.shpr[(irqn + 12) / 4 - 1], BitShift(irqn), irqn % 4);
  }

  /** A read returns the implemented bits of that byte. */
  lemma GetReads(p: Packed, bits: bv32, irqn: int)
    requires PackedShape(p, |p.ipr|) && ValidIrq(irqn, |p.ipr|) && PrioBits(bits)
    ensures GetPacked(p, bits, irqn)
            == MemoryByte(if irqn >= 0 then p.ipr[irqn / 4] else p.shpr[(irqn + 12) / 4 - 1], irqn % 4) >> (8 - bits)
  {
    hide PackedField, MemoryByte;
    FieldIsByte(p, irqn);
  }

  lemma ByteFieldIsByte(b: Bytes, irqn: int)
    requires BytesShape(b, |b.ipr| / 4) && ByteIrq(irqn, |b.ipr| / 4)
    ensures ByteField(b, irqn) == (if irqn >= 0 then b.ipr[irqn] else b.shpr[irqn + 12]) as bv32
  {
    ByteIndicesInRange(irqn, |b.ipr| / 4);
  }

  lemma SameFields(p: Packed, b: Bytes)
    requires PackedShape(p, |p.ipr|) && BytesShape(b, |p.ipr|) && SameMemory(p, b)
    ensures Agree(p, b)
  {
    hide PackedField, ByteField, MemoryByte;
    forall irqn | ValidIrq(irqn, |p.ipr|)
      ensures PackedField(p, irqn) == ByteField(b, irqn)
    {
      FieldIsByte(p, irqn);
      ByteFieldIsByte(b, irqn);
    }
  }

  lemma SameBytes(p: Packed, b: Bytes)
    requires PackedShape(p, |p.ipr|) && BytesShape(b, |p.ipr|) && Agree(p, b)
    ensures SameMemory(p, b)
  {
    hide PackedField, ByteField, MemoryByte;
    forall n | 0 <= n < 4 * |p.ipr|
      ensures MemoryByte(p.ipr[n / 4], n % 4) == b.ipr[n] as bv32
    {
      ByteInFile(p, b, n);
    }
    forall n | 4 <= n < 12
      ensures MemoryByte(p.shpr[n / 4 - 1], n % 4) == b.shpr[n] as bv32
    {
      ByteInFile(p, b, n - 12);
    }
  }

  lemma ByteInFile(p: Packed, b: Bytes, irqn: int)
    requires PackedShape(p, |p.ipr|) && BytesShape(b, |p.ipr|) && Agree(p, b) && ValidIrq(irqn, |p.ipr|)
    ensures irqn >= 0 ==> MemoryByte(p.ipr[irqn / 4], irqn % 4) == b.ipr[irqn] as bv32
    ensures irqn < 0 ==> MemoryByte(p.shpr[(irqn + 12) / 4 - 1], (irqn + 12) % 4) == b.shpr[irqn + 12] as bv32
  {
    hide PackedField, ByteField, MemoryByte, Agree;
    AgreeAt(p, b, irqn);
    FieldIsByte(p, irqn);
    ByteFieldIsByte(b, irqn);
  }

  /** Fields agree exactly when memory does. */
  lemma AgreeIsSameMemory(p: Packed, b: Bytes)
    requires PackedShape(p, |p.ipr|) && BytesShape(b, |p.ipr|)
    ensures Agree(p, b) <==> SameMemory(p, b)
  {
    hide Agree, SameMemory;
    if Agree(p, b) { SameBytes(p, b); }
    if SameMemory(p, b) { SameFields(p, b); }
  }

  /** The byte a set stores: the low bits of the priority, moved to the top of the byte. */
  lemma FieldBits(priority: bv32, bits: bv32)
    requires PrioBits(bits)
    ensures Field(priority, bits) <= 0xFF && Field(priority, bits) & ((1 << (8 - bits)) - 1) == 0
    ensures Field(priority, bits) >> (8 - bits) == priority & ((1 << bits) - 1)
  {
  }

  /** The byte core stores that byte at the interrupt's number, or at 12 plus a handler's. */
  lemma ByteSetStores(b: Bytes, bits: bv32, irqn: int, priority: bv32)
    requires BytesShape(b, |b.ipr| / 4) && ByteIrq(irqn, |b.ipr| / 4) && PrioBits(bits)
    ensures var c, v := SetBytes(b, bits, irqn, priority), Field(priority, bits) as bv8;
            if irqn >= 0 then c == Bytes(b.ipr[irqn := v], b.shpr) else c == Bytes(b.ipr, b.shpr[irqn + 12 := v])
  {
    hide Field;
    ByteIndicesInRange(irqn, |b.ipr| / 4);
  }

  /** The read-modify-write of the packed core changes that byte of memory and no other. */
  lemma PackedSetStores(p: Packed, b: Bytes, bits: bv32, irqn: int, priority: bv32)
    requires PackedShape(p, |p.ipr|) && BytesShape(b, |p.ipr|) && PrioBits(bits) && ValidIrq(irqn, |p.ipr|)
    requires SameMemory(p, b)
    ensures var q, v := SetPacked(p, bits, irqn, priority), Field(priority, bits) as bv8;
            SameMemory(q, if irqn >= 0 then Bytes(b.ipr[irqn := v], b.shpr) else Bytes(b.ipr, b.shpr[irqn + 12 := v]))
  {
    hide SetPacked, SetBytes, Field, Agree, SameMemory;
    AgreeIsSameMemory(p, b);
    SetKeepsAgreement(p, b, bits, irqn, priority);
    AgreeIsSameMemory(SetPacked(p, bits, irqn, priority), SetBytes(b, bits, irqn, priority));
    ByteSetStores(b, bits, irqn, priority);
  }

  /** From equal memory the packed read-modify-write registers answer as the byte array does, for every
      part size, every priority width and every sequence of sets and gets. */
  lemma PackedRefinesBytes(p: Packed, b: Bytes, bits: bv32, ops: seq<Op>)
    requires PackedShape(p, |p.ipr|) && BytesShape(b, |p.ipr|) && PrioBits(bits) && ValidOps(ops, |p.ipr|)
    requires SameMemory(p, b)
    ensures RunPacked(p, bits, ops) == RunBytes(b, bits, ops)
  {
    hide Agree, SameMemory, RunPacked, RunBytes;
    AgreeIsSameMemory(p, b);
    AgreeingRuns(p, b, bits, ops);
  }

  // ---- The register files as the cores have them ----

  class PackedRegisters {
    const ipr: array<bv32>
    const shpr: array<bv32>
    const bits: bv32

    constructor (words: nat, bits: bv32)
      requires 4 * words < TWO32 && PrioBits(bits)
      ensures Valid() && fresh(ipr) && fresh(shpr) && ipr.Length == words && this.bits == bits
    {
      ipr, shpr, this.bits := new bv32[words](_ => 0), new bv32[2](_ => 0), bits;
    }

    predicate Valid()
    {
      ipr != shpr && shpr.Length == 2 && 4 * ipr.Length < TWO32 && PrioBits(bits)
    }

    function Contents(): Packed
      reads ipr, shpr
    {
      Packed(ipr[..], shpr[..])
    }

    /** __NVIC_SetPriority of core_armv8mbl.h and core_cm0plus.h. */
    method SetPriority(irqn: int, priority: bv32)
      requires Valid() && ValidIrq(irqn, ipr.Length)
      modifies ipr, shpr
      ensures Contents() == SetPacked(old(Contents()), bits, irqn, priority)
    {
      IndicesInRange(irqn, ipr.Length);
      ShiftIsLane(irqn);
      hide Lane, WithLane, Field, BitShift, ShpIdx, IpIdx;
      if irqn >= 0 {
        ipr[IpIdx(irqn)] := WithLane(ipr[IpIdx(irqn)], BitShift(irqn), Field(priority, bits));
      } else {
        shpr[ShpIdx(irqn)] := WithLane(shpr[ShpIdx(irqn)], BitShift(irqn), Field(priority, bits));
      }
    }
  }

  class ByteRegisters {
    const ipr: array<bv8>
    const shpr: array<bv8>
    const bits: bv32

    constructor (words: nat, bits: bv32)
      requires 4 * words < TWO32 && PrioBits(bits)
      ensures Valid() && fresh(ipr) && fresh(shpr) && ipr.Length == 4 * words && this.bits == bits
    {
      ipr, shpr, this.bits := new bv8[4 * words](_ => 0), new bv8[12](_ => 0), bits;
    }

    predicate Valid()
    {
      ipr != shpr && shpr.Length == 12 && ipr.Length % 4 == 0 && ipr.Length < TWO32 && PrioBits(bits)
    }

    function Contents(): Bytes
      reads ipr, shpr
    {
      Bytes(ipr[..], shpr[..])
    }

    /** __NVIC_SetPriority of core_armv8mml.h. */
    method SetPriority(irqn: int, priority: bv32)
      requires Valid() && ByteIrq(irqn, ipr.Length / 4)
      modifies ipr, shpr
      ensures Contents() == SetBytes(old(Contents()), bits, irqn, priority)
    {
      ByteIndicesInRange(irqn, ipr.Length / 4);
      hide Field, ShpByteIdx;
      if irqn >= 0 {
        ipr[U32(irqn)] := Field(priority, bits) as bv8;
      } else {
        shpr[ShpByteIdx(irqn)] := Field(priority, bits) as bv8;
      }
    }
  }
}
