/** NVIC_EncodePriority and NVIC_DecodePriority in the 32-bit arithmetic of the source. */
module NvicCodec {

  /** __NVIC_PRIO_BITS of a part. */
  predicate PrioBits(bits: bv32) { 1 <= bits <= 8 }

  function PreemptBits(group: bv32, bits: bv32): (p: bv32)
    ensures p <= 7
  {
    var g := group & 7;
    if 7 - g > bits then bits else 7 - g
  }

  /** PriorityGroupTmp - 7 wraps for every group but the last. */
  function SubBits(group: bv32, bits: bv32): (s: bv32)
    requires PrioBits(bits)
    ensures s <= 8
  {
    var g := group & 7;
    if g + bits < 7 then 0 else (g - 7) + bits
  }

  function Mask(width: bv32): bv32
    requires width <= 31
  {
    (1 << width) - 1
  }

  /** The low width bits of x. */
  function Cut(x: bv32, width: bv32): bv32
    requires width <= 31
  {
    x & Mask(width)
  }

  predicate Fits(x: bv32, width: bv32)
    requires width <= 31
  {
    x <= Mask(width)
  }

  /** A lower value is the more urgent one. */
  predicate MoreUrgent(a: bv32, b: bv32) {
    a < b
  }

  /** The preemption bits are as many as the group's binary point and the width allow, the rest are
      subpriority bits. */
  lemma BitsSplit(group: bv32, bits: bv32)
    requires PrioBits(bits)
    ensures PreemptBits(group, bits) + SubBits(group, bits) == bits
    ensures PreemptBits(group, bits) <= bits && PreemptBits(group, bits) <= 7 - (group & 7)
    ensures PreemptBits(group, bits) == bits || PreemptBits(group, bits) == 7 - (group & 7)
  {
  }

  /** Cutting keeps the low bits and clears the others. */
  lemma CutIsLowBits(x: bv32, width: bv32)
    requires width <= 8
    ensures Cut(x, width) >> width == 0 && (Cut(x, width) ^ x) & ((1 << width) - 1) == 0
  {
  }

  // Facts about two adjacent fields of p and s bits, on plain words.

  lemma CutJoined(p: bv32, s: bv32, preempt: bv32, sub: bv32, code: bv32)
    requires p <= 7 && s <= 8 && p + s <= 8
    requires code == ((preempt & Mask(p)) << s) | (sub & Mask(s))
    ensures (code >> s) & Mask(p) == preempt & Mask(p)
    ensures code & Mask(s) == sub & Mask(s)
    ensures code <= Mask(p + s)
  {
  }

  lemma JoinCut(p: bv32, s: bv32, code: bv32, preempt: bv32, sub: bv32)
    requires p <= 7 && s <= 8 && p + s <= 8
    requires preempt == (code >> s) & Mask(p) && sub == code & Mask(s)
    ensures ((preempt & Mask(p)) << s) | (sub & Mask(s)) == code & Mask(p + s)
  {
  }

  lemma JoinedOrder(p: bv32, s: bv32, p1: bv32, s1: bv32, p2: bv32, s2: bv32, c1: bv32, c2: bv32)
    requires p <= 7 && s <= 8 && p + s <= 8
    requires p1 <= Mask(p) && p2 <= Mask(p) && s1 <= Mask(s) && s2 <= Mask(s)
    requires c1 == ((p1 & Mask(p)) << s) | (s1 & Mask(s))
    requires c2 == ((p2 & Mask(p)) << s) | (s2 & Mask(s))
    ensures c1 < c2 <==> p1 < p2 || (p1 == p2 && s1 < s2)
  {
  }

  function Join(p: bv32, s: bv32, preempt: bv32, sub: bv32): bv32
    requires p <= 7 && s <= 8
  {
    ((preempt & Mask(p)) << s) | (sub & Mask(s))
  }

  function HighField(p: bv32, s: bv32, code: bv32): bv32
    requires p <= 7 && s <= 8
  {
    (code >> s) & Mask(p)
  }

  function LowField(s: bv32, code: bv32): bv32
    requires s <= 8
  {
    code & Mask(s)
  }

  lemma FieldsOfJoin(p: bv32, s: bv32, preempt: bv32, sub: bv32)
    requires p <= 7 && s <= 8 && p + s <= 8
    ensures HighField(p, s, Join(p, s, preempt, sub)) == Cut(preempt, p)
    ensures LowField(s, Join(p, s, preempt, sub)) == Cut(sub, s)
    ensures Fits(Join(p, s, preempt, sub), p + s)
  {
    var code := Join(p, s, preempt, sub);
    CutJoined(p, s, preempt, sub, code);
    assert HighField(p, s, code) == (code >> s) & Mask(p);
    assert LowField(s, code) == code & Mask(s);
  }

  lemma JoinOfFields(p: bv32, s: bv32, code: bv32)
    requires p <= 7 && s <= 8 && p + s <= 8
    ensures Join(p, s, HighField(p, s, code), LowField(s, code)) == Cut(code, p + s)
  {
    JoinCut(p, s, code, HighField(p, s, code), LowField(s, code));
  }

  lemma JoinOrder(p: bv32, s: bv32, p1: bv32, s1: bv32, p2: bv32, s2: bv32)
    requires p <= 7 && s <= 8 && p + s <= 8
    requires Fits(p1, p) && Fits(p2, p) && Fits(s1, s) && Fits(s2, s)
    ensures MoreUrgent(Join(p, s, p1, s1), Join(p, s, p2, s2))
            <==> MoreUrgent(p1, p2) || (p1 == p2 && MoreUrgent(s1, s2))
  {
    JoinedOrder(p, s, p1, s1, p2, s2, Join(p, s, p1, s1), Join(p, s, p2, s2));
  }

  function EncodePriority(group: bv32, bits: bv32, preempt: bv32, sub: bv32): bv32
    requires PrioBits(bits)
  {
    Join(PreemptBits(group, bits), SubBits(group, bits), preempt, sub)
  }

  /** *pPreemptPriority of NVIC_DecodePriority. */
  function DecodePreempt(group: bv32, bits: bv32, priority: bv32): bv32
    requires PrioBits(bits)
  {
    HighField(PreemptBits(group, bits), SubBits(group, bits), priority)
  }

  /** *pSubPriority of NVIC_DecodePriority. */
  function DecodeSub(group: bv32, bits: bv32, priority: bv32): bv32
    requires PrioBits(bits)
  {
    LowField(SubBits(group, bits), priority)
  }

  // Where the two parts of a priority lie in its 8-bit field, u bits of which are not implemented.

  lemma FieldHigh(x: bv32, s: bv32, u: bv32, f: bv32)
    requires u <= 7 && 1 <= s + u <= 8 && s <= 8 && f == (x << u) & 0xFF
    ensures (x >> s) & Mask(8 - s - u) == f >> (s + u)
  {
  }

  lemma FieldLow(x: bv32, s: bv32, u: bv32, f: bv32)
    requires u <= 7 && 1 <= s + u <= 8 && s <= 8 && f == (x << u) & 0xFF
    ensures x & Mask(s) == (f & Mask(s + u)) >> u
  {
  }

  lemma FieldTail(x: bv32, u: bv32, v: bv32, f: bv32)
    requires v <= u <= 7 && f == (x << u) & 0xFF
    ensures (f & Mask(v)) >> u == 0
  {
  }

  function Above(f: bv32, n: bv32): bv32
    requires n <= 31
  {
    f >> n
  }

  function Below(f: bv32, n: bv32): bv32
    requires n <= 31
  {
    f & ((1 << n) - 1)
  }

  lemma HighOf(p: bv32, s: bv32, u: bv32, x: bv32, f: bv32)
    requires p <= 7 && u <= 7 && s <= 8 && p + s + u == 8 && f == (x << u) & 0xFF
    ensures HighField(p, s, x) == Above(f, s + u)
  {
    FieldHigh(x, s, u, f);
  }

  lemma LowOf(s: bv32, u: bv32, x: bv32, f: bv32)
    requires u <= 7 && 1 <= s + u <= 8 && s <= 8 && f == (x << u) & 0xFF
    ensures LowField(s, x) == Above(Below(f, s + u), u)
  {
    FieldLow(x, s, u, f);
  }

  lemma LowOfNone(u: bv32, v: bv32, x: bv32, f: bv32)
    requires v <= u <= 7 && f == (x << u) & 0xFF
    ensures LowField(0, x) == Above(Below(f, v), u)
  {
    FieldTail(x, u, v, f);
  }

  lemma PointOfGroup(group: bv32, bits: bv32)
    requires PrioBits(bits)
    ensures var g, u, s := group & 7, 8 - bits, SubBits(group, bits);
      && PreemptBits(group, bits) + s + u == 8 && s <= 8 && u <= 7 && 1 <= s + u <= 8
      && (if g + 1 > u then s + u == g + 1 else s == 0)
  {
  }

  /** Preemption lies above bit n - 1 of the field, subpriority below bit n. */
  lemma PointInField(group: bv32, bits: bv32, priority: bv32, f: bv32)
    requires PrioBits(bits) && f == (priority << (8 - bits)) & 0xFF
    ensures var n, u := (group & 7) + 1, 8 - bits;
      && DecodePreempt(group, bits, priority) == Above(f, if n > u then n else u)
      && DecodeSub(group, bits, priority) == Above(Below(f, n), u)
  {
    PointOfGroup(group, bits);
    var n, u, p, s := (group & 7) + 1, 8 - bits, PreemptBits(group, bits), SubBits(group, bits);
    hide Above, Below, HighField, LowField, PreemptBits, SubBits, Mask;
    HighOf(p, s, u, priority, f);
    if n > u {
      LowOf(s, u, priority, f);
    } else {
      LowOfNone(u, n, priority, f);
    }
  }

  /** The group's binary point in the 8-bit field f of a priority: preemption is what lies above bit
      group, subpriority what lies at it and below, as far as the field's low bits are implemented. */
  lemma BinaryPoint(group: bv32, bits: bv32, priority: bv32, f: bv32)
    requires PrioBits(bits) && f == (priority << (8 - bits)) & 0xFF
    ensures var g := group & 7;
      && DecodePreempt(group, bits, priority) == f >> (if g + 1 > 8 - bits then g + 1 else 8 - bits)
      && DecodeSub(group, bits, priority) == (f & ((1 << (g + 1)) - 1)) >> (8 - bits)
  {
    PointInField(group, bits, priority, f);
    hide DecodePreempt, DecodeSub;
  }

  /** Decoding an encoded pair gives each part cut to its own bits, and the code is within the
      implemented bits. */
  lemma DecodeAfterEncode(group: bv32, bits: bv32, preempt: bv32, sub: bv32)
    requires PrioBits(bits)
    ensures DecodePreempt(group, bits, EncodePriority(group, bits, preempt, sub))
            == Cut(preempt, PreemptBits(group, bits))
    ensures DecodeSub(group, bits, EncodePriority(group, bits, preempt, sub))
            == Cut(sub, SubBits(group, bits))
    ensures Fits(EncodePriority(group, bits, preempt, sub), bits)
  {
    hide PreemptBits, SubBits, Mask, Join, HighField, LowField, Fits, MoreUrgent, Cut;
    BitsSplit(group, bits);
    var p, s := PreemptBits(group, bits), SubBits(group, bits);
    var code := EncodePriority(group, bits, preempt, sub);
    FieldsOfJoin(p, s, preempt, sub);
    assert code == Join(p, s, preempt, sub);
    assert DecodePreempt(group, bits, code) == HighField(p, s, code);
    assert DecodeSub(group, bits, code) == LowField(s, code);
  }

  /** Encoding a decoded priority gives its implemented bits back: the priority itself when it is
      below 2 to the number of bits. */
  lemma EncodeAfterDecode(group: bv32, bits: bv32, priority: bv32)
    requires PrioBits(bits)
    ensures EncodePriority(group, bits, DecodePreempt(group, bits, priority), DecodeSub(group, bits, priority))
            == Cut(priority, bits)
    ensures Fits(priority, bits) ==> Cut(priority, bits) == priority
  {
    hide PreemptBits, SubBits, Mask, Join, HighField, LowField, Fits, MoreUrgent, Cut;
    BitsSplit(group, bits);
    MaskIdentity(bits, priority);
    JoinOfFields(PreemptBits(group, bits), SubBits(group, bits), priority);
  }

  lemma MaskIdentity(bits: bv32, x: bv32)
    requires PrioBits(bits)
    ensures Fits(x, bits) ==> Cut(x, bits) == x
  {
  }

  /** Smaller codes are the more urgent pairs: the order is by preemption level, then sublevel. */
  lemma EncodeIsLexicographic(group: bv32, bits: bv32, p1: bv32, s1: bv32, p2: bv32, s2: bv32)
    requires PrioBits(bits)
    requires Fits(p1, PreemptBits(group, bits)) && Fits(p2, PreemptBits(group, bits))
    requires Fits(s1, SubBits(group, bits)) && Fits(s2, SubBits(group, bits))
    ensures MoreUrgent(EncodePriority(group, bits, p1, s1), EncodePriority(group, bits, p2, s2))
            <==> MoreUrgent(p1, p2) || (p1 == p2 && MoreUrgent(s1, s2))
  {
    hide PreemptBits, SubBits, Mask, Join, HighField, LowField, Fits, MoreUrgent, Cut;
    BitsSplit(group, bits);
    var p, s := PreemptBits(group, bits), SubBits(group, bits);
    JoinOrder(p, s, p1, s1, p2, s2);
    assert EncodePriority(group, bits, p1, s1) == Join(p, s, p1, s1);
    assert EncodePriority(group, bits, p2, s2) == Join(p, s, p2, s2);
  }
}
