/** The software __RBIT of cmsis_gcc.h and cmsis_iccarm.h, and the software __CLZ. */
module BitLoops {

  /** Bit i of a word. */
  predicate Bit(v: bv32, i: bv32)
    requires i <= 31
  {
    (v >> i) & 1 == 1
  }

  /** Reversal by swapping neighbours, pairs, nibbles, bytes and halves: no loop to trust. */
  function Reverse(v: bv32): bv32 {
    var a := ((v >> 1) & 0x5555_5555) | ((v & 0x5555_5555) << 1);
    var b := ((a >> 2) & 0x3333_3333) | ((a & 0x3333_3333) << 2);
    var c := ((b >> 4) & 0x0F0F_0F0F) | ((b & 0x0F0F_0F0F) << 4);
    var d := ((c >> 8) & 0x00FF_00FF) | ((c & 0x00FF_00FF) << 8);
    (d >> 16) | (d << 16)
  }

  lemma ReverseBit(v: bv32, i: bv32)
    requires i <= 31
    ensures Bit(Reverse(v), i) <==> Bit(v, 31 - i)
  {
  }

  /** The same, bit for bit. */
  lemma ReverseBitValue(v: bv32, i: bv32)
    requires i <= 31
    ensures (Reverse(v) >> i) & 1 == (v >> (31 - i)) & 1
  {
    hide Reverse;
    ReverseBit(v, i);
    BitValue(Reverse(v), i, v, 31 - i);
  }

  lemma BitValue(v: bv32, i: bv32, w: bv32, j: bv32)
    requires i <= 31 && j <= 31 && (Bit(v, i) <==> Bit(w, j))
    ensures (v >> i) & 1 == (w >> j) & 1
  {
  }

  lemma ReverseTwice(v: bv32)
    ensures Reverse(Reverse(v)) == v
  {
  }

  lemma HigherBit(x: bv32, i: bv32)
    requires i <= 31 && x >> i != 0 && !Bit(x, i)
    ensures x >> (i + 1) != 0
  {
  }

  lemma XorBit(a: bv32, b: bv32, i: bv32)
    requires i <= 31
    ensures Bit(a ^ b, i) <==> (Bit(a, i) <==> !Bit(b, i))
  {
  }

  /** Different words differ in some bit. */
  lemma DifferingBit(a: bv32, b: bv32) returns (i: bv32)
    requires a != b
    ensures i <= 31 && (Bit(a, i) <==> !Bit(b, i))
  {
    var x := a ^ b;
    i := 0;
    while !Bit(x, i)
      invariant i <= 31 && x >> i != 0
      decreases 31 - i
    {
      HigherBit(x, i);
      i := i + 1;
    }
    XorBit(a, b, i);
  }

  /** What is left of v after 32 - s bits, and a result with one more bit. */
  function Rest(v: bv32, s: bv32): bv32
    requires s <= 31
  {
    v >> (32 - s)
  }

  function Pushed(r: bv32, b: bv32): bv32 { (r << 1) | (b & 1) }

  lemma ShiftDown(v: bv32, s: bv32)
    requires 1 <= s <= 31
    ensures Rest(v, s) >> 1 == Rest(v, s - 1)
  {
  }

  lemma FirstOfRest(v: bv32, s: bv32)
    requires 1 <= s <= 31
    ensures Bit(Rest(v, s), 0) <==> Bit(v, 32 - s)
  {
  }

  lemma PushedBit(r: bv32, b: bv32, i: bv32)
    requires i <= 31
    ensures Bit(Pushed(r, b), i) <==> if i == 0 then Bit(b, 0) else Bit(r, i - 1)
  {
  }

  function ShiftUp(x: bv32, k: bv32): bv32
    requires k <= 31
  {
    x << k
  }

  function ShiftDownBy(x: bv32, k: bv32): bv32
    requires k <= 31
  {
    x >> k
  }

  lemma UpBit(x: bv32, s: bv32, i: bv32, y: bv32)
    requires i <= 31 && s <= 31 && y == x << s
    ensures Bit(y, i) <==> i >= s && Bit(x, i - s)
  {
  }

  lemma ShiftUpBit(x: bv32, s: bv32, i: bv32)
    requires i <= 31 && s <= 31
    ensures Bit(ShiftUp(x, s), i) <==> i >= s && Bit(x, i - s)
  {
    hide Bit;
    UpBit(x, s, i, ShiftUp(x, s));
  }

  lemma NoHighBits(v: bv32, s: bv32, i: bv32)
    requires s <= 31 && Rest(v, s) == 0 && 32 - s <= i <= 31
    ensures !Bit(v, i)
  {
  }

  predicate Mirrored(v: bv32, result: bv32, s: bv32, j: bv32)
    requires s <= 31 && j <= 31 - s
  {
    Bit(result, j) <==> Bit(v, (31 - s) - j)
  }

  /** The low 32 - s bits of result are the low 32 - s bits of v, the other way round. */
  ghost predicate Reversing(v: bv32, result: bv32, s: bv32) {
    s <= 31 && forall j: bv32 :: j <= 31 - s ==> Mirrored(v, result, s, j)
  }

  lemma ReversingStart(v: bv32)
    ensures Reversing(v, v, 31) && v >> 1 == Rest(v, 31)
  {
  }

  lemma RoundBit(v: bv32, result: bv32, s: bv32, value: bv32, j: bv32)
    requires 1 <= s <= 31 && value == Rest(v, s) && j <= 31 - (s - 1)
    requires j > 0 ==> Mirrored(v, result, s, j - 1)
    ensures Mirrored(v, Pushed(result, value), s - 1, j)
  {
    hide Bit, Rest, Pushed;
    PushedBit(result, value, j);
    if j == 0 {
      FirstOfRest(v, s);
      assert 32 - s == (31 - (s - 1)) - j;
    } else {
      assert (31 - s) - (j - 1) == (31 - (s - 1)) - j;
    }
  }

  lemma ReversingRound(v: bv32, result: bv32, s: bv32, value: bv32)
    requires 1 <= s <= 31 && Reversing(v, result, s) && value == Rest(v, s)
    ensures Reversing(v, Pushed(result, value), s - 1) && value >> 1 == Rest(v, s - 1)
  {
    hide Mirrored, Rest, Pushed;
    ShiftDown(v, s);
    var r, t := Pushed(result, value), s - 1;
    forall j: bv32 | j <= 31 - t
      ensures Mirrored(v, r, t, j)
    {
      if j > 0 {
        assert Mirrored(v, result, s, j - 1);
      }
      RoundBit(v, result, s, value, j);
    }
  }

  lemma EndBit(v: bv32, result: bv32, s: bv32, i: bv32)
    requires i <= 31 && s <= 31 && Rest(v, s) == 0
    requires i >= s ==> Mirrored(v, result, s, i - s)
    ensures Bit(ShiftUp(result, s), i) <==> Bit(v, 31 - i)
  {
    hide Bit, Rest, ShiftUp;
    ShiftUpBit(result, s, i);
    if i >= s {
      assert (31 - s) - (i - s) == 31 - i;
    } else {
      NoHighBits(v, s, 31 - i);
    }
  }

  lemma ReversingEnd(v: bv32, result: bv32, s: bv32)
    requires Reversing(v, result, s) && Rest(v, s) == 0
    ensures ShiftUp(result, s) == Reverse(v)
  {
    hide Bit, Reverse, Mirrored, Rest, ShiftUp;
    if ShiftUp(result, s) != Reverse(v) {
      var i := DifferingBit(ShiftUp(result, s), Reverse(v));
      ReverseBit(v, i);
      assert i >= s ==> Mirrored(v, result, s, i - s);
      EndBit(v, result, s, i);
    }
  }

  /** __RBIT: stops as soon as no set bit is left, then shifts the result up by what is missing. */
  method Rbit(v: bv32) returns (result: bv32)
    ensures result == Reverse(v)
  {
    hide Reversing, Reverse, Rest;
    ReversingStart(v);
    var s: bv32 := 31;
    result := v;
    var value := v >> 1;
    while value != 0
      invariant s <= 31 && value == Rest(v, s) && Reversing(v, result, s)
      decreases s
    {
      RestOfNone(v, s);
      ReversingRound(v, result, s, value);
      result := result << 1;
      result := result | (value & 1);
      s := s - 1;
      value := value >> 1;
    }
    ReversingEnd(v, result, s);
    result := result << s;
  }

  lemma RestOfNone(v: bv32, s: bv32)
    requires s <= 31 && Rest(v, s) != 0
    ensures s > 0
  {
  }

  // ---- Leading and trailing zeros ----

  /** v has exactly n leading zeros: 2 to the 31 - n is its highest power of two. */
  predicate LeadingZeros(v: bv32, n: bv32) {
    n <= 31 && v >> (31 - n) == 1
  }

  predicate TrailingZeros(v: bv32, n: bv32) {
    n <= 31 && (v >> n) & 1 == 1 && v & ((1 << n) - 1) == 0
  }

  lemma LeadingZerosBounds(v: bv32, n: bv32)
    requires n <= 31
    ensures LeadingZeros(v, n) <==> 1 << (31 - n) <= v && (n > 0 ==> v < 1 << (32 - n))
  {
  }

  lemma LeadingZerosUnique(v: bv32, m: bv32, n: bv32)
    requires LeadingZeros(v, m) && LeadingZeros(v, n)
    ensures m == n
  {
  }

  lemma DownBit(x: bv32, k: bv32, i: bv32, y: bv32)
    requires i <= 31 && k <= 31 && y == x >> k
    ensures Bit(y, i) <==> i <= 31 - k && Bit(x, i + k)
  {
  }

  lemma ShiftDownBit(x: bv32, k: bv32, i: bv32)
    requires i <= 31 && k <= 31
    ensures Bit(ShiftDownBy(x, k), i) <==> i <= 31 - k && Bit(x, i + k)
  {
    hide Bit;
    DownBit(x, k, i, ShiftDownBy(x, k));
  }

  lemma MirroredIndex(k: bv32, i: bv32)
    requires k <= 31 && i <= 31
    ensures i <= 31 - k <==> 31 - i >= k
    ensures i <= 31 - k ==> i + k <= 31 && 31 - (i + k) == (31 - i) - k
  {
  }

  lemma MirroredShiftBit(v: bv32, k: bv32, i: bv32)
    requires k <= 31 && i <= 31
    ensures Bit(ShiftDownBy(Reverse(v), k), i) <==> Bit(Reverse(ShiftUp(v, k)), i)
  {
    hide Bit, Reverse, ShiftUp, ShiftDownBy;
    MirroredIndex(k, i);
    ReverseBit(ShiftUp(v, k), i);
    ShiftUpBit(v, k, 31 - i);
    ShiftDownBit(Reverse(v), k, i);
    if i <= 31 - k {
      ReverseBit(v, i + k);
    }
  }

  lemma MirroredShift(v: bv32, k: bv32)
    requires k <= 31
    ensures ShiftDownBy(Reverse(v), k) == Reverse(ShiftUp(v, k))
  {
    hide Bit, Reverse, ShiftUp, ShiftDownBy;
    if ShiftDownBy(Reverse(v), k) != Reverse(ShiftUp(v, k)) {
      var i := DifferingBit(ShiftDownBy(Reverse(v), k), Reverse(ShiftUp(v, k)));
      MirroredShiftBit(v, k, i);
    }
  }

  lemma TopBitAlone(v: bv32, n: bv32, x: bv32)
    requires n <= 31 && x == ShiftUp(v, 31 - n)
    ensures Reverse(x) == 1 <==> x == 0x8000_0000
    ensures x == 0x8000_0000 <==> TrailingZeros(v, n)
  {
  }

  lemma OneOnTop(r: bv32, n: bv32)
    requires n <= 31
    ensures LeadingZeros(r, n) <==> ShiftDownBy(r, 31 - n) == 1
  {
  }

  /** The zeros a reversed word leads with are the zeros the word ends in. */
  lemma LeadingOfReverse(v: bv32, n: bv32)
    ensures LeadingZeros(Reverse(v), n) <==> TrailingZeros(v, n)
  {
    if n <= 31 {
      hide Reverse, Bit, TrailingZeros, LeadingZeros, ShiftUp, ShiftDownBy;
      MirroredShift(v, 31 - n);
      TopBitAlone(v, n, ShiftUp(v, 31 - n));
      OneOnTop(Reverse(v), n);
    }
  }

  predicate NoneBefore(data: bv32, count: bv32)
    requires count <= 31
  {
    (data >> (31 - count)) >> 1 == 0
  }

  lemma ClzRound(data: bv32, mask: bv32, count: bv32)
    requires data != 0 && count <= 31 && mask == 0x8000_0000 >> count && NoneBefore(data, count)
    ensures data & mask != 0 ==> LeadingZeros(data, count)
    ensures data & mask == 0 ==> count < 31 && NoneBefore(data, count + 1) && mask >> 1 == 0x8000_0000 >> (count + 1)
  {
  }

  /** The software __CLZ: 32 for zero, and otherwise the number of leading zeros. */
  method Clz(data: bv32) returns (n: bv32)
    ensures data == 0 ==> n == 32
    ensures data != 0 ==> LeadingZeros(data, n)
  {
    if data == 0 {
      return 32;
    }
    var count: bv32, mask: bv32 := 0, 0x8000_0000;
    while data & mask == 0
      invariant count <= 31 && mask == 0x8000_0000 >> count && NoneBefore(data, count)
      decreases 31 - count
    {
      ClzRound(data, mask, count);
      count := count + 1;
      mask := mask >> 1;
    }
    ClzRound(data, mask, count);
    n := count;
  }
}
