/** The 64-bit xorshift generator, on words given bit by bit, the least significant bit first. */
module XorShift {

  type Word = w: seq<bool> | |w| == 64 witness seq(64, _ => false)

  const ZERO: Word := seq(64, _ => false)

  function Xor(x: Word, y: Word): (r: Word)
    ensures forall i :: 0 <= i < 64 ==> r[i] == (x[i] != y[i])
  {
    seq(64, i requires 0 <= i < 64 => x[i] != y[i])
  }

  function ShiftLeft(w: Word, k: nat): (r: Word)
    ensures forall i :: 0 <= i < 64 ==> r[i] == (i >= k && w[i - k])
  {
    seq(64, i requires 0 <= i < 64 => i >= k && w[i - k])
  }

  function ShiftRight(w: Word, k: nat): (r: Word)
    ensures forall i :: 0 <= i < 64 ==> r[i] == (i + k < 64 && w[i + k])
  {
    seq(64, i requires 0 <= i < 64 => i + k < 64 && w[i + k])
  }

  /** The word exclusive-or itself shifted left by `k`. */
  function XorLeft(w: Word, k: nat): (r: Word)
    ensures forall i {:trigger r[i]} :: 0 <= i < 64 ==> r[i] == (w[i] != (i >= k && w[i - k]))
  {
    Xor(w, ShiftLeft(w, k))
  }

  /** The word exclusive-or itself shifted right by `k`. */
  function XorRight(w: Word, k: nat): (r: Word)
    ensures forall i {:trigger r[i]} :: 0 <= i < 64 ==> r[i] == (w[i] != (i + k < 64 && w[i + k]))
  {
    Xor(w, ShiftRight(w, k))
  }

  function Step(w: Word): Word {
    XorLeft(XorRight(XorLeft(w, 13), 7), 17)
  }

  /** The lowest `n` bits of the word whose `XorLeft` is `w`: each bit follows from lower ones. */
  function LowBits(w: Word, k: nat, n: nat): (r: seq<bool>)
    requires 0 < k && n <= 64
    ensures |r| == n
    ensures forall i {:trigger r[i]} :: 0 <= i < n ==> w[i] == (r[i] != (i >= k && r[i - k]))
  {
    if n == 0 then []
    else
      var r := LowBits(w, k, n - 1);
      r + [w[n - 1] != (n - 1 >= k && r[n - 1 - k])]
  }

  /** The bits in reverse. */
  function Mirror(w: Word): (r: Word)
    ensures forall i :: 0 <= i < 64 ==> r[i] == w[63 - i]
  {
    seq(64, i requires 0 <= i < 64 => w[63 - i])
  }

  function UnLeft(w: Word, k: nat): Word
    requires k > 0
  {
    LowBits(w, k, 64)
  }

  function UnRight(w: Word, k: nat): Word
    requires k > 0
  {
    Mirror(UnLeft(Mirror(w), k))
  }

  /** `XorLeft` determines a word, bit by bit from below. */
  lemma {:induction false} LeftDetermines(x: Word, y: Word, k: nat, i: nat)
    requires k > 0 && i < 64 && XorLeft(x, k) == XorLeft(y, k)
    ensures x[i] == y[i]
  {
    assert XorLeft(x, k)[i] == XorLeft(y, k)[i];
    if i >= k {
      LeftDetermines(x, y, k, i - k);
    }
  }

  /** A shift can be undone, and undoing is undone by the shift. */
  lemma LeftBijective(w: Word, k: nat)
    requires k > 0
    ensures XorLeft(UnLeft(w, k), k) == w && UnLeft(XorLeft(w, k), k) == w
  {
    assert XorLeft(UnLeft(w, k), k) == w;
    var v := XorLeft(w, k);
    assert XorLeft(UnLeft(v, k), k) == v;
    forall i | 0 <= i < 64 ensures UnLeft(v, k)[i] == w[i] {
      LeftDetermines(UnLeft(v, k), w, k, i);
    }
  }

  lemma MirrorTwice(w: Word)
    ensures Mirror(Mirror(w)) == w
  {
  }

  /** A right shift is a left shift in the mirror. */
  lemma RightIsMirrored(w: Word, k: nat)
    ensures XorRight(w, k) == Mirror(XorLeft(Mirror(w), k))
  {
    var v := XorLeft(Mirror(w), k);
    forall i | 0 <= i < 64 ensures XorRight(w, k)[i] == Mirror(v)[i] {
      assert Mirror(v)[i] == v[63 - i];
    }
  }

  lemma RightBijective(w: Word, k: nat)
    requires k > 0
    ensures XorRight(UnRight(w, k), k) == w && UnRight(XorRight(w, k), k) == w
  {
    MirrorTwice(w);
    LeftBijective(Mirror(w), k);
    RightIsMirrored(w, k);
    MirrorTwice(XorLeft(Mirror(w), k));
    RightIsMirrored(UnRight(w, k), k);
    MirrorTwice(UnLeft(Mirror(w), k));
  }

  function Unstep(w: Word): Word {
    UnLeft(UnRight(UnLeft(w, 17), 7), 13)
  }

  lemma UnstepStep(w: Word)
    ensures Unstep(Step(w)) == w
  {
    LeftBijective(w, 13);
    RightBijective(XorLeft(w, 13), 7);
    LeftBijective(XorRight(XorLeft(w, 13), 7), 17);
  }

  lemma StepUnstep(w: Word)
    ensures Step(Unstep(w)) == w
  {
    LeftBijective(w, 17);
    RightBijective(UnLeft(w, 17), 7);
    LeftBijective(UnRight(UnLeft(w, 17), 7), 13);
  }

  /** A step is a bijection of the 64-bit words. */
  lemma StepBijective(w: Word)
    ensures Unstep(Step(w)) == w && Step(Unstep(w)) == w
  {
    UnstepStep(w);
    StepUnstep(w);
  }

  function Iterate<T>(f: T -> T, x: T, n: nat): T {
    if n == 0 then x else f(Iterate(f, x, n - 1))
  }

  lemma {:induction false} IterateApart<T(!new)>(f: T -> T, x: T, y: T, n: nat)
    requires x != y && forall a, b :: f(a) == f(b) ==> a == b
    ensures Iterate(f, x, n) != Iterate(f, y, n)
  {
    if n > 0 {
      IterateApart(f, x, y, n - 1);
      var a, b := Iterate(f, x, n - 1), Iterate(f, y, n - 1);
      assert f(a) == f(b) ==> a == b;
    }
  }

  lemma {:induction false} IterateFixed<T>(f: T -> T, x: T, n: nat)
    requires f(x) == x
    ensures Iterate(f, x, n) == x
  {
    if n > 0 {
      IterateFixed(f, x, n - 1);
    }
  }

  lemma ZeroShifts(k: nat)
    ensures XorLeft(ZERO, k) == ZERO && XorRight(ZERO, k) == ZERO
  {
  }

  lemma ZeroStep()
    ensures Step(ZERO) == ZERO
  {
    ZeroShifts(13);
    ZeroShifts(7);
    ZeroShifts(17);
  }

  /** Different seeds never meet, and a nonzero seed never reaches zero. */
  lemma SeedsStayApart(seed: Word, other: Word, n: nat)
    requires seed != other
    ensures Iterate(Step, seed, n) != Iterate(Step, other, n)
    ensures seed != ZERO ==> Iterate(Step, seed, n) != ZERO
  {
    forall a: Word, b: Word ensures Step(a) == Step(b) ==> a == b {
      StepBijective(a);
      StepBijective(b);
    }
    IterateApart(Step, seed, other, n);
    if seed != ZERO {
      IterateApart(Step, seed, ZERO, n);
      ZeroStep();
      IterateFixed(Step, ZERO, n);
    }
  }

  // ---- Words as numbers ----

  /** The number that the lowest `n` bits stand for. */
  function Value(w: Word, n: nat): nat
    requires n <= 64
  {
    if n == 0 then 0 else Value(w, n - 1) + if w[n - 1] then Weight(n - 1) else 0
  }

  function Weight(n: nat): (x: nat)
    ensures x > 0
  {
    if n == 0 then 1 else 2 * Weight(n - 1)
  }

  lemma {:induction false} WeightAdds(n: nat, k: nat)
    ensures Weight(n + k) == Weight(n) * Weight(k)
  {
    if n > 0 {
      WeightAdds(n - 1, k);
    }
  }

  /** Different words are different numbers below two to the power of 64. */
  lemma {:induction false} ValueBound(w: Word, n: nat)
    requires n <= 64
    ensures Value(w, n) < Weight(n)
  {
    if n > 0 {
      ValueBound(w, n - 1);
    }
  }

  lemma {:induction false} ValueDetermines(x: Word, y: Word, n: nat)
    requires n <= 64 && Value(x, n) == Value(y, n)
    ensures x[..n] == y[..n]
  {
    if n > 0 {
      ValueBound(x, n - 1);
      ValueBound(y, n - 1);
      ValueDetermines(x, y, n - 1);
      assert x[..n] == x[..n - 1] + [x[n - 1]] && y[..n] == y[..n - 1] + [y[n - 1]];
    }
  }

  lemma {:induction false} ShiftLeftLow(w: Word, k: nat, n: nat)
    requires k <= n <= 64
    ensures Value(ShiftLeft(w, k), n) == Weight(k) * Value(w, n - k)
    decreases n
  {
    if n == k {
      ZeroLow(ShiftLeft(w, k), n);
    } else {
      ShiftLeftLow(w, k, n - 1);
      var m := n - 1 - k;
      WeightAdds(k, m);
      assert ShiftLeft(w, k)[n - 1] == w[m];
      Distribute(Weight(k), Value(w, m), if w[m] then Weight(m) else 0);
    }
  }

  lemma {:induction false} ZeroLow(w: Word, n: nat)
    requires n <= 64 && forall i :: 0 <= i < n ==> !w[i]
    ensures Value(w, n) == 0
  {
    if n > 0 {
      ZeroLow(w, n - 1);
    }
  }

  /** The bits from `k` on are the number shifted right. */
  lemma {:induction false} SplitValue(w: Word, k: nat, n: nat)
    requires k + n <= 64
    ensures Value(w, k + n) == Value(w, k) + Weight(k) * Value(ShiftRight(w, k), n)
    decreases n
  {
    if n > 0 {
      SplitValue(w, k, n - 1);
      var v := ShiftRight(w, k);
      WeightAdds(k, n - 1);
      assert v[n - 1] == w[k + n - 1];
      Distribute(Weight(k), Value(v, n - 1), if v[n - 1] then Weight(n - 1) else 0);
    }
  }

  lemma {:induction false} HighZero(w: Word, m: nat, n: nat)
    requires m <= n <= 64 && forall i :: m <= i < n ==> !w[i]
    ensures Value(w, n) == Value(w, m)
    decreases n
  {
    if n > m {
      HighZero(w, m, n - 1);
    }
  }

  lemma Distribute(a: nat, b: nat, c: nat)
    ensures a * (b + c) == a * b + a * c
  {
  }

  lemma DivideBy(a: nat, q: nat, r: nat, b: nat)
    requires b > 0 && a == r + b * q && r < b
    ensures a / b == q && a % b == r
  {
    var x, y := a / b, a % b;
    assert a == b * x + y;
    if x > q {
      Distribute(b, q + 1, x - q - 1);
      Distribute(b, q, 1);
    } else if x < q {
      Distribute(b, x + 1, q - x - 1);
      Distribute(b, x, 1);
    }
  }

  /** Shifting right divides. */
  lemma ShiftRightValue(w: Word, k: nat)
    requires k <= 64
    ensures Value(ShiftRight(w, k), 64) == Value(w, 64) / Weight(k)
  {
    SplitValue(w, k, 64 - k);
    HighZero(ShiftRight(w, k), 64 - k, 64);
    ValueBound(w, k);
    DivideBy(Value(w, 64), Value(ShiftRight(w, k), 64), Value(w, k), Weight(k));
  }

  /** Shifting left multiplies and wraps around. */
  lemma ShiftLeftValue(w: Word, k: nat)
    requires k <= 64
    ensures Value(ShiftLeft(w, k), 64) == Value(w, 64) * Weight(k) % Weight(64)
  {
    var low, high := Value(w, 64 - k), Value(ShiftRight(w, 64 - k), k);
    SplitValue(w, 64 - k, k);
    WeightAdds(64 - k, k);
    ShiftLeftLow(w, k, 64);
    ValueBound(ShiftLeft(w, k), 64);
    WrapProduct(low, Weight(64 - k), high, Weight(k));
  }

  lemma WrapProduct(low: nat, w: nat, high: nat, k: nat)
    requires k * low < w * k
    ensures (low + w * high) * k % (w * k) == k * low
  {
    Distribute(k, low, w * high);
    Regroup(k, w, high);
    DivideBy((low + w * high) * k, high, k * low, w * k);
  }

  lemma Regroup(a: nat, b: nat, c: nat)
    ensures a * (b * c) == (b * a) * c
  {
  }

  // ---- The step ----

  /** A step is linear: the images of the single bits determine it. */
  lemma StepXor(x: Word, y: Word)
    ensures Step(Xor(x, y)) == Xor(Step(x), Step(y))
  {
    XorLeftXor(x, y, 13);
    XorRightXor(XorLeft(x, 13), XorLeft(y, 13), 7);
    XorLeftXor(XorRight(XorLeft(x, 13), 7), XorRight(XorLeft(y, 13), 7), 17);
  }

  lemma XorLeftXor(x: Word, y: Word, k: nat)
    ensures XorLeft(Xor(x, y), k) == Xor(XorLeft(x, k), XorLeft(y, k))
  {
  }

  lemma XorRightXor(x: Word, y: Word, k: nat)
    ensures XorRight(Xor(x, y), k) == Xor(XorRight(x, k), XorRight(y, k))
  {
  }

  const ONE: Word := seq(64, i => i == 0)

  /** The bits of `w` below `n` are those listed, from the lowest on. */
  ghost predicate HasBits(w: Word, bits: seq<nat>, n: nat) {
    && n <= 64 && (forall i, j :: 0 <= i < j < |bits| ==> bits[i] < bits[j])
    && (forall b :: b in bits ==> b < n && w[b])
    && (forall b: nat :: b < n && w[b] ==> b in bits)
  }

  function WeightSum(bits: seq<nat>): nat {
    if bits == [] then 0 else WeightSum(bits[..|bits| - 1]) + Weight(bits[|bits| - 1])
  }

  /** A number is the sum of the weights of its bits. */
  lemma {:induction false} ValueIsSum(w: Word, bits: seq<nat>, n: nat)
    requires HasBits(w, bits, n)
    ensures Value(w, n) == WeightSum(bits)
    decreases n
  {
    if n == 0 {
      NoBits(w, bits);
    } else if w[n - 1] {
      TopBit(w, bits, n);
      ValueIsSum(w, bits[..|bits| - 1], n - 1);
    } else {
      ValueIsSum(w, bits, n - 1);
    }
  }

  lemma EndsListed(bits: seq<nat>)
    ensures bits == [] || (bits[0] in bits && bits[|bits| - 1] in bits)
  {
  }

  lemma NoBits(w: Word, bits: seq<nat>)
    requires HasBits(w, bits, 0)
    ensures bits == []
  {
    EndsListed(bits);
  }

  lemma TopBit(w: Word, bits: seq<nat>, n: nat)
    requires HasBits(w, bits, n) && n > 0 && w[n - 1]
    ensures bits != [] && bits[|bits| - 1] == n - 1 && HasBits(w, bits[..|bits| - 1], n - 1)
  {
    var i :| 0 <= i < |bits| && bits[i] == n - 1;
    EndsListed(bits);
    var front := bits[..|bits| - 1];
    forall b | b in front ensures b < n - 1 && w[b] {
      var j :| 0 <= j < |front| && front[j] == b;
      assert bits[j] < bits[|bits| - 1] && b in bits;
    }
    forall b: nat | b < n - 1 && w[b] ensures b in front {
      var j :| 0 <= j < |bits| && bits[j] == b;
      assert front[j] == b;
    }
  }

  lemma FirstShift(w: Word)
    requires HasBits(w, [0], 64)
    ensures HasBits(XorLeft(w, 13), [0, 13], 64)
  {
  }

  lemma SecondShift(w: Word)
    requires HasBits(w, [0, 13], 64)
    ensures HasBits(XorRight(w, 7), [0, 6, 13], 64)
  {
    var r := XorRight(w, 7);
    forall b: nat | b < 64 ensures r[b] <==> b == 0 || b == 6 || b == 13 {
      assert (w[b] <==> b == 0 || b == 13) && (b + 7 < 64 ==> (w[b + 7] <==> b + 7 == 13));
    }
  }

  lemma ThirdShift(w: Word)
    requires HasBits(w, [0, 6, 13], 64)
    ensures HasBits(XorLeft(w, 17), [0, 6, 13, 17, 23, 30], 64)
  {
  }

  lemma StepOneBits()
    ensures HasBits(ONE, [0], 64) && HasBits(Step(ONE), [0, 6, 13, 17, 23, 30], 64)
  {
    FirstShift(ONE);
    SecondShift(XorLeft(ONE, 13));
    ThirdShift(XorRight(XorLeft(ONE, 13), 7));
  }

  lemma Weights()
    ensures Weight(6) == 0x40 && Weight(13) == 0x2000 && Weight(17) == 0x2_0000
    ensures Weight(23) == 0x80_0000 && Weight(30) == 0x4000_0000
  {
  }

  lemma WeightSumSnoc(bits: seq<nat>, b: nat)
    ensures WeightSum(bits + [b]) == WeightSum(bits) + Weight(b)
  {
    assert (bits + [b])[..|bits|] == bits;
  }

  lemma SumOfSix(a: nat, b: nat, c: nat, d: nat, e: nat)
    ensures WeightSum([0, a, b, c, d, e]) == 1 + Weight(a) + Weight(b) + Weight(c) + Weight(d) + Weight(e)
  {
    WeightSumSnoc([], 0);
    WeightSumSnoc([0], a);
    WeightSumSnoc([0, a], b);
    WeightSumSnoc([0, a, b], c);
    WeightSumSnoc([0, a, b, c], d);
    WeightSumSnoc([0, a, b, c, d], e);
    assert [] + [0] == [0] && [0] + [a] == [0, a] && [0, a] + [b] == [0, a, b] && [0, a, b] + [c] == [0, a, b, c];
    assert [0, a, b, c] + [d] == [0, a, b, c, d] && [0, a, b, c, d] + [e] == [0, a, b, c, d, e];
  }

  /** From one the generator goes to 1082269761. */
  lemma StepOfOne()
    ensures Value(ONE, 64) == 1 && Value(Step(ONE), 64) == 1082269761
  {
    StepOneBits();
    ValueIsSum(ONE, [0], 64);
    WeightSumSnoc([], 0);
    assert [] + [0] == [0];
    ValueIsSum(Step(ONE), [0, 6, 13, 17, 23, 30], 64);
    SumOfSix(6, 13, 17, 23, 30);
    Weights();
  }
}
