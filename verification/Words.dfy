/**
  64-bit words with wrap-around, and the naturals they stand for.

  `Residue(k)` is what counting to `k` leaves in a word: it is 0 exactly at the multiples
  of 2^64, and every word is reached within 2^64 steps.  Both are shown by halving, bit by
  bit, so that no proof needs more of a word than its lowest bit and one shift.

  The operations are named functions, so that proofs by induction see no bit-vectors; the
  facts about a single operation are left to bit-vector simplification.
 */
module Words {

  const PERIOD: nat := 0x1_0000_0000_0000_0000

  function Increment(word: bv64): bv64 { word + 1 }
  function Double(word: bv64): bv64 { word << 1 }
  function Half(word: bv64): bv64 { word >> 1 }
  function Sum(a: bv64, b: bv64): bv64 { a + b }
  function Difference(a: bv64, b: bv64): bv64 { a - b }

  lemma SumLaws(a: bv64, b: bv64)
    ensures Sum(b, Difference(a, b)) == a
    ensures Sum(a, b) == a <==> b == 0
  {
  }

  /** `k` reduced to a 64-bit word, by repeated wrapping increments. */
  function Residue(k: nat): bv64 {
    if k == 0 then 0 else Increment(Residue(k - 1))
  }

  lemma DoubleIncrement(w: bv64)
    ensures Double(Increment(w)) == Increment(Increment(Double(w)))
  {
  }

  lemma {:induction false} ResidueDoubles(h: nat)
    ensures Residue(2 * h) == Double(Residue(h))
  {
    if h > 0 {
      ResidueDoubles(h - 1);
      DoubleIncrement(Residue(h - 1));
      assert Residue(2 * h) == Increment(Residue(2 * h - 1)) == Increment(Increment(Residue(2 * h - 2)));
    }
  }

  predicate Odd(word: bv64) { word & 1 == 1 }

  lemma IncrementFlipsParity(word: bv64)
    ensures Odd(Increment(word)) <==> !Odd(word)
  {
  }

  lemma {:induction false} ResidueParity(k: nat)
    ensures Odd(Residue(k)) <==> k % 2 == 1
  {
    if k > 0 {
      ResidueParity(k - 1);
      IncrementFlipsParity(Residue(k - 1));
    }
  }

  /** `word` doubled `times` times. */
  function Doubled(word: bv64, times: nat): bv64
    decreases times
  {
    if times == 0 then word else Doubled(Double(word), times - 1)
  }

  /** `word` halved (shifted right) `times` times. */
  function Halved(word: bv64, times: nat): bv64
    decreases times
  {
    if times == 0 then word else Halved(Half(word), times - 1)
  }

  function Pow2(bits: nat): (p: nat)
    ensures p > 0
  {
    if bits == 0 then 1 else 2 * Pow2(bits - 1)
  }

  lemma ShiftWords(w: bv64)
    ensures Double(Double(Double(w))) == w << 3 && Half(Half(Half(w))) == w >> 3
    ensures ((w << 3) << 3) << 3 == w << 9 && ((w >> 3) >> 3) >> 3 == w >> 9
    ensures ((w << 9) << 9) << 3 == w << 21 && ((w >> 9) >> 9) >> 3 == w >> 21
    ensures ((w << 21) << 21) << 21 == w << 63 && ((w >> 21) >> 21) >> 21 == w >> 63
  {
  }

  lemma ShiftedBy3(w: bv64, times: nat)
    ensures Doubled(w, times + 3) == Doubled(w << 3, times)
    ensures Halved(w, times + 3) == Halved(w >> 3, times)
  {
    assert Doubled(w, times + 3) == Doubled(Double(w), times + 2) == Doubled(Double(Double(w)), times + 1);
    assert Halved(w, times + 3) == Halved(Half(w), times + 2) == Halved(Half(Half(w)), times + 1);
    ShiftWords(w);
  }

  lemma DoubledBy9(w: bv64, times: nat)
    ensures Doubled(w, times + 9) == Doubled(w << 9, times)
  {
    var a := w << 3;
    var b := a << 3;
    ShiftedBy3(w, times + 6);
    ShiftedBy3(a, times + 3);
    ShiftedBy3(b, times);
    ShiftWords(w);
  }

  lemma DoubledBy21(w: bv64, times: nat)
    ensures Doubled(w, times + 21) == Doubled(w << 21, times)
  {
    var a := w << 9;
    var b := a << 9;
    DoubledBy9(w, times + 12);
    DoubledBy9(a, times + 3);
    ShiftedBy3(b, times);
    ShiftWords(w);
  }

  lemma DoubledBy63(w: bv64, times: nat)
    ensures Doubled(w, times + 63) == Doubled(w << 63, times)
  {
    var a := w << 21;
    var b := a << 21;
    DoubledBy21(w, times + 42);
    DoubledBy21(a, times + 21);
    DoubledBy21(b, times);
    ShiftWords(w);
  }

  lemma HalvedBy9(w: bv64, times: nat)
    ensures Halved(w, times + 9) == Halved(w >> 9, times)
  {
    var a := w >> 3;
    var b := a >> 3;
    ShiftedBy3(w, times + 6);
    ShiftedBy3(a, times + 3);
    ShiftedBy3(b, times);
    ShiftWords(w);
  }

  lemma HalvedBy21(w: bv64, times: nat)
    ensures Halved(w, times + 21) == Halved(w >> 21, times)
  {
    var a := w >> 9;
    var b := a >> 9;
    HalvedBy9(w, times + 12);
    HalvedBy9(a, times + 3);
    ShiftedBy3(b, times);
    ShiftWords(w);
  }

  lemma HalvedBy63(w: bv64, times: nat)
    ensures Halved(w, times + 63) == Halved(w >> 63, times)
  {
    var a := w >> 21;
    var b := a >> 21;
    HalvedBy21(w, times + 42);
    HalvedBy21(a, times + 21);
    HalvedBy21(b, times);
    ShiftWords(w);
  }

  lemma {:induction false} Pow2Adds(a: nat, b: nat)
    ensures Pow2(a + b) == Pow2(a) * Pow2(b)
  {
    if a > 0 {
      Pow2Adds(a - 1, b);
    }
  }

  lemma Pow2Word()
    ensures Pow2(64) == PERIOD
  {
    assert Pow2(4) == 2 * Pow2(3) == 4 * Pow2(2) == 16;
    Pow2Adds(4, 4);
    Pow2Adds(8, 8);
    Pow2Adds(16, 16);
    Pow2Adds(32, 32);
  }

  lemma TopShifts(w: bv64)
    ensures Double(w << 63) == 0
    ensures Half(w >> 63) == 0
    ensures w << 63 == 0 ==> !Odd(w)
  {
  }

  lemma DoubleOutermost(w: bv64, n: nat)
    ensures Doubled(w, n + 1) == Double(Doubled(w, n))
    ensures Halved(w, n + 1) == Half(Halved(w, n))
    decreases n
  {
    if n > 0 {
      DoubleOutermost(Double(w), n - 1);
      DoubleOutermost(Half(w), n - 1);
    }
  }

  /** 64 doublings or halvings lose every bit; 63 doublings keep only the low bit. */
  lemma WordWidth(w: bv64)
    ensures Doubled(w, 64) == 0
    ensures Halved(w, 64) == 0
    ensures Doubled(w, 63) == 0 ==> !Odd(w)
    ensures Pow2(64) == PERIOD
  {
    DoubledBy63(w, 0);
    HalvedBy63(w, 0);
    Pow2Word();
    DoubleOutermost(w, 63);
    TopShifts(w);
  }

  lemma {:induction false} DoubledZero(w: bv64, n: nat, m: nat)
    requires n <= m && Doubled(w, n) == 0
    ensures Doubled(w, m) == 0
    decreases m
  {
    if n < m {
      DoubledZero(w, n, m - 1);
      DoubleOutermost(w, m - 1);
      assert Double(0) == 0;
    }
  }

  lemma PowTimes(bits: nat, m: nat)
    requires bits > 0
    ensures Pow2(bits) * m == Pow2(bits - 1) * (2 * m) == 2 * (Pow2(bits - 1) * m)
  {
  }

  lemma {:induction false} ResidueScales(bits: nat, m: nat)
    ensures Residue(Pow2(bits) * m) == Doubled(Residue(m), bits)
  {
    if bits == 0 {
      assert Pow2(0) * m == m;
    } else {
      ResidueDoubles(m);
      ResidueScales(bits - 1, 2 * m);
      PowTimes(bits, m);
    }
  }

  lemma {:induction false} ResidueKernelStep(k: nat, bits: nat) returns (m: nat)
    requires bits <= 64 && Doubled(Residue(k), 64 - bits) == 0
    ensures k == Pow2(bits) * m
  {
    m := k;
    if bits > 0 {
      DoubledZero(Residue(k), 64 - bits, 63);
      WordWidth(Residue(k));
      ResidueParity(k);
      ResidueDoubles(k / 2);
      m := ResidueKernelStep(k / 2, bits - 1);
      PowTimes(bits, m);
    }
  }

  lemma ResidueKernel(k: nat)
    ensures Residue(k) == 0 <==> k % PERIOD == 0
  {
    WordWidth(Residue(k / PERIOD));
    if Residue(k) == 0 {
      var m := ResidueKernelStep(k, 64);
      assert k == PERIOD * m;
    }
    if k % PERIOD == 0 {
      ResidueScales(64, k / PERIOD);
      assert k == PERIOD * (k / PERIOD);
    }
  }

  lemma HalfDouble(w: bv64)
    ensures !Odd(w) ==> Double(Half(w)) == w
    ensures Odd(w) ==> Increment(Double(Half(w))) == w
  {
  }

  lemma {:induction false} ResidueReaches(word: bv64, bits: nat) returns (k: nat)
    requires Halved(word, bits) == 0
    ensures k < Pow2(bits) && Residue(k) == word
    decreases bits
  {
    k := 0;
    if bits > 0 {
      var h := ResidueReaches(Half(word), bits - 1);
      ResidueDoubles(h);
      HalfDouble(word);
      k := if Odd(word) then 2 * h + 1 else 2 * h;
    }
  }
}
