/**
  The deterministic generator that drives bootstrap index selection (`SplitMix64` in comparison.rs), on 64-bit words
  with wrap-around arithmetic.  `Walk` is the state after a number of draws and `Mix` is the output function.  The laws
  show a full-period permutation: over any 2^64 consecutive draws every 64-bit word is produced exactly once.
 */
module SplitMix {
  import opened Words

  function Step(state: bv64): bv64 {
    state + 0x9E37_79B9_7F4A_7C15
  }

  // The five stages of the output function.
  function Shift30(v: bv64): bv64 { v ^ (v >> 30) }
  function Shift27(v: bv64): bv64 { v ^ (v >> 27) }
  function Shift31(v: bv64): bv64 { v ^ (v >> 31) }
  function ScaleA(v: bv64): bv64 { v * 0xBF58_476D_1CE4_E5B9 }
  function ScaleB(v: bv64): bv64 { v * 0x94D0_49BB_1331_11EB }

  /** The word produced by a draw that leaves the generator in `state`. */
  function Mix(state: bv64): bv64 {
    Shift31(ScaleB(Shift27(ScaleA(Shift30(state)))))
  }

  /** The state after `draws` draws. */
  function Walk(state: bv64, draws: nat): bv64
    decreases draws
  {
    if draws == 0 then state else Walk(Step(state), draws - 1)
  }

  /** The three rounds of a draw, as the stages of the output function. */
  lemma Rounds(v: bv64)
    ensures (v ^ (v >> 30)) * 0xBF58_476D_1CE4_E5B9 == ScaleA(Shift30(v))
    ensures (v ^ (v >> 27)) * 0x94D0_49BB_1331_11EB == ScaleB(Shift27(v))
    ensures v ^ (v >> 31) == Shift31(v)
  {
    calc { ScaleA(Shift30(v)); ScaleA(v ^ (v >> 30)); }
    calc { ScaleB(Shift27(v)); ScaleB(v ^ (v >> 27)); }
  }

  class SplitMix64 {
    var state: bv64

    constructor (seed: bv64)
      ensures state == seed
    {
      state := seed;
    }

    method Next() returns (word: bv64)
      modifies this
      ensures state == Step(old(state))
      ensures word == Mix(Step(old(state)))
    {
      state := state + 0x9E37_79B9_7F4A_7C15;
      var value := state;
      Rounds(value);
      value := (value ^ (value >> 30)) * 0xBF58_476D_1CE4_E5B9;
      Rounds(value);
      value := (value ^ (value >> 27)) * 0x94D0_49BB_1331_11EB;
      Rounds(value);
      word := value ^ (value >> 31);
    }
  }

  // ---- The output function is a permutation ----

  // Inverses of the stages.
  function Unshift30(v: bv64): bv64 { v ^ (v >> 30) ^ (v >> 60) }
  function Unshift27(v: bv64): bv64 { v ^ (v >> 27) ^ (v >> 54) }
  function Unshift31(v: bv64): bv64 { v ^ (v >> 31) ^ (v >> 62) }
  function UnscaleA(v: bv64): bv64 { v * 0x96DE_1B17_3F11_9089 }
  function UnscaleB(v: bv64): bv64 { v * 0x3196_42B2_D24D_8EC3 }

  function Unmix(word: bv64): bv64 {
    Unshift30(UnscaleA(Unshift27(UnscaleB(Unshift31(word)))))
  }

  // Each cancellation is stated on raw words first, where bit-vector
  // simplification settles it, and then carried over to the named stages.

  lemma ShiftsUndoneWords(v: bv64)
    ensures (v ^ (v >> 30)) ^ ((v ^ (v >> 30)) >> 30) ^ ((v ^ (v >> 30)) >> 60) == v
    ensures (v ^ (v >> 27)) ^ ((v ^ (v >> 27)) >> 27) ^ ((v ^ (v >> 27)) >> 54) == v
    ensures (v ^ (v >> 31)) ^ ((v ^ (v >> 31)) >> 31) ^ ((v ^ (v >> 31)) >> 62) == v
  {
  }

  lemma ShiftsUndoneUnfold(v: bv64)
    ensures Unshift30(v ^ (v >> 30)) == (v ^ (v >> 30)) ^ ((v ^ (v >> 30)) >> 30) ^ ((v ^ (v >> 30)) >> 60)
    ensures Unshift27(v ^ (v >> 27)) == (v ^ (v >> 27)) ^ ((v ^ (v >> 27)) >> 27) ^ ((v ^ (v >> 27)) >> 54)
    ensures Unshift31(v ^ (v >> 31)) == (v ^ (v >> 31)) ^ ((v ^ (v >> 31)) >> 31) ^ ((v ^ (v >> 31)) >> 62)
  {
  }

  lemma ShiftsUndone(v: bv64)
    ensures Unshift30(Shift30(v)) == v
    ensures Unshift27(Shift27(v)) == v
    ensures Unshift31(Shift31(v)) == v
  {
    assert Shift30(v) == v ^ (v >> 30);
    assert Shift27(v) == v ^ (v >> 27);
    assert Shift31(v) == v ^ (v >> 31);
    ShiftsUndoneUnfold(v);
    ShiftsUndoneWords(v);
  }

  lemma ShiftsRedoneWords(v: bv64)
    ensures (v ^ (v >> 30) ^ (v >> 60)) ^ ((v ^ (v >> 30) ^ (v >> 60)) >> 30) == v
    ensures (v ^ (v >> 27) ^ (v >> 54)) ^ ((v ^ (v >> 27) ^ (v >> 54)) >> 27) == v
    ensures (v ^ (v >> 31) ^ (v >> 62)) ^ ((v ^ (v >> 31) ^ (v >> 62)) >> 31) == v
  {
  }

  lemma ShiftsRedoneUnfold(v: bv64)
    ensures Shift30(v ^ (v >> 30) ^ (v >> 60)) == (v ^ (v >> 30) ^ (v >> 60)) ^ ((v ^ (v >> 30) ^ (v >> 60)) >> 30)
    ensures Shift27(v ^ (v >> 27) ^ (v >> 54)) == (v ^ (v >> 27) ^ (v >> 54)) ^ ((v ^ (v >> 27) ^ (v >> 54)) >> 27)
    ensures Shift31(v ^ (v >> 31) ^ (v >> 62)) == (v ^ (v >> 31) ^ (v >> 62)) ^ ((v ^ (v >> 31) ^ (v >> 62)) >> 31)
  {
  }

  lemma ShiftsRedone(v: bv64)
    ensures Shift30(Unshift30(v)) == v
    ensures Shift27(Unshift27(v)) == v
    ensures Shift31(Unshift31(v)) == v
  {
    assert Unshift30(v) == v ^ (v >> 30) ^ (v >> 60);
    assert Unshift27(v) == v ^ (v >> 27) ^ (v >> 54);
    assert Unshift31(v) == v ^ (v >> 31) ^ (v >> 62);
    ShiftsRedoneUnfold(v);
    ShiftsRedoneWords(v);
  }

  lemma ScalesCancelWords(v: bv64)
    ensures (v * 0xBF58_476D_1CE4_E5B9) * 0x96DE_1B17_3F11_9089 == v
    ensures (v * 0x96DE_1B17_3F11_9089) * 0xBF58_476D_1CE4_E5B9 == v
    ensures (v * 0x94D0_49BB_1331_11EB) * 0x3196_42B2_D24D_8EC3 == v
    ensures (v * 0x3196_42B2_D24D_8EC3) * 0x94D0_49BB_1331_11EB == v
  {
  }

  lemma ScalesUnfold(v: bv64)
    ensures UnscaleA(v * 0xBF58_476D_1CE4_E5B9) == (v * 0xBF58_476D_1CE4_E5B9) * 0x96DE_1B17_3F11_9089
    ensures ScaleA(v * 0x96DE_1B17_3F11_9089) == (v * 0x96DE_1B17_3F11_9089) * 0xBF58_476D_1CE4_E5B9
    ensures UnscaleB(v * 0x94D0_49BB_1331_11EB) == (v * 0x94D0_49BB_1331_11EB) * 0x3196_42B2_D24D_8EC3
    ensures ScaleB(v * 0x3196_42B2_D24D_8EC3) == (v * 0x3196_42B2_D24D_8EC3) * 0x94D0_49BB_1331_11EB
  {
  }

  lemma ScalesCancel(v: bv64)
    ensures UnscaleA(ScaleA(v)) == v && ScaleA(UnscaleA(v)) == v
    ensures UnscaleB(ScaleB(v)) == v && ScaleB(UnscaleB(v)) == v
  {
    assert ScaleA(v) == v * 0xBF58_476D_1CE4_E5B9 && UnscaleA(v) == v * 0x96DE_1B17_3F11_9089;
    assert ScaleB(v) == v * 0x94D0_49BB_1331_11EB && UnscaleB(v) == v * 0x3196_42B2_D24D_8EC3;
    ScalesUnfold(v);
    ScalesCancelWords(v);
  }

  lemma UnmixInvertsMix(state: bv64)
    ensures Unmix(Mix(state)) == state
  {
    var a := Shift30(state);
    var b := Shift27(ScaleA(a));
    ShiftsUndone(state);
    ScalesCancel(a);
    ShiftsUndone(ScaleA(a));
    ScalesCancel(b);
    ShiftsUndone(ScaleB(b));
  }

  lemma MixInvertsUnmix(word: bv64)
    ensures Mix(Unmix(word)) == word
  {
    var b := Unshift31(word);
    var a := Unshift27(UnscaleB(b));
    ShiftsRedone(word);
    ScalesCancel(b);
    ShiftsRedone(UnscaleB(b));
    ScalesCancel(a);
    ShiftsRedone(UnscaleA(a));
  }

  /** The output function is injective, so distinct states give distinct words. */
  lemma MixIsInjective(s: bv64, t: bv64)
    requires Mix(s) == Mix(t)
    ensures s == t
  {
    UnmixInvertsMix(s);
    UnmixInvertsMix(t);
  }

  // ---- The state walk has full period ----

  /** The state increment times `r`, and its inverse: the increment is odd. */
  function Gammas(r: bv64): bv64 { 0x9E37_79B9_7F4A_7C15 * r }
  function Ungamma(r: bv64): bv64 { 0xF1DE_83E1_9937_733D * r }

  lemma GammaWords(r: bv64, s: bv64)
    ensures 0x9E37_79B9_7F4A_7C15 * (r + 1) == 0x9E37_79B9_7F4A_7C15 * r + 0x9E37_79B9_7F4A_7C15
    ensures 0xF1DE_83E1_9937_733D * (0x9E37_79B9_7F4A_7C15 * r) == r
    ensures 0x9E37_79B9_7F4A_7C15 * (0xF1DE_83E1_9937_733D * r) == r
    ensures (r + 0x9E37_79B9_7F4A_7C15) + s == r + (s + 0x9E37_79B9_7F4A_7C15)
  {
  }

  lemma GammasIncrement(r: bv64)
    ensures Gammas(Increment(r)) == Step(Gammas(r))
  {
    calc {
      Gammas(Increment(r));
      Gammas(r + 1);
      0x9E37_79B9_7F4A_7C15 * (r + 1);
      { GammaWords(r, 0); }
      0x9E37_79B9_7F4A_7C15 * r + 0x9E37_79B9_7F4A_7C15;
      Gammas(r) + 0x9E37_79B9_7F4A_7C15;
      Step(Gammas(r));
    }
  }

  lemma UngammaGammas(r: bv64)
    ensures Ungamma(Gammas(r)) == r
  {
    calc {
      Ungamma(Gammas(r));
      Ungamma(0x9E37_79B9_7F4A_7C15 * r);
      0xF1DE_83E1_9937_733D * (0x9E37_79B9_7F4A_7C15 * r);
      { GammaWords(r, 0); }
      r;
    }
  }

  lemma GammasUngamma(r: bv64)
    ensures Gammas(Ungamma(r)) == r
  {
    calc {
      Gammas(Ungamma(r));
      Gammas(0xF1DE_83E1_9937_733D * r);
      0x9E37_79B9_7F4A_7C15 * (0xF1DE_83E1_9937_733D * r);
      { GammaWords(r, 0); }
      r;
    }
  }

  lemma SumStep(a: bv64, b: bv64)
    ensures Sum(Step(a), b) == Sum(a, Step(b))
  {
    calc {
      Sum(Step(a), b);
      Sum(a + 0x9E37_79B9_7F4A_7C15, b);
      (a + 0x9E37_79B9_7F4A_7C15) + b;
      { GammaWords(a, b); }
      a + (b + 0x9E37_79B9_7F4A_7C15);
      Sum(a, b + 0x9E37_79B9_7F4A_7C15);
      Sum(a, Step(b));
    }
  }

  lemma GammasZero()
    ensures Gammas(0) == 0
  {
  }

  lemma {:induction false} WalkIsLinear(state: bv64, k: nat)
    ensures Walk(state, k) == Sum(state, Gammas(Residue(k)))
    decreases k
  {
    if k == 0 {
      GammasZero();
      SumLaws(state, 0);
    } else {
      var r := Residue(k - 1);
      WalkIsLinear(Step(state), k - 1);
      SumStep(state, Gammas(r));
      GammasIncrement(r);
    }
  }

  lemma {:induction false} WalkConcatenates(state: bv64, i: nat, j: nat)
    ensures Walk(state, i + j) == Walk(Walk(state, i), j)
    decreases i
  {
    if i > 0 {
      WalkConcatenates(Step(state), i - 1, j);
    }
  }

  /** The state returns to where it was after exactly the multiples of 2^64 draws. */
  lemma WalkPeriod(state: bv64, k: nat)
    ensures Walk(state, k) == state <==> k % PERIOD == 0
  {
    WalkIsLinear(state, k);
    ResidueKernel(k);
    SumLaws(state, Gammas(Residue(k)));
    UngammaGammas(Residue(k));
    UngammaGammas(0);
    GammasZero();
  }

  /** The word produced by draw number `k`, counting from 0. */
  function Output(seed: bv64, k: nat): bv64 {
    Mix(Walk(seed, k + 1))
  }

  /** Draw number `k` moves the state by one step and yields the word of that number. */
  lemma NextWord(seed: bv64, k: nat)
    ensures Step(Walk(seed, k)) == Walk(seed, k + 1) && Mix(Step(Walk(seed, k))) == Output(seed, k)
  {
    hide Mix, Step;
    WalkConcatenates(seed, k, 1);
    assert Walk(Walk(seed, k), 1) == Step(Walk(seed, k));
  }

  lemma WalkNowhere(seed: bv64)
    ensures Walk(seed, 0) == seed
  {
  }

  /** Two draws produce the same word exactly when they are a multiple of 2^64 apart. */
  lemma OutputsRepeatWithPeriod(seed: bv64, i: nat, j: nat)
    requires i <= j
    ensures Output(seed, i) == Output(seed, j) <==> (j - i) % PERIOD == 0
  {
    WalkConcatenates(seed, i + 1, j - i);
    assert i + 1 + (j - i) == j + 1;
    WalkPeriod(Walk(seed, i + 1), j - i);
    if Output(seed, i) == Output(seed, j) {
      MixIsInjective(Walk(seed, i + 1), Walk(seed, j + 1));
    }
  }

  /** Every 64-bit word is produced within the first 2^64 draws, and only once. */
  lemma EveryWordOncePerPeriod(seed: bv64, word: bv64)
    ensures exists k: nat ::
              && k < PERIOD && Output(seed, k) == word
              && forall j: nat :: j < PERIOD && Output(seed, j) == word ==> j == k
  {
    hide Mix, Unmix, Gammas, Ungamma, Halved;
    var first := Step(seed);
    var offset := Difference(Unmix(word), first);
    WordWidth(Ungamma(offset));
    var k := ResidueReaches(Ungamma(offset), 64);
    WalkIsLinear(first, k);
    GammasUngamma(offset);
    SumLaws(Unmix(word), first);
    MixInvertsUnmix(word);
    assert Output(seed, k) == word;
    forall j: nat | j < PERIOD && Output(seed, j) == word
      ensures j == k
    {
      OutputsRepeatWithPeriod(seed, if j <= k then j else k, if j <= k then k else j);
    }
  }

  /** The word of draw number `k` as a number. */
  function Word(seed: bv64, k: nat): (word: nat)
    ensures word < PERIOD
  {
    Output(seed, k) as nat
  }

  /** No two words are the same number. */
  lemma NumbersTellWords(a: bv64, b: bv64)
    requires a as nat == b as nat
    ensures a == b
  {
    assert (a as nat) as bv64 == a && (b as nat) as bv64 == b;
  }

  lemma NumberOnce(seed: bv64, j: nat, k: nat)
    requires j < PERIOD && k < PERIOD && Word(seed, j) == Word(seed, k)
    ensures j == k
  {
    hide Output;
    NumbersTellWords(Output(seed, j), Output(seed, k));
    EveryWordOncePerPeriod(seed, Output(seed, j));
  }

  lemma WordShifts(seed: bv64, i: nat, j: nat)
    ensures Word(Walk(seed, i), j) == Word(seed, i + j)
  {
    hide Mix;
    WalkConcatenates(seed, i, j + 1);
    assert i + (j + 1) == (i + j) + 1;
  }
}
