/**
  Which values a bootstrap interval is made of, in terms of the words of the generator: every draw takes the value at
  the remainder of its word, every position is drawn, and over a full period all positions are drawn equally often.
 */
module ResamplingLaws {
  import opened Averages
  import opened Bootstrap
  import opened BootstrapLaws
  import opened SplitMix
  import opened Words

  /** The position that draw number `k` takes from a sample of `len` values. */
  function Position(seed: bv64, k: nat, len: nat): nat
    requires len > 0
  {
    Word(seed, k) % len
  }

  /** The logarithms of the values that one side of resample number `r` draws: `first` counts
      the draws before it. */
  function DrawnLogs(values: seq<real>, log: Logarithms, seed: bv64, first: nat): (logs: seq<real>)
    requires values != []
    ensures |logs| == |values|
  {
    seq(|values|, k requires 0 <= k < |values| => log.ln(values[Position(seed, first + k, |values|)]))
  }

  /** Each effect of an unpaired interval compares the mean logarithms of as many candidate and
      as many baseline values as there are, drawn one word a value: resample `r` uses the
      words from number `r * (n + m)` on, first for the candidate, then for the baseline. */
  lemma EffectOverWords(candidate: seq<real>, baseline: seq<real>, direction: MetricDirection, log: Logarithms,
                        seed: bv64, resamples: nat, r: nat)
    requires candidate != [] && baseline != [] && r < resamples
    ensures var first := r * (|candidate| + |baseline|);
            var c := Average(DrawnLogs(candidate, log, seed, first));
            var b := Average(DrawnLogs(baseline, log, seed, first + |candidate|));
            var effect := UnpairedEffects(candidate, baseline, direction, log, seed, resamples)[r];
            && (direction.LowerIsBetter? ==> effect == log.exp(c - b) - 1.0)
            && (direction.HigherIsBetter? ==> effect == log.exp(b - c) - 1.0)
            && (direction.TargetRange? || direction.Informational? ==> effect == log.exp(0.0) - 1.0)
  {
    hide Word, Average, Logs;
    var first := r * (|candidate| + |baseline|);
    assert Start(r, |candidate| + |baseline|) == first;
    DrawnAreLogs(candidate, log, seed, first);
    DrawnAreLogs(baseline, log, seed, first + |candidate|);
  }

  lemma DrawnAreLogs(values: seq<real>, log: Logarithms, seed: bv64, first: nat)
    requires values != []
    ensures Drawn(Logs(values, log.ln), seed, first) == DrawnLogs(values, log, seed, first)
  {
    hide Word;
    forall k | 0 <= k < |values|
      ensures Drawn(Logs(values, log.ln), seed, first)[k] == DrawnLogs(values, log, seed, first)[k]
    {
      assert 0 <= Position(seed, first + k, |values|) < |values|;
    }
  }

  /** The same for pairs: resample `r` draws as many differences as there are. */
  lemma PairedEffectOverWords(differences: seq<real>, exp: real -> real, seed: bv64, resamples: nat, r: nat)
    requires differences != [] && r < resamples
    ensures var n := |differences|;
            PairedEffects(differences, exp, seed, resamples)[r]
              == exp(Average(seq(n, k requires 0 <= k < n => differences[Position(seed, r * n + k, n)]))) - 1.0
  {
    hide Word, Average;
    var n := |differences|;
    assert Start(r, n) == r * n;
    var drawn := seq(n, k requires 0 <= k < n => differences[Position(seed, r * n + k, n)]);
    forall k | 0 <= k < n
      ensures Drawn(differences, seed, r * n)[k] == drawn[k]
    {
      assert 0 <= Position(seed, r * n + k, n) < n;
    }
    assert Drawn(differences, seed, r * n) == drawn;
  }

  // ---- Every number is drawn once in a period ----

  ghost function Below(n: nat): (s: set<nat>)
    ensures |s| == n && forall x: nat :: x in s <==> x < n
  {
    if n == 0 then {} else Below(n - 1) + {n - 1}
  }

  ghost function Image(s: set<nat>, f: nat -> nat): (image: set<nat>)
    ensures forall x :: x in s ==> f(x) in image
    ensures forall y :: y in image ==> exists x :: x in s && f(x) == y
  {
    set x | x in s :: f(x)
  }

  ghost predicate Injective(s: set<nat>, f: nat -> nat) {
    forall x, y :: x in s && y in s && f(x) == f(y) ==> x == y
  }

  lemma {:induction false} ImageSize(s: set<nat>, f: nat -> nat)
    requires Injective(s, f)
    ensures |Image(s, f)| == |s|
    decreases |s|
  {
    if s != {} {
      var x :| x in s;
      var rest := s - {x};
      ImageSize(rest, f);
      assert Image(s, f) == Image(rest, f) + {f(x)};
    }
  }

  lemma SubsetFills(s: set<nat>, t: set<nat>)
    requires s <= t && |s| == |t|
    ensures s == t
  {
    if t - s != {} {
      var x :| x in t - s;
      SubsetSize(s, t - {x});
    }
  }

  lemma {:induction false} SubsetSize(s: set<nat>, t: set<nat>)
    requires s <= t
    ensures |s| <= |t|
    decreases |t|
  {
    if s != {} {
      var x :| x in s;
      SubsetSize(s - {x}, t - {x});
    }
  }

  ghost predicate Within(s: set<nat>, f: nat -> nat) {
    forall x :: x in s ==> f(x) in s
  }

  lemma ImageWithin(s: set<nat>, f: nat -> nat)
    requires Within(s, f)
    ensures Image(s, f) <= s
  {
  }

  lemma Preimage(s: set<nat>, f: nat -> nat, y: nat) returns (x: nat)
    requires y in Image(s, f)
    ensures x in s && f(x) == y
  {
    x :| x in s && f(x) == y;
  }

  /** A function that maps a finite set to different members of it reaches them all. */
  lemma InjectionFills(s: set<nat>, f: nat -> nat, y: nat) returns (x: nat)
    requires Within(s, f) && Injective(s, f) && y in s
    ensures x in s && f(x) == y
  {
    hide *;
    ImageSize(s, f);
    ImageWithin(s, f);
    SubsetFills(Image(s, f), s);
    x := Preimage(s, f, y);
  }

  /** The draws of a period are different numbers below 2^64, so each number is drawn. */
  lemma EveryNumberOncePerPeriod(seed: bv64, word: nat) returns (k: nat)
    requires word < PERIOD
    ensures k < PERIOD && Word(seed, k) == word
    ensures forall j: nat :: j < PERIOD && Word(seed, j) == word ==> j == k
  {
    hide Word, Below;
    var draw := (k: nat) => Word(seed, k);
    forall i: nat, j: nat | i < PERIOD && j < PERIOD && draw(i) == draw(j)
      ensures i == j
    {
      NumberOnce(seed, i, j);
    }
    k := InjectionFills(Below(PERIOD), draw, word);
    forall j: nat | j < PERIOD && Word(seed, j) == word
      ensures j == k
    {
      NumberOnce(seed, j, k);
    }
  }

  // ---- Every position is drawn ----

  /** For every draw and every position some seed makes that draw take that position. */
  lemma PositionDrawn(k: nat, len: nat, i: nat) returns (seed: bv64)
    requires i < len <= PERIOD
    ensures Position(seed, k, len) == i
  {
    hide Word, Walk;
    var j := EveryNumberOncePerPeriod(Walk(0, k), i);
    seed := Walk(0, j);
    WordShifts(0, k, j);
    WordShifts(0, j, k);
    assert j + k == k + j;
    SmallRemainder(i, len);
  }

  lemma SmallRemainder(i: nat, len: nat)
    requires i < len
    ensures i % len == i
  {
  }

  /** So no value of a sample is left out: whichever draw and value one names, for some seed
      that draw of the resample takes that value. */
  lemma EveryValueDrawn(values: seq<real>, from: nat, k: nat, i: nat) returns (seed: bv64)
    requires k < |values| && i < |values| <= PERIOD
    ensures Drawn(values, seed, from)[k] == values[i]
  {
    seed := PositionDrawn(from + k, |values|, i);
  }

  // ---- Every position is drawn equally often ----

  /** The draws of one period that take position `i`. */
  ghost function DrawsAt(seed: bv64, len: nat, i: nat): set<nat>
    requires len > 0
  {
    set k: nat | k < PERIOD && Position(seed, k, len) == i
  }

  ghost function Residues(n: nat, len: nat, i: nat): set<nat>
    requires len > 0
  {
    set w: nat | w < n && w % len == i
  }

  lemma NextQuotient(n: nat, len: nat)
    requires len > 0
    ensures if n % len == len - 1 then (n + 1) / len == n / len + 1 && (n + 1) % len == 0
            else (n + 1) / len == n / len && (n + 1) % len == n % len + 1
  {
    var q, r := n / len, n % len;
    assert n + 1 == q * len + (r + 1);
    if r == len - 1 {
      assert n + 1 == (q + 1) * len;
      DivisionIsUnique(n + 1, len, q + 1, 0);
    } else {
      DivisionIsUnique(n + 1, len, q, r + 1);
    }
  }

  lemma DivisionIsUnique(n: nat, len: nat, q: nat, r: nat)
    requires len > 0 && r < len && n == q * len + r
    ensures n / len == q && n % len == r
  {
    var p, s := n / len, n % len;
    assert p * len + s == q * len + r;
    if p > q {
      FarApart(p, q, len);
    } else if p < q {
      FarApart(q, p, len);
    }
  }

  lemma FarApart(p: nat, q: nat, len: nat)
    requires p > q
    ensures p * len >= q * len + len
  {
    var d := p - q;
    assert p * len == (q + d) * len == q * len + d * len;
    AtLeastOnce(d, len);
  }

  lemma AtLeastOnce(d: nat, len: nat)
    requires d >= 1
    ensures d * len >= len
  {
    assert d * len == len + (d - 1) * len;
  }

  lemma {:induction false} CountResidues(n: nat, len: nat, i: nat)
    requires i < len
    ensures |Residues(n, len, i)| == n / len + if i < n % len then 1 else 0
  {
    if n == 0 {
      assert Residues(0, len, i) == {};
      DivisionIsUnique(0, len, 0, 0);
    } else {
      CountResidues(n - 1, len, i);
      NextQuotient(n - 1, len);
      assert Residues(n, len, i) == Residues(n - 1, len, i) + if (n - 1) % len == i then {n - 1} else {};
    }
  }

  /** Over one period every position is drawn equally often, up to one: the positions below
      2^64 modulo the sample size once more than the others. */
  lemma FairDraws(seed: bv64, len: nat, i: nat)
    requires i < len
    ensures |DrawsAt(seed, len, i)| == PERIOD / len + if i < PERIOD % len then 1 else 0
  {
    hide Word;
    var word := (k: nat) => Word(seed, k);
    var draws := DrawsAt(seed, len, i);
    forall j, k | j in draws && k in draws && word(j) == word(k)
      ensures j == k
    {
      var l := EveryNumberOncePerPeriod(seed, Word(seed, j));
    }
    hide Image;
    ImageSize(draws, word);
    forall w: nat
      ensures w in Image(draws, word) <==> w in Residues(PERIOD, len, i)
    {
      if w < PERIOD {
        var k := EveryNumberOncePerPeriod(seed, w);
        assert word(k) == w;
      }
    }
    assert Image(draws, word) == Residues(PERIOD, len, i);
    CountResidues(PERIOD, len, i);
  }
}
