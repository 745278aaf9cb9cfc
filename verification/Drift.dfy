/** `compute_kl_divergence` of agent_obs/drift/kl_divergence.py and the drift verdict of
    agent_obs/drift/detector.py, over exact reals. The natural logarithm is a parameter. */
module Drift {
  import opened Basics

  /** What is used of the logarithm: it lies below its tangent at 1, touching it there only, and it turns
      reciprocals into negatives. */
  ghost predicate IsLog(ln: real -> real) {
    && (forall x :: x > 0.0 ==> ln(x) <= x - 1.0)
    && (forall x :: x > 0.0 && x != 1.0 ==> ln(x) < x - 1.0)
    && forall x {:trigger ln(1.0 / x)} :: x > 0.0 ==> ln(1.0 / x) == -ln(x)
  }

  function Sum(xs: seq<real>): real {
    if xs == [] then 0.0 else xs[0] + Sum(xs[1..])
  }

  /** `hist + epsilon`. */
  function Smooth(counts: seq<nat>, epsilon: real): (ys: seq<real>)
    ensures |ys| == |counts|
    ensures forall i :: 0 <= i < |counts| ==> ys[i] == counts[i] as real + epsilon
  {
    seq(|counts|, i requires 0 <= i < |counts| => counts[i] as real + epsilon)
  }

  /** `normalize_histogram`. */
  function Normalize(xs: seq<real>): (ys: seq<real>)
    ensures |ys| == |xs|
    ensures Sum(xs) != 0.0 ==> forall i :: 0 <= i < |xs| ==> ys[i] == xs[i] / Sum(xs)
  {
    if Sum(xs) == 0.0 then seq(|xs|, i => 0.0)
    else seq(|xs|, i requires 0 <= i < |xs| => xs[i] / Sum(xs))
  }

  ghost predicate Positive(xs: seq<real>) {
    forall i :: 0 <= i < |xs| ==> xs[i] > 0.0
  }

  /** One term of the divergence. */
  function Term(ln: real -> real): (real, real) -> real {
    (p: real, q: real) => if q == 0.0 then 0.0 else p * ln(p / q)
  }

  /** The sum of `term` over corresponding entries. */
  function Total(term: (real, real) -> real, p: seq<real>, q: seq<real>): real
    requires |p| == |q|
  {
    if p == [] then 0.0 else term(p[0], q[0]) + Total(term, p[1..], q[1..])
  }

  /** `compute_kl_divergence`. */
  function Score(ln: real -> real, p: seq<nat>, q: seq<nat>, epsilon: real): real
    requires |p| == |q|
  {
    Total(Term(ln), Distribution(p, epsilon), Distribution(q, epsilon))
  }

  function Distribution(counts: seq<nat>, epsilon: real): seq<real> {
    Normalize(Smooth(counts, epsilon))
  }

  // ---------------------------------------------------------------- distributions

  lemma {:induction false} SumPositive(xs: seq<real>)
    requires Positive(xs)
    ensures xs != [] ==> Sum(xs) > 0.0
    ensures Sum(xs) >= 0.0
  {
    if xs != [] {
      SumPositive(xs[1..]);
    }
  }

  lemma {:induction false} SumScaled(xs: seq<real>, ys: seq<real>, d: real)
    requires |xs| == |ys| && d != 0.0 && forall i :: 0 <= i < |xs| ==> ys[i] == xs[i] / d
    ensures Sum(ys) == Sum(xs) / d
  {
    if xs != [] {
      SumScaled(xs[1..], ys[1..], d);
      assert xs[0] / d + Sum(xs[1..]) / d == (xs[0] + Sum(xs[1..])) / d;
    }
  }

  /** A smoothed and normalised histogram is a distribution without zeros. */
  lemma Proper(counts: seq<nat>, epsilon: real)
    requires counts != [] && epsilon > 0.0
    ensures Positive(Distribution(counts, epsilon)) && Sum(Distribution(counts, epsilon)) == 1.0
  {
    var xs := Smooth(counts, epsilon);
    SumPositive(xs);
    var d := Sum(xs);
    SumScaled(xs, Distribution(counts, epsilon), d);
    assert d / d == 1.0;
    forall i | 0 <= i < |xs|
      ensures xs[i] / d > 0.0
    {
      QuotientPositive(xs[i], d);
    }
  }

  lemma QuotientPositive(x: real, d: real)
    requires x > 0.0 && d > 0.0
    ensures x / d > 0.0
  {
  }

  // ---------------------------------------------------------------- the score

  /** With `r = q / p` and `a` below `r - 1`, the term `-p a` is at least `p - q`. */
  lemma TermCore(p: real, q: real, r: real, a: real)
    requires p > 0.0 && p * r == q && a <= r - 1.0
    ensures p * -a >= p - q
    ensures a < r - 1.0 ==> p * -a > p - q
  {
    var gap := r - 1.0 - a;
    assert p * gap >= 0.0 && (gap > 0.0 ==> p * gap > 0.0);
    assert p * gap == p * r - p - p * a;
    assert p * -a == -(p * a);
  }

  lemma Reciprocal(p: real, q: real)
    requires p > 0.0 && q > 0.0
    ensures q / p > 0.0 && p * (q / p) == q && p / q == 1.0 / (q / p)
  {
    var r := q / p;
    assert p * r == q;
    assert p / q == 1.0 / r;
  }

  /** One term of the divergence is at least the difference of the two shares, strictly so when they differ. */
  lemma TermBound(ln: real -> real, p: real, q: real)
    requires IsLog(ln) && p > 0.0 && q > 0.0
    ensures Term(ln)(p, q) >= p - q
    ensures p != q ==> Term(ln)(p, q) > p - q
    ensures p == q ==> Term(ln)(p, q) == 0.0
  {
    var r := q / p;
    Reciprocal(p, q);
    assert ln(1.0 / r) == -ln(r);
    TermCore(p, q, r, ln(r));
    if p == q {
      assert r == 1.0;
      assert ln(1.0 / 1.0) == -ln(1.0);
    }
  }

  /** `term` behaves like a divergence term on positive shares. */
  ghost predicate Divergent(term: (real, real) -> real) {
    forall p, q :: p > 0.0 && q > 0.0 ==>
      term(p, q) >= p - q && (p != q ==> term(p, q) > p - q) && (p == q ==> term(p, q) == 0.0)
  }

  lemma {:induction false} TotalBound(term: (real, real) -> real, p: seq<real>, q: seq<real>)
    requires Divergent(term) && |p| == |q| && Positive(p) && Positive(q)
    ensures Total(term, p, q) >= Sum(p) - Sum(q)
    ensures p != q ==> Total(term, p, q) > Sum(p) - Sum(q)
    ensures p == q ==> Total(term, p, q) == 0.0
  {
    if p != [] {
      TotalBound(term, p[1..], q[1..]);
      assert p == [p[0]] + p[1..] && q == [q[0]] + q[1..];
      assert p == q <==> p[0] == q[0] && p[1..] == q[1..];
      assert p[0] > 0.0 && q[0] > 0.0;
    }
  }

  /** The score of any two histograms of the same shape is never negative, and it is zero exactly when the
      smoothed distributions agree. */
  lemma ScoreNonNegative(ln: real -> real, p: seq<nat>, q: seq<nat>, epsilon: real)
    requires IsLog(ln) && |p| == |q| && p != [] && epsilon > 0.0
    ensures Score(ln, p, q, epsilon) >= 0.0
    ensures Score(ln, p, q, epsilon) == 0.0 <==> Distribution(p, epsilon) == Distribution(q, epsilon)
    ensures p == q ==> Score(ln, p, q, epsilon) == 0.0
  {
    Proper(p, epsilon);
    Proper(q, epsilon);
    forall x, y | x > 0.0 && y > 0.0
      ensures Term(ln)(x, y) >= x - y && (x != y ==> Term(ln)(x, y) > x - y) && (x == y ==> Term(ln)(x, y) == 0.0)
    {
      TermBound(ln, x, y);
    }
    TotalBound(Term(ln), Distribution(p, epsilon), Distribution(q, epsilon));
  }

  // ---------------------------------------------------------------- what the score is

  /** The logarithm turns quotients into differences. */
  ghost predicate Quotients(ln: real -> real) {
    forall x, y {:trigger ln(x / y)} :: x > 0.0 && y > 0.0 ==> ln(x / y) == ln(x) - ln(y)
  }

  /** All counts together. */
  function TotalCount(counts: seq<nat>): nat {
    if counts == [] then 0 else counts[0] + TotalCount(counts[1..])
  }

  /** The smoothed share of the `i`-th bin. */
  function ShareOf(counts: seq<nat>, epsilon: real, i: nat): real
    requires i < |counts| && epsilon > 0.0
  {
    TotalPositive(counts, epsilon);
    (counts[i] as real + epsilon) / (TotalCount(counts) as real + |counts| as real * epsilon)
  }

  lemma TotalPositive(counts: seq<nat>, epsilon: real)
    requires counts != [] && epsilon > 0.0
    ensures TotalCount(counts) as real + |counts| as real * epsilon > 0.0
  {
  }

  lemma {:induction false} SmoothSum(counts: seq<nat>, epsilon: real)
    ensures Sum(Smooth(counts, epsilon)) == TotalCount(counts) as real + |counts| as real * epsilon
  {
    if counts != [] {
      SmoothSum(counts[1..], epsilon);
      assert Smooth(counts, epsilon)[1..] == Smooth(counts[1..], epsilon);
    }
  }

  /** The smoothed shares: every count and epsilon, over the total of them. */
  function Shares(counts: seq<nat>, epsilon: real): (ys: seq<real>)
    requires epsilon > 0.0
    ensures |ys| == |counts| && forall i :: 0 <= i < |counts| ==> ys[i] == ShareOf(counts, epsilon, i)
  {
    seq(|counts|, i requires 0 <= i < |counts| => ShareOf(counts, epsilon, i))
  }

  lemma DistributionIs(counts: seq<nat>, epsilon: real)
    requires counts != [] && epsilon > 0.0
    ensures Distribution(counts, epsilon) == Shares(counts, epsilon)
  {
    SmoothSum(counts, epsilon);
    TotalPositive(counts, epsilon);
  }

  /** One share times the logarithm of another. */
  function Weighted(ln: real -> real): (real, real) -> real {
    (x: real, y: real) => x * ln(y)
  }

  lemma TermSplits(ln: real -> real, x: real, y: real)
    requires Quotients(ln) && x > 0.0 && y > 0.0
    ensures Term(ln)(x, y) == Weighted(ln)(x, x) - Weighted(ln)(x, y)
  {
    assert ln(x / y) == ln(x) - ln(y);
  }

  /** `term` is a difference of `weight` on all corresponding entries. */
  ghost predicate Splits(term: (real, real) -> real, weight: (real, real) -> real, p: seq<real>, q: seq<real>) {
    |p| == |q| && forall i :: 0 <= i < |p| ==> term(p[i], q[i]) == weight(p[i], p[i]) - weight(p[i], q[i])
  }

  lemma {:induction false} TotalSplits(term: (real, real) -> real, weight: (real, real) -> real,
                                       p: seq<real>, q: seq<real>)
    requires Splits(term, weight, p, q)
    ensures Total(term, p, q) == Total(weight, p, p) - Total(weight, p, q)
  {
    if p != [] {
      TotalSplits(term, weight, p[1..], q[1..]);
    }
  }

  /** The score of `q` against the baseline `p` is the sum of P ln P less the sum of P ln Q, with the smoothed
      shares. */
  lemma ScoreIs(ln: real -> real, p: seq<nat>, q: seq<nat>, epsilon: real)
    requires Quotients(ln) && |p| == |q| && p != [] && epsilon > 0.0
    ensures Score(ln, p, q, epsilon)
         == Total(Weighted(ln), Shares(p, epsilon), Shares(p, epsilon))
            - Total(Weighted(ln), Shares(p, epsilon), Shares(q, epsilon))
  {
    DistributionIs(p, epsilon);
    DistributionIs(q, epsilon);
    Proper(p, epsilon);
    Proper(q, epsilon);
    var a, b := Shares(p, epsilon), Shares(q, epsilon);
    forall i | 0 <= i < |a|
      ensures Term(ln)(a[i], b[i]) == Weighted(ln)(a[i], a[i]) - Weighted(ln)(a[i], b[i])
    {
      TermSplits(ln, a[i], b[i]);
    }
    TotalSplits(Term(ln), Weighted(ln), a, b);
  }

  /** So another window changes the score by the weighted difference of the logarithms of its shares. */
  lemma ScoreChange(ln: real -> real, p: seq<nat>, q: seq<nat>, r: seq<nat>, epsilon: real)
    requires Quotients(ln) && |p| == |q| == |r| && p != [] && epsilon > 0.0
    ensures Score(ln, p, r, epsilon) - Score(ln, p, q, epsilon)
         == Total(Weighted(ln), Shares(p, epsilon), Shares(q, epsilon))
            - Total(Weighted(ln), Shares(p, epsilon), Shares(r, epsilon))
  {
    ScoreIs(ln, p, q, epsilon);
    ScoreIs(ln, p, r, epsilon);
  }

  // ---------------------------------------------------------------- the detector's verdict (lines 145-149, 306-328)

  datatype Severity = Info | Warning | Critical

  predicate IsDrift(score: real, threshold: real) { score > threshold }

  function SeverityOf(score: real, threshold: real): Severity {
    if threshold <= 0.0 then (if score > 0.0 then Critical else Info)
    else if score / threshold >= 3.0 then Critical
    else if score / threshold >= 2.0 then Warning
    else Info
  }

  /** A warning or a critical severity is only given when drift was detected. The converse fails: a score
      between the threshold and twice the threshold is drift with severity info. */
  lemma SeverityMeansDrift(score: real, threshold: real)
    ensures SeverityOf(score, threshold) != Info ==> IsDrift(score, threshold)
    ensures threshold > 0.0 ==> (SeverityOf(score, threshold) != Info <==> score >= 2.0 * threshold)
    ensures threshold > 0.0 ==> (SeverityOf(score, threshold) == Critical <==> score >= 3.0 * threshold)
    ensures threshold <= 0.0 ==> SeverityOf(score, threshold) == if score > 0.0 then Critical else Info
  {
    if threshold > 0.0 {
      RatioAtLeast(score, threshold, 2.0);
      RatioAtLeast(score, threshold, 3.0);
    }
  }

  /** Identical windows never raise drift for a threshold that is not negative. */
  lemma IdenticalWindowsQuiet(ln: real -> real, p: seq<nat>, epsilon: real, threshold: real)
    requires IsLog(ln) && p != [] && epsilon > 0.0 && threshold >= 0.0
    ensures !IsDrift(Score(ln, p, p, epsilon), threshold)
    ensures SeverityOf(Score(ln, p, p, epsilon), threshold) == Info
  {
    ScoreNonNegative(ln, p, p, epsilon);
    SeverityMeansDrift(Score(ln, p, p, epsilon), threshold);
  }

  /** The sum runs over corresponding entries, each taken once and in this order of the two histograms. */
  lemma {:induction false} TotalMeans(term: (real, real) -> real, p: seq<real>, q: seq<real>, x: real, y: real)
    requires |p| == |q|
    ensures Total(term, [], []) == 0.0 && Total(term, p + [x], q + [y]) == Total(term, p, q) + term(x, y)
  {
    if p == [] {
      assert p + [x] == [x] && q + [y] == [y] && [x][1..] == [];
    } else {
      assert (p + [x])[1..] == p[1..] + [x] && (q + [y])[1..] == q[1..] + [y];
      TotalMeans(term, p[1..], q[1..], x, y);
    }
  }
}
