// stattool: one-pass minimum, maximum, range, mean and variance, against their definitions over the
// whole sample sequence. `double` is modelled as `real`; the value under the square root is kept.
module Statistics {

  function Sq(x: real): real { x * x }

  function Sum(s: seq<real>): real
  {
    if s == [] then 0.0 else Sum(s[..|s| - 1]) + s[|s| - 1]
  }

  function SumSq(s: seq<real>): real
  {
    if s == [] then 0.0 else SumSq(s[..|s| - 1]) + Sq(s[|s| - 1])
  }

  function Greatest(s: seq<real>): (m: real)
    requires s != []
    ensures m in s
    ensures forall i | 0 <= i < |s| :: s[i] <= m
  {
    var front, last := s[..|s| - 1], s[|s| - 1];
    if front == [] then last
    else
      var m := Greatest(front);
      assert forall i | 0 <= i < |s| - 1 :: s[i] == front[i];
      if last > m then last else m
  }

  function Least(s: seq<real>): (m: real)
    requires s != []
    ensures m in s
    ensures forall i | 0 <= i < |s| :: m <= s[i]
  {
    var front, last := s[..|s| - 1], s[|s| - 1];
    if front == [] then last
    else
      var m := Least(front);
      assert forall i | 0 <= i < |s| - 1 :: s[i] == front[i];
      if last < m then last else m
  }

  function Mean(s: seq<real>): real
    requires s != []
  {
    Sum(s) / |s| as real
  }

  /** The second pass: the sum of the squared distances from m. */
  function Deviation(s: seq<real>, m: real): real
  {
    if s == [] then 0.0
    else Deviation(s[..|s| - 1], m) + Sq(s[|s| - 1] - m)
  }

  /** The sample variance, by its two-pass definition. */
  function Variance(s: seq<real>): real
    requires |s| >= 2
  {
    Deviation(s, Mean(s)) / (|s| - 1) as real
  }

  function Range(s: seq<real>): real
    requires s != []
  {
    Greatest(s) - Least(s)
  }

  /** The sums of a sequence with its last element split off. */
  lemma SumsOf(s: seq<real>, front: seq<real>, x: real)
    requires s != [] && s[..|s| - 1] == front && s[|s| - 1] == x
    ensures Sum(s) == Sum(front) + x && SumSq(s) == SumSq(front) + Sq(x)
  {
    hide Sq;
  }

  lemma NoSums()
    ensures Sum([]) == 0.0 && SumSq([]) == 0.0
  {
  }

  // ---- arithmetic of reals ----

  lemma Distribute(n: real, a: real, b: real)
    ensures n * (a + b) == n * a + n * b && n * (a - b) == n * a - n * b
    ensures (a + b) * n == a * n + b * n && (a - b) * n == a * n - b * n
  {
  }

  lemma Associate(a: real, b: real, c: real)
    ensures (a * b) * c == a * (b * c) && a * b == b * a
  {
  }

  lemma SquareOfDifference(x: real, m: real)
    ensures (x - m) * (x - m) == x * x - (2.0 * m) * x + m * m
  {
    Distribute(x - m, x, m);
    Distribute(x, x, m);
    Distribute(m, x, m);
    Associate(2.0, m, x);
    Associate(x, m, x);
  }

  lemma SquareOfSum(x: real, m: real)
    ensures (x + m) * (x + m) == x * x + (2.0 * m) * x + m * m
  {
    Distribute(x + m, x, m);
    Distribute(x, x, m);
    Distribute(m, x, m);
    Associate(2.0, m, x);
    Associate(x, m, x);
  }

  lemma SquareOfOpposite(x: real)
    ensures Sq(0.0 - x) == Sq(x)
  {
    var y := 0.0 - x;
    Distribute(y, 0.0, x);
    Distribute(x, 0.0, x);
  }

  function Product(x: real, y: real): real { x * y }

  lemma ProductPositive(x: real, y: real)
    requires x > 0.0 && y > 0.0
    ensures Product(x, y) > 0.0
  {
  }

  lemma SquareNonNegative(x: real)
    ensures Sq(x) >= 0.0
    ensures Sq(x) == 0.0 <==> x == 0.0
  {
    if x > 0.0 {
      ProductPositive(x, x);
      assert Product(x, x) == Sq(x);
    } else if x < 0.0 {
      var y := 0.0 - x;
      ProductPositive(y, y);
      assert Product(y, y) == Sq(y);
      SquareOfOpposite(x);
    } else {
      assert Sq(0.0) == 0.0;
    }
  }

  lemma ProductNonNegative(x: real, y: real)
    requires x >= 0.0 && y >= 0.0
    ensures x * y >= 0.0
  {
  }

  lemma MultiplyLess(n: real, a: real, b: real)
    requires n >= 0.0 && a <= b
    ensures n * a <= n * b
  {
    ProductNonNegative(n, b - a);
    Distribute(n, b, a);
  }

  /** q is the quotient of p by n exactly when q times n is p. */
  lemma QuotientIs(p: real, n: real, q: real)
    requires n > 0.0
    ensures q * n == p <==> q == p / n
  {
    var r := p / n;
    assert r * n == p;
    Distribute(n, q, r);
    if q != r && q * n == p {
      SquareNonNegative(n);
      assert (q - r) * n == 0.0;
    }
  }

  lemma DivideLess(a: real, b: real, d: real)
    requires d > 0.0 && a <= b
    ensures a / d <= b / d
  {
  }

  // ---- one pass and two passes agree ----

  /** One more sample x: n' samples with sum t', squares sq' and deviation d'. */
  lemma ExpandStep(n: real, t: real, sq: real, d: real, x: real,
                   n': real, t': real, sq': real, d': real, m: real)
    requires n' == n + 1.0 && t' == t + x && sq' == sq + Sq(x) && d' == d + Sq(x - m)
    requires d == sq - (2.0 * m) * t + n * (m * m)
    ensures d' == sq' - (2.0 * m) * t' + n' * (m * m)
  {
    SquareOfDifference(x, m);
    Distribute(2.0 * m, t, x);
    Distribute(m * m, n, 1.0);
  }

  lemma {:induction false} DeviationExpands(s: seq<real>, m: real)
    ensures Deviation(s, m) == SumSq(s) - (2.0 * m) * Sum(s) + |s| as real * (m * m)
    decreases |s|
  {
    hide Sq;
    if s != [] {
      var front, x := s[..|s| - 1], s[|s| - 1];
      DeviationExpands(front, m);
      ExpandStep(|front| as real, Sum(front), SumSq(front), Deviation(front, m), x,
                 |s| as real, Sum(s), SumSq(s), Deviation(s, m), m);
    }
  }

  lemma MeanTimesCount(s: seq<real>)
    requires s != []
    ensures Mean(s) * |s| as real == Sum(s)
  {
    QuotientIs(Sum(s), |s| as real, Mean(s));
  }

  /** The numerator of the one-pass formula. */
  function OnePass(sum: real, sum2: real, n: nat): real
    requires n > 0
  {
    sum2 - sum * sum / n as real
  }

  /** The value calc puts under the square root. */
  function RootArgument(sum: real, sum2: real, n: nat): real
    requires n >= 2
  {
    OnePass(sum, sum2, n) / (n - 1) as real
  }

  /** The one-pass numerator is the sum of squared distances from the mean. */
  lemma OnePassDeviation(s: seq<real>)
    requires s != []
    ensures OnePass(Sum(s), SumSq(s), |s|) == Deviation(s, Mean(s))
  {
    hide Sum, SumSq, Deviation, Mean;
    var n, m, t := |s| as real, Mean(s), Sum(s);
    DeviationExpands(s, m);
    MeanTimesCount(s);
    SumSquareOverCount(n, m, t);
  }

  lemma SumSquareOverCount(n: real, m: real, t: real)
    requires n > 0.0 && m * n == t
    ensures t * t / n == m * t && n * (m * m) == m * t && (2.0 * m) * t == m * t + m * t
  {
    Associate(m, t, n);
    Associate(t, n, m);
    Associate(m, n, t);
    QuotientIs(t * t, n, m * t);
    Associate(n, m, m);
    Associate(2.0, m, t);
  }

  lemma {:induction false} DeviationNonNegative(s: seq<real>, m: real)
    ensures Deviation(s, m) >= 0.0
    decreases |s|
  {
    hide Sq;
    if s != [] {
      DeviationNonNegative(s[..|s| - 1], m);
      SquareNonNegative(s[|s| - 1] - m);
    }
  }

  // ---- bounds ----

  lemma {:induction false} SumBounds(s: seq<real>, a: real, b: real)
    requires forall i | 0 <= i < |s| :: a <= s[i] <= b
    ensures a * |s| as real <= Sum(s) <= b * |s| as real
    decreases |s|
  {
    hide Sq;
    if s != [] {
      var front := s[..|s| - 1];
      SumBounds(front, a, b);
      Distribute(a, |front| as real, 1.0);
      Distribute(b, |front| as real, 1.0);
    }
  }

  lemma QuotientBetween(a: real, t: real, b: real, n: real)
    requires n > 0.0 && a * n <= t <= b * n
    ensures a <= t / n <= b
  {
    QuotientIs(a * n, n, a);
    QuotientIs(b * n, n, b);
    DivideLess(a * n, t, n);
    DivideLess(t, b * n, n);
  }

  /** The mean lies between the minimum and the maximum. */
  lemma MeanBetween(s: seq<real>)
    requires s != []
    ensures Least(s) <= Mean(s) <= Greatest(s)
  {
    hide Sum, Least, Greatest;
    SumBounds(s, Least(s), Greatest(s));
    QuotientBetween(Least(s), Sum(s), Greatest(s), |s| as real);
  }

  /** One more sample x: n' samples with sum t' and squares sq'. */
  lemma ChordStep(n: real, t: real, sq: real, x: real, n': real, t': real, sq': real, a: real, b: real)
    requires a <= x <= b && n' == n + 1.0 && t' == t + x && sq' == sq + Sq(x)
    requires sq <= (a + b) * t - n * (a * b)
    ensures sq' <= (a + b) * t' - n' * (a * b)
  {
    ChordAbove(x, a, b);
    Distribute(a + b, t, x);
    Distribute(a * b, n, 1.0);
  }

  /** Samples between a and b: the squares add up to at most (a + b) * sum - n * a * b. */
  lemma {:induction false} SquaresBelowChord(s: seq<real>, a: real, b: real)
    requires forall i | 0 <= i < |s| :: a <= s[i] <= b
    ensures SumSq(s) <= (a + b) * Sum(s) - |s| as real * (a * b)
    decreases |s|
  {
    hide Sum, SumSq, Sq;
    if s == [] {
      NoSums();
    } else {
      var front, x := s[..|s| - 1], s[|s| - 1];
      SquaresBelowChord(front, a, b);
      SumsOf(s, front, x);
      ChordStep(|front| as real, Sum(front), SumSq(front), x, |s| as real, Sum(s), SumSq(s), a, b);
    }
  }

  lemma ChordAbove(x: real, a: real, b: real)
    requires a <= x <= b
    ensures x * x <= (a + b) * x - a * b
  {
    ProductNonNegative(x - a, b - x);
    Distribute(x - a, b, x);
    Distribute(b, x, a);
    Distribute(x, x, a);
    Distribute(x, a, b);
  }

  /** (b - m) * (m - a) is at most a quarter of the squared distance of a and b. */
  lemma ProductBelowQuarter(m: real, a: real, b: real)
    ensures (a + b) * m - a * b - m * m <= Sq(b - a) / 4.0
  {
    var h := (a + b) / 2.0;
    SquareOfDifference(m, h);
    SquareNonNegative(m - h);
    assert 2.0 * h == a + b;
    SquareOfDifference(b, a);
    SquareOfSum(b, a);
    Associate(2.0, a, b);
    SquareOfHalf(a + b);
  }

  lemma SquareOfHalf(x: real)
    ensures (x / 2.0) * (x / 2.0) == x * x / 4.0
  {
  }

  /** The deviation is at most a quarter of n times the squared range. */
  lemma DeviationUpper(s: seq<real>)
    requires s != []
    ensures Deviation(s, Mean(s)) <= |s| as real * (Sq(Range(s)) / 4.0)
  {
    hide Sum, SumSq, Deviation, Mean, Least, Greatest;
    var n, m, t, a, b := |s| as real, Mean(s), Sum(s), Least(s), Greatest(s);
    SquaresBelowChord(s, a, b);
    DeviationExpands(s, m);
    MeanTimesCount(s);
    SumSquareOverCount(n, m, t);
    ProductBelowQuarter(m, a, b);
    var p, q := (a + b) * m - a * b - m * m, Sq(b - a) / 4.0;
    MultiplyLess(n, p, q);
    ChordTimesCount(n, m, t, a, b);
  }

  lemma ChordTimesCount(n: real, m: real, t: real, a: real, b: real)
    requires m * n == t
    ensures n * ((a + b) * m - a * b - m * m) == (a + b) * t - n * (a * b) - n * (m * m)
  {
    Distribute(n, (a + b) * m - a * b, m * m);
    Distribute(n, (a + b) * m, a * b);
    Associate(a + b, m, n);
    Associate(n, (a + b) * m, 1.0);
  }

  lemma {:induction false} DeviationAtLeastOne(s: seq<real>, m: real, i: nat)
    requires i < |s|
    ensures Deviation(s, m) >= Sq(s[i] - m)
    decreases |s|
  {
    hide Sq;
    var front := s[..|s| - 1];
    SquareNonNegative(s[|s| - 1] - m);
    if i < |s| - 1 {
      DeviationAtLeastOne(front, m, i);
      assert front[i] == s[i];
    } else {
      DeviationNonNegative(front, m);
    }
  }

  lemma {:induction false} DeviationAtLeastTwo(s: seq<real>, m: real, i: nat, j: nat)
    requires i < j < |s|
    ensures Deviation(s, m) >= Sq(s[i] - m) + Sq(s[j] - m)
    decreases |s|
  {
    hide Sq;
    var front := s[..|s| - 1];
    SquareNonNegative(s[|s| - 1] - m);
    assert front[i] == s[i];
    if j < |s| - 1 {
      DeviationAtLeastTwo(front, m, i, j);
      assert front[j] == s[j];
    } else {
      DeviationAtLeastOne(front, m, i);
    }
  }

  lemma TwoSquares(a: real, b: real, m: real)
    ensures Sq(a - m) + Sq(b - m) >= Sq(b - a) / 2.0
  {
    var u, v := a - m, b - m;
    SquareNonNegative(u + v);
    SquareOfDifference(v, u);
    SquareOfSum(u, v);
    Associate(2.0, u, v);
    Associate(2.0, v, u);
  }

  /** The deviation is at least half the squared range. */
  lemma DeviationLower(s: seq<real>)
    requires s != []
    ensures Deviation(s, Mean(s)) >= Sq(Range(s)) / 2.0
  {
    hide Deviation, Mean, Least, Greatest, Sq;
    var a, b, m := Least(s), Greatest(s), Mean(s);
    var i :| 0 <= i < |s| && s[i] == a;
    var j :| 0 <= j < |s| && s[j] == b;
    TwoSquares(a, b, m);
    if i < j {
      DeviationAtLeastTwo(s, m, i, j);
    } else if j < i {
      DeviationAtLeastTwo(s, m, j, i);
    } else {
      DeviationNonNegative(s, m);
      SquareNonNegative(Range(s));
    }
  }

  predicate AllEqual(s: seq<real>)
  {
    forall i, j | 0 <= i < |s| && 0 <= j < |s| :: s[i] == s[j]
  }

  lemma RangeZeroExactly(s: seq<real>)
    requires s != []
    ensures Range(s) >= 0.0 && (Range(s) == 0.0 <==> AllEqual(s))
  {
    assert s[0] in s;
    if Range(s) == 0.0 {
      forall i | 0 <= i < |s| ensures s[i] == Least(s) {
        assert s[i] in s;
      }
    }
  }

  /** The value under the square root is at most n / (4 (n - 1)) and at least 1 / (2 (n - 1)) times
      the squared range, and it is zero exactly when all samples are equal. */
  lemma VarianceBounds(s: seq<real>)
    requires |s| >= 2
    ensures Variance(s) <= (|s| as real * (Sq(Range(s)) / 4.0)) / (|s| - 1) as real
    ensures Variance(s) >= (Sq(Range(s)) / 2.0) / (|s| - 1) as real
    ensures Variance(s) == 0.0 <==> AllEqual(s)
  {
    hide Deviation, Mean, Range, AllEqual;
    var n, d, r2, v := |s| as real, (|s| - 1) as real, Sq(Range(s)), Deviation(s, Mean(s));
    DeviationUpper(s);
    DeviationLower(s);
    RangeZeroExactly(s);
    SquareNonNegative(Range(s));
    DivideLess(v, n * (r2 / 4.0), d);
    DivideLess(r2 / 2.0, v, d);
    QuotientIs(v, d, 0.0);
    if r2 == 0.0 {
      assert n * (r2 / 4.0) == 0.0;
    }
  }

  // ---- what the statistics do not depend on ----

  /** s without its element at i. */
  function Without(s: seq<real>, i: nat): seq<real>
    requires i < |s|
  {
    s[..i] + s[i + 1..]
  }

  lemma {:induction false} SumWithout(s: seq<real>, i: nat)
    requires i < |s|
    ensures Sum(s) == Sum(Without(s, i)) + s[i]
    ensures SumSq(s) == SumSq(Without(s, i)) + Sq(s[i])
    decreases |s|
  {
    hide Sq;
    var front := s[..|s| - 1];
    if i == |s| - 1 {
      assert Without(s, i) == front;
    } else {
      SumWithout(front, i);
      var w := Without(s, i);
      assert w[..|w| - 1] == Without(front, i) && w[|w| - 1] == s[|s| - 1];
    }
  }

  /** Taking the same element out of equal multisets leaves equal multisets. */
  lemma MultisetWithout(s: seq<real>, t: seq<real>, i: nat)
    requires s != [] && i < |t| && t[i] == s[|s| - 1] && multiset(s) == multiset(t)
    ensures multiset(s[..|s| - 1]) == multiset(Without(t, i))
  {
    var front, x := s[..|s| - 1], s[|s| - 1];
    assert s == front + [x];
    assert t == (t[..i] + [x]) + t[i + 1..];
    assert multiset(t) == multiset(t[..i]) + multiset{x} + multiset(t[i + 1..]);
    assert multiset(Without(t, i)) == multiset(t[..i]) + multiset(t[i + 1..]);
    assert multiset(s) == multiset(front) + multiset{x};
    assert multiset(front) == multiset(s) - multiset{x};
  }

  /** Sums do not depend on the order of the samples. */
  lemma {:induction false} SumPermuted(s: seq<real>, t: seq<real>)
    requires multiset(s) == multiset(t)
    ensures |s| == |t| && Sum(s) == Sum(t) && SumSq(s) == SumSq(t)
    decreases |s|
  {
    assert |s| == |multiset(s)| == |multiset(t)| == |t|;
    if s != [] {
      var x := s[|s| - 1];
      assert x in multiset(s);
      var i :| 0 <= i < |t| && t[i] == x;
      MultisetWithout(s, t, i);
      SumPermuted(s[..|s| - 1], Without(t, i));
      SumWithout(t, i);
    }
  }

  lemma SameElements(s: seq<real>, t: seq<real>)
    requires multiset(s) == multiset(t) && s != [] && t != []
    ensures Least(s) == Least(t) && Greatest(s) == Greatest(t)
  {
    assert forall x :: x in s <==> x in multiset(s);
    assert forall x :: x in t <==> x in multiset(t);
    assert Least(t) in s && Least(s) in t && Greatest(t) in s && Greatest(s) in t;
  }

  /** Every statistic is unchanged by permuting the samples. */
  lemma PermutationInvariant(s: seq<real>, t: seq<real>)
    requires multiset(s) == multiset(t) && s != []
    ensures |t| == |s|
    ensures Mean(s) == Mean(t) && Least(s) == Least(t) && Greatest(s) == Greatest(t)
    ensures |s| >= 2 ==> Variance(s) == Variance(t)
  {
    hide Sum, SumSq, Deviation, Least, Greatest, OnePass;
    SumPermuted(s, t);
    SameElements(s, t);
    OnePassDeviation(s);
    OnePassDeviation(t);
  }

  /** All samples shifted by a constant. */
  function Shifted(s: seq<real>, c: real): (r: seq<real>)
    ensures |r| == |s| && forall i | 0 <= i < |s| :: r[i] == s[i] + c
  {
    if s == [] then [] else Shifted(s[..|s| - 1], c) + [s[|s| - 1] + c]
  }

  lemma ShiftedFront(s: seq<real>, c: real)
    requires s != []
    ensures var r := Shifted(s, c); r[..|r| - 1] == Shifted(s[..|s| - 1], c) && r[|r| - 1] == s[|s| - 1] + c
  {
  }

  lemma ShiftStep(c: real, n: real, n': real)
    requires n' == n + 1.0
    ensures c * n' == c * n + c
  {
    Distribute(c, n, 1.0);
  }

  lemma NothingShifted(c: real)
    ensures Shifted([], c) == []
  {
  }

  lemma {:induction false} SumShifted(s: seq<real>, c: real)
    ensures Sum(Shifted(s, c)) == Sum(s) + c * |s| as real
    decreases |s|
  {
    hide Sum, Shifted;
    if s == [] {
      NoSums();
      NothingShifted(c);
    } else {
      ShiftedFront(s, c);
      SumShifted(s[..|s| - 1], c);
      SumsOf(Shifted(s, c), Shifted(s[..|s| - 1], c), s[|s| - 1] + c);
      SumsOf(s, s[..|s| - 1], s[|s| - 1]);
      ShiftStep(c, |s[..|s| - 1]| as real, |s| as real);
    }
  }

  lemma {:induction false} DeviationShifted(s: seq<real>, c: real, m: real)
    ensures Deviation(Shifted(s, c), m + c) == Deviation(s, m)
    decreases |s|
  {
    hide Sq;
    if s != [] {
      ShiftedFront(s, c);
      DeviationShifted(s[..|s| - 1], c, m);
      assert s[|s| - 1] + c - (m + c) == s[|s| - 1] - m;
    }
  }

  lemma MeanShifted(s: seq<real>, c: real)
    requires s != []
    ensures Mean(Shifted(s, c)) == Mean(s) + c
  {
    hide Sum, Shifted;
    var n := |s| as real;
    SumShifted(s, c);
    MeanTimesCount(s);
    Distribute(n, Mean(s), c);
    QuotientIs(Sum(s) + c * n, n, Mean(s) + c);
  }

  lemma ExtremesShifted(s: seq<real>, c: real)
    requires s != []
    ensures Least(Shifted(s, c)) == Least(s) + c && Greatest(Shifted(s, c)) == Greatest(s) + c
  {
    var r := Shifted(s, c);
    var i :| 0 <= i < |s| && s[i] == Least(s);
    var j :| 0 <= j < |s| && s[j] == Greatest(s);
    var k :| 0 <= k < |r| && r[k] == Least(r);
    var l :| 0 <= l < |r| && r[l] == Greatest(r);
    assert r[i] == s[i] + c && r[j] == s[j] + c && r[k] == s[k] + c && r[l] == s[l] + c;
  }

  /** Variance and range are unchanged by shifting all samples by a constant. */
  lemma ShiftInvariant(s: seq<real>, c: real)
    requires s != []
    ensures Range(Shifted(s, c)) == Range(s) && Mean(Shifted(s, c)) == Mean(s) + c
    ensures |s| >= 2 ==> Variance(Shifted(s, c)) == Variance(s)
  {
    hide Deviation, Mean, Least, Greatest, Shifted;
    MeanShifted(s, c);
    DeviationShifted(s, c, Mean(s));
    ExtremesShifted(s, c);
  }

  /** The statistics of two samples, as numbers. */
  lemma TwoSamples(a: real, b: real)
    requires a <= b
    ensures Mean([a, b]) == (a + b) / 2.0 && Range([a, b]) == b - a
    ensures Variance([a, b]) == (b - a) * (b - a) / 2.0
  {
    hide Greatest, Least, Sum, SumSq, Sq;
    var s, m := [a, b], (a + b) / 2.0;
    assert s[..1] == [a] && [a][..0] == [];
    NoSums();
    SumsOf([a], [], a);
    SumsOf(s, [a], b);
    assert Deviation([], m) == 0.0;
    assert Deviation([a], m) == Sq(a - m);
    assert Deviation(s, m) == Sq(a - m) + Sq(b - m);
    HalfSquares(a, b);
    assert Least(s) == a && Greatest(s) == b by {
      assert s[0] == a && s[1] == b;
    }
  }

  lemma HalfSquares(a: real, b: real)
    ensures Sq(a - (a + b) / 2.0) + Sq(b - (a + b) / 2.0) == (b - a) * (b - a) / 2.0
  {
    var h := (b - a) / 2.0;
    assert a - (a + b) / 2.0 == -h && b - (a + b) / 2.0 == h && b - a == 2.0 * h;
    assert Sq(-h) == Sq(h) && (2.0 * h) * (2.0 * h) == 4.0 * Sq(h);
  }

  // ---- the object ----

  class StatTool {
    var v: real
    var count: nat
    var vmean: real
    var vmax: real
    var vmin: real
    var vstddevSq: real  // the square of vstddev: the value under the root, or zero
    var vrange: real
    var icSum: real
    var icSum2: real
    ghost var samples: seq<real>  // the arguments of Calc since the last Reset

    /** Every field is the statistic of the samples it is named after, by its two-pass definition. */
    ghost predicate Valid()
      reads this
    {
      && count == |samples| && icSum == Sum(samples) && icSum2 == SumSq(samples)
      && (samples == [] ==>
            v == vmean == vmax == vmin == vrange == vstddevSq == 0.0)
      && (samples != [] ==>
            && v == samples[|samples| - 1]
            && vmin == Least(samples) && vmax == Greatest(samples)
            && vrange == Range(samples) && vmean == Mean(samples))
      && vstddevSq == if |samples| >= 2 then Variance(samples) else 0.0
    }

    constructor ()
      ensures Valid() && samples == []
    {
      v, count, vmean, vmax, vmin, vstddevSq, vrange, icSum, icSum2 := 0.0, 0, 0.0, 0.0, 0.0, 0.0, 0.0, 0.0, 0.0;
      samples := [];
    }

    /** memset of the whole buffer */
    method Reset()
      modifies this
      ensures Valid() && samples == []
    {
      v, count, vmean, vmax, vmin, vstddevSq, vrange, icSum, icSum2 := 0.0, 0, 0.0, 0.0, 0.0, 0.0, 0.0, 0.0, 0.0;
      samples := [];
    }

    /** The current value, and the extremes so far. */
    method UpdateExtremes(value: real)
      requires Valid()
      modifies this`v, this`vmin, this`vmax, this`vrange
      ensures v == value && vmin == Least(samples + [value]) && vmax == Greatest(samples + [value])
      ensures vrange == Range(samples + [value])
    {
      hide Deviation, Mean, SumSq, Sum, Least, Greatest, Variance;
      OneMoreExtreme(samples, value);
      v := value;
      if count == 0 {
        vmin := value;
        vmax := value;
      } else {
        if value > vmax { vmax := value; }
        if value < vmin { vmin := value; }
      }
      vrange := vmax - vmin;
    }

    /** The sums, the count, and what is computed from them. */
    method UpdateSums(value: real)
      requires count == |samples| && icSum == Sum(samples) && icSum2 == SumSq(samples)
      modifies this`icSum, this`icSum2, this`count, this`vmean, this`vstddevSq
      ensures var s := samples + [value];
              && icSum == Sum(s) && icSum2 == SumSq(s) && count == |s| && vmean == Mean(s)
              && vstddevSq == if |s| >= 2 then Variance(s) else 0.0
    {
      hide Deviation, Mean, SumSq, Sum, Least, Greatest, Variance, RootArgument, Sq, Range;
      OneMoreSum(samples, value);
      icSum := icSum + value;
      icSum2 := icSum2 + Sq(value);
      count := count + 1;
      vmean := icSum / count as real;
      vstddevSq := 0.0;
      if count > 1 {
        UnderRoot(samples + [value]);
        var underRoot := RootArgument(icSum, icSum2, count);
        if underRoot > 0.0 {
          vstddevSq := underRoot;
        }
      }
    }

    /** One more sample, in one pass. */
    method Calc(value: real)
      requires Valid()
      modifies this
      ensures Valid() && samples == old(samples) + [value]
    {
      hide Deviation, Mean, SumSq, Sum, Least, Greatest, Variance, Range;
      UpdateExtremes(value);
      UpdateSums(value);
      samples := samples + [value];
    }
  }

  lemma OneMoreSum(samples: seq<real>, value: real)
    ensures var s := samples + [value];
            && Sum(s) == Sum(samples) + value && SumSq(s) == SumSq(samples) + Sq(value)
            && Mean(s) == (Sum(samples) + value) / (|samples| + 1) as real
  {
    hide Sq, Sum, SumSq;
    assert (samples + [value])[..|samples|] == samples;
    SumsOf(samples + [value], samples, value);
  }

  lemma OneMoreExtreme(samples: seq<real>, value: real)
    ensures var s := samples + [value];
            && (samples == [] ==> Least(s) == Greatest(s) == value)
            && (samples != [] ==>
                  && Least(s) == (if value < Least(samples) then value else Least(samples))
                  && Greatest(s) == (if value > Greatest(samples) then value else Greatest(samples)))
  {
    assert (samples + [value])[..|samples|] == samples;
  }

  /** The value under the root is the two-pass variance, and is never negative. */
  lemma UnderRoot(s: seq<real>)
    requires |s| >= 2
    ensures RootArgument(Sum(s), SumSq(s), |s|) == Variance(s) >= 0.0
  {
    hide Deviation, Mean, SumSq, Sum, OnePass;
    OnePassDeviation(s);
    DeviationNonNegative(s, Mean(s));
    QuotientIs(0.0, (|s| - 1) as real, 0.0);
    DivideLess(0.0, Deviation(s, Mean(s)), (|s| - 1) as real);
  }
}
