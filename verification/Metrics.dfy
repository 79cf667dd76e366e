/**
 * The two model-level reporters computed after every tick: the Gini
 * coefficient of the persons' capitals and the smallest and largest capital.
 * Both sort the capitals in ascending order first; capitals are reals.
 */
module Metrics {
  import opened Outcome

  /** The sum of a list of capitals. */
  function Sum(x: seq<real>): real {
    if |x| == 0 then 0.0 else Sum(x[..|x| - 1]) + x[|x| - 1]
  }

  /**
   * The rank-weighted total of the Gini formula: the capital at 0-based rank
   * `i` counts `n - i` times.
   */
  function RankWeighted(x: seq<real>, n: int): real {
    if |x| == 0 then 0.0
    else RankWeighted(x[..|x| - 1], n) + x[|x| - 1] * (n - (|x| - 1)) as real
  }

  predicate Ascending(s: seq<real>) {
    forall i, j :: 0 <= i < j < |s| ==> s[i] <= s[j]
  }

  /** `v` inserted into an ascending list at its place. */
  function Insert(v: real, s: seq<real>): (r: seq<real>)
    requires Ascending(s)
    ensures Ascending(r)
    ensures multiset(r) == multiset(s) + multiset{v}
    ensures |r| == |s| + 1 && (r[0] == v || (|s| > 0 && r[0] == s[0]))
  {
    if |s| == 0 then [v]
    else if v <= s[0] then [v] + s
    else
      assert s == [s[0]] + s[1..];
      var rest := Insert(v, s[1..]);
      assert forall j :: 0 <= j < |rest| ==> s[0] <= rest[j] by {
        assert s[0] <= rest[0];
      }
      [s[0]] + rest
  }

  /** The capitals in ascending order: an ascending permutation of the input. */
  function Sort(x: seq<real>): (s: seq<real>)
    ensures Ascending(s)
    ensures multiset(s) == multiset(x)
    ensures |s| == |x|
  {
    if |x| == 0 then []
    else
      assert x == [x[0]] + x[1..];
      Insert(x[0], Sort(x[1..]))
  }

  /** Two ascending lists holding the same values are the same list: sorting has only one answer. */
  lemma {:induction false} AscendingUnique(a: seq<real>, b: seq<real>)
    requires Ascending(a) && Ascending(b)
    requires multiset(a) == multiset(b)
    ensures a == b
  {
    if |a| > 0 {
      assert |b| == |a| by {
        assert |multiset(a)| == |a| && |multiset(b)| == |b|;
      }
      assert a[0] in multiset(b);
      assert b[0] in multiset(a);
      var i :| 0 <= i < |b| && b[i] == a[0];
      var j :| 0 <= j < |a| && a[j] == b[0];
      assert a[0] == b[0];
      assert a == [a[0]] + a[1..];
      assert b == [b[0]] + b[1..];
      assert multiset(a) == multiset{a[0]} + multiset(a[1..]);
      assert multiset(b) == multiset{b[0]} + multiset(b[1..]);
      assert multiset(a[1..]) == multiset(a) - multiset{a[0]};
      assert multiset(b[1..]) == multiset(b) - multiset{b[0]};
      AscendingUnique(a[1..], b[1..]);
    } else {
      assert |multiset(b)| == 0;
    }
  }

  /** Sorting depends only on which capitals there are, not on the order they come in. */
  lemma SortIgnoresOrder(x: seq<real>, y: seq<real>)
    requires multiset(x) == multiset(y)
    ensures Sort(x) == Sort(y)
  {
    AscendingUnique(Sort(x), Sort(y));
  }

  lemma {:induction false} SumConcat(a: seq<real>, b: seq<real>)
    ensures Sum(a + b) == Sum(a) + Sum(b)
  {
    if |b| > 0 {
      assert (a + b)[..|a + b| - 1] == a + b[..|b| - 1];
      SumConcat(a, b[..|b| - 1]);
    } else {
      assert a + b == a;
    }
  }

  lemma {:induction false} SumInsert(v: real, s: seq<real>)
    requires Ascending(s)
    ensures Sum(Insert(v, s)) == v + Sum(s)
  {
    if |s| == 0 {
      assert Sum([v]) == Sum([v][..0]) + v;
    } else if v <= s[0] {
      SumConcat([v], s);
      assert Sum([v]) == Sum([v][..0]) + v;
    } else {
      SumInsert(v, s[1..]);
      SumConcat([s[0]], Insert(v, s[1..]));
      SumConcat([s[0]], s[1..]);
      assert Sum([s[0]]) == Sum([s[0]][..0]) + s[0];
      assert s == [s[0]] + s[1..];
    }
  }

  /** Sorting keeps the total capital. */
  lemma {:induction false} SumSort(x: seq<real>)
    ensures Sum(Sort(x)) == Sum(x)
  {
    if |x| > 0 {
      SumSort(x[1..]);
      SumInsert(x[0], Sort(x[1..]));
      SumConcat([x[0]], x[1..]);
      assert Sum([x[0]]) == Sum([x[0]][..0]) + x[0];
      assert x == [x[0]] + x[1..];
    }
  }

  /** The members of a permutation are the members of the original. */
  lemma PermutationMembers(s: seq<real>, x: seq<real>, i: int)
    requires multiset(s) == multiset(x) && 0 <= i < |s|
    ensures s[i] in x
  {
    assert s[i] in multiset(s);
  }

  /** The Gini closed form for weighted total `w`, plain total `total` and population `n`. */
  function GiniValue(w: real, total: real, n: real): real
    requires n * total != 0.0
  {
    ZeroProduct(n, total);
    1.0 + 1.0 / n - 2.0 * (w / (n * total))
  }

  /**
   * The Gini formula applied to capitals already in ascending order, with
   * population size `n`: b = sum of s[i] * (n - i) / (n * sum(s)), result
   * 1 + 1/n - 2b. The division fails exactly when n or the sum is zero.
   */
  function GiniFormula(s: seq<real>, n: nat): (r: Result<real>)
    ensures r.Err? <==> n == 0 || Sum(s) == 0.0
    ensures r.Err? ==> r.error == DivisionByZero
  {
    var nr, total := n as real, Sum(s);
    ZeroProduct(nr, total);
    if nr * total == 0.0 then Err(DivisionByZero)
    else Ok(GiniValue(RankWeighted(s, n), total, nr))
  }

  /**
   * The Gini coefficient of the capitals `x` of a population of size `n`: the
   * formula over `x` sorted in ascending order. It is undefined (a division by
   * zero) exactly when there are no persons or the capitals sum to zero.
   */
  function Gini(x: seq<real>, n: nat): (r: Result<real>)
    ensures r.Err? <==> n == 0 || Sum(x) == 0.0
    ensures r.Err? ==> r.error == DivisionByZero
  {
    SumSort(x);
    GiniFormula(Sort(x), n)
  }

  lemma ZeroProduct(a: real, b: real)
    ensures a * b == 0.0 <==> a == 0.0 || b == 0.0
  {
  }

  /** The Gini coefficient depends only on the capitals present, not on the persons' order. */
  lemma GiniIgnoresOrder(x: seq<real>, y: seq<real>, n: nat)
    requires multiset(x) == multiset(y)
    ensures Gini(x, n) == Gini(y, n)
  {
    SortIgnoresOrder(x, y);
  }

  /** Raising every weight by one adds the plain sum once more. */
  lemma {:induction false} RankWeightedShift(x: seq<real>, n: int)
    ensures RankWeighted(x, n + 1) == RankWeighted(x, n) + Sum(x)
  {
    if |x| > 0 {
      RankWeightedShift(x[..|x| - 1], n);
    }
  }

  /** With non-negative capitals every weight is at least one, so the weighted total is at least the sum. */
  lemma {:induction false} RankWeightedAtLeastSum(x: seq<real>, n: int)
    requires n >= |x|
    requires forall i :: 0 <= i < |x| ==> x[i] >= 0.0
    ensures RankWeighted(x, n) >= Sum(x)
  {
    if |x| > 0 {
      var k := |x| - 1;
      RankWeightedAtLeastSum(x[..k], n);
      var w := (n - k) as real;
      assert w >= 1.0;
      assert x[k] * w == x[k] + x[k] * (w - 1.0);
      assert x[k] * (w - 1.0) >= 0.0;
    }
  }

  /** A list bounded above by `m` sums to at most its length times `m`. */
  lemma {:induction false} SumAtMost(x: seq<real>, m: real)
    requires forall i :: 0 <= i < |x| ==> x[i] <= m
    ensures Sum(x) <= |x| as real * m
  {
    if |x| > 0 {
      SumAtMost(x[..|x| - 1], m);
      assert |x| as real * m == (|x| - 1) as real * m + m;
    }
  }

  /** Positive capitals, at least one of them, have a positive total: the Gini denominator is then non-zero. */
  lemma {:induction false} SumPositive(x: seq<real>)
    requires |x| > 0 && forall i :: 0 <= i < |x| ==> x[i] > 0.0
    ensures Sum(x) > 0.0
  {
    if |x| > 1 {
      SumPositive(x[..|x| - 1]);
    }
  }

  /**
   * Chebyshev's sum inequality for the Gini weights: on ascending capitals the
   * decreasing weights n - i give at most the average weight (n + 1) / 2 times the sum.
   */
  lemma {:induction false} RankWeightedAtMostHalf(x: seq<real>, n: nat)
    requires Ascending(x) && n == |x|
    ensures 2.0 * RankWeighted(x, n) <= (n as real + 1.0) * Sum(x)
  {
    if |x| > 0 {
      var k := |x| - 1;
      var front, m := x[..k], x[k];
      RankWeightedAtMostHalf(front, k);
      RankWeightedShift(front, k);
      SumAtMost(front, m);
      var a, s, kr := RankWeighted(front, k), Sum(front), k as real;
      assert RankWeighted(x, |x|) == a + s + m;
      assert Sum(x) == s + m;
      assert 2.0 * a <= (kr + 1.0) * s;
      assert s <= kr * m;
      assert (kr + 2.0) * (s + m) == (kr + 1.0) * s + s + kr * m + 2.0 * m;
    }
  }

  /** The weights n, n - 1, ..., 1 of a constant list add up to n(n+1)/2 copies of the constant. */
  lemma {:induction false} RankWeightedConstant(x: seq<real>, n: nat, c: real)
    requires n == |x|
    requires forall i :: 0 <= i < |x| ==> x[i] == c
    ensures Sum(x) == n as real * c
    ensures 2.0 * RankWeighted(x, n) == n as real * (n as real + 1.0) * c
  {
    if |x| > 0 {
      var k := |x| - 1;
      var front := x[..k];
      RankWeightedConstant(front, k, c);
      RankWeightedShift(front, k);
      var kr := k as real;
      assert RankWeighted(x, n) == RankWeighted(front, k) + Sum(front) + c;
      assert n as real == kr + 1.0;
      assert (kr + 1.0) * (kr + 2.0) * c == kr * (kr + 1.0) * c + 2.0 * (kr * c) + 2.0 * c;
    }
  }

  /** The closed form of the Gini value lies in [0, 1 - 1/n] under the two weight bounds. */
  lemma GiniArithmetic(w: real, s: real, n: real)
    requires n >= 1.0 && s > 0.0
    requires s <= w && 2.0 * w <= (n + 1.0) * s
    ensures n * s != 0.0
    ensures 0.0 <= GiniValue(w, s, n) <= 1.0 - 1.0 / n
    ensures GiniValue(w, s, n) < 1.0
  {
    assert 1.0 / n > 0.0;
    var d := n * s;
    assert d > 0.0;
    var b := w / d;
    var inv := 1.0 / n;
    assert b * d == w;
    assert inv * n == 1.0;
    assert inv * d == s by {
      assert inv * d == (inv * n) * s;
    }
    calc {
      (2.0 * b) * d;
      2.0 * (b * d);
      2.0 * w;
    <= (n + 1.0) * s;
      n * s + s;
      d + inv * d;
      (1.0 + inv) * d;
    }
    calc {
      (2.0 * inv) * d;
      2.0 * (inv * d);
      2.0 * s;
    <= 2.0 * w;
      2.0 * (b * d);
      (2.0 * b) * d;
    }
    CancelPositive(2.0 * b, 1.0 + inv, d);
    CancelPositive(2.0 * inv, 2.0 * b, d);
  }

  /** Dividing both sides of an inequality by a positive number keeps it. */
  lemma CancelPositive(a: real, b: real, d: real)
    requires d > 0.0 && a * d <= b * d
    ensures a <= b
  {
  }

  /** The Gini formula on capitals whose weighted total is bounded as on non-negative ascending ones. */
  lemma GiniFormulaBounds(s: seq<real>, n: nat)
    requires n >= 1 && Sum(s) > 0.0
    requires Sum(s) <= RankWeighted(s, n)
    requires 2.0 * RankWeighted(s, n) <= (n as real + 1.0) * Sum(s)
    ensures GiniFormula(s, n).Ok?
    ensures 0.0 <= GiniFormula(s, n).value <= 1.0 - 1.0 / n as real
    ensures GiniFormula(s, n).value < 1.0
  {
    GiniArithmetic(RankWeighted(s, n), Sum(s), n as real);
  }

  /**
   * For non-negative capitals with a positive total over the whole population,
   * the Gini coefficient is defined and lies in [0, 1 - 1/n], hence below 1.
   */
  lemma GiniBounds(x: seq<real>, n: nat)
    requires n == |x|
    requires forall i :: 0 <= i < |x| ==> x[i] >= 0.0
    requires Sum(x) > 0.0
    ensures Gini(x, n).Ok?
    ensures 0.0 <= Gini(x, n).value <= 1.0 - 1.0 / n as real
    ensures Gini(x, n).value < 1.0
  {
    var s := Sort(x);
    SumSort(x);
    forall i | 0 <= i < |s|
      ensures s[i] >= 0.0
    {
      PermutationMembers(s, x, i);
    }
    RankWeightedAtLeastSum(s, n);
    RankWeightedAtMostHalf(s, n);
    GiniFormulaBounds(s, n);
  }

  /** Equal non-zero capitals for everyone mean no inequality: the Gini coefficient is 0. */
  lemma GiniOfEqualCapitals(x: seq<real>, c: real)
    requires |x| > 0 && c != 0.0
    requires forall i :: 0 <= i < |x| ==> x[i] == c
    ensures Gini(x, |x|) == Ok(0.0)
  {
    var n := |x|;
    assert Ascending(x);
    AscendingUnique(Sort(x), x);
    RankWeightedConstant(x, n, c);
    assert Sum(x) == n as real * c;
    assert 2.0 * RankWeighted(x, n) == n as real * (n as real + 1.0) * c;
    EqualGiniFormula(x, n, c);
  }

  /** The Gini formula is 0 on a constant non-zero list of the population's size. */
  lemma EqualGiniFormula(x: seq<real>, n: nat, c: real)
    requires n >= 1 && c != 0.0
    requires Sum(x) == n as real * c
    requires 2.0 * RankWeighted(x, n) == n as real * (n as real + 1.0) * c
    ensures GiniFormula(x, n) == Ok(0.0)
  {
    EqualGiniArithmetic(RankWeighted(x, n), n as real, c);
  }

  /** The closed form of the Gini value is 0 when the weighted total is n(n+1)/2 copies of the sum's mean. */
  lemma EqualGiniArithmetic(w: real, n: real, c: real)
    requires n >= 1.0 && c != 0.0
    requires 2.0 * w == n * (n + 1.0) * c
    ensures n * (n * c) != 0.0
    ensures GiniValue(w, n * c, n) == 0.0
  {
    var d := n * (n * c);
    assert d != 0.0;
    var b := w / d;
    assert b * d == w;
    var target := (n + 1.0) / (2.0 * n);
    assert target * (2.0 * n) == n + 1.0;
    assert target * d == w by {
      assert target * d == (target * (2.0 * n)) * (n * c) / 2.0;
      assert (n + 1.0) * (n * c) / 2.0 == w;
    }
    assert b == target by {
      assert (b - target) * d == 0.0;
    }
    assert 2.0 * target == 1.0 + 1.0 / n by {
      assert (1.0 / n) * n == 1.0;
      assert (2.0 * target) * n == n + 1.0;
      assert (1.0 + 1.0 / n) * n == n + 1.0;
      assert (2.0 * target - (1.0 + 1.0 / n)) * n == 0.0;
    }
  }

  /** An ascending permutation starts at the minimum and ends at the maximum. */
  lemma AscendingEnds(s: seq<real>, x: seq<real>)
    requires Ascending(s) && multiset(s) == multiset(x) && |s| > 0
    ensures forall i :: 0 <= i < |x| ==> s[0] <= x[i] <= s[|s| - 1]
  {
    forall i | 0 <= i < |x|
      ensures s[0] <= x[i] <= s[|s| - 1]
    {
      assert x[i] in multiset(x);
      var j :| 0 <= j < |s| && s[j] == x[i];
    }
  }

  /**
   * The smallest and largest capital, read as the first and the `n`-th entry of
   * the ascending capitals; `n` = 0 reads the last entry (a negative index
   * counts from the end). Reading past the end, or any entry of an empty
   * list, is an index error.
   */
  function MinAndMax(x: seq<real>, n: nat): (r: Result<(real, real)>)
    ensures r.Err? <==> |x| == 0 || n > |x|
    ensures r.Err? ==> r.error == IndexOutOfRange
    ensures r.Ok? ==> r.value.0 in x && r.value.1 in x
    ensures r.Ok? ==> forall i :: 0 <= i < |x| ==> r.value.0 <= x[i]
    ensures r.Ok? && (n == |x| || n == 0) ==> forall i :: 0 <= i < |x| ==> x[i] <= r.value.1
  {
    var s := Sort(x);
    if |s| == 0 then Err(IndexOutOfRange)
    else if n - 1 >= |s| then Err(IndexOutOfRange)
    else
      var hi := if n == 0 then |s| - 1 else n - 1;
      PermutationMembers(s, x, 0);
      PermutationMembers(s, x, hi);
      AscendingEnds(s, x);
      Ok((s[0], s[hi]))
  }
}
