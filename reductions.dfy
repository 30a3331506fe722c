/** The four ways `projection2D` reduces the values along a ray of the
    volume to one sample: largest (`max_element`), smallest
    (`min_element`), mean (`accumulate` divided by the length of the ray)
    and median (after `sort`).  The library algorithms are modelled by what
    they compute, not by the loops inside them. */
module Reductions {
  import opened Streams
  import opened Sequences

  function Abs(a: int): nat {
    if a < 0 then -a else a
  }

  // ------------------------------------------------------ C++ integer division

  /** `a / b` on C++ `int`s: the quotient truncated toward zero. */
  function Quot(a: int, b: int): (q: int)
    requires b != 0
    ensures Abs(q) * Abs(b) <= Abs(a) < (Abs(q) + 1) * Abs(b)
    ensures q == 0 || ((q < 0) <==> ((a < 0) != (b < 0)))
  {
    var x, n := Abs(a), Abs(b);
    var m := x / n;
    DivBounds(x, n, m);
    if (a < 0) != (b < 0) then -m else m
  }

  lemma DivBounds(x: nat, n: nat, m: int)
    requires n > 0 && m == x / n
    ensures m >= 0 && m * n <= x < (m + 1) * n
  {
    assert x == n * m + x % n;
  }

  lemma DivAtMost(x: int, n: int, y: int)
    requires n > 0 && x <= n * y
    ensures x / n <= y
  {
    if x / n > y {
      MulAtLeast(n, x / n, y + 1);
    }
  }

  lemma DivAtLeast(x: int, n: int, y: int)
    requires n > 0 && n * y <= x
    ensures y <= x / n
  {
    if x / n < y {
      MulAtLeast(n, y, x / n + 1);
    }
  }

  lemma MulAtLeast(n: int, a: int, b: int)
    requires n > 0 && a >= b
    ensures n * a >= n * b
  {
  }

  /** A truncated quotient lies between any two bounds that hold for the
      exact quotient. */
  lemma QuotBetween(a: int, n: int, lo: int, hi: int)
    requires n > 0 && n * lo <= a <= n * hi
    ensures lo <= Quot(a, n) <= hi
  {
    if a >= 0 {
      DivAtLeast(a, n, lo);
      DivAtMost(a, n, hi);
    } else {
      assert n * -hi <= -a <= n * -lo;
      DivAtLeast(-a, n, -hi);
      DivAtMost(-a, n, -lo);
    }
  }

  // ------------------------------------------------------------ extremes

  function Max(s: seq<int>): (m: int)
    requires s != []
    ensures m in s
    ensures forall k :: 0 <= k < |s| ==> s[k] <= m
  {
    if |s| == 1 then s[0]
    else
      var rest := Max(s[1..]);
      if s[0] >= rest then s[0] else rest
  }

  function Min(s: seq<int>): (m: int)
    requires s != []
    ensures m in s
    ensures forall k :: 0 <= k < |s| ==> m <= s[k]
  {
    if |s| == 1 then s[0]
    else
      var rest := Min(s[1..]);
      if s[0] <= rest then s[0] else rest
  }

  /** The extremes depend only on which values occur. */
  lemma ExtremesOfSameValues(s: seq<int>, t: seq<int>)
    requires s != [] && multiset(s) == multiset(t)
    ensures t != [] && Max(s) == Max(t) && Min(s) == Min(t)
  {
    assert |t| == |multiset(t)| == |multiset(s)| == |s|;
    assert Max(t) in multiset(s) && Max(s) in multiset(t);
    assert Min(t) in multiset(s) && Min(s) in multiset(t);
    var a :| 0 <= a < |s| && s[a] == Max(t);
    var b :| 0 <= b < |t| && t[b] == Max(s);
    var c :| 0 <= c < |s| && s[c] == Min(t);
    var d :| 0 <= d < |t| && t[d] == Min(s);
  }

  // ----------------------------------------------------------------- sum

  /** `accumulate(begin, end, 0)`. */
  function Sum(s: seq<int>): int {
    if s == [] then 0 else s[0] + Sum(s[1..])
  }

  /** The sum of `n` values lies between `n` times the smallest and `n`
      times the largest. */
  lemma {:induction false} SumBetween(s: seq<int>)
    requires s != []
    ensures |s| * Min(s) <= Sum(s) <= |s| * Max(s)
  {
    if |s| > 1 {
      var t := s[1..];
      SumBetween(t);
      assert Min(s) <= Min(t) && Max(t) <= Max(s) by {
        var i :| 0 <= i < |t| && t[i] == Min(t);
        var j :| 0 <= j < |t| && t[j] == Max(t);
        assert t[i] == s[i + 1] && t[j] == s[j + 1];
      }
      MulAtLeast(|t|, Min(t), Min(s));
      MulAtLeast(|t|, Max(s), Max(t));
      MulSucc(|t|, Min(s));
      MulSucc(|t|, Max(s));
    }
  }

  lemma MulSucc(n: nat, a: int)
    ensures (n + 1) * a == n * a + a
  {
  }

  lemma {:induction false} SumRemove(s: seq<int>, i: nat)
    requires i < |s|
    ensures Sum(s) == s[i] + Sum(s[..i] + s[i + 1..])
  {
    if i > 0 {
      SumRemove(s[1..], i - 1);
      assert s[1..][..i - 1] + s[1..][i..] == (s[..i] + s[i + 1..])[1..];
    } else {
      assert s[..0] + s[1..] == s[1..];
    }
  }

  lemma MultisetRemove(t: seq<int>, i: nat)
    requires i < |t|
    ensures multiset(t[..i] + t[i + 1..]) == multiset(t) - multiset{t[i]}
  {
    assert t == t[..i] + [t[i]] + t[i + 1..];
  }

  /** The sum depends only on which values occur, and how often. */
  lemma {:induction false} SumOfSameValues(s: seq<int>, t: seq<int>)
    requires multiset(s) == multiset(t)
    ensures Sum(s) == Sum(t)
    decreases |s|
  {
    if s != [] {
      assert |t| == |multiset(t)| == |s|;
      assert s[0] in multiset(t);
      var i :| 0 <= i < |t| && t[i] == s[0];
      var t' := t[..i] + t[i + 1..];
      MultisetRemove(t, i);
      MultisetCons(s);
      SumOfSameValues(s[1..], t');
      SumRemove(t, i);
    } else {
      assert |t| == |multiset(t)| == 0;
    }
  }

  // -------------------------------------------------------------- median

  predicate Sorted(s: seq<int>) {
    forall a, b :: 0 <= a < b < |s| ==> s[a] <= s[b]
  }

  function Insert(x: int, s: seq<int>): (r: seq<int>)
    requires Sorted(s)
    ensures Sorted(r) && multiset(r) == multiset(s) + multiset{x}
    ensures r[0] == x || (s != [] && r[0] == s[0])
  {
    if s == [] || x <= s[0] then
      ConsSorted(x, s);
      [x] + s
    else
      SortedTail(s);
      var rest := Insert(x, s[1..]);
      MultisetCons(s);
      ConsSorted(s[0], rest);
      [s[0]] + rest
  }

  lemma SortedTail(s: seq<int>)
    requires Sorted(s) && s != []
    ensures Sorted(s[1..]) && (|s| > 1 ==> s[0] <= s[1])
  {
    assert forall a, b :: 0 <= a < b < |s| - 1 ==> s[1..][a] == s[a + 1] && s[1..][b] == s[b + 1];
  }

  lemma ConsSorted(v: int, s: seq<int>)
    requires Sorted(s) && (s == [] || v <= s[0])
    ensures Sorted([v] + s)
  {
    var r := [v] + s;
    forall a, b | 0 <= a < b < |r|
      ensures r[a] <= r[b]
    {
      if a > 0 {
        assert r[a] == s[a - 1] && r[b] == s[b - 1];
      } else {
        assert r[b] == s[b - 1];
      }
    }
  }

  /** `std::sort` into ascending order. */
  function SortAscending(s: seq<int>): (r: seq<int>)
    ensures Sorted(r) && multiset(r) == multiset(s)
  {
    if s == [] then []
    else
      assert s == [s[0]] + s[1..];
      Insert(s[0], SortAscending(s[1..]))
  }

  lemma MultisetCons(s: seq<int>)
    requires s != []
    ensures multiset(s) == multiset{s[0]} + multiset(s[1..])
  {
    assert s == [s[0]] + s[1..];
  }

  /** The first of an ascending sequence is at most any of its values. */
  lemma SortedLeast(a: seq<int>, v: int)
    requires Sorted(a) && v in multiset(a)
    ensures a != [] && a[0] <= v
  {
    var i :| 0 <= i < |a| && a[i] == v;
  }

  /** Two ascending arrangements of the same values are the same sequence. */
  lemma {:induction false} SortedUnique(a: seq<int>, b: seq<int>)
    requires Sorted(a) && Sorted(b) && multiset(a) == multiset(b)
    ensures a == b
    decreases |a|
  {
    if a != [] {
      SortedLeast(b, a[0]);
      SortedLeast(a, b[0]);
      MultisetCons(a);
      MultisetCons(b);
      assert Sorted(a[1..]) && Sorted(b[1..]);
      assert a[0] == b[0];
      assert multiset(a[1..]) == multiset(a) - multiset{a[0]};
      assert multiset(b[1..]) == multiset(b) - multiset{b[0]};
      SortedUnique(a[1..], b[1..]);
      ConsTail(a);
      ConsTail(b);
    } else {
      assert |b| == |multiset(b)| == 0;
    }
  }

  /** The median of the sorted values: the middle one for an odd count, the
      truncated mean of the two middle ones for an even count. */
  function Median(s: seq<int>): int
    requires s != []
  {
    var t := SortAscending(s);
    var n := |t|;
    assert n == |multiset(s)| == |s|;
    if n % 2 == 1 then t[n / 2] else Quot(t[n / 2 - 1] + t[n / 2], 2)
  }

  lemma MedianBetween(s: seq<int>)
    requires s != []
    ensures Min(s) <= Median(s) <= Max(s)
  {
    var t := SortAscending(s);
    assert |t| == |multiset(s)| == |s|;
    forall k | 0 <= k < |t|
      ensures Min(s) <= t[k] <= Max(s)
    {
      assert t[k] in multiset(s);
    }
    var n := |t|;
    if n % 2 == 0 {
      QuotBetween(t[n / 2 - 1] + t[n / 2], 2, Min(s), Max(s));
    }
  }

  lemma MedianOfSameValues(s: seq<int>, t: seq<int>)
    requires s != [] && multiset(s) == multiset(t)
    ensures t != [] && Median(s) == Median(t)
  {
    assert |t| == |multiset(t)| == |s|;
    SortedUnique(SortAscending(s), SortAscending(t));
  }

  // ----------------------------------------------------------- criteria

  /** The criteria `max`, `min`, `prom` and `med`. */
  datatype Criterion = Largest | Smallest | Mean | Middle

  function ParseCriterion(word: string): (c: Option<Criterion>)
    ensures c == Some(Largest) <==> word == "max"
    ensures c == Some(Smallest) <==> word == "min"
    ensures c == Some(Mean) <==> word == "prom"
    ensures c == Some(Middle) <==> word == "med"
  {
    if word == "max" then Some(Largest)
    else if word == "min" then Some(Smallest)
    else if word == "prom" then Some(Mean)
    else if word == "med" then Some(Middle)
    else None
  }

  /** The sample one ray gives, with the mean divided by `divisor` as
      `projection2D` does; None where C++ leaves the result undefined
      (`max_element` or `min_element` of nothing, division by zero, the
      median of nothing, which reads before the first element). */
  function Reduce(c: Criterion, vals: seq<int>, divisor: int): (r: Option<int>)
    ensures r.None? <==> (if c == Mean then divisor == 0 else vals == [])
  {
    match c
    case Largest => if vals == [] then None else Some(Max(vals))
    case Smallest => if vals == [] then None else Some(Min(vals))
    case Mean => if divisor == 0 then None else Some(Quot(Sum(vals), divisor))
    case Middle => if vals == [] then None else Some(Median(vals))
  }

  /** With the ray's own length as divisor, every criterion gives a value
      between the smallest and the largest on the ray. */
  lemma ReduceBetween(c: Criterion, vals: seq<int>)
    requires vals != []
    ensures Reduce(c, vals, |vals|).Some?
    ensures Min(vals) <= Reduce(c, vals, |vals|).value <= Max(vals)
  {
    match c
    case Largest =>
    case Smallest =>
    case Mean =>
      SumBetween(vals);
      QuotBetween(Sum(vals), |vals|, Min(vals), Max(vals));
    case Middle =>
      MedianBetween(vals);
  }

  /** The sample a ray gives does not depend on the order in which the ray
      is walked. */
  lemma ReduceOfSameValues(c: Criterion, s: seq<int>, t: seq<int>, divisor: int)
    requires multiset(s) == multiset(t)
    ensures Reduce(c, s, divisor) == Reduce(c, t, divisor)
  {
    assert |t| == |multiset(t)| == |s|;
    if s != [] {
      ExtremesOfSameValues(s, t);
      MedianOfSameValues(s, t);
    }
    SumOfSameValues(s, t);
  }
}
