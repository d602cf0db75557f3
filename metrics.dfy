/**
 * The metric reductions of a metric table: `calcMetric` keeps the entries
 * that are numbers (and not `NaN`) and reduces them to their average,
 * median, mode, maximum or minimum, or to the empty string when nothing is
 * left or the metric name is unknown.
 */
module Metrics {
  import opened Wrappers
  import JsMath
  import Expressions

  /** An entry of the input list: a number, `NaN`, or any value that is not a number. */
  datatype Cell = Num(x: real) | NaN | NotNumber

  /** What `calcMetric` returns: `""` (`Blank`) or a number. */
  datatype MetricResult = Blank | Value(x: real)

  /** `values.filter(x => typeof x === "number" && !isNaN(x))`: the numbers, in input order. */
  function Numbers(values: seq<Cell>): (nums: seq<real>)
    ensures |nums| <= |values|
    ensures forall x :: multiset(nums)[x] == multiset(values)[Num(x)]
  {
    if values == [] then []
    else
      var rest := Numbers(values[1..]);
      assert values == [values[0]] + values[1..];
      if values[0].Num? then [values[0].x] + rest else rest
  }

  /** Filtering a concatenation filters each part and keeps their order. */
  lemma {:induction false} NumbersAppend(a: seq<Cell>, b: seq<Cell>)
    ensures Numbers(a + b) == Numbers(a) + Numbers(b)
  {
    if a == [] {
      assert a + b == b;
    } else {
      assert (a + b)[0] == a[0] && (a + b)[1..] == a[1..] + b;
      NumbersAppend(a[1..], b);
      if a[0].Num? {
        AppendAssoc([a[0].x], Numbers(a[1..]), Numbers(b));
      }
    }
  }

  /** A number is kept exactly when it occurs among the entries. */
  lemma NumbersMembers(values: seq<Cell>, x: real)
    ensures x in Numbers(values) <==> Num(x) in values
  {
    assert multiset(Numbers(values))[x] == multiset(values)[Num(x)];
  }

  /** `arr.reduce((s, n) => s + n, 0)`: the sum, accumulated from the left. */
  function Sum(s: seq<real>): real {
    if s == [] then 0.0 else Sum(s[..|s| - 1]) + s[|s| - 1]
  }

  /**
   * `+x.toFixed(2)`: the nearest whole number of hundredths, a tie going
   * away from zero (`toFixed` rounds the magnitude and keeps the sign).
   */
  function ToFixed2(x: real): real {
    if x < 0.0 then -(JsMath.Floor(-x * 100.0 + 0.5) as real / 100.0)
    else JsMath.Floor(x * 100.0 + 0.5) as real / 100.0
  }

  /** Rounding a magnitude `a >= 0` to the nearest hundredth, a tie going up. */
  lemma RoundMagnitude(a: real)
    requires a >= 0.0
    ensures var r := JsMath.Floor(a * 100.0 + 0.5) as real / 100.0;
      r >= 0.0 && a - 0.005 < r <= a + 0.005 && Expressions.IsInteger(r * 100.0)
  {
    var n := JsMath.Floor(a * 100.0 + 0.5);
    assert n as real / 100.0 * 100.0 == n as real;
    assert (n as real).Floor == n;
  }

  /**
   * The result is a whole number of hundredths at most half a hundredth
   * from `x`, on the same side of zero; exactly half a hundredth only
   * away from zero, so a tie goes away from zero.
   */
  lemma ToFixed2Spec(x: real)
    ensures Expressions.IsHundredths(ToFixed2(x))
    ensures x - 0.005 <= ToFixed2(x) <= x + 0.005
    ensures x >= 0.0 ==> 0.0 <= ToFixed2(x) && x - 0.005 < ToFixed2(x)
    ensures x <= 0.0 ==> ToFixed2(x) <= 0.0 && ToFixed2(x) < x + 0.005
  {
    ToFixed2Hundredths(x);
    RoundMagnitude(if x < 0.0 then -x else x);
  }

  lemma ToFixed2Hundredths(x: real)
    ensures Expressions.IsHundredths(ToFixed2(x))
  {
    var n := JsMath.Floor((if x < 0.0 then -x else x) * 100.0 + 0.5);
    var m := if x < 0.0 then -n else n;
    assert ToFixed2(x) * 100.0 == m as real by {
      assert ToFixed2(x) == m as real / 100.0;
    }
    assert (m as real).Floor == m;
  }

  /** Rounding is symmetric in the sign: `-x` rounds to the negation of what `x` rounds to. */
  lemma ToFixed2Odd(x: real)
    ensures ToFixed2(-x) == -ToFixed2(x)
  {
    if x == 0.0 {
      assert -x == 0.0;
    }
  }

  /** A whole number of hundredths is left unchanged. */
  lemma ToFixed2Exact(x: real)
    requires Expressions.IsHundredths(x)
    ensures ToFixed2(x) == x
  {
    var k := (x * 100.0).Floor;
    assert x * 100.0 == k as real;
    var j := if x < 0.0 then -k else k;
    var a := if x < 0.0 then -x else x;
    assert a * 100.0 == j as real;
    assert JsMath.Floor(j as real + 0.5) == j;
  }

  /** `average(arr)`: the sum divided by the count, to two decimals. */
  function Average(s: seq<real>): real
    requires |s| > 0
  {
    ToFixed2(Sum(s) / |s| as real)
  }

  /** Bounds on the entries bound the sum. */
  lemma {:induction false} SumBounds(s: seq<real>, lo: real, hi: real)
    requires forall i :: 0 <= i < |s| ==> lo <= s[i] <= hi
    ensures |s| as real * lo <= Sum(s) <= |s| as real * hi
  {
    if s != [] {
      SumBounds(s[..|s| - 1], lo, hi);
    }
  }

  /** The mean of entries between `lo` and `hi` lies between them. */
  lemma MeanBounds(s: seq<real>, lo: real, hi: real)
    requires |s| > 0
    requires forall i :: 0 <= i < |s| ==> lo <= s[i] <= hi
    ensures lo <= Sum(s) / |s| as real <= hi
  {
    var n := |s| as real;
    var q := Sum(s) / n;
    SumBounds(s, lo, hi);
    assert q * n == Sum(s);
    NonNegativeFactor(q - lo, n);
    NonNegativeFactor(hi - q, n);
  }

  lemma NonNegativeFactor(a: real, n: real)
    requires n > 0.0 && a * n >= 0.0
    ensures a >= 0.0
  {
  }

  /** `Math.max(...arr)`: an entry that no entry exceeds. */
  function MaxOf(s: seq<real>): (m: real)
    requires |s| > 0
    ensures m in s
    ensures forall i :: 0 <= i < |s| ==> s[i] <= m
  {
    if |s| == 1 then s[0]
    else
      var r := MaxOf(s[1..]);
      assert forall i :: 1 <= i < |s| ==> s[i] == s[1..][i - 1];
      if s[0] >= r then s[0] else r
  }

  /** `Math.min(...arr)`: an entry that exceeds no entry. */
  function MinOf(s: seq<real>): (m: real)
    requires |s| > 0
    ensures m in s
    ensures forall i :: 0 <= i < |s| ==> m <= s[i]
  {
    if |s| == 1 then s[0]
    else
      var r := MinOf(s[1..]);
      assert forall i :: 1 <= i < |s| ==> s[i] == s[1..][i - 1];
      if s[0] <= r then s[0] else r
  }

  /**
   * The average is the mean `Sum(s) / |s|` give or take the half hundredth
   * of `toFixed`, is a whole number of hundredths, and so lies between the
   * least and the greatest entry give or take that half hundredth.
   */
  lemma AverageSpec(s: seq<real>)
    requires |s| > 0
    ensures Expressions.IsHundredths(Average(s))
    ensures var mean := Sum(s) / |s| as real; mean - 0.005 <= Average(s) <= mean + 0.005
    ensures MinOf(s) - 0.005 <= Average(s) <= MaxOf(s) + 0.005
  {
    MeanBounds(s, MinOf(s), MaxOf(s));
    ToFixed2Spec(Sum(s) / |s| as real);
  }

  /** The average of `n` copies of one value is that value to two decimals. */
  lemma AverageOfEqual(s: seq<real>, c: real)
    requires |s| > 0 && forall i :: 0 <= i < |s| ==> s[i] == c
    ensures Average(s) == ToFixed2(c)
  {
    MeanBounds(s, c, c);
  }

  predicate Sorted(s: seq<real>) {
    forall i, j :: 0 <= i < j < |s| ==> s[i] <= s[j]
  }

  /** `x` placed into the ascending sequence `t` before its first greater entry. */
  function Insert(x: real, t: seq<real>): (r: seq<real>)
    requires Sorted(t)
    ensures Sorted(r) && multiset(r) == multiset(t) + multiset{x}
    ensures r[0] == if t != [] && t[0] < x then t[0] else x
  {
    if t == [] || x <= t[0] then
      SortedCons(x, t);
      [x] + t
    else
      assert t == [t[0]] + t[1..];
      var r' := Insert(x, t[1..]);
      SortedCons(t[0], r');
      [t[0]] + r'
  }

  lemma SortedCons(h: real, r: seq<real>)
    requires Sorted(r) && (r == [] || h <= r[0])
    ensures Sorted([h] + r)
  {
  }

  /**
   * `[...arr].sort((a, b) => a - b)`: an ascending copy.  The comparator
   * leaves the algorithm open; `SortedUnique` shows that every algorithm
   * gives this same sequence.
   */
  function SortAscending(s: seq<real>): (r: seq<real>)
    ensures Sorted(r) && multiset(r) == multiset(s) && |r| == |s|
  {
    if s == [] then []
    else
      assert s == [s[0]] + s[1..];
      Insert(s[0], SortAscending(s[1..]))
  }

  /** Two ascending sequences with the same entries are equal. */
  lemma {:induction false} SortedUnique(a: seq<real>, b: seq<real>)
    requires Sorted(a) && Sorted(b) && multiset(a) == multiset(b)
    ensures a == b
    decreases |a|
  {
    if a == [] {
      assert |multiset(b)| == 0;
    } else {
      SortedHeads(a, b);
      SortedHeads(b, a);
      MultisetTails(a, b);
      SortedUnique(a[1..], b[1..]);
      assert a == [a[0]] + a[1..] && b == [b[0]] + b[1..];
    }
  }

  /** The head of a non-empty ascending sequence is no greater than the head of any with the same entries. */
  lemma SortedHeads(a: seq<real>, b: seq<real>)
    requires a != [] && Sorted(b) && multiset(a) == multiset(b)
    ensures b != [] && b[0] <= a[0]
  {
    assert a[0] in multiset(b);
    var j :| 0 <= j < |b| && b[j] == a[0];
  }

  lemma MultisetTails(a: seq<real>, b: seq<real>)
    requires a != [] && b != [] && a[0] == b[0] && multiset(a) == multiset(b)
    ensures multiset(a[1..]) == multiset(b[1..])
  {
    assert a == [a[0]] + a[1..] && b == [b[0]] + b[1..];
    var ma, mb := multiset(a[1..]), multiset(b[1..]);
    assert multiset(a) == multiset{a[0]} + ma;
    assert multiset(b) == multiset{a[0]} + mb;
    forall x ensures ma[x] == mb[x] {
      assert (multiset{a[0]} + ma)[x] == (multiset{a[0]} + mb)[x];
    }
  }

  /**
   * `median(arr)`: the middle entry of the ascending copy for an odd count,
   * the two-decimal average of the two middle entries for an even count.
   */
  function Median(s: seq<real>): real
    requires |s| > 0
  {
    var t := SortAscending(s);
    var mid := |t| / 2;
    if |t| % 2 == 1 then t[mid] else Average([t[mid - 1], t[mid]])
  }

  /**
   * Whatever ascending arrangement `t` of the entries the sort produces,
   * the median is its middle entry (odd count) or the two-decimal average
   * of its two middle entries (even count).
   */
  lemma MedianOfSorted(s: seq<real>, t: seq<real>)
    requires |s| > 0 && Sorted(t) && multiset(t) == multiset(s)
    ensures |t| == |s|
    ensures |s| % 2 == 1 ==> Median(s) == t[|s| / 2]
    ensures |s| % 2 == 0 ==> Median(s) == ToFixed2((t[|s| / 2 - 1] + t[|s| / 2]) / 2.0)
  {
    assert |t| == |multiset(t)| == |s|;
    SortedUnique(SortAscending(s), t);
    if |s| % 2 == 0 {
      SumPair(t[|s| / 2 - 1], t[|s| / 2]);
    }
  }

  /**
   * An odd count gives one of the entries, and the median lies between the
   * least and the greatest entry, give or take the half hundredth of `toFixed`.
   */
  lemma MedianBounds(s: seq<real>)
    requires |s| > 0
    ensures |s| % 2 == 1 ==> Median(s) in s
    ensures MinOf(s) - 0.005 <= Median(s) <= MaxOf(s) + 0.005
  {
    var t := SortAscending(s);
    var mid := |s| / 2;
    MedianOfSorted(s, t);
    EntryBounds(s, t[mid]);
    if |s| % 2 == 0 {
      EntryBounds(s, t[mid - 1]);
      ToFixed2Spec((t[mid - 1] + t[mid]) / 2.0);
    }
  }

  lemma SumPair(a: real, b: real)
    ensures Sum([a, b]) == a + b
  {
    assert Sum([a]) == a by {
      assert [a][..0] == [];
    }
    assert [a, b][..1] == [a];
  }

  /** An entry lies between the least and the greatest entry. */
  lemma EntryBounds(s: seq<real>, x: real)
    requires |s| > 0 && x in multiset(s)
    ensures x in s && MinOf(s) <= x <= MaxOf(s)
  {
    var i :| 0 <= i < |s| && s[i] == x;
  }

  /** The number of times `x` occurs in `s`. */
  function Count(s: seq<real>, x: real): nat {
    multiset(s)[x]
  }

  /**
   * Index of the first entry among `s[..n]` whose count in all of `s` is
   * the greatest: the entry the scan of `mode` holds after `n` steps.
   */
  function FirstMost(s: seq<real>, n: nat): (k: nat)
    requires 0 < n <= |s|
    ensures k < n
  {
    if n == 1 then 0
    else
      var k := FirstMost(s, n - 1);
      if Count(s, s[n - 1]) > Count(s, s[k]) then n - 1 else k
  }

  /** The value `mode(arr)` returns. */
  function ModeOf(s: seq<real>): real
    requires |s| > 0
  {
    s[FirstMost(s, |s|)]
  }

  /**
   * `mode(arr)`: count each value into a frequency table, then scan the
   * entries in order, keeping the first one whose count beats the best so far.
   */
  method Mode(arr: seq<real>) returns (mode: real)
    requires |arr| > 0
    ensures mode == ModeOf(arr)
  {
    var freq: map<real, nat> := map[];
    for i := 0 to |arr|
      invariant forall x :: x in freq <==> x in arr[..i]
      invariant forall x :: x in freq ==> freq[x] == multiset(arr[..i])[x]
    {
      var n := arr[i];
      freq := freq[n := (if n in freq then freq[n] else 0) + 1];
      assert arr[..i + 1] == arr[..i] + [n];
    }
    assert arr[..|arr|] == arr;
    var max := 0;
    mode := arr[0];
    for i := 0 to |arr|
      invariant i == 0 ==> max == 0 && mode == arr[0]
      invariant i > 0 ==> mode == arr[FirstMost(arr, i)] && max == Count(arr, mode)
    {
      var n := arr[i];
      if freq[n] > max {
        max := freq[n];
        mode := n;
      }
    }
  }

  /** The entry `FirstMost` picks has the greatest count, and every entry before it a smaller one. */
  lemma {:induction false} FirstMostSpec(s: seq<real>, n: nat)
    requires 0 < n <= |s|
    ensures forall j :: 0 <= j < n ==> Count(s, s[j]) <= Count(s, s[FirstMost(s, n)])
    ensures forall j :: 0 <= j < FirstMost(s, n) ==> Count(s, s[j]) < Count(s, s[FirstMost(s, n)])
  {
    if n > 1 {
      FirstMostSpec(s, n - 1);
    }
  }

  /**
   * The mode occurs in the input, no value occurs more often, and any other
   * value that occurs as often first occurs after it: among equally
   * frequent values the first in input order wins.
   */
  lemma ModeOfSpec(s: seq<real>)
    requires |s| > 0
    ensures ModeOf(s) in s
    ensures forall x :: Count(s, x) <= Count(s, ModeOf(s))
    ensures forall j :: 0 <= j < |s| && s[j] != ModeOf(s) && Count(s, s[j]) == Count(s, ModeOf(s)) ==>
      ModeOf(s) in s[..j]
  {
    var k := FirstMost(s, |s|);
    FirstMostSpec(s, |s|);
    forall x ensures Count(s, x) <= Count(s, ModeOf(s)) {
      if x in s {
        var j :| 0 <= j < |s| && s[j] == x;
      }
    }
    forall j | 0 <= j < |s| && s[j] != ModeOf(s) && Count(s, s[j]) == Count(s, ModeOf(s))
      ensures ModeOf(s) in s[..j]
    {
      assert s[..j][k] == s[k];
    }
  }

  /** The metric names `calcMetric` knows. */
  const MetricNames: set<string> := {"Average", "Median", "Mode", "Max", "Min"}

  /**
   * `calcMetric(values, metric)`: `""` for an empty list, for a list with
   * no numbers and for an unknown metric name; otherwise the named
   * reduction of the numbers.
   */
  function CalcMetric(values: seq<Cell>, metric: string): (r: MetricResult)
    ensures r.Blank? <==> Numbers(values) == [] || metric !in MetricNames
    ensures metric == "Max" && r.Value? ==>
      r.x in Numbers(values) && forall y :: y in Numbers(values) ==> y <= r.x
    ensures metric == "Min" && r.Value? ==>
      r.x in Numbers(values) && forall y :: y in Numbers(values) ==> r.x <= y
  {
    if values == [] then Blank
    else
      var nums := Numbers(values);
      if nums == [] then Blank
      else if metric == "Average" then Value(Average(nums))
      else if metric == "Median" then Value(Median(nums))
      else if metric == "Mode" then Value(ModeOf(nums))
      else if metric == "Max" then Value(MaxOf(nums))
      else if metric == "Min" then Value(MinOf(nums))
      else Blank
  }

  /**
   * Average and Median of a list holding numbers are numbers between the
   * least and the greatest of them, give or take the half hundredth of
   * `toFixed`; the average is a whole number of hundredths within half a
   * hundredth of the mean of the numbers.
   */
  lemma CalcMetricAverageMedian(values: seq<Cell>)
    requires Numbers(values) != []
    ensures var nums := Numbers(values);
      var avg, med := CalcMetric(values, "Average"), CalcMetric(values, "Median");
      var mean := Sum(nums) / |nums| as real;
      avg.Value? && Expressions.IsHundredths(avg.x) && mean - 0.005 <= avg.x <= mean + 0.005 &&
      MinOf(nums) - 0.005 <= avg.x <= MaxOf(nums) + 0.005 &&
      med.Value? && MinOf(nums) - 0.005 <= med.x <= MaxOf(nums) + 0.005
  {
    assert values != [];
    AverageSpec(Numbers(values));
    MedianBounds(Numbers(values));
  }

  /**
   * Mode of a list holding numbers is a number of the list that no other
   * number outnumbers; a number that occurs as often but differs occurs
   * first later in the list than it.
   */
  lemma CalcMetricMode(values: seq<Cell>)
    requires Numbers(values) != []
    ensures var m := CalcMetric(values, "Mode");
      m.Value? && Num(m.x) in values &&
      (forall x :: multiset(values)[Num(x)] <= multiset(values)[Num(m.x)]) &&
      (forall j :: 0 <= j < |values| && values[j].Num? && values[j].x != m.x &&
                   multiset(values)[values[j]] == multiset(values)[Num(m.x)]
                   ==> Num(m.x) in values[..j])
  {
    var nums := Numbers(values);
    assert values != [];
    var m := ModeOf(nums);
    assert CalcMetric(values, "Mode") == Value(m);
    ModeOfSpec(nums);
    NumbersMembers(values, m);
    forall x ensures multiset(values)[Num(x)] <= multiset(values)[Num(m)] {
      assert Count(nums, x) <= Count(nums, m);
    }
    forall j | 0 <= j < |values| && values[j].Num? && values[j].x != m &&
               multiset(values)[values[j]] == multiset(values)[Num(m)]
      ensures Num(m) in values[..j]
    {
      ModeBeforeTie(values, j);
    }
  }

  lemma ModeBeforeTie(values: seq<Cell>, j: nat)
    requires Numbers(values) != [] && j < |values| && values[j].Num?
    requires values[j].x != ModeOf(Numbers(values))
    requires multiset(values)[values[j]] == multiset(values)[Num(ModeOf(Numbers(values)))]
    ensures Num(ModeOf(Numbers(values))) in values[..j]
  {
    var nums, m := Numbers(values), ModeOf(Numbers(values));
    var p := |Numbers(values[..j])|;
    NumbersAt(values, j);
    ModeOfSpec(nums);
    assert Count(nums, nums[p]) == Count(nums, m);
    assert m in Numbers(values[..j]);
    NumbersMembers(values[..j], m);
  }

  /** The number at position `j` of the list is the `p`-th number kept, `p` the count of those before it. */
  lemma NumbersAt(values: seq<Cell>, j: nat)
    requires j < |values| && values[j].Num?
    ensures var nums, p := Numbers(values), |Numbers(values[..j])|;
      p < |nums| && nums[p] == values[j].x && nums[..p] == Numbers(values[..j])
  {
    var before, after := values[..j], values[j..];
    assert values == before + after;
    NumbersAppend(before, after);
    assert Numbers(after) == [values[j].x] + Numbers(after[1..]) by {
      assert after[0] == values[j];
    }
  }
}
