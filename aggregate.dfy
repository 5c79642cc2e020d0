/** The final grade of a deliverable (a mean trimmed by one value at each
    end) and the anonymous summary a professor sees. */
module Aggregate {
  import opened Records
  import opened Ledger

  function Sum(s: seq<int>): int {
    if s == [] then 0 else s[0] + Sum(s[1..])
  }

  predicate Sorted(s: seq<int>) {
    forall i, j :: 0 <= i < j < |s| ==> s[i] <= s[j]
  }

  /** Inserts `x` before the first element not below it. */
  function Insert(x: int, s: seq<int>): (r: seq<int>)
    ensures |r| == |s| + 1
  {
    if s == [] || x <= s[0] then [x] + s
    else [s[0]] + Insert(x, s[1..])
  }

  /** Inserting adds exactly `x` to the values. */
  lemma {:induction false} InsertPermutes(x: int, s: seq<int>)
    ensures multiset(Insert(x, s)) == multiset(s) + multiset{x}
  {
    if s != [] && x > s[0] {
      InsertPermutes(x, s[1..]);
      assert s == [s[0]] + s[1..];
    }
  }

  /** Inserting into a sorted list keeps it sorted. */
  lemma {:induction false} InsertSorted(x: int, s: seq<int>)
    requires Sorted(s)
    ensures Sorted(Insert(x, s))
  {
    if s != [] && x > s[0] {
      var tail := s[1..];
      var rest := Insert(x, tail);
      InsertSorted(x, tail);
      assert forall k :: 0 <= k < |tail| ==> s[0] <= tail[k] by {
        forall k | 0 <= k < |tail| ensures s[0] <= tail[k] {
          assert tail[k] == s[k + 1];
        }
      }
      InsertAbove(x, tail, s[0]);
      assert Insert(x, s) == [s[0]] + rest;
    }
  }

  /** Inserting a value no smaller than a lower bound of a list keeps the bound. */
  lemma {:induction false} InsertAbove(x: int, s: seq<int>, lo: int)
    requires lo <= x && forall k :: 0 <= k < |s| ==> lo <= s[k]
    ensures forall k :: 0 <= k < |Insert(x, s)| ==> lo <= Insert(x, s)[k]
  {
    if s != [] && x > s[0] {
      InsertAbove(x, s[1..], lo);
      assert Insert(x, s) == [s[0]] + Insert(x, s[1..]);
    }
  }

  /** `[...values].sort((a, b) => a - b)`, as an insertion sort. */
  function SortAscending(s: seq<int>): (r: seq<int>)
    ensures |r| == |s|
  {
    if s == [] then [] else Insert(s[0], SortAscending(s[1..]))
  }

  /** Sorting permutes the values. */
  lemma {:induction false} SortPermutes(s: seq<int>)
    ensures multiset(SortAscending(s)) == multiset(s)
  {
    if s != [] {
      var tail := s[1..];
      var sortedTail := SortAscending(tail);
      SortPermutes(tail);
      InsertPermutes(s[0], sortedTail);
      assert SortAscending(s) == Insert(s[0], sortedTail);
      assert multiset(s) == multiset{s[0]} + multiset(tail) by {
        assert s == [s[0]] + tail;
      }
    }
  }

  /** Sorting sorts. */
  lemma {:induction false} SortSorts(s: seq<int>)
    ensures Sorted(SortAscending(s))
  {
    if s != [] {
      SortSorts(s[1..]);
      InsertSorted(s[0], SortAscending(s[1..]));
    }
  }

  /** The least element. */
  function Min(s: seq<int>): int
    requires |s| > 0
  {
    if |s| == 1 then s[0]
    else
      var m := Min(s[1..]);
      if s[0] <= m then s[0] else m
  }

  /** The greatest element. */
  function Max(s: seq<int>): int
    requires |s| > 0
  {
    if |s| == 1 then s[0]
    else
      var m := Max(s[1..]);
      if m <= s[0] then s[0] else m
  }

  /** The least element is one of the values and no value is below it. */
  lemma {:induction false} MinIsLeast(s: seq<int>)
    requires |s| > 0
    ensures Min(s) in s && forall k :: 0 <= k < |s| ==> Min(s) <= s[k]
  {
    if |s| > 1 {
      var tail := s[1..];
      MinIsLeast(tail);
      forall k | 0 < k < |s| ensures Min(s) <= s[k] {
        assert s[k] == tail[k - 1];
      }
    }
  }

  /** The greatest element is one of the values and no value is above it. */
  lemma {:induction false} MaxIsGreatest(s: seq<int>)
    requires |s| > 0
    ensures Max(s) in s && forall k :: 0 <= k < |s| ==> s[k] <= Max(s)
  {
    if |s| > 1 {
      var tail := s[1..];
      MaxIsGreatest(tail);
      forall k | 0 < k < |s| ensures s[k] <= Max(s) {
        assert s[k] == tail[k - 1];
      }
    }
  }

  /** `computeFinalGradeFromValues(values)` on values in hundredths: none
      below three values; otherwise sort, drop exactly the first and the last,
      and round the mean of the rest to a hundredth (`clamp2Decimals`). */
  function FinalGradeFromValues(values: seq<int>): (r: Option<int>)
    ensures r.None? <==> |values| < 3
  {
    if |values| < 3 then None
    else Some(RoundedMean(TrimmedSumOf(values), |values| - 2))
  }

  /** `Math.round` of the mean of `count` values summing to `sum`, in whole
      numbers: the floor of `sum / count + 1/2`, which is the floor of
      `(2 * sum + count) / (2 * count)`. */
  function RoundedMean(sum: int, count: nat): int
    requires count > 0
  {
    (2 * sum + count) / (2 * count)
  }

  /** The rounded mean is the whole number nearest to `sum / count`, halves
      rounded up: `r - 1/2 <= sum / count < r + 1/2`. */
  lemma RoundedMeanSpec(sum: int, count: nat)
    requires count > 0
    ensures count * (2 * RoundedMean(sum, count) - 1) <= 2 * sum < count * (2 * RoundedMean(sum, count) + 1)
  {
    var q := RoundedMean(sum, count);
    var a, b := 2 * sum + count, 2 * count;
    assert a == b * q + a % b && 0 <= a % b < b;
    assert count * (2 * q - 1) == b * q - count;
    assert count * (2 * q + 1) == b * q + count;
  }

  lemma {:induction false} SumConcat(p: seq<int>, q: seq<int>)
    ensures Sum(p + q) == Sum(p) + Sum(q)
  {
    if p == [] {
      assert p + q == q;
    } else {
      assert (p + q)[0] == p[0];
      assert (p + q)[1..] == p[1..] + q;
      SumConcat(p[1..], q);
    }
  }

  /** The sum does not depend on the order of the values. */
  lemma {:induction false} SumPermutation(a: seq<int>, b: seq<int>)
    requires multiset(a) == multiset(b)
    ensures Sum(a) == Sum(b)
  {
    if a == [] {
      assert |b| == |multiset(b)| == 0;
    } else {
      var x := a[0];
      assert x in multiset(b);
      var i :| 0 <= i < |b| && b[i] == x;
      var rest := b[..i] + b[i + 1..];
      assert b == b[..i] + [x] + b[i + 1..];
      assert a == [x] + a[1..];
      calc {
        multiset{x} + multiset(a[1..]);
        multiset(a);
        multiset(b);
        multiset(b[..i]) + multiset{x} + multiset(b[i + 1..]);
        multiset{x} + multiset(rest);
      }
      assert multiset(a[1..]) == multiset(rest) by {
        forall y ensures multiset(a[1..])[y] == multiset(rest)[y] {
          assert (multiset{x} + multiset(a[1..]))[y] == (multiset{x} + multiset(rest))[y];
        }
      }
      SumPermutation(a[1..], rest);
      SumConcat(b[..i] + [x], b[i + 1..]);
      SumConcat(b[..i], [x]);
      SumConcat(b[..i], b[i + 1..]);
    }
  }

  /** Two lists holding the same values have the same least and greatest value. */
  lemma MinMaxPermutation(a: seq<int>, b: seq<int>)
    requires |a| > 0 && multiset(a) == multiset(b)
    ensures |b| == |a| && Min(a) == Min(b) && Max(a) == Max(b)
  {
    assert |b| == |multiset(b)| == |multiset(a)| == |a|;
    var ma, mb, xa, xb := Min(a), Min(b), Max(a), Max(b);
    MinIsLeast(a);
    MinIsLeast(b);
    MaxIsGreatest(a);
    MaxIsGreatest(b);
    assert ma in multiset(b) && mb in multiset(a) && xa in multiset(b) && xb in multiset(a);
    var i :| 0 <= i < |b| && b[i] == ma;
    var j :| 0 <= j < |a| && a[j] == mb;
    var k :| 0 <= k < |b| && b[k] == xa;
    var l :| 0 <= l < |a| && a[l] == xb;
  }

  /** The first and last of an ascending permutation are the least and the
      greatest value. */
  lemma SortedEnds(values: seq<int>, sorted: seq<int>)
    requires |values| > 0 && Sorted(sorted) && multiset(sorted) == multiset(values)
    ensures |sorted| == |values|
    ensures sorted[0] == Min(values) && sorted[|sorted| - 1] == Max(values)
  {
    MinMaxPermutation(values, sorted);
    SortedMinMax(sorted);
  }

  lemma SortedMinMax(s: seq<int>)
    requires |s| > 0 && Sorted(s)
    ensures Min(s) == s[0] && Max(s) == s[|s| - 1]
  {
    var lo, hi := Min(s), Max(s);
    MinIsLeast(s);
    MaxIsGreatest(s);
    var i :| 0 <= i < |s| && s[i] == lo;
    var j :| 0 <= j < |s| && s[j] == hi;
    SortedLe(s, 0, i);
    SortedLe(s, j, |s| - 1);
  }

  lemma SortedLe(s: seq<int>, i: nat, j: nat)
    requires Sorted(s) && i <= j < |s|
    ensures s[i] <= s[j]
  {
  }

  /** The final grade is the rounded mean of all values but one least and one
      greatest: `(sum - min - max) / (n - 2)`, ties at either end included. */
  lemma {:induction false} FinalGradeIsTrimmedMean(values: seq<int>)
    requires |values| >= 3
    ensures FinalGradeFromValues(values) ==
      Some(RoundedMean(Sum(values) - Min(values) - Max(values), |values| - 2))
  {
    var t := Sum(values) - Min(values) - Max(values);
    TrimmedSum(values);
    FinalGradeOfTrimmedSum(values, t);
  }

  /** The final grade rounds the mean of the trimmed sum `t` over `n - 2` values. */
  lemma FinalGradeOfTrimmedSum(values: seq<int>, t: int)
    requires |values| >= 3 && t == TrimmedSumOf(values)
    ensures FinalGradeFromValues(values) == Some(RoundedMean(t, |values| - 2))
  {
  }

  /** The values sorted ascending, without the first and the last, summed. */
  function TrimmedSumOf(values: seq<int>): int
    requires |values| >= 2
  {
    Sum(SortAscending(values)[1..|values| - 1])
  }

  /** The sorted values without their ends sum to the total less the least
      and the greatest value. */
  lemma TrimmedSum(values: seq<int>)
    requires |values| >= 3
    ensures TrimmedSumOf(values) == Sum(values) - Min(values) - Max(values)
  {
    var sorted := SortAscending(values);
    assert multiset(sorted) == multiset(values) && Sorted(sorted) by {
      SortPermutes(values);
      SortSorts(values);
    }
    TrimmedSumOfPermutation(values, sorted);
  }

  /** Any ascending arrangement of the values, without its ends, sums to the
      total less the least and the greatest value. */
  lemma TrimmedSumOfPermutation(values: seq<int>, sorted: seq<int>)
    requires |values| >= 3 && Sorted(sorted) && multiset(sorted) == multiset(values)
    ensures |sorted| == |values|
    ensures Sum(sorted[1..|sorted| - 1]) == Sum(values) - Min(values) - Max(values)
  {
    assert |sorted| == |multiset(sorted)| == |multiset(values)| == |values|;
    assert Sum(values) == Sum(sorted) by {
      SumPermutation(values, sorted);
    }
    assert sorted[0] == Min(values) && sorted[|sorted| - 1] == Max(values) by {
      SortedEnds(values, sorted);
    }
    SumWithoutEnds(sorted);
  }

  /** Dropping the first and the last value removes them from the sum. */
  lemma SumWithoutEnds(s: seq<int>)
    requires |s| >= 2
    ensures Sum(s[1..|s| - 1]) == Sum(s) - s[0] - s[|s| - 1]
  {
    var init := s[..|s| - 1];
    SumLast(s);
    assert init[1..] == s[1..|s| - 1];
    assert Sum(init) == init[0] + Sum(init[1..]);
  }

  /** The sum is the sum of all values but the last, plus the last. */
  lemma SumLast(s: seq<int>)
    requires |s| >= 1
    ensures Sum(s) == Sum(s[..|s| - 1]) + s[|s| - 1]
  {
    assert s == s[..|s| - 1] + [s[|s| - 1]];
    SumConcat(s[..|s| - 1], [s[|s| - 1]]);
    SumSingleton(s[|s| - 1]);
  }

  lemma SumSingleton(x: int)
    ensures Sum([x]) == x
  {
    assert [x][1..] == [];
  }

  /** The final grade depends only on the multiset of submitted values, not on
      their order (and so not on which juror submitted first). */
  lemma FinalGradeOrderIrrelevant(a: seq<int>, b: seq<int>)
    requires multiset(a) == multiset(b)
    ensures FinalGradeFromValues(a) == FinalGradeFromValues(b)
  {
    assert |a| == |multiset(a)| == |multiset(b)| == |b|;
    if |a| >= 3 {
      assert TrimmedSumOf(a) == TrimmedSumOf(b) by {
        TrimmedSum(a);
        TrimmedSum(b);
        SumPermutation(a, b);
        MinMaxPermutation(a, b);
      }
    }
  }

  lemma {:induction false} SumBounds(s: seq<int>, lo: int, hi: int)
    requires forall k :: 0 <= k < |s| ==> lo <= s[k] <= hi
    ensures |s| * lo <= Sum(s) <= |s| * hi
  {
    if s != [] {
      SumBounds(s[1..], lo, hi);
      assert |s| * lo == (|s| - 1) * lo + lo;
      assert |s| * hi == (|s| - 1) * hi + hi;
    }
  }

  /** `SumBounds` with the count given as `c`. */
  lemma SumBoundsCount(s: seq<int>, c: int, lo: int, hi: int)
    requires c == |s|
    requires forall k :: 0 <= k < |s| ==> lo <= s[k] <= hi
    ensures c * lo <= Sum(s) <= c * hi
  {
    SumBounds(s, lo, hi);
  }

  /** The rounded mean of values in [lo, hi] lies in [lo, hi]. */
  lemma RoundedMeanBounds(sum: int, count: nat, lo: int, hi: int)
    requires count > 0 && count * lo <= sum <= count * hi
    ensures lo <= RoundedMean(sum, count) <= hi
  {
    var r := RoundedMean(sum, count);
    RoundedMeanSpec(sum, count);
    assert count * (2 * r - 1) <= count * (2 * hi);
    MulCancel(count, 2 * r - 1, 2 * hi);
    assert count * (2 * lo) < count * (2 * r + 1);
    MulCancel(count, 2 * r + 1, 2 * lo - 1);
  }

  /** A positive factor can be cancelled from an inequality. */
  lemma MulCancel(c: nat, x: int, y: int)
    requires c > 0
    ensures c * x <= c * y <==> x <= y
  {
    assert c * y - c * x == c * (y - x);
  }

  /** The final grade lies between the least and the greatest value, so grades
      in [1, 10] give a final grade in [1, 10]. */
  lemma FinalGradeBounds(values: seq<int>)
    requires |values| >= 3
    ensures Min(values) <= FinalGradeFromValues(values).value <= Max(values)
  {
    var lo, hi := Min(values), Max(values);
    assert lo <= RoundedMean(TrimmedSumOf(values), |values| - 2) <= hi by {
      TrimmedSumBounds(values);
      RoundedMeanBounds(TrimmedSumOf(values), |values| - 2, lo, hi);
    }
  }

  /** The trimmed sum lies between `n - 2` times the least and `n - 2` times
      the greatest value. */
  lemma TrimmedSumBounds(values: seq<int>)
    requires |values| >= 3
    ensures (|values| - 2) * Min(values) <= TrimmedSumOf(values) <= (|values| - 2) * Max(values)
  {
    var trimmed := SortAscending(values)[1..|values| - 1];
    TrimmedWithinExtremes(values, trimmed);
    SumBoundsCount(trimmed, |values| - 2, Min(values), Max(values));
  }

  /** Every value kept after trimming lies between the least and the greatest
      value. */
  lemma TrimmedWithinExtremes(values: seq<int>, trimmed: seq<int>)
    requires |values| >= 3 && trimmed == SortAscending(values)[1..|values| - 1]
    ensures |trimmed| == |values| - 2
    ensures forall k :: 0 <= k < |trimmed| ==> Min(values) <= trimmed[k] <= Max(values)
  {
    var sorted := SortAscending(values);
    assert Sorted(sorted) && multiset(sorted) == multiset(values) by {
      SortPermutes(values);
      SortSorts(values);
    }
    SortedEnds(values, sorted);
    forall k | 0 <= k < |trimmed| ensures Min(values) <= trimmed[k] <= Max(values) {
      assert trimmed[k] == sorted[k + 1];
    }
  }

  /** Four grades 6, 7, 10 and 2 give 6.50; a single grade gives none. */
  lemma FinalGradeExamples()
    ensures FinalGradeFromValues([600, 700, 1000, 200]) == Some(650)
    ensures FinalGradeFromValues([500]) == None
  {
    var v := [600, 700, 1000, 200];
    assert TrimmedSumOf(v) == 1300 by {
      assert Sum(v) == 2500 by {
        assert v[1..] == [700, 1000, 200] && v[2..] == [1000, 200] && v[3..] == [200];
        SumSingleton(200);
      }
      assert Min(v) == 200 by {
        MinIsLeast(v);
      }
      assert Max(v) == 1000 by {
        MaxIsGreatest(v);
      }
      TrimmedSum(v);
    }
    FinalGradeOfTrimmedSum(v, 1300);
    assert RoundedMean(1300, 2) == 650;
  }

  /** What the professor's view shows for a deliverable: how many grades
      arrived against the jury size, the submitted values and the final grade,
      never who submitted which value. */
  datatype Summary = Summary(gradeCount: nat, jurySize: nat, values: seq<int>, final: Option<int>)

  function ProfessorSummary(grades: seq<Grade>, d: Deliverable): (s: Summary)
    ensures s.gradeCount == |s.values| && s.jurySize == |d.juryUserIds|
    ensures multiset(s.values) == multiset(Values(GradesForDeliverable(grades, d.id)))
    ensures s.final == FinalGradeFromValues(s.values)
  {
    var values := Values(GradesForDeliverable(grades, d.id));
    Summary(|values|, |d.juryUserIds|, values, FinalGradeFromValues(values))
  }

  /** The same grades attributed to other evaluators. */
  function Relabel(grades: seq<Grade>, f: Id -> Id): (r: seq<Grade>)
    ensures |r| == |grades|
    ensures forall k :: 0 <= k < |grades| ==> r[k] == grades[k].(evaluatorId := f(grades[k].evaluatorId))
  {
    seq(|grades|, k requires 0 <= k < |grades| => grades[k].(evaluatorId := f(grades[k].evaluatorId)))
  }

  /** Anonymity: the professor's summary is the same whoever submitted the
      values. */
  lemma {:induction false} SummaryIgnoresEvaluators(grades: seq<Grade>, d: Deliverable, f: Id -> Id)
    ensures ProfessorSummary(Relabel(grades, f), d) == ProfessorSummary(grades, d)
  {
    RelabelValues(grades, d.id, f);
  }

  lemma RelabelValues(grades: seq<Grade>, dId: Id, f: Id -> Id)
    ensures Values(GradesForDeliverable(Relabel(grades, f), dId)) == Values(GradesForDeliverable(grades, dId))
  {
    RelabelFilter(grades, dId, f);
    var kept := GradesForDeliverable(grades, dId);
    assert Values(Relabel(kept, f)) == Values(kept);
  }

  /** Relabelling commutes with selecting a deliverable's grades. */
  lemma {:induction false} RelabelFilter(grades: seq<Grade>, dId: Id, f: Id -> Id)
    ensures GradesForDeliverable(Relabel(grades, f), dId) == Relabel(GradesForDeliverable(grades, dId), f)
  {
    if grades != [] {
      var r := Relabel(grades, f);
      var rest := GradesForDeliverable(grades[1..], dId);
      RelabelCons(grades, f);
      RelabelFilter(grades[1..], dId, f);
      assert GradesForDeliverable(r, dId) ==
        if r[0].deliverableId == dId then [r[0]] + GradesForDeliverable(r[1..], dId)
        else GradesForDeliverable(r[1..], dId);
      if grades[0].deliverableId == dId {
        RelabelCons([grades[0]] + rest, f);
        assert ([grades[0]] + rest)[1..] == rest;
      }
    }
  }

  /** Relabelling a non-empty list relabels its head and its tail. */
  lemma RelabelCons(grades: seq<Grade>, f: Id -> Id)
    requires grades != []
    ensures Relabel(grades, f) == [Relabel(grades, f)[0]] + Relabel(grades[1..], f)
    ensures Relabel(grades, f)[0] == grades[0].(evaluatorId := f(grades[0].evaluatorId))
  {
    assert Relabel(grades, f)[1..] == Relabel(grades[1..], f);
  }
}
