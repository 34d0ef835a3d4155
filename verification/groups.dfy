/** The "Average Test Scores by Outcome" view: the outcome categories of the
    fixed display order that occur in the filtered table, and for each one the
    mean of every test score over that category's rows. */
module Groups {
  import opened Students

  /** Some row of `t` has outcome `g` (`g in t['Result'].unique()`). */
  predicate Occurs(t: Table, g: string)
  {
    exists i :: 0 <= i < |t| && t[i].student.result == g
  }

  /** The rows of `t` whose outcome is `g`, in order (`t[t['Result'] == g]`,
      and the group `g` of a group-by on `Result`). */
  function GroupRows(t: Table, g: string): (r: Table)
    ensures |r| <= |t|
    ensures forall i :: 0 <= i < |r| ==> r[i].student.result == g && r[i] in t
  {
    if t == [] then []
    else if t[0].student.result == g then [t[0]] + GroupRows(t[1..], g)
    else GroupRows(t[1..], g)
  }

  /** A group has rows exactly when its outcome occurs. */
  lemma {:induction false} GroupRowsNonEmpty(t: Table, g: string)
    ensures GroupRows(t, g) != [] <==> Occurs(t, g)
  {
    if t != [] && t[0].student.result != g {
      GroupRowsNonEmpty(t[1..], g);
      if Occurs(t, g) {
        var i :| 0 <= i < |t| && t[i].student.result == g;
        assert t[1..][i - 1] == t[i];
      }
    }
  }

  /** Grouping a concatenation groups each part. */
  lemma {:induction false} GroupRowsAppend(a: Table, b: Table, g: string)
    ensures GroupRows(a + b, g) == GroupRows(a, g) + GroupRows(b, g)
  {
    if a == [] {
      assert a + b == b;
    } else {
      var ab := a + b;
      assert ab[0] == a[0] && ab[1..] == a[1..] + b;
      GroupRowsAppend(a[1..], b, g);
      if a[0].student.result == g {
        assert GroupRows(ab, g) == [a[0]] + GroupRows(a[1..] + b, g);
        assert GroupRows(a, g) == [a[0]] + GroupRows(a[1..], g);
      } else {
        assert GroupRows(ab, g) == GroupRows(a[1..] + b, g);
        assert GroupRows(a, g) == GroupRows(a[1..], g);
      }
    }
  }

  /** `available_results`: the entries of `order` that occur in `t`, in the
      order `order` gives them, and no others. */
  function AvailableResults(order: seq<string>, t: Table): (r: seq<string>)
    ensures forall g :: g in r <==> g in order && Occurs(t, g)
    ensures |r| <= |order|
  {
    if order == [] then []
    else if Occurs(t, order[0]) then [order[0]] + AvailableResults(order[1..], t)
    else AvailableResults(order[1..], t)
  }

  /** The groups keep `order`'s sequence. */
  lemma {:induction false} AvailableResultsInOrder(order: seq<string>, t: Table)
    ensures IsSubsequence(AvailableResults(order, t), order)
  {
    if order != [] {
      AvailableResultsInOrder(order[1..], t);
      var r := AvailableResults(order[1..], t);
      if Occurs(t, order[0]) {
        assert AvailableResults(order, t)[1..] == r;
      } else {
        SkipHead(r, order);
      }
    }
  }

  /** The sum of one score column over some rows. */
  function Sum(rows: Table, col: ScoreColumn): real
  {
    if rows == [] then 0.0 else Score(rows[0], col) + Sum(rows[1..], col)
  }

  /** Every value of `col` among `rows` lies in [lo, hi]. */
  predicate ColumnWithin(rows: Table, col: ScoreColumn, lo: real, hi: real)
  {
    forall i :: 0 <= i < |rows| ==> lo <= Score(rows[i], col) <= hi
  }

  lemma {:induction false} SumWithin(rows: Table, col: ScoreColumn, lo: real, hi: real)
    requires ColumnWithin(rows, col, lo, hi)
    ensures (|rows| as real) * lo <= Sum(rows, col) <= (|rows| as real) * hi
  {
    if rows != [] {
      assert ColumnWithin(rows[1..], col, lo, hi) by {
        forall i | 0 <= i < |rows[1..]| ensures lo <= Score(rows[1..][i], col) <= hi {
          assert rows[1..][i] == rows[i + 1];
        }
      }
      SumWithin(rows[1..], col, lo, hi);
      assert Sum(rows, col) == Score(rows[0], col) + Sum(rows[1..], col);
      assert |rows| as real == |rows[1..]| as real + 1.0;
      AddBounds(Score(rows[0], col), Sum(rows[1..], col), |rows[1..]| as real, lo, hi);
    }
  }

  /** One more value within [lo, hi] added to a sum of `n` such values. */
  lemma AddBounds(x: real, rest: real, n: real, lo: real, hi: real)
    requires lo <= x <= hi && n * lo <= rest <= n * hi
    ensures (n + 1.0) * lo <= x + rest <= (n + 1.0) * hi
  {
    assert (n + 1.0) * lo == n * lo + lo;
    assert (n + 1.0) * hi == n * hi + hi;
  }

  /** The arithmetic mean of `col` over a non-empty set of rows; it lies
      between the smallest and the largest value averaged. */
  function Mean(rows: Table, col: ScoreColumn): (m: real)
    requires rows != []
    ensures forall lo: real, hi: real :: ColumnWithin(rows, col, lo, hi) ==> lo <= m <= hi
  {
    var n := |rows| as real;
    assert forall lo: real, hi: real :: ColumnWithin(rows, col, lo, hi) ==> lo <= Sum(rows, col) / n <= hi by {
      forall lo: real, hi: real | ColumnWithin(rows, col, lo, hi)
        ensures lo <= Sum(rows, col) / n <= hi
      {
        SumWithin(rows, col, lo, hi);
        MeanOfBoundedSum(Sum(rows, col), n, lo, hi);
      }
    }
    Sum(rows, col) / n
  }

  /** The sum over a concatenation is the sum of the parts' sums. */
  lemma {:induction false} SumAppend(a: Table, b: Table, col: ScoreColumn)
    ensures Sum(a + b, col) == Sum(a, col) + Sum(b, col)
  {
    if a == [] {
      assert a + b == b;
    } else {
      assert (a + b)[0] == a[0] && (a + b)[1..] == a[1..] + b;
      SumAppend(a[1..], b, col);
    }
  }

  /** The mean of two parts taken together is their mean weighted by row
      counts: what makes `Mean` the arithmetic mean. */
  lemma PooledMean(a: Table, b: Table, col: ScoreColumn)
    requires a != [] && b != []
    ensures Mean(a + b, col) * (|a| + |b|) as real == Mean(a, col) * |a| as real + Mean(b, col) * |b| as real
  {
    SumAppend(a, b, col);
    MeanTimesCount(a, col);
    MeanTimesCount(b, col);
    MeanTimesCount(a + b, col);
  }

  lemma MeanTimesCount(rows: Table, col: ScoreColumn)
    requires rows != []
    ensures Mean(rows, col) * |rows| as real == Sum(rows, col)
  {
  }

  lemma MeanOfBoundedSum(s: real, n: real, lo: real, hi: real)
    requires n > 0.0 && n * lo <= s <= n * hi
    ensures lo <= s / n <= hi
  {
    var m := s / n;
    assert m * n == s;
    assert (m - lo) * n >= 0.0;
    assert (hi - m) * n >= 0.0;
  }

  /** The mean of one score over the rows of outcome `g`. */
  function GroupMean(t: Table, g: string, col: ScoreColumn): (m: real)
    requires Occurs(t, g)
    ensures forall lo: real, hi: real :: ColumnWithin(t, col, lo, hi) ==> lo <= m <= hi
  {
    GroupRowsNonEmpty(t, g);
    var rows := GroupRows(t, g);
    assert forall lo: real, hi: real :: ColumnWithin(t, col, lo, hi) ==> ColumnWithin(rows, col, lo, hi) by {
      forall lo: real, hi: real, i | ColumnWithin(t, col, lo, hi) && 0 <= i < |rows|
        ensures lo <= Score(rows[i], col) <= hi
      {
        var j :| 0 <= j < |t| && t[j] == rows[i];
      }
    }
    Mean(rows, col)
  }

  /** A group's mean is taken over that group's rows only: rows of other
      outcomes added before and after the table do not change it. */
  lemma GroupMeanIgnoresOtherGroups(a: Table, b: Table, t: Table, g: string, col: ScoreColumn)
    requires Occurs(t, g)
    requires forall i :: 0 <= i < |a| ==> a[i].student.result != g
    requires forall i :: 0 <= i < |b| ==> b[i].student.result != g
    ensures Occurs(a + t + b, g)
    ensures GroupMean(a + t + b, g, col) == GroupMean(t, g, col)
  {
    GroupRowsAppend(a, t, g);
    GroupRowsAppend(a + t, b, g);
    GroupRowsNonEmpty(t, g);
    GroupRowsNonEmpty(a, g);
    GroupRowsNonEmpty(b, g);
    GroupRowsNonEmpty(a + t + b, g);
    assert GroupRows(a + t + b, g) == GroupRows(t, g);
  }

  /** A row of another outcome inserted anywhere inside the table does not
      change the group's mean either. */
  lemma GroupMeanIgnoresInsertedRow(a: Table, b: Table, x: Row, g: string, col: ScoreColumn)
    requires Occurs(a + b, g) && x.student.result != g
    ensures Occurs(a + [x] + b, g)
    ensures GroupMean(a + [x] + b, g, col) == GroupMean(a + b, g, col)
  {
    GroupRowsAppend(a, [x], g);
    GroupRowsAppend(a + [x], b, g);
    GroupRowsAppend(a, b, g);
    GroupRowsNonEmpty(a + b, g);
    GroupRowsNonEmpty(a + [x] + b, g);
    assert GroupRows(a + [x] + b, g) == GroupRows(a + b, g);
  }

  /** One outcome's column of `mean_scores`: its mean IQ, English, technical
      and soft-skills scores, in `score_cols` order. */
  datatype GroupScores = GroupScores(result: string, means: seq<real>)

  /** `mean_scores` (before its transpose): one entry per available outcome,
      in display order, holding the mean of each score column over that
      outcome's rows. */
  function MeanScores(order: seq<string>, t: Table): (r: seq<GroupScores>)
    ensures |r| == |AvailableResults(order, t)|
    ensures forall k :: 0 <= k < |r| ==>
      && r[k].result == AvailableResults(order, t)[k]
      && Occurs(t, r[k].result)
      && |r[k].means| == |ScoreColumns|
      && forall j :: 0 <= j < |ScoreColumns| ==> r[k].means[j] == GroupMean(t, r[k].result, ScoreColumns[j])
  {
    var groups := AvailableResults(order, t);
    seq(|groups|, k requires 0 <= k < |groups| =>
      GroupScores(groups[k], seq(|ScoreColumns|, j requires 0 <= j < |ScoreColumns| =>
        GroupMean(t, groups[k], ScoreColumns[j]))))
  }

  /** Scores in [0, 100] give group means in [0, 100]. */
  lemma MeanScoresWithin(order: seq<string>, t: Table)
    requires forall col: ScoreColumn :: ColumnWithin(t, col, 0.0, 100.0)
    ensures forall k, j :: 0 <= k < |MeanScores(order, t)| && 0 <= j < |ScoreColumns| ==>
      0.0 <= MeanScores(order, t)[k].means[j] <= 100.0
  {
    var r := MeanScores(order, t);
    forall k, j | 0 <= k < |r| && 0 <= j < |ScoreColumns|
      ensures 0.0 <= r[k].means[j] <= 100.0
    {
      assert ColumnWithin(t, ScoreColumns[j], 0.0, 100.0);
    }
  }

  /** An empty filtered table has no groups and no means. */
  lemma MeanScoresOfEmptyTable(order: seq<string>)
    ensures AvailableResults(order, []) == [] && MeanScores(order, []) == []
  {
  }

  /** Rows with outcomes drop out, Accepted, drop out give the groups
      Accepted, drop out: display order, not row order, and no "pending". */
  lemma AvailableResultsExample(x: Row, y: Row, z: Row)
    requires x.student.result == DropOut && y.student.result == Accepted && z.student.result == DropOut
    ensures AvailableResults(ResultOrder, [x, y, z]) == [Accepted, DropOut]
  {
    var t := [x, y, z];
    assert Occurs(t, Accepted) by { assert t[1].student.result == Accepted; }
    assert Occurs(t, DropOut) by { assert t[0].student.result == DropOut; }
    assert ResultOrder[1..] == [Pending, DropOut] && ResultOrder[1..][1..] == [DropOut];
    assert AvailableResults([DropOut], t) == [DropOut] + AvailableResults([], t);
    assert AvailableResults([Pending, DropOut], t) == AvailableResults([DropOut], t);
  }
}
