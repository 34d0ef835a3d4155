/** The sidebar filter: a boolean mask that keeps the rows whose outcome is
    among the selected ones, whose financial-aid and English-level values
    equal the selected ones (unless "All" is selected), and whose GPA lies in
    the closed slider range. */
module Filtering {
  import opened Students

  /** The selectbox value that switches its predicate off. */
  const All: string := "All"

  /** The widget values the filter reads: the outcome multiselect, the two
      selectboxes and the GPA slider's two ends. */
  datatype Criteria = Criteria(
    results: set<string>,
    financialAid: string,
    englishLevel: string,
    gpaLow: real,
    gpaHigh: real)

  predicate ResultSelected(row: Row, c: Criteria)
  {
    row.student.result in c.results
  }

  predicate AidSelected(row: Row, c: Criteria)
  {
    if c.financialAid != All then row.student.financialAid == c.financialAid else true
  }

  predicate EnglishSelected(row: Row, c: Criteria)
  {
    if c.englishLevel != All then row.student.englishLevel == c.englishLevel else true
  }

  /** `between` with both ends included. */
  predicate GpaSelected(row: Row, c: Criteria)
  {
    c.gpaLow <= row.student.gpa <= c.gpaHigh
  }

  /** The mask value of one row: the conjunction of the four predicates. */
  predicate Matches(row: Row, c: Criteria)
  {
    ResultSelected(row, c) && AidSelected(row, c) && EnglishSelected(row, c) && GpaSelected(row, c)
  }

  /** `filtered_df`: the rows of `t` whose mask value is true, in order. */
  function Filter(t: Table, c: Criteria): (r: Table)
    ensures |r| <= |t|
    ensures forall i :: 0 <= i < |r| ==> Matches(r[i], c) && r[i] in t
  {
    if t == [] then []
    else if Matches(t[0], c) then [t[0]] + Filter(t[1..], c)
    else Filter(t[1..], c)
  }

  /** The filter works row by row: on a concatenation it is the
      concatenation of the filtered parts, and a one-row table is kept
      exactly when the row matches. These two facts determine the filter. */
  lemma {:induction false} FilterAppend(a: Table, b: Table, c: Criteria)
    ensures Filter(a + b, c) == Filter(a, c) + Filter(b, c)
  {
    if a == [] {
      assert a + b == b;
    } else {
      var ab := a + b;
      assert ab[0] == a[0] && ab[1..] == a[1..] + b;
      FilterAppend(a[1..], b, c);
      if Matches(a[0], c) {
        assert Filter(ab, c) == [a[0]] + Filter(a[1..] + b, c);
        assert Filter(a, c) == [a[0]] + Filter(a[1..], c);
      } else {
        assert Filter(ab, c) == Filter(a[1..] + b, c);
        assert Filter(a, c) == Filter(a[1..], c);
      }
    }
  }

  lemma FilterSingleRow(x: Row, c: Criteria)
    ensures Filter([x], c) == if Matches(x, c) then [x] else []
  {
  }

  /** No matching row is dropped. */
  lemma {:induction false} FilterKeepsEveryMatch(t: Table, c: Criteria)
    ensures forall i :: 0 <= i < |t| && Matches(t[i], c) ==> t[i] in Filter(t, c)
  {
    if t != [] {
      FilterKeepsEveryMatch(t[1..], c);
      forall i | 0 <= i < |t| && Matches(t[i], c)
        ensures t[i] in Filter(t, c)
      {
        if i > 0 {
          assert t[i] == t[1..][i - 1];
        }
      }
    }
  }

  /** Every matching row is kept as often as it occurs in the input, and
      every other row not at all. */
  lemma {:induction false} FilterCounts(t: Table, c: Criteria)
    ensures forall row :: multiset(Filter(t, c))[row] == if Matches(row, c) then multiset(t)[row] else 0
  {
    if t != [] {
      FilterCounts(t[1..], c);
      assert t == [t[0]] + t[1..];
    }
  }

  /** The filtered table is an order-preserving subsequence of the input. */
  lemma {:induction false} FilterIsSubsequence(t: Table, c: Criteria)
    ensures IsSubsequence(Filter(t, c), t)
  {
    if t != [] {
      FilterIsSubsequence(t[1..], c);
      if Matches(t[0], c) {
        assert Filter(t, c)[1..] == Filter(t[1..], c);
      } else {
        SkipHead(Filter(t[1..], c), t);
      }
    }
  }

  /** `narrow` selects no more than `wide` in every dimension: fewer outcomes,
      the same aid and English values or "All" in `wide`, and a GPA range
      inside `wide`'s. */
  predicate Narrower(narrow: Criteria, wide: Criteria)
  {
    && narrow.results <= wide.results
    && (wide.financialAid == All || wide.financialAid == narrow.financialAid)
    && (wide.englishLevel == All || wide.englishLevel == narrow.englishLevel)
    && wide.gpaLow <= narrow.gpaLow
    && narrow.gpaHigh <= wide.gpaHigh
  }

  lemma NarrowerMatches(x: Row, narrow: Criteria, wide: Criteria)
    requires Narrower(narrow, wide) && Matches(x, narrow)
    ensures Matches(x, wide)
  {
  }

  /** Filtering a widely filtered table with narrower criteria is filtering
      the original table with the narrower criteria. */
  lemma {:induction false} FilterOfWiderFilter(t: Table, narrow: Criteria, wide: Criteria)
    requires Narrower(narrow, wide)
    ensures Filter(Filter(t, wide), narrow) == Filter(t, narrow)
  {
    if t != [] {
      FilterOfWiderFilter(t[1..], narrow, wide);
      if Matches(t[0], narrow) {
        NarrowerMatches(t[0], narrow, wide);
      }
    }
  }

  /** Filtering twice with the same criteria changes nothing. */
  lemma FilterIdempotent(t: Table, c: Criteria)
    ensures Filter(Filter(t, c), c) == Filter(t, c)
  {
    FilterOfWiderFilter(t, c, c);
  }

  /** Widening the GPA range, selecting more outcomes or switching a
      selectbox to "All" never removes a row, and keeps the order. */
  lemma FilterMonotone(t: Table, narrow: Criteria, wide: Criteria)
    requires Narrower(narrow, wide)
    ensures IsSubsequence(Filter(t, narrow), Filter(t, wide))
  {
    FilterOfWiderFilter(t, narrow, wide);
    FilterIsSubsequence(Filter(t, wide), narrow);
  }

  /** An empty outcome selection or an inverted GPA range yields an empty
      table, not an error. */
  lemma {:induction false} FilterEmptySelections(t: Table, c: Criteria)
    requires c.results == {} || c.gpaLow > c.gpaHigh
    ensures Filter(t, c) == []
  {
    if t != [] {
      FilterEmptySelections(t[1..], c);
    }
  }

  /** The rows of the worked examples: only outcome and GPA vary. */
  function SampleRow(result: string, gpa: real): Row
  {
    Row(Student("s", 80.0, 80.0, 80.0, 80.0, gpa, result, "yes", "advanced", None), 80.0, 20.0)
  }

  /** GPAs 1.5, 2.0, 3.0, 4.0 under the range (2.0, 4.0) keep 2.0, 3.0, 4.0. */
  lemma GpaBoundsInclusiveExample()
    ensures Filter([SampleRow(Accepted, 1.5), SampleRow(Accepted, 2.0), SampleRow(Accepted, 3.0), SampleRow(Accepted, 4.0)],
                   Criteria({Accepted}, All, All, 2.0, 4.0))
         == [SampleRow(Accepted, 2.0), SampleRow(Accepted, 3.0), SampleRow(Accepted, 4.0)]
  {
    var c := Criteria({Accepted}, All, All, 2.0, 4.0);
    var t := [SampleRow(Accepted, 1.5), SampleRow(Accepted, 2.0), SampleRow(Accepted, 3.0), SampleRow(Accepted, 4.0)];
    assert Filter(t[3..], c) == [SampleRow(Accepted, 4.0)] + Filter([], c);
    assert t[2..][1..] == t[3..];
    assert Filter(t[2..], c) == [SampleRow(Accepted, 3.0)] + Filter(t[3..], c);
    assert t[1..][1..] == t[2..];
    assert Filter(t[1..], c) == [SampleRow(Accepted, 2.0)] + Filter(t[2..], c);
  }

  /** Outcomes Accepted, Accepted, pending, drop out, drop out filtered to
      {Accepted} keep exactly the first two rows. */
  lemma AcceptedOnlyExample()
    ensures Filter([SampleRow(Accepted, 3.0), SampleRow(Accepted, 2.5), SampleRow(Pending, 3.5),
                    SampleRow(DropOut, 1.0), SampleRow(DropOut, 2.0)],
                   Criteria({Accepted}, All, All, 0.0, 4.0))
         == [SampleRow(Accepted, 3.0), SampleRow(Accepted, 2.5)]
  {
    var c := Criteria({Accepted}, All, All, 0.0, 4.0);
    var t := [SampleRow(Accepted, 3.0), SampleRow(Accepted, 2.5), SampleRow(Pending, 3.5),
              SampleRow(DropOut, 1.0), SampleRow(DropOut, 2.0)];
    assert Filter(t[4..], c) == Filter([], c);
    assert t[3..][1..] == t[4..];
    assert Filter(t[3..], c) == Filter(t[4..], c);
    assert t[2..][1..] == t[3..];
    assert Filter(t[2..], c) == Filter(t[3..], c);
    assert t[1..][1..] == t[2..];
    assert Filter(t[1..], c) == [SampleRow(Accepted, 2.5)] + Filter(t[2..], c);
  }
}
