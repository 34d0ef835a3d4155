/** The data flow of one page render: the raw table is derived once, the
    sidebar criteria filter it, and every view reads the filtered table. */
module Dashboard {
  import opened Students
  import opened Metrics
  import opened Filtering
  import opened Groups
  import opened TopRisk

  /** `filtered_df` computed from the raw table: exactly the derived rows
      that pass the filter, in their order. */
  function FilteredTable(raw: seq<Student>, c: Criteria): (r: Table)
    ensures forall i :: 0 <= i < |r| ==> Derived(r[i]) && Matches(r[i], c) && r[i].student in raw
    ensures IsSubsequence(r, Derive(raw))
    ensures forall i :: 0 <= i < |raw| && Matches(Derive(raw)[i], c) ==> Derive(raw)[i] in r
    ensures forall row :: multiset(r)[row] == if Matches(row, c) then multiset(Derive(raw))[row] else 0
  {
    var r := Filter(Derive(raw), c);
    FilteredRows(raw, c, r);
    r
  }

  /** The facts `FilteredTable` promises, about the filter `r` of the
      derived table. */
  lemma FilteredRows(raw: seq<Student>, c: Criteria, r: Table)
    requires r == Filter(Derive(raw), c)
    ensures forall i :: 0 <= i < |r| ==> Derived(r[i]) && Matches(r[i], c) && r[i].student in raw
    ensures IsSubsequence(r, Derive(raw))
    ensures forall i :: 0 <= i < |raw| && Matches(Derive(raw)[i], c) ==> Derive(raw)[i] in r
    ensures forall row :: multiset(r)[row] == if Matches(row, c) then multiset(Derive(raw))[row] else 0
  {
    var derived := Derive(raw);
    FilterIsSubsequence(derived, c);
    SubsequenceElements(r, derived);
    DerivedRowsComeFromRaw(raw);
    FilterKeepsEveryMatch(derived, c);
    FilterCounts(derived, c);
    assert forall i :: 0 <= i < |r| ==> r[i] in derived;
  }

  /** Every derived row carries a record of the raw table and the columns
      computed from it. */
  lemma DerivedRowsComeFromRaw(raw: seq<Student>)
    ensures forall row :: row in Derive(raw) ==> Derived(row) && row.student in raw
  {
    var derived := Derive(raw);
    DeriveKeepsRawRows(raw);
    forall row | row in derived ensures Derived(row) && row.student in raw {
      var j :| 0 <= j < |derived| && derived[j] == row;
      assert Raw(derived)[j] == raw[j];
    }
  }

  /** Every student in the high-risk table is a row `nlargest` chose from the
      filtered table and that row passes the sidebar filter; when the raw
      scores lie in [0, 100], every listed risk lies in [0, 100]. */
  lemma HighRiskRowsAreSelected(raw: seq<Student>, c: Criteria)
    ensures var f := FilteredTable(raw, c);
      forall k :: 0 <= k < |HighRisk(f)| ==>
        && f[NLargest(f, HighRiskCount)[k]].student in raw
        && Matches(f[NLargest(f, HighRiskCount)[k]], c)
    ensures (forall i :: 0 <= i < |raw| ==> ScoresWithin(raw[i], 0.0, 100.0)) ==>
      var f := FilteredTable(raw, c);
      forall k :: 0 <= k < |HighRisk(f)| ==> 0.0 <= HighRisk(f)[k].riskScore <= 100.0
  {
    var f := FilteredTable(raw, c);
    var h := HighRisk(f);
    var picked := NLargest(f, HighRiskCount);
    if forall i :: 0 <= i < |raw| ==> ScoresWithin(raw[i], 0.0, 100.0) {
      forall k | 0 <= k < |h| ensures 0.0 <= h[k].riskScore <= 100.0 {
        var row := f[picked[k]];
        assert h[k] == Project(row);
        assert row.student in raw;
        assert Derived(row);
      }
    }
  }

  /** Criteria that select nothing leave every view empty without failing. */
  lemma EmptySelectionEmptiesEveryView(raw: seq<Student>, c: Criteria)
    requires c.results == {} || c.gpaLow > c.gpaHigh
    ensures FilteredTable(raw, c) == []
    ensures AvailableResults(ResultOrder, FilteredTable(raw, c)) == []
    ensures MeanScores(ResultOrder, FilteredTable(raw, c)) == []
    ensures HighRisk(FilteredTable(raw, c)) == []
  {
    FilterEmptySelections(Derive(raw), c);
    MeanScoresOfEmptyTable(ResultOrder);
  }
}
