/** The acceptance and dropout rates shown in the sidebar and the executive
    summary: the share, in percent, of the whole (unfiltered) table whose
    outcome is "Accepted" or "drop out". */
module Rates {
  import opened Students
  import opened Groups

  /** `len(t[t['Result'] == v]) / len(t) * 100`. Python's true division of
      two integers raises ZeroDivisionError on an empty table: `None`. */
  function RatePercent(t: Table, v: string): (r: Option<real>)
    ensures r.None? <==> t == []
    ensures r.Some? ==> 0.0 <= r.value <= 100.0
    ensures r.Some? ==> (r.value == 0.0 <==> !Occurs(t, v))
    ensures r.Some? ==> (r.value == 100.0 <==> forall i :: 0 <= i < |t| ==> t[i].student.result == v)
  {
    if |t| == 0 then None
    else
      GroupRowsNonEmpty(t, v);
      GroupRowsAll(t, v);
      Some(Percent(|GroupRows(t, v)|, |t|))
  }

  /** `count / total * 100` for 0 <= count <= total, total > 0. */
  function Percent(count: nat, total: nat): (p: real)
    requires 0 < total && count <= total
    ensures 0.0 <= p <= 100.0
    ensures p == 0.0 <==> count == 0
    ensures p == 100.0 <==> count == total
  {
    var q := (count as real) / (total as real);
    MeanOfBoundedSum(count as real, total as real, 0.0, 1.0);
    q * 100.0
  }

  /** A group is the whole table exactly when every row has that outcome. */
  lemma {:induction false} GroupRowsAll(t: Table, v: string)
    ensures |GroupRows(t, v)| == |t| <==> forall i :: 0 <= i < |t| ==> t[i].student.result == v
  {
    if t != [] {
      GroupRowsAll(t[1..], v);
      assert forall i :: 0 < i < |t| ==> t[i] == t[1..][i - 1];
    }
  }

  function AcceptanceRate(t: Table): Option<real>
  {
    RatePercent(t, Accepted)
  }

  function DropoutRate(t: Table): Option<real>
  {
    RatePercent(t, DropOut)
  }

  /** Rows of two different outcomes are never counted twice. */
  lemma {:induction false} DisjointGroupsFit(t: Table, v: string, w: string)
    requires v != w
    ensures |GroupRows(t, v)| + |GroupRows(t, w)| <= |t|
  {
    if t != [] {
      DisjointGroupsFit(t[1..], v, w);
    }
  }

  /** The acceptance and dropout rates of a non-empty table add up to at
      most 100 percent. */
  lemma AcceptancePlusDropoutAtMostAll(t: Table)
    requires t != []
    ensures AcceptanceRate(t).Some? && DropoutRate(t).Some?
    ensures AcceptanceRate(t).value + DropoutRate(t).value <= 100.0
  {
    DisjointGroupsFit(t, Accepted, DropOut);
    PercentsAdd(|GroupRows(t, Accepted)|, |GroupRows(t, DropOut)|, |t|);
  }

  /** Percentages of the same total add like their counts. */
  lemma PercentsAdd(a: nat, d: nat, n: nat)
    requires 0 < n && a + d <= n
    ensures Percent(a, n) + Percent(d, n) == Percent(a + d, n)
  {
    var x, y, z := a as real, d as real, n as real;
    assert x / z + y / z == (x + y) / z;
  }
}
