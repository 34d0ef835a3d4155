/** The "Top 10 High-Risk Students" table: `nlargest(10, 'risk_score')` on
    the filtered table, with equal risks in row order, projected onto four
    columns and sorted again by descending risk. */
module TopRisk {
  import opened Students

  /** How many rows the high-risk table shows. */
  const HighRiskCount: nat := 10

  /** Row `i` of `t` ranks ahead of row `j`: a higher risk, or the same risk
      and an earlier position. A strict total order on positions. */
  predicate Ahead(t: Table, i: nat, j: nat)
    requires i < |t| && j < |t|
  {
    t[i].riskScore > t[j].riskScore || (t[i].riskScore == t[j].riskScore && i < j)
  }

  /** `s` lists positions of `t`, each strictly ahead of all later ones. */
  predicate Ranked(t: Table, s: seq<nat>)
  {
    && (forall k :: 0 <= k < |s| ==> s[k] < |t|)
    && (forall a, b :: 0 <= a < b < |s| ==> Ahead(t, s[a], s[b]))
  }

  /** Inserts position `i` into the ranked list `s` at its place. */
  function Insert(t: Table, s: seq<nat>, i: nat): (r: seq<nat>)
    requires i < |t| && i !in s && Ranked(t, s)
    ensures |r| == |s| + 1
    ensures forall x :: x in r <==> x == i || x in s
    ensures Ranked(t, r)
  {
    if s == [] then [i]
    else if Ahead(t, i, s[0]) then
      assert forall a :: 0 <= a < |s| ==> Ahead(t, s[0], s[a]) || a == 0;
      [i] + s
    else
      assert s[0] != i;
      assert Ranked(t, s[1..]) by {
        forall a, b | 0 <= a < b < |s[1..]| ensures Ahead(t, s[1..][a], s[1..][b]) {
          assert s[1..][a] == s[a + 1] && s[1..][b] == s[b + 1];
        }
      }
      var rest := Insert(t, s[1..], i);
      var r := [s[0]] + rest;
      assert Ranked(t, r) by {
        forall a, b | 0 <= a < b < |r| ensures Ahead(t, r[a], r[b]) {
          if a > 0 {
            assert r[a] == rest[a - 1] && r[b] == rest[b - 1];
          } else {
            assert r[b] == rest[b - 1] && rest[b - 1] in rest;
            if r[b] != i {
              var c :| 0 <= c < |s[1..]| && s[1..][c] == r[b];
              assert s[1..][c] == s[c + 1];
            }
          }
        }
      }
      r
  }

  /** The first `k` positions of `t`, all ranked. */
  function RankPositions(t: Table, k: nat): (r: seq<nat>)
    requires k <= |t|
    ensures |r| == k
    ensures forall x: int :: x in r <==> 0 <= x < k
    ensures Ranked(t, r)
  {
    if k == 0 then []
    else
      var prev := RankPositions(t, k - 1);
      var r := Insert(t, prev, k - 1);
      assert forall x: int :: 0 <= x < k ==> x in r by {
        forall x: int | 0 <= x < k ensures x in r {
          if x < k - 1 {
            assert x in prev;
          }
        }
      }
      r
  }

  /** `nlargest(n, 'risk_score')` with `keep='first'`: the positions of the
      `min(n, |t|)` highest-risk rows, highest first; every row left out
      ranks behind every row chosen. Among equal risks the earlier row comes
      first: the selection follows `keep='first'`, and the order of equal
      risks within the result is the stable order this model fixes. */
  function NLargest(t: Table, n: nat): (r: seq<nat>)
    ensures |r| == if n < |t| then n else |t|
    ensures forall k :: 0 <= k < |r| ==> r[k] < |t|
    ensures forall a, b :: 0 <= a < b < |r| ==>
      t[r[a]].riskScore >= t[r[b]].riskScore && r[a] != r[b]
    ensures forall a, b :: 0 <= a < b < |r| && t[r[a]].riskScore == t[r[b]].riskScore ==> r[a] < r[b]
    ensures forall j, i :: j in r && 0 <= i < |t| && i !in r ==>
      t[j].riskScore > t[i].riskScore || (t[j].riskScore == t[i].riskScore && j < i)
  {
    var ranked := RankPositions(t, |t|);
    var m := if n < |t| then n else |t|;
    RankedPrefix(t, ranked, m);
    ranked[..m]
  }

  /** The first `m` entries of a ranking of all positions of `t` are ranked,
      and each ranks ahead of every position not among them. */
  lemma RankedPrefix(t: Table, ranked: seq<nat>, m: nat)
    requires Ranked(t, ranked) && m <= |ranked|
    requires forall x: int :: x in ranked <==> 0 <= x < |t|
    ensures Ranked(t, ranked[..m])
    ensures forall j, i :: j in ranked[..m] && 0 <= i < |t| && i !in ranked[..m] ==> Ahead(t, j, i)
  {
    var r := ranked[..m];
    assert forall b :: 0 <= b < m ==> ranked[b] in r by {
      forall b | 0 <= b < m ensures ranked[b] in r {
        assert r[b] == ranked[b];
      }
    }
    forall j, i | j in r && 0 <= i < |t| && i !in r ensures Ahead(t, j, i) {
      var a :| 0 <= a < m && r[a] == j;
      assert i in ranked;
      var b :| 0 <= b < |ranked| && ranked[b] == i;
      assert ranked[a] == j;
    }
  }

  /** The four columns the table shows: student id, GPA, risk and outcome. */
  datatype RiskRow = RiskRow(studentId: string, gpa: real, riskScore: real, result: string)

  function Project(row: Row): RiskRow
  {
    RiskRow(row.student.studentId, row.student.gpa, row.riskScore, row.student.result)
  }

  predicate Descending(s: seq<RiskRow>)
  {
    forall k :: 0 < k < |s| ==> s[k - 1].riskScore >= s[k].riskScore
  }

  /** Places `x` before the first row of `s` whose risk is not higher than
      its own, so that `x` stays ahead of rows of equal risk. */
  function InsertByRisk(x: RiskRow, s: seq<RiskRow>): (r: seq<RiskRow>)
    ensures multiset(r) == multiset(s) + multiset{x}
    ensures r != [] && (r[0] == x || (s != [] && r[0] == s[0]))
    ensures Descending(s) ==> Descending(r)
  {
    if s == [] || x.riskScore >= s[0].riskScore then [x] + s
    else
      assert s == [s[0]] + s[1..];
      var rest := InsertByRisk(x, s[1..]);
      var r := [s[0]] + rest;
      assert Descending(s) ==> Descending(r) by {
        if Descending(s) {
          assert Descending(s[1..]) by {
            forall k | 0 < k < |s[1..]| ensures s[1..][k - 1].riskScore >= s[1..][k].riskScore {
              assert s[1..][k - 1] == s[k] && s[1..][k] == s[k + 1];
            }
          }
          assert s[0].riskScore >= rest[0].riskScore by {
            if rest[0] != x {
              assert rest[0] == s[1];
            }
          }
          forall k | 0 < k < |r| ensures r[k - 1].riskScore >= r[k].riskScore {
            if k > 1 {
              assert r[k - 1] == rest[k - 2] && r[k] == rest[k - 1];
            }
          }
        }
      }
      r
  }

  /** `sort_values('risk_score', ascending=False)`, modelled as a stable
      sort: a descending permutation of its input. */
  function SortByRiskDescending(s: seq<RiskRow>): (r: seq<RiskRow>)
    ensures multiset(r) == multiset(s)
    ensures Descending(r)
  {
    if s == [] then []
    else
      assert s == [s[0]] + s[1..];
      InsertByRisk(s[0], SortByRiskDescending(s[1..]))
  }

  /** Sorting rows that are already in descending order leaves them as they
      are: the re-sort of `nlargest`'s output changes nothing. */
  lemma {:induction false} SortKeepsDescendingRows(s: seq<RiskRow>)
    requires Descending(s)
    ensures SortByRiskDescending(s) == s
  {
    if s != [] {
      assert Descending(s[1..]);
      SortKeepsDescendingRows(s[1..]);
      assert s == [s[0]] + s[1..];
    }
  }

  /** `high_risk[[...]].sort_values(...)`: the projected rows of the
      `min(10, |t|)` highest-risk rows, in descending risk, each row's
      columns taken unchanged from the row `nlargest` chose. */
  function HighRisk(t: Table): (r: seq<RiskRow>)
    ensures |r| == if HighRiskCount < |t| then HighRiskCount else |t|
    ensures Descending(r)
    ensures forall k :: 0 <= k < |r| ==> r[k] == Project(t[NLargest(t, HighRiskCount)[k]])
  {
    var picked := NLargest(t, HighRiskCount);
    var rows := ProjectAll(t, picked);
    assert Descending(rows) by {
      forall k | 0 < k < |rows| ensures rows[k - 1].riskScore >= rows[k].riskScore {
        assert rows[k - 1].riskScore == t[picked[k - 1]].riskScore;
        assert rows[k].riskScore == t[picked[k]].riskScore;
      }
    }
    SortKeepsDescendingRows(rows);
    SortByRiskDescending(rows)
  }

  /** The projected rows at the given positions, in the given order. */
  function ProjectAll(t: Table, picked: seq<nat>): (rows: seq<RiskRow>)
    requires forall k :: 0 <= k < |picked| ==> picked[k] < |t|
    ensures |rows| == |picked|
    ensures forall k :: 0 <= k < |picked| ==> rows[k] == Project(t[picked[k]])
  {
    if picked == [] then [] else [Project(t[picked[0]])] + ProjectAll(t, picked[1..])
  }

  /** An empty table gives an empty high-risk table. */
  lemma HighRiskOfEmptyTable()
    ensures HighRisk([]) == []
  {
  }

  /** Risks 20, 30, 30: the two highest are the two 30s, the earlier first. */
  lemma NLargestTieExample(x: Row, y: Row, z: Row)
    requires x.riskScore == 20.0 && y.riskScore == 30.0 && z.riskScore == 30.0
    ensures NLargest([x, y, z], 2) == [1, 2]
  {
    var t := [x, y, z];
    assert RankPositions(t, 1) == [0];
    assert RankPositions(t, 2) == Insert(t, [0], 1) == [1, 0];
    assert RankPositions(t, 3) == Insert(t, [1, 0], 2) == [1] + Insert(t, [0], 2) == [1, 2, 0];
  }
}
