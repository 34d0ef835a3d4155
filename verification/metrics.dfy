/** Feature engineering done once when the table is loaded: every row gains
    `total_score`, the mean of the four test scores, and `risk_score`, a
    fixed weighted deficit of those scores. */
module Metrics {
  import opened Students

  /** The risk weights of the technical, soft-skills, English and IQ scores. */
  const TechnicalWeight: real := 0.4
  const SoftSkillsWeight: real := 0.3
  const EnglishWeight: real := 0.2
  const IqWeight: real := 0.1

  /** Every raw score of `s` lies in the closed interval [lo, hi]. */
  predicate ScoresWithin(s: Student, lo: real, hi: real)
  {
    && lo <= s.iqScore <= hi
    && lo <= s.englishScore <= hi
    && lo <= s.technicalScore <= hi
    && lo <= s.softSkillsScore <= hi
  }

  /** The weighted mean of the four scores under the risk weights. */
  function WeightedScore(s: Student): real
  {
    TechnicalWeight * s.technicalScore + SoftSkillsWeight * s.softSkillsScore
    + EnglishWeight * s.englishScore + IqWeight * s.iqScore
  }

  /** `total_score`: the unweighted mean of the four raw scores. It lies
      between the smallest and the largest of them, so it is a score of the
      same scale. */
  function TotalScore(s: Student): (r: real)
    ensures forall lo: real, hi: real :: ScoresWithin(s, lo, hi) ==> lo <= r <= hi
    ensures s.iqScore == s.englishScore == s.technicalScore == s.softSkillsScore ==> r == s.iqScore
  {
    (s.iqScore + s.englishScore + s.technicalScore + s.softSkillsScore) / 4.0
  }

  /** `risk_score`: the deficit of each score from 100, weighted 0.4, 0.3,
      0.2 and 0.1. Because the weights sum to one it is the deficit of the
      weighted mean from 100, and scores in [0, 100] give a risk in [0, 100]. */
  function RiskScore(s: Student): (r: real)
    ensures r == 100.0 - WeightedScore(s)
    ensures ScoresWithin(s, 0.0, 100.0) ==> 0.0 <= r <= 100.0
  {
    (100.0 - s.technicalScore) * TechnicalWeight
    + (100.0 - s.softSkillsScore) * SoftSkillsWeight
    + (100.0 - s.englishScore) * EnglishWeight
    + (100.0 - s.iqScore) * IqWeight
  }

  lemma WeightsSumToOne()
    ensures TechnicalWeight + SoftSkillsWeight + EnglishWeight + IqWeight == 1.0
  {
  }

  /** Raising any raw score never raises the risk and never lowers the total. */
  lemma HigherScoresLowerRisk(s: Student, s': Student)
    requires s.iqScore <= s'.iqScore && s.englishScore <= s'.englishScore
    requires s.technicalScore <= s'.technicalScore && s.softSkillsScore <= s'.softSkillsScore
    ensures RiskScore(s') <= RiskScore(s)
    ensures TotalScore(s) <= TotalScore(s')
  {
  }

  /** A student scoring 80 everywhere has total 80 and risk 20. */
  lemma AllEightyExample(s: Student)
    requires s.iqScore == s.englishScore == s.technicalScore == s.softSkillsScore == 80.0
    ensures TotalScore(s) == 80.0 && RiskScore(s) == 20.0
  {
  }

  /** The derived columns of `row` are those computed from its raw record. */
  predicate Derived(row: Row)
  {
    row.totalScore == TotalScore(row.student) && row.riskScore == RiskScore(row.student)
  }

  /** The raw records underneath a derived table. */
  function Raw(t: Table): (r: seq<Student>)
    ensures |r| == |t|
    ensures forall i :: 0 <= i < |t| ==> r[i] == t[i].student
  {
    if t == [] then [] else [t[0].student] + Raw(t[1..])
  }

  /** `load_data`'s feature engineering: each row, in order, gets its two
      derived columns and keeps its raw record unchanged. */
  function Derive(t: seq<Student>): (r: Table)
    ensures |r| == |t|
    ensures forall i :: 0 <= i < |r| ==> Derived(r[i])
  {
    if t == [] then [] else [Row(t[0], TotalScore(t[0]), RiskScore(t[0]))] + Derive(t[1..])
  }

  /** Derivation only adds columns: dropping them gives back the input. */
  lemma {:induction false} DeriveKeepsRawRows(t: seq<Student>)
    ensures Raw(Derive(t)) == t
  {
    if t != [] {
      DeriveKeepsRawRows(t[1..]);
      assert Derive(t) == [Row(t[0], TotalScore(t[0]), RiskScore(t[0]))] + Derive(t[1..]);
      assert Raw(Derive(t))[0] == t[0];
      assert Raw(Derive(t))[1..] == Raw(Derive(t[1..]));
    }
  }

  /** Deriving a table whose scores lie in [0, 100] gives risks and totals in
      [0, 100]. */
  lemma DeriveBounds(t: seq<Student>)
    requires forall i :: 0 <= i < |t| ==> ScoresWithin(t[i], 0.0, 100.0)
    ensures forall i :: 0 <= i < |t| ==>
      0.0 <= Derive(t)[i].riskScore <= 100.0 && 0.0 <= Derive(t)[i].totalScore <= 100.0
  {
    DeriveKeepsRawRows(t);
    forall i | 0 <= i < |t|
      ensures 0.0 <= Derive(t)[i].riskScore <= 100.0 && 0.0 <= Derive(t)[i].totalScore <= 100.0
    {
      assert Derive(t)[i].student == Raw(Derive(t))[i] == t[i];
    }
  }
}
