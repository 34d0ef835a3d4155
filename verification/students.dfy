/** The admissions table the dashboard works on: one record per student, the
    two columns the dashboard derives from the raw scores, and the fixed
    constants (outcome display order, score columns) its views share. */
module Students {

  datatype Option<T> = None | Some(value: T)

  /** One row of the raw table as read from the CSV file. Scores are exact
      reals; the optional employment column may be absent from the schema. */
  datatype Student = Student(
    studentId: string,
    iqScore: real,
    englishScore: real,
    technicalScore: real,
    softSkillsScore: real,
    gpa: real,
    result: string,
    financialAid: string,
    englishLevel: string,
    employmentStatus: Option<string>)

  /** A row after feature engineering: the untouched raw record plus the
      two derived columns `total_score` and `risk_score`. */
  datatype Row = Row(student: Student, totalScore: real, riskScore: real)

  /** A (derived) table is its rows in order. */
  type Table = seq<Row>

  const Accepted: string := "Accepted"
  const Pending: string := "pending"
  const DropOut: string := "drop out"

  /** The fixed display order of the outcome categories (`result_order`). */
  const ResultOrder: seq<string> := [Accepted, Pending, DropOut]

  /** The four raw test-score columns (`score_cols`), in their listed order. */
  datatype ScoreColumn = IQ | English | Technical | SoftSkills

  const ScoreColumns: seq<ScoreColumn> := [IQ, English, Technical, SoftSkills]

  function Score(row: Row, col: ScoreColumn): real
  {
    match col
    case IQ => row.student.iqScore
    case English => row.student.englishScore
    case Technical => row.student.technicalScore
    case SoftSkills => row.student.softSkillsScore
  }

  /** `s` can be obtained from `t` by deleting elements: the rows kept by a
      mask appear in `t`, in the same order. */
  predicate IsSubsequence<T(==)>(s: seq<T>, t: seq<T>)
    decreases |t|
  {
    if s == [] then true
    else if t == [] then false
    else if s[0] == t[0] then IsSubsequence(s[1..], t[1..])
    else IsSubsequence(s, t[1..])
  }

  /** Every element of a subsequence is an element of the sequence. */
  lemma {:induction false} SubsequenceElements<T>(s: seq<T>, t: seq<T>)
    requires IsSubsequence(s, t)
    ensures |s| <= |t|
    ensures forall x :: x in s ==> x in t
    decreases |t|
  {
    if s != [] {
      if s[0] == t[0] {
        SubsequenceElements(s[1..], t[1..]);
        assert s == [s[0]] + s[1..];
      } else {
        SubsequenceElements(s, t[1..]);
      }
    }
  }

  /** A subsequence of the tail of `t` is a subsequence of `t`. */
  lemma {:induction false} SkipHead<T>(s: seq<T>, t: seq<T>)
    requires t != [] && IsSubsequence(s, t[1..])
    ensures IsSubsequence(s, t)
    decreases |t|, 0
  {
    if s != [] && s[0] == t[0] {
      SubsequenceTail(s, t[1..]);
    }
  }

  /** A subsequence stays one when its first element is dropped. */
  lemma {:induction false} SubsequenceTail<T>(s: seq<T>, t: seq<T>)
    requires s != [] && IsSubsequence(s, t)
    ensures IsSubsequence(s[1..], t)
    decreases |t|, 1
  {
    if s[0] == t[0] {
      if s[1..] != [] {
        SkipHead(s[1..], t);
      }
    } else {
      SubsequenceTail(s, t[1..]);
      SkipHead(s[1..], t);
    }
  }
}
