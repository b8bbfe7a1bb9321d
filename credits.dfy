/** The row filter, the pass/fail split and the credit total over the
    resolved columns (app.py:277-295). */
module CreditReport {
  import opened Wrappers
  import opened Text
  import opened Grades

  /** One row of the renamed frame, reduced to the five resolved fields;
      `None` is a NaN cell. */
  datatype Row = Row(year: Option<string>, term: Option<string>, course: Option<string>,
                     credits: Option<string>, grade: Option<string>)

  /** A row that passed both filters, its credits converted to a number. */
  datatype Course = Course(year: Option<string>, term: Option<string>, course: Option<string>,
                           credits: real, grade: string)

  /** pd.to_numeric(..., errors='coerce') on the credits cell; None is
      NaN. */
  function CreditsOf(r: Row): Option<real> {
    match r.credits
    case None => None
    case Some(s) => ParseNumber(s)
  }

  /** A row kept in filtered_df: numeric credits and a valid grade
      (initial_filtered_df), then credits above zero. */
  predicate Counted(r: Row) {
    CreditsOf(r).Some? && IsGpaValid(r.grade) && CreditsOf(r).value > 0.0
  }

  function ToCourse(r: Row): (c: Course)
    requires Counted(r)
    ensures c.credits > 0.0 && r.grade == Some(c.grade)
  {
    Course(r.year, r.term, r.course, CreditsOf(r).value, r.grade.value)
  }

  /** filtered_df: the counted rows, in their order. */
  function Filtered(rows: seq<Row>): (cs: seq<Course>)
    ensures |cs| <= |rows|
  {
    if rows == [] then []
    else (if Counted(rows[0]) then [ToCourse(rows[0])] else []) + Filtered(rows[1..])
  }

  /** The exact grades `isin` marks as failed. */
  const FailingGrades: set<string> := {"D", "d", "E", "e", "F", "f"}

  predicate IsFailed(c: Course) {
    c.grade in FailingGrades
  }

  /** passed_grades_df: the mask `~isin(...)`. */
  function Passed(cs: seq<Course>): seq<Course> {
    if cs == [] then []
    else (if !IsFailed(cs[0]) then [cs[0]] else []) + Passed(cs[1..])
  }

  /** failed_grades_df: the mask `isin(...)`. */
  function Failed(cs: seq<Course>): seq<Course> {
    if cs == [] then []
    else (if IsFailed(cs[0]) then [cs[0]] else []) + Failed(cs[1..])
  }

  /** Series.sum over the credits: 0 for no rows. */
  function Total(cs: seq<Course>): real {
    if cs == [] then 0.0 else cs[0].credits + Total(cs[1..])
  }

  /** The figures the page reports: the total and the two course lists. */
  datatype Report = Report(total: real, passed: seq<Course>, failed: seq<Course>)

  function Classify(rows: seq<Row>): Report {
    var kept := Filtered(rows);
    Report(Total(Passed(kept)), Passed(kept), Failed(kept))
  }

  // ---------------------------------------------------------------------
  // Properties
  // ---------------------------------------------------------------------

  /** A course is in filtered_df exactly when it comes from a counted row. */
  lemma {:induction false} FilteredMembers(rows: seq<Row>, c: Course)
    ensures c in Filtered(rows) <==>
      exists i :: 0 <= i < |rows| && Counted(rows[i]) && c == ToCourse(rows[i])
  {
    if rows != [] {
      FilteredMembers(rows[1..], c);
      if exists i :: 0 <= i < |rows| && Counted(rows[i]) && c == ToCourse(rows[i]) {
        var i :| 0 <= i < |rows| && Counted(rows[i]) && c == ToCourse(rows[i]);
        if i > 0 {
          assert rows[1..][i - 1] == rows[i];
        }
      }
      if exists i :: 0 <= i < |rows[1..]| && Counted(rows[1..][i]) && c == ToCourse(rows[1..][i]) {
        var i :| 0 <= i < |rows[1..]| && Counted(rows[1..][i]) && c == ToCourse(rows[1..][i]);
        assert rows[i + 1] == rows[1..][i];
      }
    }
  }

  /** Filtering is row by row: the rows of a concatenation filter to the
      concatenation of the filtered parts, so the order is kept. */
  lemma {:induction false} FilteredAppend(a: seq<Row>, b: seq<Row>)
    ensures Filtered(a + b) == Filtered(a) + Filtered(b)
  {
    if a != [] {
      assert (a + b)[1..] == a[1..] + b;
      FilteredAppend(a[1..], b);
    } else {
      assert a + b == b;
    }
  }

  lemma {:induction false} PassedAppend(a: seq<Course>, b: seq<Course>)
    ensures Passed(a + b) == Passed(a) + Passed(b)
    ensures Failed(a + b) == Failed(a) + Failed(b)
    ensures Total(a + b) == Total(a) + Total(b)
  {
    if a != [] {
      assert (a + b)[1..] == a[1..] + b;
      PassedAppend(a[1..], b);
    } else {
      assert a + b == b;
    }
  }

  /** The two masks split the courses: each course lands in exactly one
      list, decided by its grade alone. */
  lemma {:induction false} PartitionMembers(cs: seq<Course>, c: Course)
    ensures c in Passed(cs) <==> c in cs && !IsFailed(c)
    ensures c in Failed(cs) <==> c in cs && IsFailed(c)
  {
    if cs != [] {
      PartitionMembers(cs[1..], c);
      assert cs == [cs[0]] + cs[1..];
    }
  }

  lemma {:induction false} PartitionSizes(cs: seq<Course>)
    ensures |Passed(cs)| + |Failed(cs)| == |cs|
    ensures Total(Passed(cs)) + Total(Failed(cs)) == Total(cs)
  {
    if cs != [] {
      var x, rest := cs[0], cs[1..];
      PartitionSizes(rest);
      if IsFailed(x) {
        assert Failed(cs) == [x] + Failed(rest) && Passed(cs) == Passed(rest);
        assert ([x] + Failed(rest))[1..] == Failed(rest);
      } else {
        assert Passed(cs) == [x] + Passed(rest) && Failed(cs) == Failed(rest);
        assert ([x] + Passed(rest))[1..] == Passed(rest);
      }
    }
  }

  lemma {:induction false} FilteredPositive(rows: seq<Row>)
    ensures forall c :: c in Filtered(rows) ==> c.credits > 0.0 && IsGpaValid(Some(c.grade))
  {
    forall c | c in Filtered(rows)
      ensures c.credits > 0.0 && IsGpaValid(Some(c.grade))
    {
      FilteredMembers(rows, c);
    }
  }

  lemma {:induction false} TotalNonNegative(cs: seq<Course>)
    requires forall c :: c in cs ==> c.credits > 0.0
    ensures Total(cs) >= 0.0
    ensures cs != [] ==> Total(cs) > 0.0
  {
    if cs != [] {
      assert cs[0] in cs;
      TotalNonNegative(cs[1..]);
    }
  }

  /** What the page reports: the passed and failed courses are the
      counted rows split by grade, the total is the passed credits, it is
      never negative, and it is positive as soon as one course passed. */
  lemma ClassifyReport(rows: seq<Row>)
    ensures var r := Classify(rows);
      |r.passed| + |r.failed| == |Filtered(rows)| &&
      (forall c :: c in r.passed <==> c in Filtered(rows) && !IsFailed(c)) &&
      (forall c :: c in r.failed <==> c in Filtered(rows) && IsFailed(c)) &&
      r.total >= 0.0 && (r.passed != [] ==> r.total > 0.0)
  {
    var kept := Filtered(rows);
    PartitionSizes(kept);
    forall c
      ensures (c in Passed(kept) <==> c in kept && !IsFailed(c)) &&
              (c in Failed(kept) <==> c in kept && IsFailed(c))
    {
      PartitionMembers(kept, c);
    }
    FilteredPositive(rows);
    TotalNonNegative(Passed(kept));
  }

  // ---------------------------------------------------------------------
  // A row-at-a-time reference: the masks agree with handling each row in
  // turn, which is how the rule reads.
  // ---------------------------------------------------------------------

  /** Add one row to a report. */
  function Visit(acc: Report, r: Row): Report {
    if !Counted(r) then acc
    else
      var c := ToCourse(r);
      if c.grade in FailingGrades then Report(acc.total, acc.passed, acc.failed + [c])
      else Report(acc.total + c.credits, acc.passed + [c], acc.failed)
  }

  function OnePass(rows: seq<Row>): Report {
    if rows == [] then Report(0.0, [], [])
    else Visit(OnePass(rows[..|rows| - 1]), rows[|rows| - 1])
  }

  lemma {:induction false} ClassifyIsOnePass(rows: seq<Row>)
    ensures Classify(rows) == OnePass(rows)
  {
    if rows != [] {
      var init, last := rows[..|rows| - 1], rows[|rows| - 1];
      ClassifyIsOnePass(init);
      assert rows == init + [last];
      ClassifySnoc(init, last);
    }
  }

  /** Classifying one more row is visiting it. */
  lemma ClassifySnoc(init: seq<Row>, last: Row)
    ensures Classify(init + [last]) == Visit(Classify(init), last)
  {
    FilteredAppend(init, [last]);
    var tail := Filtered([last]);
    var kept := Filtered(init);
    PassedAppend(kept, tail);
    PassedAppend(Passed(kept), Passed(tail));
    LastRow(last);
  }

  /** The lists and the total one row contributes. */
  lemma LastRow(last: Row)
    ensures Counted(last) ==>
      var c := ToCourse(last);
      Passed(Filtered([last])) == (if IsFailed(c) then [] else [c]) &&
      Failed(Filtered([last])) == (if IsFailed(c) then [c] else []) &&
      Total(if IsFailed(c) then [] else [c]) == (if IsFailed(c) then 0.0 else c.credits)
    ensures !Counted(last) ==> Filtered([last]) == []
  {
    assert [last][1..] == [];
    if Counted(last) {
      var c := ToCourse(last);
      assert Filtered([last]) == [c];
      assert [c][1..] == [];
    }
  }

  // ---------------------------------------------------------------------
  // Examples
  // ---------------------------------------------------------------------

  lemma GradeFacts()
    ensures IsGpaValid(Some("A")) && IsGpaValid(Some("F")) && IsGpaValid(Some("D-"))
    ensures !IsGpaValid(Some("通過"))
  {
    GradeExamples();
  }

  /** Calculus with 3 credits and an A passes; physical education with 0
      credits and 通過 appears in neither list. */
  lemma TranscriptExample()
    ensures Classify([Row(Some("112"), Some("1"), Some("微積分"), Some("3"), Some("A")),
                      Row(Some("112"), Some("1"), Some("體育"), Some("0"), Some("通過"))])
      == Report(3.0, [Course(Some("112"), Some("1"), Some("微積分"), 3.0, "A")], [])
  {
    var a := Row(Some("112"), Some("1"), Some("微積分"), Some("3"), Some("A"));
    var p := Row(Some("112"), Some("1"), Some("體育"), Some("0"), Some("通過"));
    var c := Course(Some("112"), Some("1"), Some("微積分"), 3.0, "A");
    assert Counted(a) && ToCourse(a) == c && !IsFailed(c) && !Counted(p) by {
      GradeFacts();
      NumberExamples();
    }
    assert Filtered([a, p]) == [c] by {
      assert [a, p][1..] == [p] && [p][1..] == [];
    }
    assert [c][1..] == [];
  }

  /** An F with 4 credits is failed and adds nothing; a D- is not in the
      failing set and counts. */
  lemma FailingExample()
    ensures Classify([Row(None, None, None, Some("4"), Some("F")),
                      Row(None, None, None, Some("3"), Some("D-"))])
      == Report(3.0, [Course(None, None, None, 3.0, "D-")], [Course(None, None, None, 4.0, "F")])
  {
    var f, d := Row(None, None, None, Some("4"), Some("F")), Row(None, None, None, Some("3"), Some("D-"));
    var cf, cd := Course(None, None, None, 4.0, "F"), Course(None, None, None, 3.0, "D-");
    ExampleRows(f, d, cf, cd);
    assert Filtered([f, d]) == [cf, cd] by {
      assert [f, d][1..] == [d] && [d][1..] == [];
    }
    assert [cf, cd][1..] == [cd] && [cd][1..] == [];
  }

  lemma ExampleRows(f: Row, d: Row, cf: Course, cd: Course)
    requires f == Row(None, None, None, Some("4"), Some("F")) && d == Row(None, None, None, Some("3"), Some("D-"))
    requires cf == Course(None, None, None, 4.0, "F") && cd == Course(None, None, None, 3.0, "D-")
    ensures Counted(f) && ToCourse(f) == cf && IsFailed(cf)
    ensures Counted(d) && ToCourse(d) == cd && !IsFailed(cd)
  {
    GradeFacts();
    NumberExamples();
    ParseDecimalString(4);
    assert DecimalString(4) == "4";
  }

  /** Credits written 三, zero credits and a 通過 grade each keep a row
      out of both lists. */
  lemma UncountedRows()
    ensures !Counted(Row(None, None, None, Some("三"), Some("A")))
    ensures !Counted(Row(None, None, None, Some("0"), Some("A")))
    ensures !Counted(Row(None, None, None, Some("2"), Some("通過")))
    ensures !Counted(Row(None, None, None, None, Some("A")))
  {
    NotNumberExamples();
    NumberExamples();
    GradeFacts();
  }
}
