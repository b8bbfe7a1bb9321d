/** What the page computes for one uploaded transcript (app.py:208-295):
    the extracted frame, the resolved fields, and the credit report. */
module App {
  import opened Wrappers
  import opened Columns
  import opened Frames
  import opened Extract
  import opened Resolve
  import opened CreditReport

  /** How the page ends. */
  datatype Outcome =
    | NoData
      // the frame is empty: a warning and nothing else
    | MissingFields(found: map<string, string>)
      // not every field resolved: the page asks for a manual choice
    | DuplicateColumn(name: string)
      // the credits or grade column occurs twice: selecting it gives a
      // frame instead of a column and pandas raises
    | Reported(report: Report)

  predicate ResolvedIn(found: map<string, string>, cols: seq<string>) {
    AllResolved(found) && forall f :: f in found ==> found[f] in cols
  }

  /** One frame row read through the resolved columns (the first column
      of that name). */
  function RowOf(cols: seq<string>, row: seq<Option<string>>, found: map<string, string>): Row
    requires |row| == |cols| && ResolvedIn(found, cols)
  {
    assert Year in Required && Term in Required && CourseName in Required;
    assert Credits in Required && Gpa in Required;
    Row(row[IndexOf(cols, found[Year])], row[IndexOf(cols, found[Term])],
        row[IndexOf(cols, found[CourseName])], row[IndexOf(cols, found[Credits])],
        row[IndexOf(cols, found[Gpa])])
  }

  function RowsOf(f: Frame, found: map<string, string>): (rows: seq<Row>)
    requires WellFormed(f) && ResolvedIn(found, f.columns)
    ensures |rows| == |f.rows|
  {
    seq(|f.rows|, i requires 0 <= i < |f.rows| => RowOf(f.columns, f.rows[i], found))
  }

  lemma FoundInColumns(cols: seq<string>)
    ensures forall f :: f in Found(ColMapping, cols) ==> Found(ColMapping, cols)[f] in cols
  {
    forall f | f in Found(ColMapping, cols)
      ensures Found(ColMapping, cols)[f] in cols
    {
      FoundKeys(ColMapping, cols, f);
      var i :| 0 <= i < |ColMapping| && ColMapping[i].0 == f;
      ResolvedField(cols, i);
    }
  }

  /** The page after extraction. */
  function Calculate(f: Frame): Outcome
    requires WellFormed(f)
  {
    if IsEmpty(f) then NoData
    else
      var found := Found(ColMapping, f.columns);
      if !AllResolved(found) then MissingFields(found)
      else if Occurrences(f.columns, found[Credits]) > 1 then DuplicateColumn(found[Credits])
      else if Occurrences(f.columns, found[Gpa]) > 1 then DuplicateColumn(found[Gpa])
      else
        FoundInColumns(f.columns);
        Reported(Classify(RowsOf(f, found)))
  }

  /** The whole run for one upload. */
  method ProcessUpload(u: Upload) returns (outcome: Outcome)
    requires OcrWellShaped(u)
    ensures outcome == Calculate(ExtractedFrame(u))
  {
    var frame := ProcessPdf(u);
    if IsEmpty(frame) {
      return NoData;
    }
    var found := ResolveColumns(frame.columns);
    assert AllResolved(found) <==> Year in found && Term in found && CourseName in found && Credits in found && Gpa in found;
    if !(Year in found && Term in found && CourseName in found && Credits in found && Gpa in found) {
      return MissingFields(found);
    }
    if Occurrences(frame.columns, found[Credits]) > 1 {
      return DuplicateColumn(found[Credits]);
    }
    if Occurrences(frame.columns, found[Gpa]) > 1 {
      return DuplicateColumn(found[Gpa]);
    }
    FoundInColumns(frame.columns);
    outcome := Reported(Classify(RowsOf(frame, found)));
  }

  /** A report is produced only from a non-empty frame in which all five
      fields resolved to existing columns, the credits and grade columns
      each once; its lists are the counted rows split by grade and its
      total is never negative. */
  lemma ReportedOutcome(f: Frame)
    requires WellFormed(f)
    requires Calculate(f).Reported?
    ensures !IsEmpty(f)
    ensures var found := Found(ColMapping, f.columns);
      ResolvedIn(found, f.columns) &&
      Occurrences(f.columns, found[Credits]) == 1 && Occurrences(f.columns, found[Gpa]) == 1 &&
      Calculate(f).report == Classify(RowsOf(f, found)) &&
      Calculate(f).report.total >= 0.0
  {
    var found := Found(ColMapping, f.columns);
    FoundInColumns(f.columns);
    ClassifyReport(RowsOf(f, found));
  }

  /** An empty frame ends the page with the no-data warning, and only an
      empty frame does. */
  lemma NoDataIff(f: Frame)
    requires WellFormed(f)
    ensures Calculate(f).NoData? <==> IsEmpty(f)
  {
  }
}
