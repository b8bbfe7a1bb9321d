/** Header handling shared by both extractors: the keyword rewrite of
    header labels (app.py:98-111 and its copy at app.py:172-185) and
    make_unique_columns (app.py:35-57). */
module Columns {
  import opened Text

  // ---------------------------------------------------------------------
  // Header canonicalisation
  // ---------------------------------------------------------------------

  const Year := "學年度"
  const Term := "學期"
  const CourseName := "科目名稱"
  const Credits := "學分"
  const Gpa := "GPA"

  /** The name one header cell is rewritten to: the first matching rule
      wins, and a name matching no rule is kept as it is. */
  function CanonicalLabel(h: string): string {
    if Contains(h, "學年") && Contains(h, "度") then Year
    else if Contains(h, Term) then Term
    else if Contains(h, CourseName) then CourseName
    else if Contains(h, Credits) then Credits
    else if Contains(h, Gpa) then Gpa
    else h
  }

  /** A whole header after the rewrite. */
  function CanonicalHeader(header: seq<string>): (r: seq<string>)
    ensures |r| == |header|
  {
    seq(|header|, i requires 0 <= i < |header| => CanonicalLabel(header[i]))
  }

  /** The header-cleaning loop: one rewritten name per header cell, in
      order. */
  method CleanHeader(header: seq<string>) returns (cleaned: seq<string>)
    ensures |cleaned| == |header|
    ensures forall i :: 0 <= i < |header| ==> cleaned[i] == CanonicalLabel(header[i])
    ensures cleaned == CanonicalHeader(header)
  {
    cleaned := [];
    for i := 0 to |header|
      invariant |cleaned| == i
      invariant forall k :: 0 <= k < i ==> cleaned[k] == CanonicalLabel(header[k])
    {
      var h := header[i];
      if Contains(h, "學年") && Contains(h, "度") {
        cleaned := cleaned + [Year];
      } else if Contains(h, Term) {
        cleaned := cleaned + [Term];
      } else if Contains(h, CourseName) {
        cleaned := cleaned + [CourseName];
      } else if Contains(h, Credits) {
        cleaned := cleaned + [Credits];
      } else if Contains(h, Gpa) {
        cleaned := cleaned + [Gpa];
      } else {
        cleaned := cleaned + [h];
      }
    }
  }

  /** Each canonical name is a fixed point of the rewrite. */
  lemma CanonicalNamesFixed()
    ensures CanonicalLabel(Year) == Year
    ensures CanonicalLabel(Term) == Term
    ensures CanonicalLabel(CourseName) == CourseName
    ensures CanonicalLabel(Credits) == Credits
    ensures CanonicalLabel(Gpa) == Gpa
  {
    YearFixed();
    TermFixed();
    CourseNameFixed();
    CreditsFixed();
    GpaFixed();
  }

  lemma YearFixed()
    ensures CanonicalLabel(Year) == Year
  {
    ContainedAt(Year, "學年", 0);
    ContainedAt(Year, "度", 2);
  }

  lemma TermFixed()
    ensures CanonicalLabel(Term) == Term
  {
    ContainedAt(Term, Term, 0);
    MissingCharNotContained(Term, "學年", '年');
  }

  lemma CourseNameFixed()
    ensures CanonicalLabel(CourseName) == CourseName
  {
    ContainedAt(CourseName, CourseName, 0);
    MissingCharNotContained(CourseName, "學年", '學');
    MissingCharNotContained(CourseName, Term, '學');
  }

  lemma CreditsFixed()
    ensures CanonicalLabel(Credits) == Credits
  {
    ContainedAt(Credits, Credits, 0);
    MissingCharNotContained(Credits, "學年", '年');
    MissingCharNotContained(Credits, Term, '期');
    MissingCharNotContained(Credits, CourseName, '科');
  }

  lemma GpaFixed()
    ensures CanonicalLabel(Gpa) == Gpa
  {
    ContainedAt(Gpa, Gpa, 0);
    MissingCharNotContained(Gpa, "學年", '學');
    MissingCharNotContained(Gpa, Term, '學');
    MissingCharNotContained(Gpa, CourseName, '科');
    MissingCharNotContained(Gpa, Credits, '學');
  }

  /** The rewrite is idempotent: rewriting a cleaned name again leaves it
      unchanged. */
  lemma CanonicalLabelIdempotent(h: string)
    ensures CanonicalLabel(CanonicalLabel(h)) == CanonicalLabel(h)
  {
    if Contains(h, "學年") && Contains(h, "度") {
      YearFixed();
    } else if Contains(h, Term) {
      TermFixed();
    } else if Contains(h, CourseName) {
      CourseNameFixed();
    } else if Contains(h, Credits) {
      CreditsFixed();
    } else if Contains(h, Gpa) {
      GpaFixed();
    }
  }

  /** The year rule comes first: every name with 學年 and 度 becomes
      學年度, whatever else it contains. */
  lemma YearRuleFirst(h: string)
    requires Contains(h, "學年") && Contains(h, "度")
    ensures CanonicalLabel(h) == Year
  {
  }

  /** 學年度學期 contains the term's name 學期 too, and still becomes
      學年度. */
  lemma YearRuleExample()
    ensures Contains("學年度學期", Term) && CanonicalLabel("學年度學期") == Year
  {
    var h := "學年度學期";
    ContainedAt(h, "學年", 0);
    ContainedAt(h, "度", 2);
    ContainedAt(h, Term, 3);
    YearRuleFirst(h);
  }

  // ---------------------------------------------------------------------
  // make_unique_columns
  // ---------------------------------------------------------------------

  /** The name blank labels are replaced with. */
  const Placeholder := "Unnamed_Column"

  function Label(col: string): (r: string)
    ensures r != []
  {
    if IsBlank(col) then Placeholder else col
  }

  /** f"{col}_{n}" */
  function Suffixed(col: string, n: nat): (r: string)
    ensures r != []
  {
    col + "_" + DecimalString(n)
  }

  lemma SuffixedInjective(col: string, n: nat, m: nat)
    requires Suffixed(col, n) == Suffixed(col, m)
    ensures n == m
  {
    var p := col + "_";
    assert Suffixed(col, n)[|p|..] == DecimalString(n);
    assert Suffixed(col, m)[|p|..] == DecimalString(m);
    DecimalStringInjective(n, m);
  }

  /** `seen[k]` of the defaultdict(int). */
  function Seen(seen: map<string, nat>, k: string): nat {
    if k in seen then seen[k] else 0
  }

  /** The names `col_k`, k >= n, that are already taken in `emitted`. */
  ghost function Taken(col: string, n: nat, emitted: seq<string>): set<string> {
    set u | u in emitted && exists k: nat :: n <= k && u == Suffixed(col, k)
  }

  lemma TakenShrinks(col: string, n: nat, emitted: seq<string>)
    requires Suffixed(col, n) in emitted
    ensures |Taken(col, n + 1, emitted)| < |Taken(col, n, emitted)|
  {
    var u := Suffixed(col, n);
    var a, b := Taken(col, n + 1, emitted), Taken(col, n, emitted);
    assert u in b;
    assert u !in a by {
      if u in a {
        var k: nat :| n + 1 <= k && u == Suffixed(col, k);
        SuffixedInjective(col, n, k);
      }
    }
    assert a <= b - {u};
    assert |a| <= |b - {u}| by { SubsetCard(a, b - {u}); }
  }

  lemma {:induction false} SubsetCard<T>(a: set<T>, b: set<T>)
    requires a <= b
    ensures |a| <= |b|
  {
    assert b == a + (b - a);
  }

  /** The counter the collision loop stops at: the least m >= n for which
      `col_m` has not been emitted yet. */
  function FirstFree(col: string, n: nat, emitted: seq<string>): (m: nat)
    ensures n <= m && Suffixed(col, m) !in emitted
    ensures forall k :: n <= k < m ==> Suffixed(col, k) in emitted
    decreases |Taken(col, n, emitted)|
  {
    if Suffixed(col, n) in emitted then
      TakenShrinks(col, n, emitted);
      FirstFree(col, n + 1, emitted)
    else n
  }

  /** The loop's state: the `seen` counters and the names emitted so far. */
  datatype Dedup = Dedup(seen: map<string, nat>, emitted: seq<string>)

  /** One iteration of the loop over the header labels. */
  function Step(st: Dedup, col: string): Dedup {
    var name := Label(col);
    if Seen(st.seen, name) > 0 then
      var m := FirstFree(name, Seen(st.seen, name), st.emitted);
      var seen' := st.seen[name := m];
      Dedup(seen'[col := Seen(seen', col) + 1], st.emitted + [Suffixed(name, m)])
    else
      Dedup(st.seen[col := Seen(st.seen, col) + 1], st.emitted + [name])
  }

  /** The loop's state after the first |cols| labels. */
  function Run(cols: seq<string>): (st: Dedup)
    ensures |st.emitted| == |cols|
  {
    if cols == [] then Dedup(map[], [])
    else Step(Run(cols[..|cols| - 1]), cols[|cols| - 1])
  }

  function UniqueColumns(cols: seq<string>): seq<string> {
    Run(cols).emitted
  }

  lemma {:induction false} RunSnoc(cols: seq<string>, i: nat)
    requires i < |cols|
    ensures Run(cols[..i + 1]) == Step(Run(cols[..i]), cols[i])
  {
    assert cols[..i + 1][..i] == cols[..i];
  }

  /** make_unique_columns, with its `seen` dictionary and its output
      list. */
  method MakeUniqueColumns(columns: seq<string>) returns (unique: seq<string>)
    ensures unique == UniqueColumns(columns)
  {
    var seen: map<string, nat> := map[];
    unique := [];
    for i := 0 to |columns|
      invariant Dedup(seen, unique) == Run(columns[..i])
    {
      RunSnoc(columns, i);
      seen, unique := AddColumn(seen, unique, columns[i]);
    }
    assert columns[..|columns|] == columns;
  }

  /** The body of make_unique_columns' loop for one label `col`, with the
      collision loop that bumps the counter until the name is free. */
  method AddColumn(seen0: map<string, nat>, unique0: seq<string>, col: string)
    returns (seen: map<string, nat>, unique: seq<string>)
    ensures Dedup(seen, unique) == Step(Dedup(seen0, unique0), col)
  {
    seen, unique := seen0, unique0;
    var name := if IsBlank(col) then Placeholder else col;
    assert name == Label(col);
    if Seen(seen, name) > 0 {
      ghost var n0 := seen[name];
      var candidate := Suffixed(name, seen[name]);
      while candidate in unique
        invariant name in seen && n0 <= seen[name]
        invariant candidate == Suffixed(name, seen[name])
        invariant forall k :: n0 <= k < seen[name] ==> Suffixed(name, k) in unique
        invariant seen == seen0[name := seen[name]]
        decreases |Taken(name, seen[name], unique)|
      {
        var n := seen[name];
        TakenShrinks(name, n, unique);
        TakenUpTo(name, n0, n, unique);
        seen := seen[name := n + 1];
        candidate := Suffixed(name, n + 1);
      }
      FirstFreeUnique(name, n0, seen[name], unique);
      unique := unique + [candidate];
      StepTaken(Dedup(seen0, unique0), col, seen, unique, seen[name]);
    } else {
      unique := unique + [name];
      StepFresh(Dedup(seen0, unique0), col, seen, unique);
    }
    seen := seen[col := Seen(seen, col) + 1];
  }

  /** What one iteration does when the label was not seen before. */
  lemma StepFresh(st: Dedup, col: string, seen: map<string, nat>, emitted: seq<string>)
    requires Seen(st.seen, Label(col)) == 0
    requires seen == st.seen && emitted == st.emitted + [Label(col)]
    ensures Step(st, col) == Dedup(seen[col := Seen(seen, col) + 1], emitted)
  {
  }

  /** What one iteration does when the label was seen before and the
      collision loop stopped at `m`. */
  lemma StepTaken(st: Dedup, col: string, seen: map<string, nat>, emitted: seq<string>, m: nat)
    requires Seen(st.seen, Label(col)) > 0
    requires m == FirstFree(Label(col), Seen(st.seen, Label(col)), st.emitted)
    requires seen == st.seen[Label(col) := m]
    requires emitted == st.emitted + [Suffixed(Label(col), m)]
    ensures Step(st, col) == Dedup(seen[col := Seen(seen, col) + 1], emitted)
  {
  }

  lemma TakenUpTo(col: string, n: nat, m: nat, emitted: seq<string>)
    requires n <= m
    requires forall k :: n <= k < m ==> Suffixed(col, k) in emitted
    requires Suffixed(col, m) in emitted
    ensures forall k :: n <= k < m + 1 ==> Suffixed(col, k) in emitted
  {
  }

  lemma FirstFreeUnique(col: string, n: nat, m: nat, emitted: seq<string>)
    requires n <= m && Suffixed(col, m) !in emitted
    requires forall k :: n <= k < m ==> Suffixed(col, k) in emitted
    ensures m == FirstFree(col, n, emitted)
  {
    var f := FirstFree(col, n, emitted);
    assert Suffixed(col, f) !in emitted && Suffixed(col, m) !in emitted;
  }

  /** How many labels equal `name`. */
  function Occurrences(cols: seq<string>, name: string): (n: nat)
    ensures n <= |cols|
    ensures n == 0 <==> name !in cols
  {
    if cols == [] then 0
    else
      var init, last := cols[..|cols| - 1], cols[|cols| - 1];
      assert cols == init + [last];
      Occurrences(init, name) + (if last == name then 1 else 0)
  }

  // ---------------------------------------------------------------------
  // Properties of make_unique_columns
  // ---------------------------------------------------------------------

  /** The defaultdict holds a positive count exactly for the labels read so
      far. */
  lemma {:induction false} SeenPositive(cols: seq<string>, x: string)
    ensures Seen(Run(cols).seen, x) > 0 <==> x in cols
  {
    if cols != [] {
      var init, col := cols[..|cols| - 1], cols[|cols| - 1];
      assert cols == init + [col];
      SeenPositive(init, x);
    }
  }

  /** The output for a prefix of the labels is the prefix of the output. */
  lemma {:induction false} UniquePrefix(cols: seq<string>, i: nat)
    requires i <= |cols|
    ensures UniqueColumns(cols[..i]) == UniqueColumns(cols)[..i]
    decreases |cols|
  {
    if i < |cols| {
      var init := cols[..|cols| - 1];
      UniquePrefix(init, i);
      assert init[..i] == cols[..i];
      assert Run(cols).emitted[..|init|] == Run(init).emitted;
    } else {
      assert cols[..i] == cols;
    }
  }

  /** The name emitted for the label at position i, from the state the
      loop has reached by then. */
  lemma EmittedAt(cols: seq<string>, i: nat)
    requires i < |cols|
    ensures UniqueColumns(cols)[..i] == UniqueColumns(cols[..i])
    ensures UniqueColumns(cols)[i] == Step(Run(cols[..i]), cols[i]).emitted[i]
  {
    UniquePrefix(cols, i + 1);
    UniquePrefix(cols, i);
    RunSnoc(cols, i);
    assert UniqueColumns(cols)[i] == UniqueColumns(cols)[..i + 1][i];
  }

  /** A label read for the first time is emitted as it is (a blank one as
      the placeholder); a label read before gets the first free suffix
      `_m`, m >= 1, and that name differs from every name emitted before
      it. */
  lemma DedupAt(cols: seq<string>, i: nat)
    requires i < |cols|
    ensures Label(cols[i]) !in cols[..i] ==> UniqueColumns(cols)[i] == Label(cols[i])
    ensures Label(cols[i]) in cols[..i] ==>
      (exists m: nat :: 1 <= m && UniqueColumns(cols)[i] == Suffixed(Label(cols[i]), m)) &&
      UniqueColumns(cols)[i] !in UniqueColumns(cols)[..i]
  {
    EmittedAt(cols, i);
    var name := Label(cols[i]);
    var before := Run(cols[..i]);
    SeenPositive(cols[..i], name);
    if name in cols[..i] {
      var m := FirstFree(name, Seen(before.seen, name), before.emitted);
      assert UniqueColumns(cols)[i] == Suffixed(name, m);
    }
  }

  /** A name emitted at position i repeats an earlier one exactly when its
      label is read for the first time and is already taken by an earlier
      name (an earlier suffixed name, or the placeholder). */
  lemma DuplicateAt(cols: seq<string>, i: nat)
    requires i < |cols|
    ensures UniqueColumns(cols)[i] in UniqueColumns(cols)[..i] <==>
      Label(cols[i]) !in cols[..i] && Label(cols[i]) in UniqueColumns(cols)[..i]
  {
    DedupAt(cols, i);
  }

  /** One iteration never lowers a counter, and raises the counter of the
      label it reads. */
  lemma StepRaises(st: Dedup, col: string, x: string)
    ensures Seen(Step(st, col).seen, x) >= Seen(st.seen, x) + (if col == x then 1 else 0)
  {
  }

  /** The counter of a label is at least the number of times it was
      read. */
  lemma {:induction false} SeenAtLeast(cols: seq<string>, x: string)
    ensures Seen(Run(cols).seen, x) >= Occurrences(cols, x)
  {
    if cols != [] {
      var init, col := cols[..|cols| - 1], cols[|cols| - 1];
      SeenAtLeast(init, x);
      StepRaises(Run(init), col, x);
    }
  }

  /** The counter of a non-blank label read at most once is exactly its
      number of readings, unless the name with suffix `_1` has already
      been emitted: any collision on that label emits `_1` first. */
  lemma {:induction false} SeenOnce(cols: seq<string>, x: string)
    requires !IsBlank(x)
    ensures (Seen(Run(cols).seen, x) == Occurrences(cols, x) && Occurrences(cols, x) <= 1)
            || Suffixed(x, 1) in UniqueColumns(cols)
  {
    if cols != [] {
      var init, col := cols[..|cols| - 1], cols[|cols| - 1];
      SeenOnce(init, x);
      var st := Run(init);
      var name := Label(col);
      assert col == x ==> name == x;
      assert Run(cols).emitted[..|init|] == st.emitted;
      if name == x && Seen(st.seen, x) > 0 {
        var m := FirstFree(x, Seen(st.seen, x), st.emitted);
        assert Run(cols).emitted == st.emitted + [Suffixed(x, m)];
        assert Suffixed(x, 1) in st.emitted || m == 1;
      }
    }
  }

  /** The second reading of a non-blank label gets the suffix `_1`, unless
      an earlier name already took it. */
  lemma SecondOccurrence(cols: seq<string>, i: nat)
    requires i < |cols| && !IsBlank(cols[i])
    requires Occurrences(cols[..i], cols[i]) == 1
    requires Suffixed(cols[i], 1) !in UniqueColumns(cols)[..i]
    ensures UniqueColumns(cols)[i] == Suffixed(cols[i], 1)
  {
    var x := cols[i];
    EmittedAt(cols, i);
    SeenOnce(cols[..i], x);
    var st := Run(cols[..i]);
    assert Seen(st.seen, x) == 1;
    FirstFreeUnique(x, 1, 1, st.emitted);
  }

  /** The (k+1)-th reading of a non-blank label gets a suffix `_m` with
      m >= k: the counter starts at the number of earlier readings. */
  lemma RepeatSuffixAtLeast(cols: seq<string>, i: nat)
    requires i < |cols| && !IsBlank(cols[i])
    requires Occurrences(cols[..i], cols[i]) >= 1
    ensures exists m: nat :: m >= Occurrences(cols[..i], cols[i]) &&
                             UniqueColumns(cols)[i] == Suffixed(cols[i], m)
  {
    var x := cols[i];
    EmittedAt(cols, i);
    SeenAtLeast(cols[..i], x);
    var st := Run(cols[..i]);
    var m := FirstFree(x, Seen(st.seen, x), st.emitted);
    assert UniqueColumns(cols)[i] == Suffixed(x, m);
  }

  /** Distinct non-blank labels are left as they are. */
  lemma {:induction false} DistinctUnchanged(cols: seq<string>)
    requires forall i :: 0 <= i < |cols| ==> !IsBlank(cols[i])
    requires forall i, j :: 0 <= i < j < |cols| ==> cols[i] != cols[j]
    ensures UniqueColumns(cols) == cols
  {
    forall i | 0 <= i < |cols|
      ensures UniqueColumns(cols)[i] == cols[i]
    {
      DedupAt(cols, i);
      assert cols[i] !in cols[..i];
    }
  }

  /** The second 學分 column becomes 學分_1. */
  lemma RepeatedCreditsExample()
    ensures UniqueColumns([Credits, Credits]) == [Credits, Credits + "_1"]
  {
    var cols := [Credits, Credits];
    assert !IsSpace(Credits[0]);
    assert Label(Credits) == Credits;
    assert cols[..1] == [Credits] && [Credits][..0] == [];
    assert Run([]) == Dedup(map[], []);
    assert Run([Credits]) == Step(Dedup(map[], []), Credits);
    var first := Run([Credits]);
    assert first == Dedup(map[Credits := 1], [Credits]);
    assert DecimalString(1) == "1";
    assert Suffixed(Credits, 1) == Credits + "_1";
    assert |Suffixed(Credits, 1)| != |Credits|;
    assert FirstFree(Credits, 1, [Credits]) == 1;
  }

  /** Two blank labels both become the placeholder: the `seen` count is
      kept under the blank label, not under the placeholder, so the second
      one is not suffixed. */
  lemma BlankLabelsRepeat()
    ensures UniqueColumns(["", ""]) == [Placeholder, Placeholder]
  {
    assert ["", ""][..1] == [""] && [""][..0] == [];
    assert Run([]) == Dedup(map[], []);
    assert Run([""]) == Step(Dedup(map[], []), "");
    assert Run([""]) == Dedup(map["" := 1], [Placeholder]);
    assert Placeholder !in map["" := 1];
  }

  /** No emitted name is empty. */
  lemma UniqueColumnsNonEmpty(cols: seq<string>)
    ensures |UniqueColumns(cols)| == |cols|
    ensures forall i :: 0 <= i < |cols| ==> UniqueColumns(cols)[i] != []
  {
    forall i | 0 <= i < |cols|
      ensures UniqueColumns(cols)[i] != []
    {
      DedupAt(cols, i);
    }
  }

  /** A literal 學分_1 after a generated 學分_1 is emitted unchanged: it is
      read for the first time, so the output repeats a name. */
  lemma LiteralSuffixRepeats()
    ensures UniqueColumns([Credits, Credits, Credits + "_1"]) == [Credits, Credits + "_1", Credits + "_1"]
  {
    var cols := [Credits, Credits, Credits + "_1"];
    RepeatedCreditsExample();
    assert cols[..2] == [Credits, Credits];
    DedupAt(cols, 2);
    assert !IsSpace((Credits + "_1")[0]);
    assert Credits + "_1" !in cols[..2] by {
      assert |Credits + "_1"| != |Credits|;
    }
    EmittedAt(cols, 2);
  }
}
