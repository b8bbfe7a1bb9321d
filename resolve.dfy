/** Finding the five transcript fields among the columns of the extracted
    frame (app.py:222-247): an exact synonym first, in declaration order,
    then the first column whose name starts with the field's name. */
module Resolve {
  import opened Wrappers
  import opened Text
  import opened Columns

  /** col_mapping: each standard field with its synonyms, in declaration
      order; the first synonym is the field's own name. */
  const ColMapping: seq<(string, seq<string>)> := [
    (Year, [Year, "學年", "Academic Year"]),
    (Term, [Term, "期", "Semester"]),
    (CourseName, [CourseName, "科目", "Course Name"]),
    (Credits, [Credits, "Credit"]),
    (Gpa, [Gpa, "成績", "Grade"])
  ]

  /** required_cols */
  const Required: seq<string> := [Year, Term, CourseName, Credits, Gpa]

  /** Position of the first synonym that is a column name, |names| when
      none is. */
  function FirstPresent(names: seq<string>, columns: seq<string>): (k: nat)
    ensures k <= |names|
    ensures k < |names| ==> names[k] in columns
    ensures forall j :: 0 <= j < k ==> names[j] !in columns
  {
    if names == [] || names[0] in columns then 0
    else 1 + FirstPresent(names[1..], columns)
  }

  /** Position of the first column whose name starts with `field`,
      |columns| when none does. */
  function FirstWithPrefix(columns: seq<string>, field: string): (k: nat)
    ensures k <= |columns|
    ensures k < |columns| ==> StartsWith(columns[k], field)
    ensures forall j :: 0 <= j < k ==> !StartsWith(columns[j], field)
  {
    if columns == [] || StartsWith(columns[0], field) then 0
    else 1 + FirstWithPrefix(columns[1..], field)
  }

  /** The column one field resolves to, if any. */
  function ResolveField(field: string, names: seq<string>, columns: seq<string>): (r: Option<string>)
  {
    var k := FirstPresent(names, columns);
    if k < |names| then Some(names[k])
    else
      var c := FirstWithPrefix(columns, field);
      if c < |columns| then Some(columns[c]) else None
  }

  /** found_cols after the first entries of a mapping. */
  function Found(mapping: seq<(string, seq<string>)>, columns: seq<string>): map<string, string> {
    if mapping == [] then map[]
    else
      var (field, names) := mapping[|mapping| - 1];
      var m := Found(mapping[..|mapping| - 1], columns);
      match ResolveField(field, names, columns)
      case None => m
      case Some(c) => m[field := c]
  }

  /** The loop that fills found_cols, one field at a time. */
  method ResolveColumns(columns: seq<string>) returns (found: map<string, string>)
    ensures found == Found(ColMapping, columns)
  {
    found := map[];
    for i := 0 to |ColMapping|
      invariant found == Found(ColMapping[..i], columns)
    {
      assert ColMapping[..i + 1][..i] == ColMapping[..i];
      var (field, names) := ColMapping[i];
      var col := ResolveOne(field, names, columns);
      if col.Some? {
        found := found[field := col.value];
      }
    }
    assert ColMapping[..|ColMapping|] == ColMapping;
  }

  /** The body of that loop for one field: the synonym loop, then, when
      no synonym is a column, the prefix loop. The source's extra test
      that the field is still missing inside the prefix loop always holds
      there, so it is left out. */
  method ResolveOne(field: string, names: seq<string>, columns: seq<string>) returns (col: Option<string>)
    ensures col == ResolveField(field, names, columns)
  {
    col := None;
    var j := 0;
    while j < |names|
      invariant j <= |names| && col.None?
      invariant forall k :: 0 <= k < j ==> names[k] !in columns
    {
      if names[j] in columns {
        col := Some(names[j]);
        break;
      }
      j := j + 1;
    }
    if col.None? {
      var c := 0;
      while c < |columns|
        invariant c <= |columns| && col.None?
        invariant forall k :: 0 <= k < c ==> !StartsWith(columns[k], field)
      {
        if StartsWith(columns[c], field) {
          col := Some(columns[c]);
          break;
        }
        c := c + 1;
      }
    }
  }

  /** `not all(col in found_cols for col in required_cols)` is false. */
  predicate AllResolved(found: map<string, string>) {
    forall f :: f in Required ==> f in found
  }

  lemma {:induction false} FoundKeys(mapping: seq<(string, seq<string>)>, columns: seq<string>, f: string)
    ensures f in Found(mapping, columns) ==> exists i :: 0 <= i < |mapping| && mapping[i].0 == f
  {
    if mapping != [] {
      var init := mapping[..|mapping| - 1];
      FoundKeys(init, columns, f);
      if f in Found(init, columns) {
        var i :| 0 <= i < |init| && init[i].0 == f;
        assert mapping[i] == init[i];
      }
    }
  }

  // ---------------------------------------------------------------------
  // Properties of the resolution
  // ---------------------------------------------------------------------

  predicate DistinctFields(mapping: seq<(string, seq<string>)>) {
    forall a, b :: 0 <= a < b < |mapping| ==> mapping[a].0 != mapping[b].0
  }

  /** With distinct fields, each field's entry is what its own search
      finds. */
  lemma {:induction false} FoundIsResolve(mapping: seq<(string, seq<string>)>, columns: seq<string>, i: nat)
    requires DistinctFields(mapping) && i < |mapping|
    ensures mapping[i].0 in Found(mapping, columns) <==> ResolveField(mapping[i].0, mapping[i].1, columns).Some?
    ensures mapping[i].0 in Found(mapping, columns) ==>
      Found(mapping, columns)[mapping[i].0] == ResolveField(mapping[i].0, mapping[i].1, columns).value
  {
    var init := mapping[..|mapping| - 1];
    if i < |init| {
      assert init[i] == mapping[i];
      FoundIsResolve(init, columns, i);
    } else {
      FoundKeys(init, columns, mapping[i].0);
    }
  }

  lemma ColMappingDistinct()
    ensures DistinctFields(ColMapping)
  {
  }

  /** What a field resolves to: an existing column; the first synonym, in
      declaration order, that is a column, when there is one; otherwise
      the first column, in column order, whose name starts with the field;
      and nothing when neither exists. */
  lemma ResolvedField(columns: seq<string>, i: nat)
    requires i < |ColMapping|
    ensures var (field, names) := ColMapping[i];
      var found := Found(ColMapping, columns);
      (field in found <==>
        (exists k :: 0 <= k < |names| && names[k] in columns) ||
        (exists c :: 0 <= c < |columns| && StartsWith(columns[c], field))) &&
      (field in found ==> found[field] in columns) &&
      ((exists k :: 0 <= k < |names| && names[k] in columns) ==>
        exists k :: 0 <= k < |names| && found[field] == names[k] &&
          forall j :: 0 <= j < k ==> names[j] !in columns) &&
      ((forall k :: 0 <= k < |names| ==> names[k] !in columns) && field in found ==>
        exists c :: 0 <= c < |columns| && found[field] == columns[c] && StartsWith(columns[c], field) &&
          forall j :: 0 <= j < c ==> !StartsWith(columns[j], field))
  {
    var (field, names) := ColMapping[i];
    var found := Found(ColMapping, columns);
    var r := ResolveField(field, names, columns);
    ColMappingDistinct();
    FoundIsResolve(ColMapping, columns, i);
    assert field in found <==> r.Some?;
    assert field in found ==> found[field] == r.value;
    SearchFound(field, names, columns);
    if exists k :: 0 <= k < |names| && names[k] in columns {
      SearchSynonym(field, names, columns);
    } else if r.Some? {
      SearchPrefix(field, names, columns);
    }
  }

  /** One field's search succeeds exactly when a synonym is a column or a
      column starts with the field, and it yields a column. */
  lemma SearchFound(field: string, names: seq<string>, columns: seq<string>)
    ensures ResolveField(field, names, columns).Some? <==>
      (exists k :: 0 <= k < |names| && names[k] in columns) ||
      (exists c :: 0 <= c < |columns| && StartsWith(columns[c], field))
    ensures ResolveField(field, names, columns).Some? ==> ResolveField(field, names, columns).value in columns
  {
    var k := FirstPresent(names, columns);
    var c := FirstWithPrefix(columns, field);
    if k == |names| && c == |columns| {
      assert forall j :: 0 <= j < |names| ==> names[j] !in columns;
      assert forall j :: 0 <= j < |columns| ==> !StartsWith(columns[j], field);
    }
  }

  /** When some synonym is a column, the search yields the first such
      synonym. */
  lemma SearchSynonym(field: string, names: seq<string>, columns: seq<string>)
    requires exists k :: 0 <= k < |names| && names[k] in columns
    ensures exists k :: 0 <= k < |names| && ResolveField(field, names, columns) == Some(names[k]) &&
              (forall j :: 0 <= j < k ==> names[j] !in columns)
  {
    var k := FirstPresent(names, columns);
    assert k < |names|;
  }

  /** When no synonym is a column, the search yields the first column that
      starts with the field, if any. */
  lemma SearchPrefix(field: string, names: seq<string>, columns: seq<string>)
    requires forall k :: 0 <= k < |names| ==> names[k] !in columns
    requires ResolveField(field, names, columns).Some?
    ensures exists c :: 0 <= c < |columns| && ResolveField(field, names, columns) == Some(columns[c]) &&
              StartsWith(columns[c], field) && (forall j :: 0 <= j < c ==> !StartsWith(columns[j], field))
  {
    var k := FirstPresent(names, columns);
    assert k == |names|;
    var c := FirstWithPrefix(columns, field);
    assert c < |columns|;
  }

  /** No two fields share a synonym. */
  lemma SynonymsDisjoint(a: nat, b: nat, k: nat, l: nat)
    requires a < b < |ColMapping| && k < |ColMapping[a].1| && l < |ColMapping[b].1|
    ensures ColMapping[a].1[k] != ColMapping[b].1[l]
  {
  }

  /** A synonym that starts with a field's name is a synonym of that
      field. */
  lemma SynonymPrefix(a: nat, k: nat, b: nat)
    requires a < |ColMapping| && k < |ColMapping[a].1| && b < |ColMapping|
    requires StartsWith(ColMapping[a].1[k], ColMapping[b].0)
    ensures a == b
  {
    var s, p := ColMapping[a].1[k], ColMapping[b].0;
    assert |p| >= 2;
    assert s[0] == p[0] && s[1] == p[1] by {
      assert s[..|p|][0] == s[0] && s[..|p|][1] == s[1];
    }
  }

  /** No field's name starts with another's. */
  lemma FieldsPrefixFree(a: nat, b: nat)
    requires a < |ColMapping| && b < |ColMapping| && a != b
    ensures !StartsWith(ColMapping[a].0, ColMapping[b].0)
  {
    var s, p := ColMapping[a].0, ColMapping[b].0;
    MismatchNotPrefix(s, p, if s[0] != p[0] then 0 else 1);
  }

  lemma MismatchNotPrefix(s: string, p: string, j: nat)
    requires j < |p| && (j >= |s| || s[j] != p[j])
    ensures !StartsWith(s, p)
  {
    if |p| <= |s| {
      assert s[..|p|][j] == s[j];
    }
  }

  lemma CommonPrefix(x: string, p: string, q: string)
    requires StartsWith(x, p) && StartsWith(x, q) && |p| <= |q|
    ensures StartsWith(q, p)
  {
    assert q[..|p|] == x[..|q|][..|p|];
  }

  /** Different fields never resolve to the same column, so renaming the
      resolved columns to the field names is one to one. */
  lemma ResolvedDistinct(columns: seq<string>, a: nat, b: nat)
    requires a < b < |ColMapping|
    requires ColMapping[a].0 in Found(ColMapping, columns)
    requires ColMapping[b].0 in Found(ColMapping, columns)
    ensures Found(ColMapping, columns)[ColMapping[a].0] != Found(ColMapping, columns)[ColMapping[b].0]
  {
    ColMappingDistinct();
    FoundIsResolve(ColMapping, columns, a);
    FoundIsResolve(ColMapping, columns, b);
    var (fa, na) := ColMapping[a];
    var (fb, nb) := ColMapping[b];
    var ka, kb := FirstPresent(na, columns), FirstPresent(nb, columns);
    if ka < |na| && kb < |nb| {
      SynonymsDisjoint(a, b, ka, kb);
    } else if ka < |na| {
      var c := FirstWithPrefix(columns, fb);
      if na[ka] == columns[c] {
        SynonymPrefix(a, ka, b);
      }
    } else if kb < |nb| {
      var c := FirstWithPrefix(columns, fa);
      if nb[kb] == columns[c] {
        SynonymPrefix(b, kb, a);
      }
    } else {
      var ca, cb := FirstWithPrefix(columns, fa), FirstWithPrefix(columns, fb);
      if columns[ca] == columns[cb] {
        if |fa| <= |fb| {
          CommonPrefix(columns[ca], fa, fb);
          FieldsPrefixFree(b, a);
        } else {
          CommonPrefix(columns[ca], fb, fa);
          FieldsPrefixFree(a, b);
        }
      }
    }
  }

  /** An exact synonym beats the prefix rule even when the prefix match
      comes first; without a synonym the first prefix match is taken. */
  lemma ResolveExamples()
    ensures ResolveField(Credits, [Credits, "Credit"], [Credits + "_1", "Credit"]) == Some("Credit")
    ensures ResolveField(Credits, [Credits, "Credit"], [Gpa, Credits + "_2", Credits + "_1"]) == Some(Credits + "_2")
  {
    var a := [Credits + "_1", "Credit"];
    assert Credits !in a by { assert |Credits| != |Credits + "_1"| && |Credits| != |"Credit"|; }
    assert FirstPresent([Credits, "Credit"], a) == 1 by {
      assert [Credits, "Credit"][1..] == ["Credit"];
    }
    var b := [Gpa, Credits + "_2", Credits + "_1"];
    assert Credits !in b by { assert |Credits| != |Gpa|; }
    assert "Credit" !in b by { assert |"Credit"| != |Gpa| && |"Credit"| != |Credits + "_2"|; }
    assert FirstPresent([Credits, "Credit"], b) == 2 by {
      assert [Credits, "Credit"][1..] == ["Credit"] && ["Credit"][1..] == [];
    }
    assert !StartsWith(Gpa, Credits) by { MismatchNotPrefix(Gpa, Credits, 0); }
    assert StartsWith(Credits + "_2", Credits) by { assert (Credits + "_2")[..|Credits|] == Credits; }
    assert FirstWithPrefix(b, Credits) == 1 by { assert b[1..][0] == Credits + "_2"; }
  }
}
