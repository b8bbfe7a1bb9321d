/** The two cell tests the credit filter applies: is_gpa_valid
    (app.py:59-64) and the numeric reading of a credits cell that
    `pd.to_numeric(..., errors='coerce')` performs (app.py:278, 283). */
module Grades {
  import opened Wrappers
  import opened Text

  // ---------------------------------------------------------------------
  // is_gpa_valid
  // ---------------------------------------------------------------------

  /** The character class [A-Ea-eDFdfC]: the letters A to F in either case. */
  predicate IsGradeLetter(c: char) {
    'A' <= c <= 'F' || 'a' <= c <= 'f'
  }

  predicate IsSign(c: char) {
    c == '+' || c == '-'
  }

  /** The character class [0-9.]. */
  predicate IsDigitOrDot(c: char) {
    IsDigit(c) || c == '.'
  }

  /** Where Python's `$` (without MULTILINE) matches: at the end of the
      string, or just before a newline that ends it. */
  predicate AtEnd(s: string, i: nat) {
    i == |s| || (i + 1 == |s| && s[i] == '\n')
  }

  /** How far the greedy `[0-9.]+` reaches from the start of `s`. */
  function DigitDotRun(s: string): (k: nat)
    ensures k <= |s|
    ensures forall j :: 0 <= j < k ==> IsDigitOrDot(s[j])
    ensures k == |s| || !IsDigitOrDot(s[k])
  {
    if s != [] && IsDigitOrDot(s[0]) then 1 + DigitDotRun(s[1..]) else 0
  }

  /** `^[A-Ea-eDFdfC]{1}[+-]?$` under re.match: the optional sign is tried
      first, then left out. */
  predicate LetterAlternative(s: string) {
    |s| >= 1 && IsGradeLetter(s[0]) &&
    ((|s| >= 2 && IsSign(s[1]) && AtEnd(s, 2)) || AtEnd(s, 1))
  }

  /** `^[0-9.]+$` under re.match: backing off the greedy run never helps,
      because every shorter run stops before a digit or a dot. */
  predicate NumberAlternative(s: string) {
    var k := DigitDotRun(s);
    k >= 1 && AtEnd(s, k)
  }

  /** The grades the source names as not being real grades. */
  const NonGrades: seq<string> := ["通過", "抵免", "必修", "選修", "通過"]

  /** is_gpa_valid on a table cell: a missing cell (the fill of a column
      union) is not a string and is rejected. */
  function IsGpaValid(cell: Option<string>): (r: bool)
    ensures cell.None? ==> !r
  {
    match cell
    case None => false
    case Some(s) => (LetterAlternative(s) || NumberAlternative(s)) && s !in NonGrades
  }

  /** `s` without one trailing newline, the part `$` lets the pattern see. */
  function Chomp(s: string): (t: string)
    ensures t == s || s == t + "\n"
  {
    if s != [] && s[|s| - 1] == '\n' then s[..|s| - 1] else s
  }

  /** A letter grade: one letter A to F in either case, with an optional
      `+` or `-`. */
  predicate LetterGrade(t: string) {
    (|t| == 1 || (|t| == 2 && IsSign(t[1]))) && IsGradeLetter(t[0])
  }

  /** A numeric grade: a non-empty string of digits and dots. */
  predicate NumericGrade(t: string) {
    |t| >= 1 && forall j :: 0 <= j < |t| ==> IsDigitOrDot(t[j])
  }

  /** None of the listed non-grades passes the pattern, so the exclusion
      list never changes the verdict. */
  lemma ExclusionRedundant(s: string)
    requires s in NonGrades
    ensures !LetterAlternative(s) && !NumberAlternative(s)
  {
    assert !IsGradeLetter(s[0]) && !IsDigitOrDot(s[0]);
  }

  /** is_gpa_valid accepts a string exactly when, apart from one trailing
      newline, it is a letter grade or a numeric grade. */
  lemma GpaValidIff(s: string)
    ensures IsGpaValid(Some(s)) <==> LetterGrade(Chomp(s)) || NumericGrade(Chomp(s))
  {
    if s in NonGrades {
      ExclusionRedundant(s);
    }
    var t := Chomp(s);
    var k := DigitDotRun(s);
    if NumericGrade(t) {
      assert k >= |t|;
    }
    if NumberAlternative(s) {
      assert t == s[..k];
    }
  }

  /** The grade strings a transcript shows, and some it does not. */
  lemma GradeExamples()
    ensures IsGpaValid(Some("A+")) && IsGpaValid(Some("D-")) && IsGpaValid(Some("f"))
    ensures IsGpaValid(Some("3.5")) && IsGpaValid(Some("85")) && IsGpaValid(Some(".."))
    ensures !IsGpaValid(Some("通過")) && !IsGpaValid(Some("G")) && !IsGpaValid(Some("A++"))
    ensures !IsGpaValid(Some("")) && !IsGpaValid(Some("3.5分"))
    ensures IsGpaValid(Some("B\n")) && !IsGpaValid(Some("B\n\n"))
  {
    ValidGrades();
    InvalidGrades();
    NewlineGrades();
  }

  lemma ValidGrades()
    ensures IsGpaValid(Some("A+")) && IsGpaValid(Some("D-")) && IsGpaValid(Some("f"))
    ensures IsGpaValid(Some("3.5")) && IsGpaValid(Some("85")) && IsGpaValid(Some(".."))
  {
    GpaValidIff("3.5");
    GpaValidIff("85");
    GpaValidIff("..");
  }

  lemma InvalidGrades()
    ensures !IsGpaValid(Some("通過")) && !IsGpaValid(Some("G")) && !IsGpaValid(Some("A++"))
    ensures !IsGpaValid(Some("")) && !IsGpaValid(Some("3.5分"))
  {
    GpaValidIff("通過");
    GpaValidIff("A++");
    GpaValidIff("3.5分");
    assert "3.5分"[3] == '分';
  }

  lemma NewlineGrades()
    ensures IsGpaValid(Some("B\n")) && !IsGpaValid(Some("B\n\n"))
  {
    GpaValidIff("B\n\n");
    assert "B\n\n"[..2] == "B\n";
  }

  // ---------------------------------------------------------------------
  // pd.to_numeric with errors='coerce'
  // ---------------------------------------------------------------------

  /** How many decimal digits `s` starts with. */
  function DigitRun(s: string): (k: nat)
    ensures k <= |s|
    ensures forall j :: 0 <= j < k ==> IsDigit(s[j])
    ensures k == |s| || !IsDigit(s[k])
  {
    if s != [] && IsDigit(s[0]) then 1 + DigitRun(s[1..]) else 0
  }

  function Pow10(n: nat): (r: nat)
    ensures r >= 1
  {
    if n == 0 then 1 else 10 * Pow10(n - 1)
  }

  /** An unsigned decimal: digits, optionally a dot and more digits, with
      at least one digit in all. */
  function ParseUnsigned(t: string): (r: Option<real>)
    ensures r.Some? ==> r.value >= 0.0
  {
    var k := DigitRun(t);
    if k == |t| then
      if k == 0 then None else Some(DigitsValue(t) as real)
    else if t[k] != '.' then None
    else
      var frac := t[k + 1..];
      if DigitRun(frac) != |frac| || (k == 0 && frac == []) then None
      else Some(DecimalValue(t[..k], frac))
  }

  /** The value of `whole.frac`, both parts strings of digits. */
  function DecimalValue(whole: string, frac: string): (v: real)
    ensures v >= 0.0
  {
    DigitsValue(whole) as real + DigitsValue(frac) as real / Pow10(|frac|) as real
  }

  /** The number a credits cell holds, or None where the coercion gives
      NaN: an optional sign followed by an unsigned decimal. */
  function ParseNumber(s: string): (r: Option<real>)
    ensures r.Some? ==> s != [] && (s[0] != '-' ==> r.value >= 0.0)
  {
    if s == [] then None
    else
      var body := if IsSign(s[0]) then s[1..] else s;
      match ParseUnsigned(body)
      case None => None
      case Some(v) => Some(if s[0] == '-' then -v else v)
  }

  /** A string the parse accepts is made of digits and at most one dot,
      after an optional leading sign. */
  lemma ParsedShape(s: string)
    requires ParseNumber(s).Some?
    ensures forall j :: 0 <= j < |s| ==> IsDigitOrDot(s[j]) || (j == 0 && IsSign(s[j]))
  {
    var body := if IsSign(s[0]) then s[1..] else s;
    var k := DigitRun(body);
    forall j | 0 <= j < |s|
      ensures IsDigitOrDot(s[j]) || (j == 0 && IsSign(s[j]))
    {
      var off := if IsSign(s[0]) then 1 else 0;
      if j >= off {
        var i := j - off;
        assert body[i] == s[j];
        if i > k {
          var frac := body[k + 1..];
          assert frac[i - k - 1] == body[i];
        }
      }
    }
  }

  /** The rendering of a natural number reads back as that number. */
  lemma ParseDecimalString(n: nat)
    ensures ParseNumber(DecimalString(n)) == Some(n as real)
  {
    var s := DecimalString(n);
    DigitsValueOfDecimal(n);
    AllDigitsRun(s);
    assert !IsSign(s[0]);
  }

  /** A negative whole number reads back with its sign. */
  lemma ParseNegativeDecimal(n: nat)
    ensures ParseNumber("-" + DecimalString(n)) == Some(-(n as real))
  {
    var d := DecimalString(n);
    var s := "-" + d;
    assert s[1..] == d;
    DigitsValueOfDecimal(n);
    AllDigitsRun(d);
  }

  /** Digits, a dot and digits read as the whole part plus the fraction. */
  lemma ParseFraction(w: string, f: string)
    requires w != [] && forall j :: 0 <= j < |w| ==> IsDigit(w[j])
    requires forall j :: 0 <= j < |f| ==> IsDigit(f[j])
    ensures ParseNumber(w + "." + f) == Some(DecimalValue(w, f))
  {
    var s := w + "." + f;
    assert s[0] == w[0];
    ParseUnsignedFraction(w, f);
  }

  lemma ParseUnsignedFraction(w: string, f: string)
    requires forall j :: 0 <= j < |w| ==> IsDigit(w[j])
    requires forall j :: 0 <= j < |f| ==> IsDigit(f[j])
    requires w != [] || f != []
    ensures ParseUnsigned(w + "." + f) == Some(DecimalValue(w, f))
  {
    var s := w + "." + f;
    assert s == w + ("." + f);
    DigitsThenStop(w, "." + f);
    var k := DigitRun(s);
    assert k == |w| && s[k] == '.';
    assert s[..k] == w;
    assert s[k + 1..] == f;
    AllDigitsRun(f);
  }

  /** `n.d` reads back as n + d/10. */
  lemma ParseOneDecimalPlace(n: nat, d: nat)
    requires d < 10
    ensures ParseNumber(DecimalString(n) + "." + [DigitChar(d)]) == Some(n as real + d as real / 10.0)
  {
    var w, f := DecimalString(n), [DigitChar(d)];
    ParseFraction(w, f);
    DigitsValueOfDecimal(n);
    assert DigitsValue(f) == d by { assert f[..0] == []; }
    OneDigitFraction(w, f);
  }

  lemma OneDigitFraction(w: string, f: string)
    requires |f| == 1
    ensures DecimalValue(w, f) == DigitsValue(w) as real + DigitsValue(f) as real / 10.0
  {
    assert Pow10(1) == 10;
  }

  lemma {:induction false} AllDigitsRun(s: string)
    requires forall j :: 0 <= j < |s| ==> IsDigit(s[j])
    ensures DigitRun(s) == |s|
  {
    if s != [] {
      AllDigitsRun(s[1..]);
    }
  }

  lemma {:induction false} DigitsThenStop(s: string, rest: string)
    requires forall j :: 0 <= j < |s| ==> IsDigit(s[j])
    requires rest != [] && !IsDigit(rest[0])
    ensures DigitRun(s + rest) == |s|
  {
    if s != [] {
      assert (s + rest)[1..] == s[1..] + rest;
      DigitsThenStop(s[1..], rest);
    } else {
      assert s + rest == rest;
    }
  }

  /** Whole credits cells a transcript shows. */
  lemma NumberExamples()
    ensures ParseNumber("3") == Some(3.0) && ParseNumber("0") == Some(0.0)
    ensures ParseNumber("-1") == Some(-1.0)
  {
    ParseDecimalString(3);
    ParseDecimalString(0);
    ParseNegativeDecimal(1);
    assert DecimalString(3) == "3" && DecimalString(0) == "0";
    assert DecimalString(1) == "1";
  }

  /** A half credit. */
  lemma FractionExample()
    ensures ParseNumber("2.5") == Some(2.5)
  {
    ParseOneDecimalPlace(2, 5);
    assert DecimalString(2) + "." + [DigitChar(5)] == "2.5";
  }

  /** Credits cells the coercion turns into NaN. */
  lemma NotNumberExamples()
    ensures ParseNumber("三") == None && ParseNumber("") == None
    ensures ParseNumber(".") == None && ParseNumber("1.2.3") == None
  {
    assert ParseNumber("三") == None by {
      assert !IsSign('三') && DigitRun("三") == 0;
    }
    assert ParseNumber(".") == None by {
      assert !IsSign('.') && DigitRun(".") == 0 && "."[1..] == [];
    }
    TwoDotsNotNumber();
  }

  lemma TwoDotsNotNumber()
    ensures ParseNumber("1.2.3") == None
  {
    var s := "1.2.3";
    assert !IsSign(s[0]);
    assert DigitRun(s) == 1 by { DigitsThenStop("1", ".2.3"); }
    assert s[2..] == "2.3";
    assert DigitRun("2.3") == 1 by { DigitsThenStop("2", ".3"); }
  }
}
