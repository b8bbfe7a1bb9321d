/** Cell text normalisation (normalize_text) and the string helpers the
    other modules share: Python's whitespace class, `in` and `startswith`
    on strings, and the decimal rendering used by f-strings. */
module Text {

  /** The characters Python's str.isspace() accepts; the regular expression
      class \s matches exactly these characters in a str pattern. */
  predicate IsSpace(c: char) {
    var n := c as int;
    n == 0x20 || 0x09 <= n <= 0x0D || 0x1C <= n <= 0x1F || n == 0x85 || n == 0xA0
    || n == 0x1680 || 0x2000 <= n <= 0x200A || n == 0x2028 || n == 0x2029
    || n == 0x202F || n == 0x205F || n == 0x3000
  }

  /** `not s or s.isspace()`: empty or whitespace only. */
  predicate IsBlank(s: string) {
    forall i :: 0 <= i < |s| ==> IsSpace(s[i])
  }

  predicate NoSpaces(s: string) {
    forall i :: 0 <= i < |s| ==> !IsSpace(s[i])
  }

  /** Python's `s.startswith(p)`. */
  predicate StartsWith(s: string, p: string) {
    |p| <= |s| && s[..|p|] == p
  }

  /** Python's `sub in s` on strings. */
  predicate Contains(s: string, sub: string)
    decreases |s|
  {
    StartsWith(s, sub) || (s != [] && Contains(s[1..], sub))
  }

  /** A text that lacks one of the characters of `sub` does not contain it. */
  lemma {:induction false} MissingCharNotContained(s: string, sub: string, c: char)
    requires c in sub && c !in s
    ensures !Contains(s, sub)
    decreases |s|
  {
    if s != [] {
      assert forall x :: x in s[1..] ==> x in s;
      MissingCharNotContained(s[1..], sub, c);
    }
  }

  /** An occurrence at index i is an occurrence. */
  lemma {:induction false} ContainedAt(s: string, sub: string, i: nat)
    requires i + |sub| <= |s| && s[i..i + |sub|] == sub
    ensures Contains(s, sub)
    decreases i
  {
    if i > 0 {
      assert s[1..][i - 1..i - 1 + |sub|] == sub;
      ContainedAt(s[1..], sub, i - 1);
    }
  }

  // ---------------------------------------------------------------------
  // Whitespace collapsing: re.sub(r'\s+', ' ', text).strip()
  // ---------------------------------------------------------------------

  /** Drops the leading run of whitespace (also str.lstrip()). */
  function SkipSpaces(s: string): (r: string)
    ensures |r| <= |s| && r == s[|s| - |r|..]
    ensures r == [] || !IsSpace(r[0])
    decreases |s|
  {
    if s != [] && IsSpace(s[0]) then SkipSpaces(s[1..]) else s
  }

  /** str.rstrip(): drops the trailing run of whitespace. */
  function StripRight(s: string): (r: string)
    ensures |r| <= |s| && r == s[..|r|]
    ensures r == [] || !IsSpace(r[|r| - 1])
    decreases |s|
  {
    if s != [] && IsSpace(s[|s| - 1]) then StripRight(s[..|s| - 1]) else s
  }

  /** re.sub(r'\s+', ' ', s): every maximal whitespace run becomes one space. */
  function Collapse(s: string): string
    decreases |s|
  {
    if s == [] then []
    else if IsSpace(s[0]) then " " + Collapse(SkipSpaces(s[1..]))
    else [s[0]] + Collapse(s[1..])
  }

  /** The text of a cell, collapsed and stripped at both ends. */
  function Normalize(s: string): string {
    StripRight(SkipSpaces(Collapse(s)))
  }

  /** A raw cell as the extractors hand it over: absent (None), an object
      carrying a `.text` attribute, a plain string, or any other value,
      represented by what str() makes of it. */
  datatype RawCell = Absent | RichText(text: string) | Plain(s: string) | Other(repr: string)

  /** normalize_text: absent cells become "", everything else is the
      normalised text of the cell. */
  function NormalizeText(cell: RawCell): string {
    match cell
    case Absent => ""
    case RichText(t) => Normalize(t)
    case Plain(t) => Normalize(t)
    case Other(t) => Normalize(t)
  }

  /** The shape every normalised cell has: no whitespace at either end, no
      two whitespace characters side by side, and the only whitespace left
      is the ASCII space. */
  predicate IsNormalized(s: string) {
    (s == [] || (!IsSpace(s[0]) && !IsSpace(s[|s| - 1])))
    && (forall i :: 0 <= i < |s| && IsSpace(s[i]) ==> s[i] == ' ')
    && (forall i :: 0 <= i < |s| - 1 ==> !(IsSpace(s[i]) && IsSpace(s[i + 1])))
  }

  // ---------------------------------------------------------------------
  // Reference definition: the words of a string, joined by single spaces
  // (Python's " ".join(s.split())).
  // ---------------------------------------------------------------------

  /** The longest prefix without whitespace. */
  function TakeWord(s: string): (w: string)
    ensures |w| <= |s| && w == s[..|w|]
    ensures NoSpaces(w)
    ensures |w| == |s| || IsSpace(s[|w|])
    ensures s != [] && !IsSpace(s[0]) ==> w != []
    decreases |s|
  {
    if s != [] && !IsSpace(s[0]) then [s[0]] + TakeWord(s[1..]) else []
  }

  /** The maximal non-whitespace runs of `s`, in order. */
  function Words(s: string): seq<string>
    decreases |s|
  {
    var t := SkipSpaces(s);
    if t == [] then []
    else
      var w := TakeWord(t);
      [w] + Words(t[|w|..])
  }

  function JoinWords(ws: seq<string>): string
    decreases |ws|
  {
    if ws == [] then ""
    else if |ws| == 1 then ws[0]
    else ws[0] + " " + JoinWords(ws[1..])
  }

  predicate ProperWords(ws: seq<string>) {
    forall k :: 0 <= k < |ws| ==> ws[k] != [] && NoSpaces(ws[k])
  }

  /** Every word is non-empty and holds no whitespace. */
  lemma {:induction false} WordsProper(s: string)
    ensures ProperWords(Words(s))
    decreases |s|
  {
    var t := SkipSpaces(s);
    if t != [] {
      var w := TakeWord(t);
      WordsProper(t[|w|..]);
      ProperCons(w, Words(t[|w|..]));
    }
  }

  lemma {:induction false} ProperCons(w: string, ws: seq<string>)
    requires w != [] && NoSpaces(w) && ProperWords(ws)
    ensures ProperWords([w] + ws)
  {
    assert forall k :: 1 <= k < |ws| + 1 ==> ([w] + ws)[k] == ws[k - 1];
  }

  lemma {:induction false} CollapseNoSpaces(w: string, rest: string)
    requires NoSpaces(w)
    ensures Collapse(w + rest) == w + Collapse(rest)
    decreases |w|
  {
    if w != [] {
      var s := w + rest;
      assert s[0] == w[0] && !IsSpace(s[0]);
      assert s[1..] == w[1..] + rest;
      CollapseNoSpaces(w[1..], rest);
      assert Collapse(s) == [w[0]] + Collapse(s[1..]);
      assert [w[0]] + (w[1..] + Collapse(rest)) == w + Collapse(rest);
    } else {
      assert w + rest == rest;
    }
  }

  lemma {:induction false} SkipSpacesOfNonSpace(s: string)
    requires s != [] && !IsSpace(s[0])
    ensures SkipSpaces(s) == s
  {
  }

  lemma {:induction false} CollapseStart(s: string)
    ensures Collapse(s) == [] <==> s == []
    ensures s != [] && !IsSpace(s[0]) ==> Collapse(s)[0] == s[0]
    ensures s != [] && IsSpace(s[0]) ==> Collapse(s)[0] == ' '
  {
  }

  lemma {:induction false} StripRightAppend(a: string, b: string)
    requires b != [] && !IsSpace(b[0])
    ensures StripRight(a + b) == a + StripRight(b)
    decreases |b|
  {
    if IsSpace(b[|b| - 1]) {
      assert |b| > 1;
      assert (a + b)[..|a + b| - 1] == a + b[..|b| - 1];
      StripRightAppend(a, b[..|b| - 1]);
    } else {
      assert (a + b)[|a + b| - 1] == b[|b| - 1];
    }
  }

  lemma {:induction false} StripRightWord(w: string)
    requires w != [] && NoSpaces(w)
    ensures StripRight(w + " ") == w
  {
    assert (w + " ")[..|w|] == w;
  }

  /** Splitting off the first word of text that starts with one. */
  lemma {:induction false} FirstWord(t: string)
    requires t != [] && !IsSpace(t[0])
    ensures var w := TakeWord(t);
      w != [] && t == w + t[|w|..]
      && Collapse(t) == w + Collapse(t[|w|..])
      && Words(t) == [w] + Words(t[|w|..])
  {
    SkipSpacesOfNonSpace(t);
    var w := TakeWord(t);
    assert t == w + t[|w|..];
    CollapseNoSpaces(w, t[|w|..]);
  }

  /** A whitespace run collapses to one space and separates no words. */
  lemma {:induction false} LeadingRun(r: string)
    requires r != [] && IsSpace(r[0])
    ensures Collapse(r) == " " + Collapse(SkipSpaces(r))
    ensures Words(r) == Words(SkipSpaces(r))
    ensures SkipSpaces(r) == [] || !IsSpace(SkipSpaces(r)[0])
  {
    assert SkipSpaces(r) == SkipSpaces(r[1..]);
    var t := SkipSpaces(r);
    if t != [] {
      SkipSpacesOfNonSpace(t);
    }
  }

  /** Putting one more word in front of an already joined text. */
  lemma {:induction false} JoinStep(w: string, c: string, ws: seq<string>)
    requires w != [] && NoSpaces(w)
    requires c != [] && !IsSpace(c[0])
    requires ws != [] && StripRight(c) == JoinWords(ws)
    ensures StripRight((w + " ") + c) == JoinWords([w] + ws)
  {
    StripRightAppend(w + " ", c);
    assert ([w] + ws)[1..] == ws;
  }

  lemma {:induction false} LastWord(w: string)
    requires w != [] && NoSpaces(w)
    ensures StripRight(w) == w && JoinWords([w]) == w
  {
  }

  /** A word followed by a whitespace run and the (already joined) rest. */
  lemma {:induction false} WordThenRun(w: string, rest: string)
    requires w != [] && NoSpaces(w)
    requires rest != [] && IsSpace(rest[0])
    requires StripRight(Collapse(SkipSpaces(rest))) == JoinWords(Words(SkipSpaces(rest)))
    ensures StripRight(w + Collapse(rest)) == JoinWords([w] + Words(rest))
  {
    var t' := SkipSpaces(rest);
    LeadingRun(rest);
    if t' == [] {
      WordThenBlank(w, rest);
    } else {
      WordThenWords(w, rest, t');
    }
  }

  lemma {:induction false} WordThenBlank(w: string, rest: string)
    requires w != [] && NoSpaces(w)
    requires rest != [] && IsSpace(rest[0])
    requires SkipSpaces(rest) == []
    ensures StripRight(w + Collapse(rest)) == JoinWords([w] + Words(rest))
  {
    LeadingRun(rest);
    assert Collapse(rest) == " ";
    StripRightWord(w);
    assert Words(rest) == [];
    assert [w] + [] == [w];
  }

  lemma {:induction false} WordThenWords(w: string, rest: string, t': string)
    requires w != [] && NoSpaces(w)
    requires rest != [] && IsSpace(rest[0])
    requires t' == SkipSpaces(rest) && t' != []
    requires StripRight(Collapse(t')) == JoinWords(Words(t'))
    ensures StripRight(w + Collapse(rest)) == JoinWords([w] + Words(rest))
  {
    var c, ws := Collapse(t'), Words(t');
    LeadingRun(rest);
    FirstWord(t');
    CollapseStart(t');
    JoinStep(w, c, ws);
    Regroup(w, c, Collapse(rest));
  }

  lemma {:induction false} Regroup(w: string, c: string, x: string)
    requires x == " " + c
    ensures w + x == (w + " ") + c
  {
    assert w + (" " + c) == (w + " ") + c;
  }

  /** For text that does not start with whitespace, collapsing and
      stripping the right end gives the words joined by single spaces. */
  lemma {:induction false} CollapseStripIsJoin(t: string)
    requires t == [] || !IsSpace(t[0])
    ensures StripRight(Collapse(t)) == JoinWords(Words(t))
    decreases |t|
  {
    if t != [] {
      FirstWord(t);
      var w := TakeWord(t);
      var rest := t[|w|..];
      if rest == [] {
        assert Words(rest) == [];
        assert Collapse(rest) == [];
        assert Collapse(t) == w;
        assert Words(t) == [w];
        LastWord(w);
      } else {
        var t' := SkipSpaces(rest);
        CollapseStripIsJoin(t');
        WordThenRun(w, rest);
      }
    }
  }

  lemma {:induction false} SkipCollapse(s: string)
    ensures SkipSpaces(Collapse(s)) == Collapse(SkipSpaces(s))
    decreases |s|
  {
    if s != [] && IsSpace(s[0]) {
      var t := SkipSpaces(s[1..]);
      assert SkipSpaces(s) == t;
      assert Collapse(s) == " " + Collapse(t);
      assert SkipSpaces(Collapse(s)) == SkipSpaces(Collapse(t));
      CollapseStart(t);
      if t != [] {
        SkipSpacesOfNonSpace(Collapse(t));
      }
    } else if s != [] {
      CollapseStart(s);
      SkipSpacesOfNonSpace(Collapse(s));
    }
  }

  /** normalize_text agrees with the reference definition: the words of
      the text joined by single spaces. */
  lemma {:induction false} NormalizeIsJoinOfWords(s: string)
    ensures Normalize(s) == JoinWords(Words(s))
  {
    SkipCollapse(s);
    var t := SkipSpaces(s);
    assert Normalize(s) == StripRight(Collapse(t));
    CollapseStripIsJoin(t);
    WordsAfterSkip(s);
  }

  lemma WordsAfterSkip(s: string)
    ensures Words(SkipSpaces(s)) == Words(s)
  {
    var t := SkipSpaces(s);
    if t != [] {
      SkipSpacesOfNonSpace(t);
    }
  }

  lemma {:induction false} WordsOfJoin(ws: seq<string>)
    requires ProperWords(ws)
    ensures Words(JoinWords(ws)) == ws
    decreases |ws|
  {
    if |ws| == 1 {
      WordsCons(ws[0], "");
      assert ws[0] + "" == ws[0];
    } else if |ws| > 1 {
      var tail := JoinWords(ws[1..]);
      JoinStart(ws[1..]);
      WordsOfJoin(ws[1..]);
      JoinCons(ws);
      WordsCons(ws[0], " " + tail);
      SpaceThenWords(tail);
      ConsSplit(ws);
    }
  }

  lemma {:induction false} JoinCons(ws: seq<string>)
    requires |ws| > 1
    ensures JoinWords(ws) == ws[0] + (" " + JoinWords(ws[1..]))
  {
    Regroup(ws[0], JoinWords(ws[1..]), " " + JoinWords(ws[1..]));
  }

  lemma {:induction false} ConsSplit<T>(s: seq<T>)
    requires s != []
    ensures [s[0]] + s[1..] == s
  {
  }

  /** A word followed by nothing or by whitespace is the first word. */
  lemma {:induction false} WordsCons(w: string, r: string)
    requires w != [] && NoSpaces(w)
    requires r == [] || IsSpace(r[0])
    ensures Words(w + r) == [w] + Words(r)
  {
    SkipSpacesOfNonSpace(w + r);
    TakeWordOf(w, r);
    assert (w + r)[|w|..] == r;
  }

  lemma {:induction false} SpaceThenWords(t: string)
    requires t == [] || !IsSpace(t[0])
    ensures Words(" " + t) == Words(t)
  {
    LeadingRun(" " + t);
    assert (" " + t)[1..] == t;
    if t != [] {
      SkipSpacesOfNonSpace(t);
    }
  }

  lemma {:induction false} TakeWordOf(w: string, rest: string)
    requires NoSpaces(w)
    requires rest == [] || IsSpace(rest[0])
    ensures TakeWord(w + rest) == w
    decreases |w|
  {
    if w != [] {
      assert (w + rest)[1..] == w[1..] + rest;
      TakeWordOf(w[1..], rest);
    }
  }

  lemma {:induction false} JoinStart(ws: seq<string>)
    requires ProperWords(ws)
    ensures ws != [] ==> JoinWords(ws) != [] && JoinWords(ws)[0] == ws[0][0]
  {
  }

  /** Normalising twice changes nothing. */
  lemma {:induction false} NormalizeIdempotent(s: string)
    ensures Normalize(Normalize(s)) == Normalize(s)
  {
    NormalizeIsJoinOfWords(s);
    NormalizeIsJoinOfWords(Normalize(s));
    WordsProper(s);
    WordsOfJoin(Words(s));
  }

  /** Normalising keeps the words and nothing else. */
  lemma {:induction false} WordsOfNormalize(s: string)
    ensures Words(Normalize(s)) == Words(s)
  {
    NormalizeIsJoinOfWords(s);
    WordsProper(s);
    WordsOfJoin(Words(s));
  }

  lemma {:induction false} JoinIsNormalized(ws: seq<string>)
    requires ProperWords(ws)
    ensures IsNormalized(JoinWords(ws))
    decreases |ws|
  {
    if |ws| > 1 {
      var w := ws[0];
      var tail := JoinWords(ws[1..]);
      JoinIsNormalized(ws[1..]);
      JoinStart(ws[1..]);
      var j := w + " " + tail;
      assert j == JoinWords(ws);
      forall i | 0 <= i < |j| - 1
        ensures !(IsSpace(j[i]) && IsSpace(j[i + 1]))
      {
        if i >= |w| + 1 {
          assert j[i] == tail[i - |w| - 1] && j[i + 1] == tail[i - |w|];
        }
      }
      forall i | 0 <= i < |j| && IsSpace(j[i])
        ensures j[i] == ' '
      {
        if i > |w| {
          assert j[i] == tail[i - |w| - 1];
        }
      }
      assert j[|j| - 1] == tail[|tail| - 1];
    }
  }

  /** Every cell comes out with the normalised shape; an absent one as
      the empty string. */
  lemma NormalizeTextShape(cell: RawCell)
    ensures cell.Absent? ==> NormalizeText(cell) == ""
    ensures IsNormalized(NormalizeText(cell))
  {
    match cell
    case Absent =>
    case RichText(t) => NormalizedShape(t);
    case Plain(t) => NormalizedShape(t);
    case Other(t) => NormalizedShape(t);
  }

  /** Every normalised text has the normalised shape. */
  lemma {:induction false} NormalizedShape(s: string)
    ensures IsNormalized(Normalize(s))
  {
    NormalizeIsJoinOfWords(s);
    WordsProper(s);
    JoinIsNormalized(Words(s));
  }

  // ---------------------------------------------------------------------
  // Decimal rendering of naturals, as an f-string writes them.
  // ---------------------------------------------------------------------

  function DigitChar(d: nat): char
    requires d < 10
  {
    "0123456789"[d]
  }

  function DigitValue(c: char): nat {
    if '0' <= c <= '9' then (c as int - '0' as int) as nat else 0
  }

  predicate IsDigit(c: char) {
    '0' <= c <= '9'
  }

  /** f"{n}" for a natural number. */
  function DecimalString(n: nat): (r: string)
    ensures r != [] && forall i :: 0 <= i < |r| ==> IsDigit(r[i])
  {
    if n < 10 then [DigitChar(n)] else DecimalString(n / 10) + [DigitChar(n % 10)]
  }

  /** The value of a string of decimal digits (0 for the empty string). */
  function DigitsValue(s: string): nat
    decreases |s|
  {
    if s == [] then 0 else 10 * DigitsValue(s[..|s| - 1]) + DigitValue(s[|s| - 1])
  }

  /** Reading back the decimal rendering gives the number. */
  lemma {:induction false} DigitsValueOfDecimal(n: nat)
    ensures DigitsValue(DecimalString(n)) == n
  {
    var r := DecimalString(n);
    if n >= 10 {
      DigitsValueOfDecimal(n / 10);
      assert r[..|r| - 1] == DecimalString(n / 10);
    }
  }

  lemma {:induction false} DecimalStringInjective(n: nat, m: nat)
    requires DecimalString(n) == DecimalString(m)
    ensures n == m
  {
    DigitsValueOfDecimal(n);
    DigitsValueOfDecimal(m);
  }
}
