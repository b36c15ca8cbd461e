/** The Theory tab's line-by-line rendering (App.tsx): the theory text is split at
    every '\n' and each line is classified by its leading marker. */
module TheoryText {

  /** How one line is rendered: a heading of level 3, 2 or 1, a list item, a line
      break, or a paragraph. Headings and list items carry the line without its marker;
      a paragraph carries the whole line. */
  datatype Line = H3(text: string) | H2(text: string) | H1(text: string) | ListItem(text: string) | Blank | Para(text: string)

  /** `s.startsWith(p)`. */
  predicate StartsWith(s: string, p: string)
  {
    |p| <= |s| && s[..|p|] == p
  }

  predicate OccursAt(s: string, p: string, j: nat)
  {
    j + |p| <= |s| && s[j..j + |p|] == p
  }

  /** `s.indexOf(p, k)`: the first position at or after k where p occurs, or -1. */
  function IndexOfFrom(s: string, p: string, k: nat): (r: int)
    requires k <= |s|
    ensures r == -1 || (k <= r && OccursAt(s, p, r))
    ensures r != -1 ==> forall j :: k <= j < r ==> !OccursAt(s, p, j)
    ensures r == -1 ==> forall j :: k <= j ==> !OccursAt(s, p, j)
    decreases |s| - k
  {
    if k + |p| > |s| then -1
    else if s[k..k + |p|] == p then k
    else IndexOfFrom(s, p, k + 1)
  }

  /** `s.replace(p, r)` with a string pattern: only the first occurrence is replaced;
      without an occurrence the string is returned unchanged. */
  function ReplaceFirst(s: string, p: string, r: string): (res: string)
    ensures (forall j: nat :: !OccursAt(s, p, j)) ==> res == s
    ensures (exists j: nat :: OccursAt(s, p, j)) ==> |res| == |s| - |p| + |r|
    ensures forall j: nat :: OccursAt(s, p, j) && (forall i: nat :: i < j ==> !OccursAt(s, p, i)) ==>
              res == s[..j] + r + s[j + |p|..]
    ensures StartsWith(s, p) ==> res == r + s[|p|..]
  {
    var k := IndexOfFrom(s, p, 0);
    if k == -1 then s else s[..k] + r + s[k + |p|..]
  }

  /** The characters `String.prototype.trim` removes: ECMAScript WhiteSpace
      (tab, vertical tab, form feed, space, no-break space, byte order mark and the
      other space separators) and LineTerminator. */
  predicate IsJsWhitespace(c: char)
  {
    || c == '\t' || c == '\U{000B}' || c == '\U{000C}' || c == ' ' || c == '\U{00A0}' || c == '\U{FEFF}'
    || c == '\U{1680}' || ('\U{2000}' <= c <= '\U{200A}') || c == '\U{202F}' || c == '\U{205F}' || c == '\U{3000}'
    || c == '\n' || c == '\r' || c == '\U{2028}' || c == '\U{2029}'
  }

  predicate AllWhitespace(s: string)
  {
    forall i :: 0 <= i < |s| ==> IsJsWhitespace(s[i])
  }

  lemma AllWhitespaceConcat(a: string, b: string)
    ensures AllWhitespace(a + b) <==> AllWhitespace(a) && AllWhitespace(b)
  {
    if AllWhitespace(a + b) {
      forall i | 0 <= i < |a| ensures IsJsWhitespace(a[i]) {
        assert a[i] == (a + b)[i];
      }
      forall i | 0 <= i < |b| ensures IsJsWhitespace(b[i]) {
        assert b[i] == (a + b)[|a| + i];
      }
    }
  }

  /** A whitespace character in front changes nothing about being all whitespace. */
  lemma AllWhitespaceCons(c: char, t: string)
    requires IsJsWhitespace(c)
    ensures AllWhitespace([c] + t) <==> AllWhitespace(t)
  {
    AllWhitespaceConcat([c], t);
  }

  /** The same for a whitespace character at the end. */
  lemma AllWhitespaceSnoc(t: string, c: char)
    requires IsJsWhitespace(c)
    ensures AllWhitespace(t + [c]) <==> AllWhitespace(t)
  {
    AllWhitespaceConcat(t, [c]);
  }

  function TrimStart(s: string): (r: string)
    ensures |r| <= |s| && r == s[|s| - |r|..]
    ensures r == [] || !IsJsWhitespace(r[0])
    ensures AllWhitespace(s[..|s| - |r|])
    ensures r == [] <==> AllWhitespace(s)
  {
    if s != [] && IsJsWhitespace(s[0]) then
      var r := TrimStart(s[1..]);
      assert s[..|s| - |r|] == [s[0]] + s[1..][..|s| - 1 - |r|];
      AllWhitespaceCons(s[0], s[1..][..|s| - 1 - |r|]);
      assert s == [s[0]] + s[1..];
      AllWhitespaceCons(s[0], s[1..]);
      r
    else s
  }

  function TrimEnd(s: string): (r: string)
    ensures |r| <= |s| && r == s[..|r|]
    ensures r == [] || !IsJsWhitespace(r[|r| - 1])
    ensures AllWhitespace(s[|r|..])
    ensures r == [] <==> AllWhitespace(s)
  {
    if s != [] && IsJsWhitespace(s[|s| - 1]) then
      var r := TrimEnd(s[..|s| - 1]);
      assert s[|r|..] == s[..|s| - 1][|r|..] + [s[|s| - 1]];
      AllWhitespaceSnoc(s[..|s| - 1][|r|..], s[|s| - 1]);
      assert s == s[..|s| - 1] + [s[|s| - 1]];
      AllWhitespaceSnoc(s[..|s| - 1], s[|s| - 1]);
      r
    else s
  }

  /** `s.trim()`; it is empty exactly for strings made of whitespace only. */
  function Trim(s: string): (r: string)
    ensures r == "" <==> AllWhitespace(s)
  {
    TrimEnd(TrimStart(s))
  }

  /** The test sequence of the Theory tab: "### ", "## ", "# ", "- ", blank, paragraph. */
  function Classify(line: string): Line
  {
    if StartsWith(line, "### ") then H3(ReplaceFirst(line, "### ", ""))
    else if StartsWith(line, "## ") then H2(ReplaceFirst(line, "## ", ""))
    else if StartsWith(line, "# ") then H1(ReplaceFirst(line, "# ", ""))
    else if StartsWith(line, "- ") then ListItem(ReplaceFirst(line, "- ", ""))
    else if Trim(line) == "" then Blank
    else Para(line)
  }

  /** The marker a rendered non-blank line was recognised by ("" for a paragraph). */
  function Marker(l: Line): string
  {
    match l
    case H3(_) => "### "
    case H2(_) => "## "
    case H1(_) => "# "
    case ListItem(_) => "- "
    case Blank => ""
    case Para(_) => ""
  }

  /** A line that starts with a marker begins with '#' or '-', which is not whitespace. */
  lemma MarkedLineIsNotBlank(line: string, marker: string)
    requires marker in {"### ", "## ", "# ", "- "}
    requires StartsWith(line, marker)
    ensures !AllWhitespace(line)
  {
    assert line[0] == marker[0];
  }

  /** The four markers exclude one another. */
  lemma MarkersExclusive(line: string)
    ensures StartsWith(line, "### ") ==> !StartsWith(line, "## ") && !StartsWith(line, "# ") && !StartsWith(line, "- ")
    ensures StartsWith(line, "## ") ==> !StartsWith(line, "# ") && !StartsWith(line, "- ")
    ensures StartsWith(line, "# ") ==> !StartsWith(line, "- ")
  {
    if StartsWith(line, "### ") {
      assert line[0] == '#' && line[1] == '#' && line[2] == '#';
    }
    if StartsWith(line, "## ") {
      assert line[0] == '#' && line[1] == '#' && line[2] == ' ';
    }
    if StartsWith(line, "# ") {
      assert line[0] == '#' && line[1] == ' ';
    }
  }

  /** Each kind is decided by its own prefix alone: the order of the tests only
      places blank and paragraph last. In particular a "### " line is never a
      level-2 heading. */
  lemma ClassifyByPrefix(line: string)
    ensures Classify(line).H3? <==> StartsWith(line, "### ")
    ensures Classify(line).H2? <==> StartsWith(line, "## ")
    ensures Classify(line).H1? <==> StartsWith(line, "# ")
    ensures Classify(line).ListItem? <==> StartsWith(line, "- ")
    ensures Classify(line).Blank? <==> AllWhitespace(line)
    ensures Classify(line).Para? <==>
              !StartsWith(line, "### ") && !StartsWith(line, "## ") && !StartsWith(line, "# ")
              && !StartsWith(line, "- ") && !AllWhitespace(line)
  {
    MarkersExclusive(line);
    if StartsWith(line, "### ") {
      MarkedLineIsNotBlank(line, "### ");
    } else if StartsWith(line, "## ") {
      MarkedLineIsNotBlank(line, "## ");
    } else if StartsWith(line, "# ") {
      MarkedLineIsNotBlank(line, "# ");
    } else if StartsWith(line, "- ") {
      MarkedLineIsNotBlank(line, "- ");
    }
  }

  /** A line that starts with a marker is that marker followed by what `replace`
      leaves of it. */
  lemma MarkerRoundTrip(line: string, marker: string)
    requires StartsWith(line, marker)
    ensures marker + ReplaceFirst(line, marker, "") == line
  {
    assert line == line[..|marker|] + line[|marker|..];
  }

  /** Putting the marker back in front of the rendered text gives the line again:
      headings and list items lose exactly their marker, paragraphs nothing. */
  lemma {:induction false} ClassifyRoundTrip(line: string)
    ensures !Classify(line).Blank? ==> Marker(Classify(line)) + Classify(line).text == line
  {
    if StartsWith(line, "### ") {
      MarkerRoundTrip(line, "### ");
      assert Classify(line) == H3(ReplaceFirst(line, "### ", ""));
    } else if StartsWith(line, "## ") {
      MarkerRoundTrip(line, "## ");
      assert Classify(line) == H2(ReplaceFirst(line, "## ", ""));
    } else if StartsWith(line, "# ") {
      MarkerRoundTrip(line, "# ");
      assert Classify(line) == H1(ReplaceFirst(line, "# ", ""));
    } else if StartsWith(line, "- ") {
      MarkerRoundTrip(line, "- ");
      assert Classify(line) == ListItem(ReplaceFirst(line, "- ", ""));
    }
  }

  /** Lines joined back with '\n' (the inverse of SplitLines). */
  function Join(lines: seq<string>): string
    requires |lines| >= 1
  {
    if |lines| == 1 then lines[0] else lines[0] + "\n" + Join(lines[1..])
  }

  /** `s.split('\n')`: a string with k newlines gives k + 1 lines, none holding a
      newline, and joining them gives the string back. */
  function SplitLines(s: string): (lines: seq<string>)
    ensures |lines| >= 1
    ensures forall i :: 0 <= i < |lines| ==> '\n' !in lines[i]
    ensures Join(lines) == s
  {
    if s == [] then [""]
    else
      var rest := SplitLines(s[1..]);
      if s[0] == '\n' then
        assert s == "\n" + s[1..];
        [""] + rest
      else
        var lines := [[s[0]] + rest[0]] + rest[1..];
        assert lines[1..] == rest[1..];
        assert '\n' !in [s[0]] + rest[0];
        assert s == [s[0]] + s[1..];
        lines
  }

  lemma {:induction false} SplitWithoutNewline(s: string)
    requires '\n' !in s
    ensures SplitLines(s) == [s]
  {
    if s != [] {
      assert '\n' !in s[1..];
      SplitWithoutNewline(s[1..]);
    }
  }

  lemma {:induction false} SplitAfterLine(a: string, rest: string)
    requires '\n' !in a
    ensures SplitLines(a + "\n" + rest) == [a] + SplitLines(rest)
  {
    if a == [] {
      assert a + "\n" + rest == "\n" + rest;
      assert ("\n" + rest)[1..] == rest;
    } else {
      assert '\n' !in a[1..];
      SplitAfterLine(a[1..], rest);
      assert (a + "\n" + rest)[1..] == a[1..] + "\n" + rest;
      assert [a[0]] + a[1..] == a;
    }
  }

  /** SplitLines is the only way to cut s into newline-free lines that join back to s. */
  lemma {:induction false} SplitUnique(s: string, lines: seq<string>)
    requires |lines| >= 1
    requires forall i :: 0 <= i < |lines| ==> '\n' !in lines[i]
    requires Join(lines) == s
    ensures SplitLines(s) == lines
    decreases |lines|
  {
    if |lines| == 1 {
      SplitWithoutNewline(s);
    } else {
      assert '\n' !in lines[0];
      SplitUnique(Join(lines[1..]), lines[1..]);
      SplitAfterLine(lines[0], Join(lines[1..]));
    }
  }

  /** What the Theory tab renders for a theory text: one entry per line. */
  function Render(theory: string): (rendered: seq<Line>)
    ensures |rendered| == |SplitLines(theory)|
    ensures forall i :: 0 <= i < |rendered| ==> rendered[i] == Classify(SplitLines(theory)[i])
  {
    var lines := SplitLines(theory);
    seq(|lines|, i requires 0 <= i < |lines| => Classify(lines[i]))
  }
}
