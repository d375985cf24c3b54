/** `dedent` of src/index.ts: strip the leading and trailing runs of line
    feeds, find the smallest indentation of the non-blank lines, and cut
    that many spaces from every line that starts with them. */
module Dedent {
  import opened JsString

  /** `s.replace(/^\n+/, '')`. */
  function DropLeadingNewlines(s: string): (r: string)
    ensures |r| <= |s| && r == s[|s| - |r|..]
    ensures forall k :: 0 <= k < |s| - |r| ==> s[k] == '\n'
    ensures r == [] || r[0] != '\n'
  {
    if s != [] && s[0] == '\n' then DropLeadingNewlines(s[1..]) else s
  }

  /** `s.replace(/\n+$/, '')`. */
  function DropTrailingNewlines(s: string): (r: string)
    ensures |r| <= |s| && r == s[..|r|]
    ensures forall k :: |r| <= k < |s| ==> s[k] == '\n'
    ensures r == [] || r[|r| - 1] != '\n'
  {
    if s != [] && s[|s| - 1] == '\n' then DropTrailingNewlines(s[..|s| - 1]) else s
  }

  /** How many line feeds `s` starts with. */
  function LeadingNewlines(s: string): nat {
    |s| - |DropLeadingNewlines(s)|
  }

  /** `s.replace(/^\n+|\n+$/g, '')`: the piece of the input from its
      first character that is not a line feed to its last one, with only
      line feeds around it. */
  function TrimNewlines(s: string): (r: string)
    ensures r == [] || (r[0] != '\n' && r[|r| - 1] != '\n')
    ensures LeadingNewlines(s) + |r| <= |s| && s[LeadingNewlines(s)..LeadingNewlines(s) + |r|] == r
    ensures forall k :: 0 <= k < LeadingNewlines(s) ==> s[k] == '\n'
    ensures forall k :: LeadingNewlines(s) + |r| <= k < |s| ==> s[k] == '\n'
  {
    var t := DropLeadingNewlines(s);
    var r := DropTrailingNewlines(t);
    SliceOfSuffix(s, t, r);
    r
  }

  /** A prefix `r` of a suffix `t` of `s` sits in `s` where the suffix
      starts, and what follows it in `s` is what follows it in `t`. */
  lemma {:induction false} SliceOfSuffix(s: string, t: string, r: string)
    requires |t| <= |s| && t == s[|s| - |t|..]
    requires |r| <= |t| && r == t[..|r|]
    ensures var a := |s| - |t|;
      s[a..a + |r|] == r && forall k :: a + |r| <= k < |s| ==> s[k] == t[k - a]
  {
  }

  /** `l.match(/^\s*\/)[0].length`: the length of the leading white space. */
  function Indent(l: string): (n: nat)
    ensures n <= |l| && AllWhitespace(l[..n])
    ensures n == |l| || !IsWhitespace(l[n])
  {
    |l| - |TrimStart(l)|
  }

  /** The leading white space is the longest white-space prefix. */
  lemma {:induction false} IndentUnique(l: string, n: nat)
    requires n <= |l| && AllWhitespace(l[..n])
    requires n == |l| || !IsWhitespace(l[n])
    ensures Indent(l) == n
  {
    var m := Indent(l);
    if m < n {
      WhitespaceAt(l, n, m);
      assert false;
    } else if m > n {
      WhitespaceAt(l, m, n);
      assert false;
    }
  }

  lemma {:induction false} WhitespaceAt(l: string, n: nat, k: nat)
    requires k < n <= |l| && AllWhitespace(l[..n])
    ensures IsWhitespace(l[k])
  {
    assert l[..n][k] == l[k];
  }

  /** A line of white space only, which `!l.trim()` detects. */
  predicate Blank(l: string) {
    AllWhitespace(l)
  }

  /** One round of the `minIndent` loop. */
  function Fold(acc: Option<nat>, l: string): Option<nat> {
    if Blank(l) then acc
    else match acc
      case None => Some(Indent(l))
      case Some(m) => Some(if Indent(l) < m then Indent(l) else m)
  }

  /** The `minIndent` the loop computes over `lines`, left to right. */
  function MinIndentOf(lines: seq<string>): Option<nat> {
    if lines == [] then None
    else Fold(MinIndentOf(lines[..|lines| - 1]), lines[|lines| - 1])
  }

  /** `minIndent` is `null` exactly when every line is blank. */
  lemma {:induction false} MinIndentNullIffBlank(lines: seq<string>)
    ensures MinIndentOf(lines).None? <==> forall k :: 0 <= k < |lines| ==> Blank(lines[k])
  {
    if lines != [] {
      var init := lines[..|lines| - 1];
      MinIndentNullIffBlank(init);
      assert forall k :: 0 <= k < |init| ==> init[k] == lines[k];
    }
  }

  /** Otherwise `minIndent` is the indentation of a non-blank line, and no
      non-blank line is indented less. */
  lemma {:induction false} MinIndentIsLeast(lines: seq<string>)
    requires MinIndentOf(lines).Some?
    ensures forall k :: 0 <= k < |lines| && !Blank(lines[k]) ==> MinIndentOf(lines).value <= Indent(lines[k])
    ensures exists k :: 0 <= k < |lines| && !Blank(lines[k]) && Indent(lines[k]) == MinIndentOf(lines).value
  {
    MinIndentIsLower(lines);
    MinIndentIsAttained(lines);
  }

  lemma {:induction false} MinIndentIsLower(lines: seq<string>)
    requires MinIndentOf(lines).Some?
    ensures forall k :: 0 <= k < |lines| && !Blank(lines[k]) ==> MinIndentOf(lines).value <= Indent(lines[k])
  {
    var n := |lines| - 1;
    var init := lines[..n];
    var m := MinIndentOf(lines).value;
    if MinIndentOf(init).None? {
      MinIndentNullIffBlank(init);
    } else {
      MinIndentIsLower(init);
    }
    forall k | 0 <= k < |lines| && !Blank(lines[k])
      ensures m <= Indent(lines[k])
    {
      if k < n {
        assert lines[k] == init[k];
      }
    }
  }

  lemma {:induction false} MinIndentIsAttained(lines: seq<string>)
    requires MinIndentOf(lines).Some?
    ensures exists k :: 0 <= k < |lines| && !Blank(lines[k]) && Indent(lines[k]) == MinIndentOf(lines).value
  {
    var n := |lines| - 1;
    var init, last := lines[..n], lines[n];
    var m := MinIndentOf(lines).value;
    if MinIndentOf(init).Some? {
      MinIndentIsAttained(init);
      var m0 := MinIndentOf(init).value;
      var k0 :| 0 <= k0 < n && !Blank(init[k0]) && Indent(init[k0]) == m0;
      if Blank(last) || m0 <= Indent(last) {
        assert lines[k0] == init[k0];
        return;
      }
    }
    assert !Blank(lines[n]) && Indent(lines[n]) == m;
  }

  /** The loop of `dedent` that computes `minIndent`. */
  method MinIndent(lines: seq<string>) returns (minIndent: Option<nat>)
    ensures minIndent == MinIndentOf(lines)
  {
    minIndent := None;
    for i := 0 to |lines|
      invariant minIndent == MinIndentOf(lines[..i])
    {
      var l := lines[i];
      assert lines[..i + 1][..i] == lines[..i];
      if Trim(l) == [] {
        continue;
      }
      var indent := Indent(l);
      minIndent := if minIndent == None then Some(indent)
        else Some(if indent < minIndent.value then indent else minIndent.value);
    }
    assert lines[..|lines|] == lines;
  }

  /** `l.startsWith(' '.repeat(m)) ? l.slice(m) : l`. */
  function DedentLine(l: string, m: nat): string {
    if StartsWith(l, Repeat(" ", m)) then SliceFrom(l, m) else l
  }

  function DedentLines(lines: seq<string>, m: nat): (r: seq<string>)
    ensures |r| == |lines|
    ensures forall k :: 0 <= k < |lines| ==> r[k] == DedentLine(lines[k], m)
  {
    seq(|lines|, k requires 0 <= k < |lines| => DedentLine(lines[k], m))
  }

  /** The text `dedent` works on: the input, without its outer line
      feeds when `trim` is set. */
  function Prepared(input: string, trim: bool): string {
    if trim then TrimNewlines(input) else input
  }

  /** `str.split(/\n/)`. */
  function Lines(input: string, trim: bool): seq<string> {
    SplitOnChar(Prepared(input, trim), '\n')
  }

  /** What `dedent(input, { trim })` returns. */
  function DedentOf(input: string, trim: bool): string {
    var minIndent := MinIndentOf(Lines(input, trim));
    if minIndent == None || minIndent.value == 0 then Prepared(input, trim)
    else Join(DedentLines(Lines(input, trim), minIndent.value), "\n")
  }

  /** `dedent(input, { trim })`. */
  method Dedent(input: string, trim: bool) returns (r: string)
    ensures r == DedentOf(input, trim)
  {
    var str := input;
    if trim {
      str := TrimNewlines(str);
    }
    var lines := SplitOnChar(str, '\n');
    var minIndent := MinIndent(lines);
    if minIndent == None || minIndent.value == 0 {
      return str;
    }
    r := Join(DedentLines(lines, minIndent.value), "\n");
  }

  // ---------------------------------------------------------------------
  // Properties

  /** Without common indentation (every line blank, or a non-blank line
      not indented) `dedent` returns the prepared text: with `trim: false`
      the input itself. */
  lemma {:induction false} DedentWithoutIndent(input: string, trim: bool)
    requires (forall k :: 0 <= k < |Lines(input, trim)| ==> Blank(Lines(input, trim)[k])) ||
      (exists k :: 0 <= k < |Lines(input, trim)| && !Blank(Lines(input, trim)[k]) && Indent(Lines(input, trim)[k]) == 0)
    ensures DedentOf(input, trim) == Prepared(input, trim)
  {
    var lines := Lines(input, trim);
    MinIndentNullIffBlank(lines);
    if MinIndentOf(lines).Some? {
      MinIndentIsLeast(lines);
    }
  }

  /** Splitting the result on line feeds gives back the lines of the
      prepared text, each with `minIndent` spaces cut where it starts with
      them: `dedent` changes nothing but leading spaces, line by line. */
  lemma {:induction false} DedentLinewise(input: string, trim: bool)
    requires MinIndentOf(Lines(input, trim)).Some? && MinIndentOf(Lines(input, trim)).value > 0
    ensures SplitOnChar(DedentOf(input, trim), '\n') ==
      DedentLines(Lines(input, trim), MinIndentOf(Lines(input, trim)).value)
  {
    var lines := Lines(input, trim);
    var out := DedentLines(lines, MinIndentOf(lines).value);
    SplitOnCharParts(Prepared(input, trim), '\n');
    forall k | 0 <= k < |out|
      ensures '\n' !in out[k]
    {
      assert forall j :: 0 <= j < |lines[k]| ==> lines[k][j] != '\n';
    }
    SplitOnCharOfJoin(out, '\n');
  }

  /** Blank lines stay blank. */
  lemma {:induction false} DedentLineKeepsBlank(l: string, m: nat)
    requires Blank(l)
    ensures Blank(DedentLine(l, m))
  {
    if StartsWith(l, Repeat(" ", m)) {
      assert forall j :: 0 <= j < |l| - m ==> l[m..][j] == l[m + j];
    }
  }

  /** A non-blank line that starts with `m` spaces, `m` at most its
      indentation, loses exactly those and stays non-blank. */
  lemma {:induction false} DedentLineCutsSpaces(l: string, m: nat)
    requires !Blank(l) && m <= Indent(l)
    requires forall j :: 0 <= j < m ==> l[j] == ' '
    ensures DedentLine(l, m) == l[m..] && !Blank(l[m..]) && Indent(l[m..]) + m == Indent(l)
  {
    var n := Indent(l);
    assert n < |l| && !IsWhitespace(l[n]);
    assert l[..m] == Repeat(" ", m);
    var rest := l[m..];
    assert rest[n - m] == l[n];
    assert rest[..n - m] == l[..n][m..];
    IndentUnique(rest, n - m);
  }

  /** Cutting `m` spaces from every non-blank line, `m` at most the
      indentation of each, lowers `minIndent` by `m`. */
  lemma {:induction false} MinIndentShift(lines: seq<string>, m: nat)
    requires forall k :: 0 <= k < |lines| && !Blank(lines[k]) ==>
      m <= Indent(lines[k]) && forall j :: 0 <= j < m ==> lines[k][j] == ' '
    ensures MinIndentOf(lines).None? ==> MinIndentOf(DedentLines(lines, m)).None?
    ensures MinIndentOf(lines).Some? ==>
      MinIndentOf(DedentLines(lines, m)).Some? &&
      MinIndentOf(DedentLines(lines, m)).value + m == MinIndentOf(lines).value
  {
    if lines != [] {
      var n := |lines| - 1;
      var init, out := lines[..n], DedentLines(lines, m);
      assert out[..n] == DedentLines(init, m);
      assert forall k :: 0 <= k < n ==> init[k] == lines[k];
      MinIndentShift(init, m);
      FoldShift(MinIndentOf(init), MinIndentOf(out[..n]), lines[n], m);
    }
  }

  /** One round of the loop keeps the shift by `m`. */
  lemma {:induction false} FoldShift(acc: Option<nat>, acc': Option<nat>, l: string, m: nat)
    requires acc.None? ==> acc'.None?
    requires acc.Some? ==> acc'.Some? && acc'.value + m == acc.value
    requires !Blank(l) ==> m <= Indent(l) && forall j :: 0 <= j < m ==> l[j] == ' '
    ensures Fold(acc, l).None? ==> Fold(acc', DedentLine(l, m)).None?
    ensures Fold(acc, l).Some? ==>
      Fold(acc', DedentLine(l, m)).Some? && Fold(acc', DedentLine(l, m)).value + m == Fold(acc, l).value
  {
    if Blank(l) {
      DedentLineKeepsBlank(l, m);
    } else {
      DedentLineCutsSpaces(l, m);
    }
  }

  /** Text whose only white space is spaces and line feeds. */
  predicate SpacesOnly(s: string) {
    forall k :: 0 <= k < |s| && IsWhitespace(s[k]) ==> s[k] == ' ' || s[k] == '\n'
  }

  /** In such text every line is indented with spaces. */
  lemma {:induction false} SpaceIndentedLines(input: string, trim: bool)
    requires SpacesOnly(input)
    ensures forall k, j :: 0 <= k < |Lines(input, trim)| && 0 <= j < Indent(Lines(input, trim)[k]) ==>
      Lines(input, trim)[k][j] == ' '
  {
    var str := Prepared(input, trim);
    if trim {
      var a := LeadingNewlines(input);
      assert forall i :: 0 <= i < |str| ==> str[i] == input[a + i];
    }
    assert SpacesOnly(str);
    var lines := Lines(input, trim);
    SplitOnCharParts(str, '\n');
    forall k, j | 0 <= k < |lines| && 0 <= j < Indent(lines[k])
      ensures lines[k][j] == ' '
    {
      assert IsWhitespace(lines[k][..Indent(lines[k])][j]);
      assert lines[k][j] in str;
    }
  }

  /** When all indentation is made of spaces, `dedent` leaves nothing to
      remove: dedenting its result again (without trimming) changes
      nothing. */
  lemma {:induction false} DedentIdempotent(input: string, trim: bool)
    requires SpacesOnly(input)
    ensures DedentOf(DedentOf(input, trim), false) == DedentOf(input, trim)
  {
    var lines := Lines(input, trim);
    var d := DedentOf(input, trim);
    if MinIndentOf(lines).Some? && MinIndentOf(lines).value > 0 {
      var m := MinIndentOf(lines).value;
      DedentLinewise(input, trim);
      assert Lines(d, false) == DedentLines(lines, m);
      SpaceIndentedLines(input, trim);
      MinIndentIsLeast(lines);
      MinIndentShift(lines, m);
    }
  }
}
