/** The word segmenter `splitWordsCore` of src/index.ts and the functions
    built on it: `words`, `toCamelCase`, `toPascalCase`, `toSnakeCase`,
    `toKebabCase`, `toConstantCase` and `initials`. */
module Words {
  import opened JsString

  /** The Unicode tables the segmenter and the case converters consult,
      supplied by the platform: membership in `\p{L}` or `\p{N}`, the case
      maps of `toLowerCase`/`toUpperCase` (taken per character), and
      `stripDiacritics` (NFD normalization followed by removal of combining
      marks). */
  datatype Unicode = Unicode(
    isLetterOrDigit: char -> bool,
    toLower: char -> char,
    toUpper: char -> char,
    stripDiacritics: string -> string)

  /** The one fact of the Unicode tables the proofs rely on: no letter and
      no digit is white space. */
  ghost predicate WellFormed(u: Unicode) {
    forall c :: IsWhitespace(c) ==> !u.isLetterOrDigit(c)
  }

  predicate IsApostrophe(c: char) {
    c == '\'' || c == '\U{2019}'
  }

  /** The two sides of the camelCase rule `([a-z0-9])([A-Z])`. */
  predicate IsLowerOrDigit(c: char) {
    'a' <= c <= 'z' || '0' <= c <= '9'
  }

  predicate IsUpper(c: char) {
    'A' <= c <= 'Z'
  }

  /** No lower-case letter or digit is directly followed by an upper-case
      letter. */
  predicate NoCamelBoundary(s: string) {
    forall k :: 0 < k < |s| ==> !(IsLowerOrDigit(s[k - 1]) && IsUpper(s[k]))
  }

  /** The characters a word may be made of: letters and digits, apostrophes
      excepted. */
  predicate IsWordChar(u: Unicode, c: char) {
    u.isLetterOrDigit(c) && !IsApostrophe(c)
  }

  /** The word characters of `s`, in order. */
  function WordChars(u: Unicode, s: string): string {
    if s == [] then []
    else (if IsWordChar(u, s[0]) then [s[0]] else []) + WordChars(u, s[1..])
  }

  /** Step 1, `replace(/[’']/g, '')`. */
  function RemoveApostrophes(s: string): (r: string)
    ensures NoApostrophe(r)
  {
    if s == [] then []
    else (if IsApostrophe(s[0]) then [] else [s[0]]) + RemoveApostrophes(s[1..])
  }

  /** Step 2, `replace(/([a-z0-9])([A-Z])/g, '$1 $2')`: a left-to-right scan
      that, on a match, emits both characters with a space between and
      resumes after the match. */
  function SpaceCamelBoundaries(s: string): (r: string)
    ensures |s| > 0 ==> |r| > 0 && r[0] == s[0]
  {
    if |s| < 2 then s
    else if IsLowerOrDigit(s[0]) && IsUpper(s[1]) then [s[0], ' ', s[1]] + SpaceCamelBoundaries(s[2..])
    else [s[0]] + SpaceCamelBoundaries(s[1..])
  }

  /** After step 2 no boundary is left, and only a space has been added. */
  lemma {:induction false} SpaceCamelBoundariesShape(s: string)
    ensures NoCamelBoundary(SpaceCamelBoundaries(s))
    ensures forall c :: c in SpaceCamelBoundaries(s) ==> c in s || c == ' '
    decreases |s|
  {
    if |s| >= 2 {
      if IsLowerOrDigit(s[0]) && IsUpper(s[1]) {
        SpaceCamelBoundariesShape(s[2..]);
        var rest := SpaceCamelBoundaries(s[2..]);
        NoCamelBoundaryCons(s[1], rest);
        NoCamelBoundaryCons(' ', [s[1]] + rest);
        NoCamelBoundaryCons(s[0], [' ', s[1]] + rest);
        assert [s[0], ' ', s[1]] + rest == [s[0]] + ([' '] + ([s[1]] + rest));
        assert forall c :: c in s[2..] ==> c in s;
      } else {
        SpaceCamelBoundariesShape(s[1..]);
        NoCamelBoundaryCons(s[0], SpaceCamelBoundaries(s[1..]));
        assert forall c :: c in s[1..] ==> c in s;
      }
    }
  }

  /** What is left of `s` after its leading run of characters that are
      neither letters nor digits. */
  function SkipSeparators(u: Unicode, s: string): (r: string)
    ensures |r| <= |s|
    ensures r == [] || u.isLetterOrDigit(r[0])
    ensures forall k :: 0 <= k < |s| - |r| ==> !u.isLetterOrDigit(s[k])
  {
    if s != [] && !u.isLetterOrDigit(s[0]) then
      var r := SkipSeparators(u, s[1..]);
      assert forall k :: 0 <= k < |s| - 1 ==> s[1..][k] == s[k + 1];
      r
    else s
  }

  /** What `SkipSeparators` leaves is a suffix of its argument. */
  lemma {:induction false} SkipIsSuffix(u: Unicode, s: string)
    ensures SkipSeparators(u, s) == s[|s| - |SkipSeparators(u, s)|..]
    decreases |s|
  {
    if s != [] && !u.isLetterOrDigit(s[0]) {
      SkipIsSuffix(u, s[1..]);
    }
  }

  /** Step 3, `replace(/[^\p{L}\p{N}]+/gu, ' ')`: every maximal run of
      characters that are neither letters nor digits becomes one space. */
  function CollapseSeparators(u: Unicode, s: string): (r: string)
    ensures s != [] ==> r != [] && r[0] == (if u.isLetterOrDigit(s[0]) then s[0] else ' ')
    decreases |s|, 1
  {
    if s == [] then []
    else if u.isLetterOrDigit(s[0]) then [s[0]] + CollapseSeparators(u, s[1..])
    else [' '] + CollapseAfterSeparator(u, s[1..])
  }

  /** What follows the space that replaces a separator run: the separators
      left in the run are dropped. */
  function CollapseAfterSeparator(u: Unicode, s: string): string
    decreases |s|, 2
  {
    CollapseSeparators(u, SkipSeparators(u, s))
  }

  /** What is left after step 3: spaces, and letters and digits of `s`. */
  lemma {:induction false} CollapseChars(u: Unicode, s: string)
    ensures forall c :: c in CollapseSeparators(u, s) ==> c == ' ' || (c in s && u.isLetterOrDigit(c))
    decreases |s|
  {
    if s != [] {
      if u.isLetterOrDigit(s[0]) {
        CollapseChars(u, s[1..]);
        assert forall c :: c in s[1..] ==> c in s;
      } else {
        var rest := SkipSeparators(u, s[1..]);
        CollapseChars(u, rest);
        SkipIsSuffix(u, s[1..]);
        assert forall c :: c in rest ==> c in s;
      }
    }
  }

  /** `splitWordsCore(input)`: the pipeline of steps 1 to 3, then `trim()`,
      then `[]` for an empty result and `split(/\s+/)` otherwise. */
  function SplitWordsCore(u: Unicode, s: string): seq<string> {
    var spaced := Trim(CollapseSeparators(u, SpaceCamelBoundaries(RemoveApostrophes(s))));
    if spaced == [] then [] else SplitWhitespace(spaced)
  }

  /** `words(input)`, which is `splitWordsCore(input)`. */
  function Words(u: Unicode, s: string): seq<string> {
    SplitWordsCore(u, s)
  }

  // ---------------------------------------------------------------------
  // What every word looks like

  lemma {:induction false} NoCamelBoundarySlice(s: string, i: nat, j: nat)
    requires NoCamelBoundary(s) && i <= j <= |s|
    ensures NoCamelBoundary(s[i..j])
  {
    forall k | 0 < k < j - i
      ensures !(IsLowerOrDigit(s[i..j][k - 1]) && IsUpper(s[i..j][k]))
    {
      assert s[i..j][k - 1] == s[i + k - 1] && s[i..j][k] == s[i + k];
    }
  }

  /** `trim()` returns a contiguous piece of its argument. */
  lemma {:induction false} TrimIsSlice(s: string) returns (i: nat, j: nat)
    ensures i <= j <= |s| && Trim(s) == s[i..j]
    ensures AllWhitespace(s[..i]) && AllWhitespace(s[j..])
  {
    var e := TrimEnd(s);
    var t := TrimStart(e);
    j := |e|;
    i := |e| - |t|;
    assert s[..i] == e[..i];
    assert e[i..] == s[i..j];
  }

  lemma {:induction false} NoCamelBoundaryCons(c: char, t: string)
    requires NoCamelBoundary(t)
    requires t == [] || !(IsLowerOrDigit(c) && IsUpper(t[0]))
    ensures NoCamelBoundary([c] + t)
  {
    forall k | 1 < k < |t| + 1
      ensures !(IsLowerOrDigit(([c] + t)[k - 1]) && IsUpper(([c] + t)[k]))
    {
      assert ([c] + t)[k - 1] == t[k - 2] && ([c] + t)[k] == t[k - 1];
    }
  }

  /** Collapsing separators keeps every adjacent pair of letters or digits
      it emits adjacent in its input, so it adds no camelCase boundary. */
  lemma {:induction false} CollapseKeepsNoCamelBoundary(u: Unicode, s: string)
    requires NoCamelBoundary(s)
    ensures NoCamelBoundary(CollapseSeparators(u, s))
    decreases |s|
  {
    if s != [] {
      if u.isLetterOrDigit(s[0]) {
        NoCamelBoundarySlice(s, 1, |s|);
        CollapseKeepsNoCamelBoundary(u, s[1..]);
        NoCamelBoundaryCons(s[0], CollapseSeparators(u, s[1..]));
      } else {
        var rest := SkipSeparators(u, s[1..]);
        SkipIsSuffix(u, s[1..]);
        NoCamelBoundarySlice(s, |s| - |rest|, |s|);
        CollapseKeepsNoCamelBoundary(u, rest);
        NoCamelBoundaryCons(' ', CollapseSeparators(u, rest));
      }
    }
  }

  /** Every field of a white-space split holds only characters of the
      input. */
  lemma {:induction false} SplitWhitespaceFieldChars(t: string)
    ensures forall w, c :: w in SplitWhitespace(t) && c in w ==> c in t
    decreases |t|
  {
    if RunLength(t, false) == |t| {
      assert SplitWhitespace(t) == [t];
    } else {
      var field, gap, rest := SplitWhitespaceStep(t);
      SplitWhitespaceFieldChars(rest);
      assert forall c :: c in field ==> c in t;
      assert forall c :: c in rest ==> c in t;
    }
  }

  /** Every field of a white-space split is a piece of the input, so it
      inherits the absence of camelCase boundaries. */
  lemma {:induction false} SplitWhitespaceFieldsNoCamel(t: string)
    requires NoCamelBoundary(t)
    ensures forall w :: w in SplitWhitespace(t) ==> NoCamelBoundary(w)
    decreases |t|
  {
    if RunLength(t, false) == |t| {
      assert SplitWhitespace(t) == [t];
    } else {
      var field, gap, rest := SplitWhitespaceStep(t);
      assert field == t[..|field|] && rest == t[|field| + |gap|..];
      NoCamelBoundarySlice(t, 0, |field|);
      NoCamelBoundarySlice(t, |field| + |gap|, |t|);
      SplitWhitespaceFieldsNoCamel(rest);
    }
  }

  /** What every word of `splitWordsCore` is: non-empty, made of letters and
      digits only (apostrophes are gone), and free of camelCase boundaries,
      since the boundaries were split apart. */
  lemma {:induction false} SplitWordsCoreWordShape(u: Unicode, s: string)
    ensures forall w :: w in SplitWordsCore(u, s) ==> w != []
    ensures forall w, c :: w in SplitWordsCore(u, s) && c in w ==> IsWordChar(u, c)
    ensures forall w :: w in SplitWordsCore(u, s) ==> NoCamelBoundary(w)
  {
    var spaced := Trim(CollapseSeparators(u, SpaceCamelBoundaries(RemoveApostrophes(s))));
    if spaced == [] {
      assert SplitWordsCore(u, s) == [];
    } else {
      assert SplitWordsCore(u, s) == SplitWhitespace(spaced);
      SpacedShape(u, s);
      FieldsAreWords(u, spaced);
    }
  }

  /** After steps 1 to 3 and `trim()`: no camel boundary, and nothing but
      spaces and word characters. */
  lemma SpacedShape(u: Unicode, s: string)
    ensures var spaced := Trim(CollapseSeparators(u, SpaceCamelBoundaries(RemoveApostrophes(s))));
      NoCamelBoundary(spaced) && forall c :: c in spaced ==> c == ' ' || IsWordChar(u, c)
  {
    var r2 := SpaceCamelBoundaries(RemoveApostrophes(s));
    var r3 := CollapseSeparators(u, r2);
    var i, j := TrimIsSlice(r3);
    assert NoCamelBoundary(Trim(r3)) by {
      SpaceCamelBoundariesShape(RemoveApostrophes(s));
      CollapseKeepsNoCamelBoundary(u, r2);
      NoCamelBoundarySlice(r3, i, j);
    }
    CollapsedChars(u, s);
    InSlice(r3, i, j);
  }

  lemma {:induction false} InSlice<T>(s: seq<T>, i: nat, j: nat)
    requires i <= j <= |s|
    ensures forall x :: x in s[i..j] ==> x in s
  {
    forall x | x in s[i..j]
      ensures x in s
    {
      var k :| 0 <= k < j - i && s[i..j][k] == x;
      assert s[i + k] == x;
    }
  }

  /** After steps 1 to 3 only spaces and word characters are left. */
  lemma {:induction false} CollapsedChars(u: Unicode, s: string)
    ensures forall c :: c in CollapseSeparators(u, SpaceCamelBoundaries(RemoveApostrophes(s))) ==>
      c == ' ' || IsWordChar(u, c)
  {
    var r1 := RemoveApostrophes(s);
    CollapseChars(u, SpaceCamelBoundaries(r1));
    SpaceCamelBoundariesShape(r1);
    assert forall c :: c in r1 ==> !IsApostrophe(c);
  }

  /** The fields of text made of word characters and spaces, with no camel
      boundary left, are non-empty words without one. */
  lemma {:induction false} FieldsAreWords(u: Unicode, spaced: string)
    requires spaced != [] && !IsWhitespace(spaced[0]) && !IsWhitespace(spaced[|spaced| - 1])
    requires NoCamelBoundary(spaced)
    requires forall c :: c in spaced ==> c == ' ' || IsWordChar(u, c)
    ensures forall w :: w in SplitWhitespace(spaced) ==> w != []
    ensures forall w, c :: w in SplitWhitespace(spaced) && c in w ==> IsWordChar(u, c)
    ensures forall w :: w in SplitWhitespace(spaced) ==> NoCamelBoundary(w)
  {
    var r := SplitWhitespace(spaced);
    assert forall w, c :: w in r && c in w ==> IsWordChar(u, c) by {
      SplitWhitespaceFieldChars(spaced);
      forall w, c | w in r && c in w
        ensures !IsWhitespace(c)
      {
        FieldCharIsNotWhitespace(spaced, w, c);
      }
    }
    SplitWhitespaceFieldsNonEmpty(spaced);
    SplitWhitespaceFieldsNoCamel(spaced);
  }

  lemma {:induction false} FieldCharIsNotWhitespace(s: string, w: string, c: char)
    requires w in SplitWhitespace(s) && c in w
    ensures !IsWhitespace(c)
  {
    var r := SplitWhitespace(s);
    SplitWhitespaceFieldsHaveNoWhitespace(s);
    var k :| 0 <= k < |r| && r[k] == w;
    var m :| 0 <= m < |w| && w[m] == c;
    assert NoWhitespace(r[k]);
  }

  // ---------------------------------------------------------------------
  // Nothing but the word characters, all of them, in order

  /** The letters and digits of `s`, in order. */
  function LettersAndDigits(u: Unicode, s: string): string {
    if s == [] then []
    else (if u.isLetterOrDigit(s[0]) then [s[0]] else []) + LettersAndDigits(u, s[1..])
  }

  lemma {:induction false} LettersAndDigitsAppend(u: Unicode, x: string, y: string)
    ensures LettersAndDigits(u, x + y) == LettersAndDigits(u, x) + LettersAndDigits(u, y)
  {
    if x == [] {
      assert x + y == y;
    } else {
      assert (x + y)[0] == x[0] && (x + y)[1..] == x[1..] + y;
      LettersAndDigitsAppend(u, x[1..], y);
    }
  }

  lemma {:induction false} LettersAndDigitsOfRemoveApostrophes(u: Unicode, s: string)
    ensures LettersAndDigits(u, RemoveApostrophes(s)) == WordChars(u, s)
  {
    if s != [] {
      var head := if IsApostrophe(s[0]) then [] else [s[0]];
      LettersAndDigitsAppend(u, head, RemoveApostrophes(s[1..]));
      LettersAndDigitsOfRemoveApostrophes(u, s[1..]);
      assert head != [] ==> LettersAndDigits(u, head) == (if u.isLetterOrDigit(s[0]) then [s[0]] else []) + LettersAndDigits(u, []);
    }
  }

  lemma {:induction false} LettersAndDigitsCons(u: Unicode, c: char, t: string)
    ensures LettersAndDigits(u, [c] + t) == (if u.isLetterOrDigit(c) then [c] else []) + LettersAndDigits(u, t)
  {
    assert ([c] + t)[0] == c && ([c] + t)[1..] == t;
  }

  lemma {:induction false} LettersAndDigitsOfInsertedSpace(u: Unicode, s: string, rest: string)
    requires WellFormed(u) && |s| >= 2
    requires LettersAndDigits(u, rest) == LettersAndDigits(u, s[2..])
    ensures LettersAndDigits(u, [s[0], ' ', s[1]] + rest) == LettersAndDigits(u, s)
  {
    assert [s[0], ' ', s[1]] + rest == [s[0]] + ([' '] + ([s[1]] + rest));
    LettersAndDigitsCons(u, s[1], rest);
    assert IsWhitespace(' ');
    LettersAndDigitsCons(u, ' ', [s[1]] + rest);
    LettersAndDigitsCons(u, s[0], [' '] + ([s[1]] + rest));
    assert s == [s[0]] + ([s[1]] + s[2..]);
    LettersAndDigitsCons(u, s[1], s[2..]);
    LettersAndDigitsCons(u, s[0], [s[1]] + s[2..]);
  }

  lemma {:induction false} LettersAndDigitsOfSpaceCamel(u: Unicode, s: string)
    requires WellFormed(u)
    ensures LettersAndDigits(u, SpaceCamelBoundaries(s)) == LettersAndDigits(u, s)
  {
    if |s| >= 2 {
      if IsLowerOrDigit(s[0]) && IsUpper(s[1]) {
        LettersAndDigitsOfSpaceCamel(u, s[2..]);
        LettersAndDigitsOfInsertedSpace(u, s, SpaceCamelBoundaries(s[2..]));
      } else {
        LettersAndDigitsOfSpaceCamel(u, s[1..]);
        LettersAndDigitsCons(u, s[0], SpaceCamelBoundaries(s[1..]));
      }
    }
  }

  lemma {:induction false} LettersAndDigitsOfSkip(u: Unicode, s: string)
    ensures LettersAndDigits(u, SkipSeparators(u, s)) == LettersAndDigits(u, s)
  {
    if s != [] && !u.isLetterOrDigit(s[0]) {
      LettersAndDigitsOfSkip(u, s[1..]);
    }
  }

  lemma {:induction false} NonWhitespaceOfCollapse(u: Unicode, s: string)
    requires WellFormed(u)
    ensures NonWhitespace(CollapseSeparators(u, s)) == LettersAndDigits(u, s)
    decreases |s|
  {
    if s != [] {
      if u.isLetterOrDigit(s[0]) {
        NonWhitespaceOfCollapse(u, s[1..]);
        var tail := CollapseSeparators(u, s[1..]);
        assert ([s[0]] + tail)[0] == s[0] && ([s[0]] + tail)[1..] == tail;
        assert !IsWhitespace(s[0]);
      } else {
        var rest := SkipSeparators(u, s[1..]);
        NonWhitespaceOfCollapse(u, rest);
        LettersAndDigitsOfSkip(u, s[1..]);
        var tail := CollapseSeparators(u, rest);
        assert ([' '] + tail)[0] == ' ' && ([' '] + tail)[1..] == tail;
      }
    }
  }

  lemma {:induction false} TrimKeepsNonWhitespace(s: string)
    ensures NonWhitespace(Trim(s)) == NonWhitespace(s)
  {
    TrimEndKeepsNonWhitespace(s);
    TrimStartKeepsNonWhitespace(TrimEnd(s));
  }

  /** Joined together, the words of `splitWordsCore` are exactly the letters
      and digits of the input, apostrophes dropped: nothing is lost, nothing
      is added, and the order is kept. */
  lemma {:induction false} SplitWordsCoreKeepsWordChars(u: Unicode, s: string)
    requires WellFormed(u)
    ensures Concat(SplitWordsCore(u, s)) == WordChars(u, s)
  {
    var r1 := RemoveApostrophes(s);
    var r2 := SpaceCamelBoundaries(r1);
    var r3 := CollapseSeparators(u, r2);
    var spaced := Trim(r3);
    LettersAndDigitsOfRemoveApostrophes(u, s);
    LettersAndDigitsOfSpaceCamel(u, r1);
    NonWhitespaceOfCollapse(u, r2);
    TrimKeepsNonWhitespace(r3);
    if spaced != [] {
      SplitWhitespaceKeepsContent(spaced);
    }
  }

  /** `splitWordsCore` returns `[]` exactly when the input holds no letter
      or digit other than apostrophes. */
  lemma {:induction false} SplitWordsCoreEmptyIff(u: Unicode, s: string)
    requires WellFormed(u)
    ensures SplitWordsCore(u, s) == [] <==> WordChars(u, s) == []
  {
    var r := SplitWordsCore(u, s);
    SplitWordsCoreKeepsWordChars(u, s);
    if r != [] {
      SplitWordsCoreWordShape(u, s);
      assert r[0] in r;
      assert Concat(r) == r[0] + Concat(r[1..]);
    }
  }

  // ---------------------------------------------------------------------
  // Segmenting the joined words gives the same words back

  /** A word as `splitWordsCore` returns it. */
  ghost predicate IsWord(u: Unicode, w: string) {
    w != [] && (forall k :: 0 <= k < |w| ==> IsWordChar(u, w[k])) && NoCamelBoundary(w)
  }

  predicate NoApostrophe(s: string) {
    forall k :: 0 <= k < |s| ==> !IsApostrophe(s[k])
  }

  lemma {:induction false} RemoveApostrophesOfNone(s: string)
    requires NoApostrophe(s)
    ensures RemoveApostrophes(s) == s
  {
    if s != [] {
      RemoveApostrophesOfNone(s[1..]);
    }
  }

  lemma {:induction false} SpaceCamelOfNoBoundary(s: string)
    requires NoCamelBoundary(s)
    ensures SpaceCamelBoundaries(s) == s
  {
    if |s| >= 2 {
      NoCamelBoundarySlice(s, 1, |s|);
      SpaceCamelOfNoBoundary(s[1..]);
    }
  }

  /** A function that passes a leading character satisfying `p` through
      unchanged passes through a whole prefix of such characters. */
  lemma {:induction false} PrefixPassesThrough(f: string -> string, p: char -> bool, w: string, t: string)
    requires forall c, x :: p(c) ==> f([c] + x) == [c] + f(x)
    requires forall k :: 0 <= k < |w| ==> p(w[k])
    ensures f(w + t) == w + f(t)
    decreases |w|
  {
    if w == [] {
      assert w + t == t;
    } else {
      var tail := w[1..];
      assert forall k :: 0 <= k < |tail| ==> p(tail[k]);
      PrefixPassesThrough(f, p, tail, t);
      assert w + t == [w[0]] + (tail + t);
      assert w == [w[0]] + tail;
    }
  }

  lemma {:induction false} CollapseOfLettersAndDigits(u: Unicode, w: string, t: string)
    requires forall k :: 0 <= k < |w| ==> u.isLetterOrDigit(w[k])
    ensures CollapseSeparators(u, w + t) == w + CollapseSeparators(u, t)
  {
    var f := s => CollapseSeparators(u, s);
    forall c, x | u.isLetterOrDigit(c)
      ensures f([c] + x) == [c] + f(x)
    {
      CollapseCons(u, c, x);
    }
    PrefixPassesThrough(f, u.isLetterOrDigit, w, t);
  }

  lemma {:induction false} CollapseCons(u: Unicode, c: char, t: string)
    requires u.isLetterOrDigit(c)
    ensures CollapseSeparators(u, [c] + t) == [c] + CollapseSeparators(u, t)
  {
    assert ([c] + t)[1..] == t;
  }

  lemma {:induction false} NoCamelBoundaryAppend(x: string, y: string)
    requires NoCamelBoundary(x) && NoCamelBoundary(y)
    requires x == [] || y == [] || !(IsLowerOrDigit(x[|x| - 1]) && IsUpper(y[0]))
    ensures NoCamelBoundary(x + y)
  {
    forall k | 0 < k < |x + y|
      ensures !(IsLowerOrDigit((x + y)[k - 1]) && IsUpper((x + y)[k]))
    {
      if k < |x| {
        assert (x + y)[k - 1] == x[k - 1] && (x + y)[k] == x[k];
      } else if k > |x| {
        assert (x + y)[k - 1] == y[k - 1 - |x|] && (x + y)[k] == y[k - |x|];
      }
    }
  }

  /** Words joined with single spaces hold no apostrophe. */
  lemma {:induction false} JoinedWordsNoApostrophe(u: Unicode, ws: seq<string>)
    requires forall k :: 0 <= k < |ws| ==> IsWord(u, ws[k])
    ensures NoApostrophe(Join(ws, " "))
  {
    if |ws| > 1 {
      var w, tail := ws[0], Join(ws[1..], " ");
      JoinedWordsNoApostrophe(u, ws[1..]);
      assert NoApostrophe(tail);
      var t := w + " " + tail;
      assert IsWord(u, ws[0]);
      forall k | 0 <= k < |t|
        ensures !IsApostrophe(t[k])
      {
        if k < |w| {
          assert t[k] == w[k] && IsWordChar(u, w[k]);
        } else if k > |w| {
          assert t[k] == tail[k - |w| - 1];
        } else {
          assert t[k] == ' ';
        }
      }
    }
  }

  /** Words joined with single spaces have no camelCase boundary. */
  lemma {:induction false} JoinedWordsNoCamelBoundary(u: Unicode, ws: seq<string>)
    requires forall k :: 0 <= k < |ws| ==> IsWord(u, ws[k])
    ensures NoCamelBoundary(Join(ws, " "))
  {
    if |ws| > 1 {
      var w, tail := ws[0], Join(ws[1..], " ");
      JoinedWordsNoCamelBoundary(u, ws[1..]);
      NoCamelBoundaryCons(' ', tail);
      NoCamelBoundaryAppend(w, " " + tail);
      assert w + " " + tail == w + (" " + tail);
    }
  }

  lemma {:induction false} CollapseOfWordThenRest(u: Unicode, w: string, t: string)
    requires WellFormed(u) && forall k :: 0 <= k < |w| ==> u.isLetterOrDigit(w[k])
    requires t != [] && u.isLetterOrDigit(t[0]) && CollapseSeparators(u, t) == t
    ensures CollapseSeparators(u, w + ([' '] + t)) == w + ([' '] + t)
  {
    var v := [' '] + t;
    assert v[0] == ' ' && v[1..] == t;
    assert IsWhitespace(' ');
    assert SkipSeparators(u, t) == t;
    assert CollapseSeparators(u, v) == v;
    CollapseOfLettersAndDigits(u, w, v);
  }

  /** Between words joined with single spaces every run of characters that
      are neither letters nor digits is one space already, so collapsing
      such runs changes nothing. */
  lemma {:induction false} CollapseOfJoinedWords(u: Unicode, ws: seq<string>)
    requires WellFormed(u)
    requires forall k :: 0 <= k < |ws| ==> IsWord(u, ws[k])
    ensures CollapseSeparators(u, Join(ws, " ")) == Join(ws, " ")
  {
    if |ws| == 1 {
      assert IsWord(u, ws[0]);
      CollapseOfLettersAndDigits(u, ws[0], []);
      assert ws[0] + [] == ws[0];
    } else if |ws| > 1 {
      var tail := Join(ws[1..], " ");
      assert IsWord(u, ws[0]) && IsWord(u, ws[1]);
      JoinEnds(ws[1..], " ");
      CollapseOfJoinedWords(u, ws[1..]);
      CollapseOfWordThenRest(u, ws[0], tail);
      assert Join(ws, " ") == ws[0] + ([' '] + tail);
    }
  }

  /** Once its apostrophes are removed and its camelCase boundaries spaced
      apart, a string that reads as words joined with single spaces is
      segmented into exactly those words. */
  lemma {:induction false} SplitWordsCoreOfSpaced(u: Unicode, s: string, ws: seq<string>)
    requires WellFormed(u)
    requires forall k :: 0 <= k < |ws| ==> IsWord(u, ws[k])
    requires SpaceCamelBoundaries(RemoveApostrophes(s)) == Join(ws, " ")
    ensures SplitWordsCore(u, s) == ws
  {
    if ws != [] {
      var t := Join(ws, " ");
      CollapseOfJoinedWords(u, ws);
      JoinEnds(ws, " ");
      var last := ws[|ws| - 1];
      assert IsWord(u, ws[0]) && IsWord(u, last);
      assert u.isLetterOrDigit(ws[0][0]) && u.isLetterOrDigit(last[|last| - 1]);
      assert TrimEnd(t) == t;
      assert TrimStart(t) == t;
      SplitWhitespaceOfJoin(ws);
    }
  }

  /** `splitWordsCore` reads words joined with single spaces back as the
      same words. */
  lemma {:induction false} SplitWordsCoreOfJoinedWords(u: Unicode, ws: seq<string>)
    requires WellFormed(u)
    requires forall k :: 0 <= k < |ws| ==> IsWord(u, ws[k])
    ensures SplitWordsCore(u, Join(ws, " ")) == ws
  {
    var t := Join(ws, " ");
    JoinedWordsNoApostrophe(u, ws);
    JoinedWordsNoCamelBoundary(u, ws);
    RemoveApostrophesOfNone(t);
    SpaceCamelOfNoBoundary(t);
    SplitWordsCoreOfSpaced(u, t, ws);
  }

  /** Segmenting is idempotent: the words of `words(s).join(' ')` are
      `words(s)`. */
  lemma {:induction false} SplitWordsCoreIdempotent(u: Unicode, s: string)
    requires WellFormed(u)
    ensures SplitWordsCore(u, Join(SplitWordsCore(u, s), " ")) == SplitWordsCore(u, s)
  {
    var ws := SplitWordsCore(u, s);
    SplitWordsCoreWordShape(u, s);
    forall k | 0 <= k < |ws|
      ensures IsWord(u, ws[k])
    {
      var w := ws[k];
      assert w in ws;
      forall i | 0 <= i < |w|
        ensures IsWordChar(u, w[i])
      {
        assert w[i] in w;
      }
    }
    SplitWordsCoreOfJoinedWords(u, ws);
  }

  // ---------------------------------------------------------------------
  // Where words split

  /** Length of the run of letters and digits `t` starts with. */
  function LetterRunLength(u: Unicode, t: string): (n: nat)
    ensures n <= |t|
    ensures forall k :: 0 <= k < n ==> u.isLetterOrDigit(t[k])
    ensures n < |t| ==> !u.isLetterOrDigit(t[n])
  {
    if t != [] && u.isLetterOrDigit(t[0]) then 1 + LetterRunLength(u, t[1..]) else 0
  }

  /** The maximal runs of letters and digits of `z`, in order: the reference
      the segmenter is measured against. */
  function LetterRuns(u: Unicode, z: string): seq<string>
    decreases |z|
  {
    var t := SkipSeparators(u, z);
    if t == [] then []
    else
      var n := LetterRunLength(u, t);
      [t[..n]] + LetterRuns(u, t[n..])
  }

  /** Every run is non-empty and made of letters and digits only. */
  lemma {:induction false} LetterRunsShape(u: Unicode, z: string)
    ensures forall w :: w in LetterRuns(u, z) ==> w != [] && forall i :: 0 <= i < |w| ==> u.isLetterOrDigit(w[i])
    decreases |z|
  {
    var t := SkipSeparators(u, z);
    if t != [] {
      var n := LetterRunLength(u, t);
      LetterRunsShape(u, t[n..]);
    }
  }

  /** Leading separators do not change the runs. */
  lemma {:induction false} LetterRunsOfSkip(u: Unicode, z: string)
    ensures LetterRuns(u, z) == LetterRuns(u, SkipSeparators(u, z))
  {
    var t := SkipSeparators(u, z);
    assert SkipSeparators(u, t) == t;
  }

  /** One step of `LetterRuns`, once the separators are skipped. */
  lemma {:induction false} LetterRunsUnfold(u: Unicode, z: string, t: string, n: nat)
    requires t == SkipSeparators(u, z) && t != [] && n == LetterRunLength(u, t)
    ensures LetterRuns(u, z) == [t[..n]] + LetterRuns(u, t[n..])
  {
  }

  lemma {:induction false} SkipAppend(u: Unicode, x: string, y: string)
    ensures SkipSeparators(u, x + y) ==
      if SkipSeparators(u, x) == [] then SkipSeparators(u, y) else SkipSeparators(u, x) + y
  {
    if x == [] {
      assert x + y == y;
    } else if !u.isLetterOrDigit(x[0]) {
      assert (x + y)[1..] == x[1..] + y;
      SkipAppend(u, x[1..], y);
    }
  }

  lemma {:induction false} LetterRunLengthAppend(u: Unicode, t: string, y: string)
    requires LetterRunLength(u, t) < |t| || y == [] || !u.isLetterOrDigit(y[0])
    ensures LetterRunLength(u, t + y) == LetterRunLength(u, t)
  {
    if t == [] {
      assert t + y == y;
    } else if u.isLetterOrDigit(t[0]) {
      assert (t + y)[1..] == t[1..] + y;
      LetterRunLengthAppend(u, t[1..], y);
    }
  }

  /** A separator in front of `b` leaves the runs of `b` as they are. */
  lemma {:induction false} LetterRunsAfterSeparator(u: Unicode, c: char, b: string)
    requires !u.isLetterOrDigit(c)
    ensures LetterRuns(u, [c] + b) == LetterRuns(u, b)
  {
    assert SkipSeparators(u, [c] + b) == SkipSeparators(u, b) by {
      assert ([c] + b)[1..] == b;
    }
    LetterRunsOfSkip(u, [c] + b);
    LetterRunsOfSkip(u, b);
  }

  /** A character that is neither a letter nor a digit ends one run and
      starts the next. */
  lemma {:induction false} LetterRunsAround(u: Unicode, a: string, c: char, b: string)
    requires !u.isLetterOrDigit(c)
    ensures LetterRuns(u, a + [c] + b) == LetterRuns(u, a) + LetterRuns(u, b)
    decreases |a|
  {
    var cb := [c] + b;
    var t := SkipSeparators(u, a);
    assert a + [c] + b == a + cb;
    assert SkipSeparators(u, a + cb) == if t == [] then SkipSeparators(u, cb) else t + cb by {
      SkipAppend(u, a, cb);
    }
    if t == [] {
      assert LetterRuns(u, a + cb) == LetterRuns(u, cb) by {
        LetterRunsOfSkip(u, a + cb);
        LetterRunsOfSkip(u, cb);
      }
      LetterRunsAfterSeparator(u, c, b);
    } else {
      var n := LetterRunLength(u, t);
      SliceOfAppend(t, cb, n);
      assert LetterRuns(u, a + cb) == [t[..n]] + LetterRuns(u, t[n..] + cb) by {
        LetterRunLengthAppend(u, t, cb);
        LetterRunsUnfold(u, a + cb, t + cb, n);
      }
      LetterRunsUnfold(u, a, t, n);
      var head := [t[..n]];
      if n < |t| {
        calc {
          LetterRuns(u, a + cb);
          { AppendAssoc(t[n..], [c], b); }
          head + LetterRuns(u, t[n..] + [c] + b);
          { LetterRunsAround(u, t[n..], c, b); }
          head + (LetterRuns(u, t[n..]) + LetterRuns(u, b));
          { AppendAssoc(head, LetterRuns(u, t[n..]), LetterRuns(u, b)); }
          LetterRuns(u, a) + LetterRuns(u, b);
        }
      } else {
        calc {
          LetterRuns(u, a + cb);
          { assert t[n..] + cb == cb; }
          head + LetterRuns(u, cb);
          { LetterRunsAfterSeparator(u, c, b); }
          head + LetterRuns(u, b);
          { assert t[n..] == [] && LetterRuns(u, t[n..]) == []; assert head + [] == head; }
          LetterRuns(u, a) + LetterRuns(u, b);
        }
      }
    }
  }

  lemma {:induction false} AppendAssoc<T>(x: seq<T>, y: seq<T>, z: seq<T>)
    ensures x + (y + z) == (x + y) + z
  {
  }

  lemma {:induction false} SpacedAppend(w: string, j: string, q: string)
    ensures w + ([' '] + (j + q)) == (w + " " + j) + q
  {
  }

  lemma {:induction false} SliceOfAppend<T>(x: seq<T>, y: seq<T>, n: nat)
    requires n <= |x|
    ensures (x + y)[..n] == x[..n] && (x + y)[n..] == x[n..] + y
  {
  }

  lemma {:induction false} JoinCons(w: string, ws: seq<string>, sep: string)
    requires ws != []
    ensures Join([w] + ws, sep) == w + sep + Join(ws, sep)
  {
    assert ([w] + ws)[1..] == ws;
  }

  /** Step 3 on text that starts with a separator: one space, then the rest
      with its leading separators skipped. */
  lemma {:induction false} CollapseOfSeparator(u: Unicode, r: string)
    requires r != [] && !u.isLetterOrDigit(r[0])
    ensures CollapseSeparators(u, r) == [' '] + CollapseSeparators(u, SkipSeparators(u, r))
  {
    assert SkipSeparators(u, r) == SkipSeparators(u, r[1..]);
  }

  /** Step 3 on text that starts with a letter or digit: the runs joined
      with single spaces, and one more space when the text ends with a
      separator. */
  lemma {:induction false} CollapseOfRuns(u: Unicode, z: string)
    requires z == [] || u.isLetterOrDigit(z[0])
    ensures var j := Join(LetterRuns(u, z), " ");
      CollapseSeparators(u, z) == j || CollapseSeparators(u, z) == j + " "
    decreases |z|
  {
    if z != [] {
      var n := LetterRunLength(u, z);
      var w, r := z[..n], z[n..];
      assert LetterRuns(u, z) == [w] + LetterRuns(u, r) by {
        assert SkipSeparators(u, z) == z;
        LetterRunsUnfold(u, z, z, n);
      }
      assert CollapseSeparators(u, z) == w + CollapseSeparators(u, r) by {
        assert z == w + r;
        CollapseOfLettersAndDigits(u, w, r);
      }
      if r == [] {
        assert LetterRuns(u, r) == [];
        assert Join([w], " ") == w && w + [] == w;
      } else {
        var z' := SkipSeparators(u, r);
        CollapseOfSeparator(u, r);
        LetterRunsOfSkip(u, r);
        var runs := LetterRuns(u, z');
        if z' == [] {
          assert runs == [];
          assert Join([w], " ") == w && [' '] + [] == " ";
        } else {
          assert SkipSeparators(u, z') == z';
          JoinCons(w, runs, " ");
          var j' := Join(runs, " ");
          CollapseOfRuns(u, z');
          var q: string := if CollapseSeparators(u, z') == j' then [] else " ";
          assert CollapseSeparators(u, z') == j' + q;
          SpacedAppend(w, j', q);
        }
      }
    }
  }

  /** `trim()` of text padded with at most one space on each side. */
  lemma {:induction false} TrimPadded(p: string, j: string, q: string)
    requires p == [] || p == " "
    requires q == [] || q == " "
    requires j == [] || (!IsWhitespace(j[0]) && !IsWhitespace(j[|j| - 1]))
    ensures Trim(p + j + q) == j
  {
    if j == [] {
      assert AllWhitespace(p + j + q) by {
        assert p + j + q == p + q;
      }
    } else {
      TrimEndPadded(p, j, q);
      TrimStartPadded(p, j);
    }
  }

  lemma {:induction false} TrimEndPadded(p: string, j: string, q: string)
    requires q == [] || q == " "
    requires j != [] && !IsWhitespace(j[|j| - 1])
    ensures TrimEnd(p + j + q) == p + j
  {
    var s := p + j + q;
    if q == " " {
      assert s[..|s| - 1] == p + j && IsWhitespace(s[|s| - 1]);
    } else {
      assert s == p + j;
    }
    assert (p + j)[|p + j| - 1] == j[|j| - 1];
  }

  lemma {:induction false} TrimStartPadded(p: string, j: string)
    requires p == [] || p == " "
    requires j != [] && !IsWhitespace(j[0])
    ensures TrimStart(p + j) == j
  {
    if p == " " {
      assert (p + j)[1..] == j;
      assert IsWhitespace((p + j)[0]);
    } else {
      assert p + j == j;
    }
  }

  /** Runs joined with single spaces start and end with a letter or
      digit. */
  lemma {:induction false} JoinedRunsEnds(u: Unicode, runs: seq<string>)
    requires WellFormed(u)
    requires forall w :: w in runs ==> w != [] && forall i :: 0 <= i < |w| ==> u.isLetterOrDigit(w[i])
    ensures var j := Join(runs, " "); j == [] || (!IsWhitespace(j[0]) && !IsWhitespace(j[|j| - 1]))
  {
    if runs != [] {
      var last := runs[|runs| - 1];
      assert runs[0] in runs && last in runs;
      assert forall k :: 0 <= k < |runs| ==> runs[k] != [] by {
        forall k | 0 <= k < |runs| ensures runs[k] != [] {
          assert runs[k] in runs;
        }
      }
      JoinEnds(runs, " ");
      assert u.isLetterOrDigit(runs[0][0]) && u.isLetterOrDigit(last[|last| - 1]);
    }
  }

  /** Step 3 followed by `trim()` gives the runs joined with single
      spaces. */
  lemma {:induction false} TrimOfCollapse(u: Unicode, z: string)
    requires WellFormed(u)
    ensures Trim(CollapseSeparators(u, z)) == Join(LetterRuns(u, z), " ")
  {
    var z' := SkipSeparators(u, z);
    var runs := LetterRuns(u, z');
    var j := Join(runs, " ");
    var p: string := if z == [] || u.isLetterOrDigit(z[0]) then [] else " ";
    assert CollapseSeparators(u, z) == p + CollapseSeparators(u, z') by {
      if p != [] {
        CollapseOfSeparator(u, z);
      } else {
        assert z' == z;
      }
    }
    CollapseOfRuns(u, z');
    var q: string := if CollapseSeparators(u, z') == j then [] else " ";
    assert CollapseSeparators(u, z) == p + j + q;
    LetterRunsShape(u, z');
    JoinedRunsEnds(u, runs);
    TrimPadded(p, j, q);
    LetterRunsOfSkip(u, z);
  }

  /** `splitWordsCore(s)` is the maximal runs of letters and digits left
      once apostrophes are removed and camelCase boundaries spaced apart:
      every other character separates words. */
  lemma {:induction false} SplitWordsCoreIsLetterRuns(u: Unicode, s: string)
    requires WellFormed(u)
    ensures SplitWordsCore(u, s) == LetterRuns(u, SpaceCamelBoundaries(RemoveApostrophes(s)))
  {
    var z := SpaceCamelBoundaries(RemoveApostrophes(s));
    var runs := LetterRuns(u, z);
    TrimOfCollapse(u, z);
    LetterRunsShape(u, z);
    if runs != [] {
      JoinEnds(runs, " ");
      forall k | 0 <= k < |runs|
        ensures runs[k] != [] && NoWhitespace(runs[k])
      {
        assert runs[k] in runs;
      }
      SplitWhitespaceOfJoin(runs);
    }
  }

  /** Step 2 does not look across a pair that is not a camelCase
      boundary. */
  lemma {:induction false} SpaceCamelAppend(x: string, y: string)
    requires x == [] || y == [] || !(IsLowerOrDigit(x[|x| - 1]) && IsUpper(y[0]))
    ensures SpaceCamelBoundaries(x + y) == SpaceCamelBoundaries(x) + SpaceCamelBoundaries(y)
  {
    if x == [] {
      assert x + y == y;
    } else if y == [] {
      assert x + y == x;
    } else if |x| == 1 {
      assert (x + y)[1..] == y;
    } else if IsLowerOrDigit(x[0]) && IsUpper(x[1]) {
      var head := [x[0], ' ', x[1]];
      calc {
        SpaceCamelBoundaries(x + y);
        { SliceOfAppend(x, y, 2); }
        head + SpaceCamelBoundaries(x[2..] + y);
        { SpaceCamelAppend(x[2..], y); }
        head + (SpaceCamelBoundaries(x[2..]) + SpaceCamelBoundaries(y));
        { AppendAssoc(head, SpaceCamelBoundaries(x[2..]), SpaceCamelBoundaries(y)); }
        SpaceCamelBoundaries(x) + SpaceCamelBoundaries(y);
      }
    } else {
      var head := [x[0]];
      calc {
        SpaceCamelBoundaries(x + y);
        { SliceOfAppend(x, y, 1); }
        head + SpaceCamelBoundaries(x[1..] + y);
        { SpaceCamelAppend(x[1..], y); }
        head + (SpaceCamelBoundaries(x[1..]) + SpaceCamelBoundaries(y));
        { AppendAssoc(head, SpaceCamelBoundaries(x[1..]), SpaceCamelBoundaries(y)); }
        SpaceCamelBoundaries(x) + SpaceCamelBoundaries(y);
      }
    }
  }

  /** A character that starts no camelCase boundary is kept as it is. */
  lemma {:induction false} SpaceCamelOfNonBoundaryHead(y: string)
    requires y != [] && !IsLowerOrDigit(y[0])
    ensures SpaceCamelBoundaries(y) == [y[0]] + SpaceCamelBoundaries(y[1..])
  {
    if |y| == 1 {
      assert y[1..] == [];
    }
  }

  /** Step 2 puts a space at a camelCase boundary between `x` and `y`. */
  lemma {:induction false} SpaceCamelAtBoundary(x: string, y: string)
    requires x != [] && y != [] && IsLowerOrDigit(x[|x| - 1]) && IsUpper(y[0])
    ensures SpaceCamelBoundaries(x + y) == SpaceCamelBoundaries(x) + " " + SpaceCamelBoundaries(y)
  {
    if |x| == 1 {
      assert (x + y)[0] == x[0] && (x + y)[1] == y[0] && (x + y)[2..] == y[1..];
      SpaceCamelOfNonBoundaryHead(y);
    } else {
      var k := if IsLowerOrDigit(x[0]) && IsUpper(x[1]) then 2 else 1;
      var head := if k == 2 then [x[0], ' ', x[1]] else [x[0]];
      var a, b := SpaceCamelBoundaries(x[k..]), SpaceCamelBoundaries(y);
      calc {
        SpaceCamelBoundaries(x + y);
        { SliceOfAppend(x, y, k); }
        head + SpaceCamelBoundaries(x[k..] + y);
        { SpaceCamelAtBoundary(x[k..], y); }
        head + (a + " " + b);
        { AppendAssoc(head, a + " ", b); AppendAssoc(head, a, " "); }
        head + a + " " + b;
        SpaceCamelBoundaries(x) + " " + b;
      }
    }
  }

  /** Any character that is not a letter, a digit or an apostrophe (and,
      for the camelCase rule, not an ASCII letter or digit) splits the
      input: the words of `x + [c] + y` are those of `x` followed by those
      of `y`. */
  lemma {:induction false} SplitWordsCoreAtSeparator(u: Unicode, x: string, c: char, y: string)
    requires WellFormed(u)
    requires !u.isLetterOrDigit(c) && !IsApostrophe(c) && !IsLowerOrDigit(c) && !IsUpper(c)
    ensures SplitWordsCore(u, x + [c] + y) == SplitWordsCore(u, x) + SplitWordsCore(u, y)
  {
    var rx, ry := RemoveApostrophes(x), RemoveApostrophes(y);
    assert RemoveApostrophes(x + [c] + y) == rx + [c] + ry by {
      RemoveApostrophesAppend(x + [c], y);
      RemoveApostrophesAppend(x, [c]);
      assert [c][1..] == [];
    }
    var a, b := SpaceCamelBoundaries(rx), SpaceCamelBoundaries(ry);
    assert SpaceCamelBoundaries(rx + [c] + ry) == a + [c] + b by {
      SpaceCamelAppend(rx + [c], ry);
      SpaceCamelAppend(rx, [c]);
    }
    LetterRunsAround(u, a, c, b);
    SplitWordsCoreIsLetterRuns(u, x + [c] + y);
    SplitWordsCoreIsLetterRuns(u, x);
    SplitWordsCoreIsLetterRuns(u, y);
  }

  /** A lower-case letter or digit followed by an upper-case letter splits
      the input there. */
  lemma {:induction false} SplitWordsCoreAtCamelBoundary(u: Unicode, x: string, y: string)
    requires WellFormed(u)
    requires x != [] && y != [] && IsLowerOrDigit(x[|x| - 1]) && IsUpper(y[0])
    ensures SplitWordsCore(u, x + y) == SplitWordsCore(u, x) + SplitWordsCore(u, y)
  {
    var rx, ry := RemoveApostrophes(x), RemoveApostrophes(y);
    RemoveApostrophesAppend(x, y);
    assert rx != [] && IsLowerOrDigit(rx[|rx| - 1]) by {
      var last := [x[|x| - 1]];
      assert x == x[..|x| - 1] + last;
      RemoveApostrophesAppend(x[..|x| - 1], last);
      assert RemoveApostrophes(last) == last by {
        assert last[1..] == [];
      }
    }
    assert ry != [] && IsUpper(ry[0]);
    var a, b := SpaceCamelBoundaries(rx), SpaceCamelBoundaries(ry);
    SpaceCamelAtBoundary(rx, ry);
    assert IsWhitespace(' ');
    assert a + " " + b == a + [' '] + b;
    LetterRunsAround(u, a, ' ', b);
    SplitWordsCoreIsLetterRuns(u, x + y);
    SplitWordsCoreIsLetterRuns(u, x);
    SplitWordsCoreIsLetterRuns(u, y);
  }

  lemma {:induction false} SplitWordsCoreOfSameUnquoted(u: Unicode, s: string, t: string)
    requires RemoveApostrophes(s) == RemoveApostrophes(t)
    ensures SplitWordsCore(u, s) == SplitWordsCore(u, t)
  {
  }

  /** An apostrophe joins the text on either side of it into one word
      rather than splitting it. */
  lemma {:induction false} SplitWordsCoreDropsApostrophe(u: Unicode, x: string, q: char, y: string)
    requires IsApostrophe(q)
    ensures SplitWordsCore(u, x + [q] + y) == SplitWordsCore(u, x + y)
  {
    assert RemoveApostrophes(x + [q] + y) == RemoveApostrophes(x + y) by {
      RemoveApostrophesAppend(x + [q], y);
      RemoveApostrophesAppend(x, [q]);
      RemoveApostrophesAppend(x, y);
      assert RemoveApostrophes([q]) == [] by {
        assert [q][1..] == [];
      }
    }
    SplitWordsCoreOfSameUnquoted(u, x + [q] + y, x + y);
  }

  // ---------------------------------------------------------------------
  // Examples, with the ASCII part of the Unicode tables

  function AsciiLower(c: char): char {
    if 'A' <= c <= 'Z' then (c as int + 32) as char else c
  }

  function AsciiUpper(c: char): char {
    if 'a' <= c <= 'z' then (c as int - 32) as char else c
  }

  /** Tables in which only ASCII letters and digits are letters or digits. */
  const Ascii := Unicode(
    c => 'a' <= c <= 'z' || 'A' <= c <= 'Z' || '0' <= c <= '9',
    AsciiLower,
    AsciiUpper,
    s => s)

  lemma {:induction false} AsciiWellFormed()
    ensures WellFormed(Ascii)
  {
  }

  lemma {:induction false} FooBarBazSpaced(s: string)
    requires s == "fooBarBaz"
    ensures SpaceCamelBoundaries(s) == "foo Bar Baz"
  {
    assert SpaceCamelBoundaries(s[7..]) == "az" by {
      assert s[7..][1..] == "z";
    }
    assert SpaceCamelBoundaries(s[5..]) == "r Baz" by {
      assert s[5..][2..] == s[7..];
    }
    assert SpaceCamelBoundaries(s[4..]) == "ar Baz" by {
      assert s[4..][1..] == s[5..];
    }
    assert SpaceCamelBoundaries(s[2..]) == "o Bar Baz" by {
      assert s[2..][2..] == s[4..];
    }
    assert SpaceCamelBoundaries(s[1..]) == "oo Bar Baz" by {
      assert s[1..][1..] == s[2..];
    }
  }

  lemma {:induction false} FooBarBazJoined()
    ensures Join(["foo", "Bar", "Baz"], " ") == "foo Bar Baz"
  {
    var ws := ["foo", "Bar", "Baz"];
    assert ws[1..] == ["Bar", "Baz"] && ws[1..][1..] == ["Baz"];
  }

  lemma {:induction false} FooBarBazWords()
    ensures forall k :: 0 <= k < 3 ==> IsWord(Ascii, ["foo", "Bar", "Baz"][k])
  {
  }

  lemma {:induction false} CamelCaseExample(s: string)
    requires s == "fooBarBaz"
    ensures SplitWordsCore(Ascii, s) == ["foo", "Bar", "Baz"]
  {
    RemoveApostrophesOfNone(s);
    FooBarBazSpaced(s);
    FooBarBazJoined();
    FooBarBazWords();
    AsciiWellFormed();
    SplitWordsCoreOfSpaced(Ascii, s, ["foo", "Bar", "Baz"]);
  }

  lemma {:induction false} RemoveApostrophesAppend(x: string, y: string)
    ensures RemoveApostrophes(x + y) == RemoveApostrophes(x) + RemoveApostrophes(y)
  {
    if x == [] {
      assert x + y == y;
    } else {
      assert (x + y)[0] == x[0] && (x + y)[1..] == x[1..] + y;
      RemoveApostrophesAppend(x[1..], y);
    }
  }

  lemma {:induction false} DropOneApostrophe(x: string, q: char, y: string)
    requires NoApostrophe(x) && IsApostrophe(q) && NoApostrophe(y)
    ensures RemoveApostrophes(x + [q] + y) == x + y
  {
    assert [q][1..] == [];
    assert RemoveApostrophes([q]) == [];
    calc {
      RemoveApostrophes(x + [q] + y);
      { assert x + [q] + y == x + ([q] + y); }
      RemoveApostrophes(x + ([q] + y));
      { RemoveApostrophesAppend(x, [q] + y); }
      RemoveApostrophes(x) + RemoveApostrophes([q] + y);
      { RemoveApostrophesAppend([q], y); }
      RemoveApostrophes(x) + RemoveApostrophes(y);
      { RemoveApostrophesOfNone(x); RemoveApostrophesOfNone(y); }
      x + y;
    }
  }

  lemma {:induction false} DontStopUnquoted()
    ensures RemoveApostrophes("don't stop") == "dont stop"
  {
    var x, y := "don", "t stop";
    DropOneApostrophe(x, '\'', y);
    assert x + ['\''] + y == "don't stop";
    assert x + y == "dont stop";
  }

  lemma {:induction false} DontStopJoined()
    ensures Join(["dont", "stop"], " ") == "dont stop"
  {
    assert ["dont", "stop"][1..] == ["stop"];
  }

  lemma {:induction false} DontStopWords()
    ensures forall k :: 0 <= k < 2 ==> IsWord(Ascii, ["dont", "stop"][k])
    ensures NoCamelBoundary("dont stop")
  {
  }

  lemma {:induction false} ApostropheExample()
    ensures SplitWordsCore(Ascii, "don't stop") == ["dont", "stop"]
  {
    DontStopUnquoted();
    DontStopJoined();
    DontStopWords();
    SpaceCamelOfNoBoundary("dont stop");
    AsciiWellFormed();
    SplitWordsCoreOfSpaced(Ascii, "don't stop", ["dont", "stop"]);
  }
}
