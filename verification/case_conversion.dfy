/** The case converters of src/index.ts built on `splitWordsCore`:
    `toCamelCase`, `toPascalCase`, `toSnakeCase`, `toKebabCase`,
    `toConstantCase` and `initials`. */
module CaseConversion {
  import opened JsString
  import opened Words

  /** `s.toLowerCase()`, one character at a time. */
  function LowerString(u: Unicode, s: string): (r: string)
    ensures |r| == |s| && forall k :: 0 <= k < |s| ==> r[k] == u.toLower(s[k])
  {
    if s == [] then [] else [u.toLower(s[0])] + LowerString(u, s[1..])
  }

  /** `s.toUpperCase()`, one character at a time. */
  function UpperString(u: Unicode, s: string): (r: string)
    ensures |r| == |s| && forall k :: 0 <= k < |s| ==> r[k] == u.toUpper(s[k])
  {
    if s == [] then [] else [u.toUpper(s[0])] + UpperString(u, s[1..])
  }

  /** `w.charAt(0).toUpperCase() + w.slice(1)`. */
  function Capitalize(u: Unicode, w: string): (r: string)
    ensures |r| == |w|
    ensures w != [] ==> r[0] == u.toUpper(w[0]) && r[1..] == w[1..]
  {
    if w == [] then [] else [u.toUpper(w[0])] + w[1..]
  }

  function CapitalizeAll(u: Unicode, ws: seq<string>): (r: seq<string>)
    ensures |r| == |ws| && forall k :: 0 <= k < |ws| ==> r[k] == Capitalize(u, ws[k])
  {
    seq(|ws|, k requires 0 <= k < |ws| => Capitalize(u, ws[k]))
  }

  /** `toCamelCase(input)`: the words of the lower-cased input, every word
      after the first capitalized, glued together. */
  function ToCamelCase(u: Unicode, s: string): string {
    var ws := SplitWordsCore(u, LowerString(u, s));
    if ws == [] then [] else ws[0] + Concat(CapitalizeAll(u, ws[1..]))
  }

  /** `toPascalCase(input)`: every word of the lower-cased input
      capitalized, glued together. */
  function ToPascalCase(u: Unicode, s: string): string {
    Concat(CapitalizeAll(u, SplitWordsCore(u, LowerString(u, s))))
  }

  /** `stripDiacritics(w).toLowerCase()` for every word. */
  function LowerParts(u: Unicode, ws: seq<string>): (r: seq<string>)
    ensures |r| == |ws| && forall k :: 0 <= k < |ws| ==> r[k] == LowerString(u, u.stripDiacritics(ws[k]))
  {
    seq(|ws|, k requires 0 <= k < |ws| => LowerString(u, u.stripDiacritics(ws[k])))
  }

  /** `stripDiacritics(w).toUpperCase()` for every word. */
  function UpperParts(u: Unicode, ws: seq<string>): (r: seq<string>)
    ensures |r| == |ws| && forall k :: 0 <= k < |ws| ==> r[k] == UpperString(u, u.stripDiacritics(ws[k]))
  {
    seq(|ws|, k requires 0 <= k < |ws| => UpperString(u, u.stripDiacritics(ws[k])))
  }

  /** `toSnakeCase(input)`. */
  function ToSnakeCase(u: Unicode, s: string): string {
    Join(LowerParts(u, SplitWordsCore(u, s)), "_")
  }

  /** `toKebabCase(input)`. */
  function ToKebabCase(u: Unicode, s: string): string {
    Join(LowerParts(u, SplitWordsCore(u, s)), "-")
  }

  /** `toConstantCase(input)`. */
  function ToConstantCase(u: Unicode, s: string): string {
    Join(UpperParts(u, SplitWordsCore(u, s)), "_")
  }

  /** `ws.filter(Boolean).map(x => x[0])`: the first character of every
      non-empty word. */
  function FirstLetters(ws: seq<string>): (r: string)
    ensures |r| <= |ws|
    ensures (forall k :: 0 <= k < |ws| ==> ws[k] != []) ==>
      |r| == |ws| && forall k :: 0 <= k < |ws| ==> r[k] == ws[k][0]
  {
    if ws == [] then []
    else (if ws[0] == [] then [] else [ws[0][0]]) + FirstLetters(ws[1..])
  }

  /** `initials(input, maxLetters)`: the first letter of each word, the
      list cut by `slice(0, maxLetters)` (a negative count drops letters
      from the end), upper-cased. */
  function Initials(u: Unicode, s: string, maxLetters: int): string {
    UpperString(u, Slice(FirstLetters(SplitWordsCore(u, s)), 0, maxLetters))
  }

  /** `initials` yields the upper-cased first letters of the first
      `maxLetters` words (all of them when there are fewer; for a negative
      count, all but the last `-maxLetters`). */
  lemma {:induction false} InitialsAreFirstLetters(u: Unicode, s: string, maxLetters: int)
    ensures var ws := SplitWordsCore(u, s); var r := Initials(u, s, maxLetters);
      |r| == RelativeIndex(maxLetters, |ws|) &&
      forall k :: 0 <= k < |r| ==> ws[k] != [] && r[k] == u.toUpper(ws[k][0])
  {
    var ws := SplitWordsCore(u, s);
    WordsAreNonEmpty(u, s);
    var firsts := FirstLetters(ws);
    SlicePrefix(firsts, maxLetters);
  }

  lemma {:induction false} WordsAreNonEmpty(u: Unicode, s: string)
    ensures var ws := SplitWordsCore(u, s); forall k :: 0 <= k < |ws| ==> ws[k] != []
  {
    var ws := SplitWordsCore(u, s);
    SplitWordsCoreWordShape(u, s);
    forall k | 0 <= k < |ws|
      ensures ws[k] != []
    {
      assert ws[k] in ws;
    }
  }

  // ---------------------------------------------------------------------
  // Properties

  /** `a` is `b` with some characters upper-cased and nothing else changed. */
  predicate CaseVariant(u: Unicode, a: string, b: string) {
    |a| == |b| && forall k :: 0 <= k < |a| ==> a[k] == b[k] || a[k] == u.toUpper(b[k])
  }

  lemma {:induction false} CaseVariantAppend(u: Unicode, a1: string, b1: string, a2: string, b2: string)
    requires CaseVariant(u, a1, b1) && CaseVariant(u, a2, b2)
    ensures CaseVariant(u, a1 + a2, b1 + b2)
  {
    forall k | |a1| <= k < |a1| + |a2|
      ensures (a1 + a2)[k] == a2[k - |a1|] && (b1 + b2)[k] == b2[k - |a1|]
    {
    }
  }

  /** Capitalizing every word and gluing them only upper-cases some of the
      glued characters. */
  lemma {:induction false} CapitalizeAllIsCaseVariant(u: Unicode, ws: seq<string>)
    ensures CaseVariant(u, Concat(CapitalizeAll(u, ws)), Concat(ws))
  {
    if ws != [] {
      var tail := CapitalizeAll(u, ws[1..]);
      assert CapitalizeAll(u, ws) == [Capitalize(u, ws[0])] + tail;
      ConcatCons(Capitalize(u, ws[0]), tail);
      CapitalizeAllIsCaseVariant(u, ws[1..]);
      assert CaseVariant(u, Capitalize(u, ws[0]), ws[0]) by {
        if ws[0] != [] {
          assert forall k :: 1 <= k < |ws[0]| ==> Capitalize(u, ws[0])[k] == ws[0][1..][k - 1];
        }
      }
      CaseVariantAppend(u, Capitalize(u, ws[0]), ws[0], Concat(tail), Concat(ws[1..]));
    }
  }

  /** The camelCase form keeps every letter and digit of the lower-cased
      input, in order, and nothing else: each character is the word
      character at its position, unchanged or upper-cased. It opens with the
      first word unchanged and is empty exactly when there is no word. */
  lemma {:induction false} CamelCaseShape(u: Unicode, s: string)
    requires WellFormed(u)
    ensures var wc := WordChars(u, LowerString(u, s)); var r := ToCamelCase(u, s);
      |r| == |wc| && forall k :: 0 <= k < |r| ==> r[k] == wc[k] || r[k] == u.toUpper(wc[k])
    ensures ToCamelCase(u, s) == [] <==> WordChars(u, LowerString(u, s)) == []
    ensures var ws := SplitWordsCore(u, LowerString(u, s));
      ws != [] ==> ToCamelCase(u, s)[..|ws[0]|] == ws[0]
  {
    var lower := LowerString(u, s);
    var ws := SplitWordsCore(u, lower);
    SplitWordsCoreKeepsWordChars(u, lower);
    SplitWordsCoreEmptyIff(u, lower);
    if ws != [] {
      CapitalizeAllIsCaseVariant(u, ws[1..]);
      assert CaseVariant(u, ws[0], ws[0]);
      CaseVariantAppend(u, ws[0], ws[0], Concat(CapitalizeAll(u, ws[1..])), Concat(ws[1..]));
      assert Concat(ws) == ws[0] + Concat(ws[1..]);
    }
  }

  lemma {:induction false} CapitalizeAppend(u: Unicode, w: string, t: string)
    requires w != []
    ensures Capitalize(u, w + t) == Capitalize(u, w) + t
  {
    assert (w + t)[0] == w[0] && (w + t)[1..] == w[1..] + t;
  }

  lemma {:induction false} CapitalizeGlued(u: Unicode, ws: seq<string>)
    requires ws != [] && ws[0] != []
    ensures Concat(CapitalizeAll(u, ws)) == Capitalize(u, ws[0] + Concat(CapitalizeAll(u, ws[1..])))
  {
    var head, tail := Capitalize(u, ws[0]), CapitalizeAll(u, ws[1..]);
    assert CapitalizeAll(u, ws) == [head] + tail;
    ConcatCons(head, tail);
    CapitalizeAppend(u, ws[0], Concat(tail));
  }

  /** PascalCase is camelCase with its first letter capitalized. */
  lemma {:induction false} PascalIsCapitalizedCamel(u: Unicode, s: string)
    ensures ToPascalCase(u, s) == Capitalize(u, ToCamelCase(u, s))
  {
    var ws := SplitWordsCore(u, LowerString(u, s));
    if ws != [] {
      WordsAreNonEmpty(u, LowerString(u, s));
      CapitalizeGlued(u, ws);
    }
  }

  /** Splitting snake_case on `_` gives back one lower-cased word per word
      of the input, unless a word itself turned into something holding `_`;
      no word gives the empty string. */
  lemma {:induction false} SnakeCaseSplitsBack(u: Unicode, s: string)
    requires forall w :: w in SplitWordsCore(u, s) ==> '_' !in LowerString(u, u.stripDiacritics(w))
    ensures var ws := SplitWordsCore(u, s);
      (ws == [] ==> ToSnakeCase(u, s) == []) &&
      (ws != [] ==> SplitOnChar(ToSnakeCase(u, s), '_') == LowerParts(u, ws))
  {
    var ws := SplitWordsCore(u, s);
    if ws != [] {
      var parts := LowerParts(u, ws);
      forall k | 0 <= k < |parts|
        ensures '_' !in parts[k]
      {
        assert ws[k] in ws;
      }
      SplitOnCharOfJoin(parts, '_');
    }
  }

  /** Splitting kebab-case on `-` gives back one lower-cased word per word
      of the input, unless a word itself turned into something holding `-`. */
  lemma {:induction false} KebabCaseSplitsBack(u: Unicode, s: string)
    requires forall w :: w in SplitWordsCore(u, s) ==> '-' !in LowerString(u, u.stripDiacritics(w))
    ensures var ws := SplitWordsCore(u, s);
      (ws == [] ==> ToKebabCase(u, s) == []) &&
      (ws != [] ==> SplitOnChar(ToKebabCase(u, s), '-') == LowerParts(u, ws))
  {
    var ws := SplitWordsCore(u, s);
    if ws != [] {
      var parts := LowerParts(u, ws);
      forall k | 0 <= k < |parts|
        ensures '-' !in parts[k]
      {
        assert ws[k] in ws;
      }
      SplitOnCharOfJoin(parts, '-');
    }
  }

  /** Splitting CONSTANT_CASE on `_` gives back one upper-cased word per
      word of the input, unless a word itself turned into something holding
      `_`. */
  lemma {:induction false} ConstantCaseSplitsBack(u: Unicode, s: string)
    requires forall w :: w in SplitWordsCore(u, s) ==> '_' !in UpperString(u, u.stripDiacritics(w))
    ensures var ws := SplitWordsCore(u, s);
      (ws == [] ==> ToConstantCase(u, s) == []) &&
      (ws != [] ==> SplitOnChar(ToConstantCase(u, s), '_') == UpperParts(u, ws))
  {
    var ws := SplitWordsCore(u, s);
    if ws != [] {
      var parts := UpperParts(u, ws);
      forall k | 0 <= k < |parts|
        ensures '_' !in parts[k]
      {
        assert ws[k] in ws;
      }
      SplitOnCharOfJoin(parts, '_');
    }
  }

  /** snake_case and kebab-case are the same words with different glue:
      where no word holds either separator, the fields agree one for one. */
  lemma {:induction false} SnakeAndKebabAgree(u: Unicode, s: string)
    requires forall w :: w in SplitWordsCore(u, s) ==>
      '_' !in LowerString(u, u.stripDiacritics(w)) && '-' !in LowerString(u, u.stripDiacritics(w))
    ensures SplitOnChar(ToSnakeCase(u, s), '_') == SplitOnChar(ToKebabCase(u, s), '-')
  {
    SnakeCaseSplitsBack(u, s);
    KebabCaseSplitsBack(u, s);
  }
}
