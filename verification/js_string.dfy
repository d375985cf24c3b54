/** The JavaScript string primitives the library is built from, on `string`
    (`seq<char>`, one `char` per UTF-16 code unit): white space as `\s`,
    `trim` and `trimEnd` see it, `slice`, `repeat`, `indexOf`,
    `lastIndexOf`, `startsWith`/`endsWith`, `join`, `split` on white space
    and a global `replace` of a literal pattern. */
module JsString {

  /** A value or JavaScript's `null`. */
  datatype Option<T> = None | Some(value: T)

  /** The characters of ECMAScript's WhiteSpace and LineTerminator
      productions: what `\s`, `trim()` and `trimEnd()` treat as white space. */
  predicate IsWhitespace(c: char) {
    c == '\t' || c == '\n' || c == '\U{B}' || c == '\U{C}' || c == '\r' || c == ' ' ||
    c == '\U{A0}' || c == '\U{1680}' || ('\U{2000}' <= c <= '\U{200A}') ||
    c == '\U{2028}' || c == '\U{2029}' || c == '\U{202F}' || c == '\U{205F}' ||
    c == '\U{3000}' || c == '\U{FEFF}'
  }

  predicate AllWhitespace(s: string) {
    forall k :: 0 <= k < |s| ==> IsWhitespace(s[k])
  }

  predicate NoWhitespace(s: string) {
    forall k :: 0 <= k < |s| ==> !IsWhitespace(s[k])
  }

  /** The characters of `s` that are not white space, in order. */
  function NonWhitespace(s: string): string
  {
    if s == [] then []
    else if IsWhitespace(s[0]) then NonWhitespace(s[1..])
    else [s[0]] + NonWhitespace(s[1..])
  }

  lemma {:induction false} NonWhitespaceAppend(s: string, t: string)
    ensures NonWhitespace(s + t) == NonWhitespace(s) + NonWhitespace(t)
  {
    if s != [] {
      assert (s + t)[0] == s[0];
      assert (s + t)[1..] == s[1..] + t;
      NonWhitespaceAppend(s[1..], t);
    } else {
      assert s + t == t;
    }
  }

  lemma {:induction false} NonWhitespaceOfAllWhitespace(s: string)
    requires AllWhitespace(s)
    ensures NonWhitespace(s) == []
  {
    if s != [] {
      NonWhitespaceOfAllWhitespace(s[1..]);
    }
  }

  lemma {:induction false} NonWhitespaceOfNoWhitespace(s: string)
    requires NoWhitespace(s)
    ensures NonWhitespace(s) == s
  {
    if s != [] {
      NonWhitespaceOfNoWhitespace(s[1..]);
    }
  }

  /** Where `s.slice(k)` starts reading for an index `k`: a negative index
      counts from the end, and the result is clamped to `[0, len]`. */
  function RelativeIndex(k: int, len: nat): (r: nat)
    ensures r <= len
    ensures 0 <= k <= len ==> r == k
    ensures k < 0 ==> r == if len + k < 0 then 0 else len + k
    ensures k > len ==> r == len
  {
    if k < 0 then (if len + k < 0 then 0 else len + k)
    else if k > len then len
    else k
  }

  /** `s.slice(start, end)` (also `Array.prototype.slice`). */
  function Slice<T>(s: seq<T>, start: int, end: int): (r: seq<T>)
    ensures 0 <= start <= end <= |s| ==> r == s[start..end]
    ensures |r| <= |s|
  {
    var from, to := RelativeIndex(start, |s|), RelativeIndex(end, |s|);
    if from < to then s[from..to] else []
  }

  /** `s.slice(0, end)` is the prefix up to the clamped end. */
  lemma {:induction false} SlicePrefix<T>(s: seq<T>, end: int)
    ensures Slice(s, 0, end) == s[..RelativeIndex(end, |s|)]
  {
  }

  /** `s.slice(start)`. */
  function SliceFrom<T>(s: seq<T>, start: int): (r: seq<T>)
    ensures 0 <= start <= |s| ==> r == s[start..]
    ensures start >= |s| ==> r == []
  {
    Slice(s, start, |s|)
  }

  /** `s.repeat(n)` for a non-negative count. */
  function Repeat(s: string, n: nat): (r: string)
    ensures |r| == n * |s|
    ensures |s| == 1 ==> forall k :: 0 <= k < |r| ==> r[k] == s[0]
  {
    if n == 0 then [] else s + Repeat(s, n - 1)
  }

  predicate StartsWith(s: string, prefix: string) {
    |prefix| <= |s| && s[..|prefix|] == prefix
  }

  predicate EndsWith(s: string, suffix: string) {
    |suffix| <= |s| && s[|s| - |suffix|..] == suffix
  }

  /** `pat` occurs in `s` at position `k`. */
  predicate OccursAt(s: string, pat: string, k: int) {
    0 <= k && k + |pat| <= |s| && s[k..k + |pat|] == pat
  }

  /** Where `s.indexOf(pat, from)` starts looking: `from` clamped to
      `[0, len]`. */
  function SearchStart(from: int, len: nat): (r: nat)
    ensures r <= len
    ensures 0 <= from <= len ==> r == from
  {
    if from < 0 then 0 else if from > len then len else from
  }

  /** `s.indexOf(pat, from)`: the first occurrence at or after `from`
      (clamped to `[0, |s|]`), or -1; `IndexOfIsFirst` states which. */
  function IndexOf(s: string, pat: string, from: int): (r: int)
    ensures r == -1 || (SearchStart(from, |s|) <= r && r + |pat| <= |s|)
    decreases |s| - SearchStart(from, |s|), 1
  {
    FirstOccurrence(s, pat, SearchStart(from, |s|))
  }

  /** One step of the scan behind `indexOf`: a match at `k`, or the
      search from `k + 1` on. */
  function FirstOccurrence(s: string, pat: string, k: nat): (r: int)
    requires k <= |s|
    ensures r == -1 || (k <= r && r + |pat| <= |s|)
    decreases |s| - k, 0
  {
    if k + |pat| > |s| then -1
    else if s[k..k + |pat|] == pat then k
    else IndexOf(s, pat, k + 1)
  }

  lemma {:induction false} FirstOccurrenceIsFirst(s: string, pat: string, k: nat)
    requires k <= |s|
    ensures var r := FirstOccurrence(s, pat, k);
      (r != -1 ==> OccursAt(s, pat, r) && forall j :: k <= j < r ==> !OccursAt(s, pat, j)) &&
      (r == -1 ==> forall j :: k <= j ==> !OccursAt(s, pat, j))
    decreases |s| - k
  {
    if k + |pat| <= |s| && s[k..k + |pat|] != pat {
      FirstOccurrenceIsFirst(s, pat, k + 1);
      assert FirstOccurrence(s, pat, k) == FirstOccurrence(s, pat, k + 1);
    }
  }

  /** `indexOf` returns an occurrence with none before it from the start
      position on, and -1 exactly when there is none at all. */
  lemma {:induction false} IndexOfIsFirst(s: string, pat: string, from: int)
    ensures var r := IndexOf(s, pat, from);
      (r != -1 ==> OccursAt(s, pat, r) && forall j :: SearchStart(from, |s|) <= j < r ==> !OccursAt(s, pat, j)) &&
      (r == -1 <==> forall j :: SearchStart(from, |s|) <= j ==> !OccursAt(s, pat, j))
  {
    FirstOccurrenceIsFirst(s, pat, SearchStart(from, |s|));
  }

  /** `s.lastIndexOf(c)` for a one-character search string. */
  function LastIndexOf(s: string, c: char): (r: int)
    ensures -1 <= r < |s|
    ensures r == -1 <==> c !in s
    ensures r != -1 ==> s[r] == c && forall k :: r < k < |s| ==> s[k] != c
  {
    if s == [] then -1
    else if s[|s| - 1] == c then |s| - 1
    else
      assert s == s[..|s| - 1] + [s[|s| - 1]];
      LastIndexOf(s[..|s| - 1], c)
  }

  /** `s.trimEnd()`. */
  function TrimEnd(s: string): (r: string)
    ensures |r| <= |s| && r == s[..|r|]
    ensures AllWhitespace(s[|r|..])
    ensures r == [] || !IsWhitespace(r[|r| - 1])
  {
    if s != [] && IsWhitespace(s[|s| - 1]) then
      var r := TrimEnd(s[..|s| - 1]);
      assert s[|r|..] == s[..|s| - 1][|r|..] + [s[|s| - 1]];
      AllWhitespaceAppend(s[..|s| - 1][|r|..], [s[|s| - 1]]);
      r
    else s
  }

  /** `s.trimStart()`. */
  function TrimStart(s: string): (r: string)
    ensures |r| <= |s| && r == s[|s| - |r|..]
    ensures AllWhitespace(s[..|s| - |r|])
    ensures r == [] || !IsWhitespace(r[0])
  {
    if s != [] && IsWhitespace(s[0]) then
      var r := TrimStart(s[1..]);
      assert s[..|s| - |r|] == [s[0]] + s[1..][..|s| - 1 - |r|];
      AllWhitespaceAppend([s[0]], s[1..][..|s| - 1 - |r|]);
      r
    else s
  }

  lemma {:induction false} AllWhitespaceAppend(a: string, b: string)
    requires AllWhitespace(a) && AllWhitespace(b)
    ensures AllWhitespace(a + b)
  {
    forall k | 0 <= k < |a + b|
      ensures IsWhitespace((a + b)[k])
    {
      if k < |a| {
        assert (a + b)[k] == a[k];
      } else {
        assert (a + b)[k] == b[k - |a|];
      }
    }
  }

  /** `s.trim()`. */
  function Trim(s: string): (r: string)
    ensures r == [] <==> AllWhitespace(s)
    ensures r != [] ==> !IsWhitespace(r[0]) && !IsWhitespace(r[|r| - 1])
  {
    TrimStart(TrimEnd(s))
  }

  /** Trimming drops white space only. */
  lemma {:induction false} TrimEndKeepsNonWhitespace(s: string)
    ensures NonWhitespace(TrimEnd(s)) == NonWhitespace(s)
  {
    var r := TrimEnd(s);
    assert s == r + s[|r|..];
    NonWhitespaceAppend(r, s[|r|..]);
    NonWhitespaceOfAllWhitespace(s[|r|..]);
  }

  lemma {:induction false} TrimStartKeepsNonWhitespace(s: string)
    ensures NonWhitespace(TrimStart(s)) == NonWhitespace(s)
  {
    var r := TrimStart(s);
    var cut := s[..|s| - |r|];
    assert s == cut + r;
    NonWhitespaceAppend(cut, r);
    NonWhitespaceOfAllWhitespace(cut);
  }

  /** `parts.join(sep)`. */
  function Join(parts: seq<string>, sep: string): string {
    if parts == [] then []
    else if |parts| == 1 then parts[0]
    else parts[0] + sep + Join(parts[1..], sep)
  }

  /** `parts.join('')`. */
  function Concat(parts: seq<string>): string {
    if parts == [] then [] else parts[0] + Concat(parts[1..])
  }

  lemma {:induction false} ConcatCons(w: string, ws: seq<string>)
    ensures Concat([w] + ws) == w + Concat(ws)
  {
    assert ([w] + ws)[0] == w && ([w] + ws)[1..] == ws;
  }

  lemma {:induction false} ConcatPair(a: string, b: string, ws: seq<string>)
    ensures Concat([a, b] + ws) == a + (b + Concat(ws))
  {
    assert [a, b] + ws == [a] + ([b] + ws);
    ConcatCons(a, [b] + ws);
    ConcatCons(b, ws);
  }

  lemma {:induction false} ConcatAppend(p: seq<string>, q: seq<string>)
    ensures Concat(p + q) == Concat(p) + Concat(q)
  {
    if p != [] {
      assert (p + q)[0] == p[0];
      assert (p + q)[1..] == p[1..] + q;
      ConcatAppend(p[1..], q);
      assert Concat(p + q) == p[0] + (Concat(p[1..]) + Concat(q));
    } else {
      assert p + q == q;
    }
  }

  /** The characters other than white space of joined parts, one part more. */
  lemma {:induction false} NonWhitespaceConcatSnoc(parts: seq<string>, last: string)
    ensures NonWhitespace(Concat(parts + [last])) == NonWhitespace(Concat(parts)) + NonWhitespace(last)
  {
    ConcatAppend(parts, [last]);
    assert Concat([last]) == last + Concat([]);
    assert last + [] == last;
    NonWhitespaceAppend(Concat(parts), last);
  }

  /** Length of the longest prefix of `s` whose characters are white space
      exactly when `ws` is true. */
  function RunLength(s: string, ws: bool): (n: nat)
    ensures n <= |s|
    ensures if ws then AllWhitespace(s[..n]) else NoWhitespace(s[..n])
    ensures n < |s| ==> IsWhitespace(s[n]) != ws
  {
    if s != [] && IsWhitespace(s[0]) == ws then 1 + RunLength(s[1..], ws) else 0
  }

  /** `s.split(/\s+/)`: the fields between maximal white-space runs; a leading
      or trailing run gives an empty first or last field. */
  function SplitWhitespace(s: string): (r: seq<string>)
    ensures r != []
    decreases |s|
  {
    var i := RunLength(s, false);
    if i == |s| then [s]
    else
      var j := i + RunLength(s[i..], true);
      [s[..i]] + SplitWhitespace(s[j..])
  }

  /** No field of `SplitWhitespace(s)` holds white space. */
  lemma {:induction false} SplitWhitespaceFieldsHaveNoWhitespace(s: string)
    ensures var r := SplitWhitespace(s); forall k :: 0 <= k < |r| ==> NoWhitespace(r[k])
    decreases |s|
  {
    var i := RunLength(s, false);
    if i < |s| {
      var j := i + RunLength(s[i..], true);
      SplitWhitespaceUnfold(s, i, j);
      SplitWhitespaceFieldsHaveNoWhitespace(s[j..]);
    }
  }

  /** Every field of `SplitWhitespace(s)` is non-empty when `s` neither starts
      nor ends with white space. */
  lemma {:induction false} SplitWhitespaceFieldsNonEmpty(s: string)
    requires s != [] && !IsWhitespace(s[0]) && !IsWhitespace(s[|s| - 1])
    ensures forall w :: w in SplitWhitespace(s) ==> w != []
    decreases |s|
  {
    var i := RunLength(s, false);
    if i < |s| {
      var j := i + RunLength(s[i..], true);
      assert j < |s|;
      SplitWhitespaceFieldsNonEmpty(s[j..]);
    }
  }

  /** One step of `SplitWhitespace` on a string holding white space: a
      white-space-free field, the white-space run after it, and the rest. */
  lemma {:induction false} SplitWhitespaceStep(s: string) returns (field: string, gap: string, rest: string)
    requires RunLength(s, false) < |s|
    ensures s == field + gap + rest && gap != []
    ensures NoWhitespace(field) && AllWhitespace(gap)
    ensures SplitWhitespace(s) == [field] + SplitWhitespace(rest)
  {
    var i, j := SplitWhitespaceRuns(s);
    field, gap, rest := s[..i], s[i..j], s[j..];
    assert s == s[..i] + s[i..j] + s[j..];
  }

  /** The bounds of the first field and of the white-space run after it. */
  lemma {:induction false} SplitWhitespaceRuns(s: string) returns (i: nat, j: nat)
    requires RunLength(s, false) < |s|
    ensures i < j <= |s|
    ensures NoWhitespace(s[..i]) && AllWhitespace(s[i..j])
    ensures SplitWhitespace(s) == [s[..i]] + SplitWhitespace(s[j..])
  {
    i := RunLength(s, false);
    j := i + RunLength(s[i..], true);
    SplitWhitespaceUnfold(s, i, j);
    assert s[i..j] == s[i..][..j - i];
  }

  lemma {:induction false} SplitWhitespaceUnfold(s: string, i: nat, j: nat)
    requires i == RunLength(s, false) < |s|
    requires j == i + RunLength(s[i..], true)
    ensures SplitWhitespace(s) == [s[..i]] + SplitWhitespace(s[j..])
  {
  }

  lemma {:induction false} NonWhitespaceOfField(field: string, gap: string, rest: string)
    requires NoWhitespace(field) && AllWhitespace(gap)
    ensures NonWhitespace(field + gap + rest) == field + NonWhitespace(rest)
  {
    calc {
      NonWhitespace(field + gap + rest);
      { assert field + gap + rest == field + (gap + rest); }
      NonWhitespace(field + (gap + rest));
      { NonWhitespaceAppend(field, gap + rest); }
      NonWhitespace(field) + NonWhitespace(gap + rest);
      { NonWhitespaceOfNoWhitespace(field); }
      field + NonWhitespace(gap + rest);
      { NonWhitespaceAppend(gap, rest); NonWhitespaceOfAllWhitespace(gap); }
      field + NonWhitespace(rest);
    }
  }

  /** Splitting on white space keeps every non-white-space character, in order. */
  lemma {:induction false} SplitWhitespaceKeepsContent(s: string)
    ensures Concat(SplitWhitespace(s)) == NonWhitespace(s)
    decreases |s|
  {
    if RunLength(s, false) == |s| {
      assert SplitWhitespace(s) == [s];
      assert Concat([s]) == s + Concat([]);
      NonWhitespaceOfNoWhitespace(s);
    } else {
      var field, gap, rest := SplitWhitespaceStep(s);
      var tail := SplitWhitespace(rest);
      SplitWhitespaceKeepsContent(rest);
      NonWhitespaceOfField(field, gap, rest);
      assert ([field] + tail)[1..] == tail;
    }
  }

  lemma {:induction false} RunLengthOfField(w: string, rest: string)
    requires NoWhitespace(w) && (rest == [] || IsWhitespace(rest[0]))
    ensures RunLength(w + rest, false) == |w|
  {
    if w == [] {
      assert w + rest == rest;
    } else {
      assert (w + rest)[0] == w[0] && (w + rest)[1..] == w[1..] + rest;
      RunLengthOfField(w[1..], rest);
    }
  }

  /** Joining non-empty parts gives a non-empty string that starts with the
      first character of the first part and ends with the last character of
      the last part. */
  lemma {:induction false} JoinEnds(parts: seq<string>, sep: string)
    requires parts != [] && forall k :: 0 <= k < |parts| ==> parts[k] != []
    ensures var r := Join(parts, sep); var last := parts[|parts| - 1];
      r != [] && r[0] == parts[0][0] && r[|r| - 1] == last[|last| - 1]
  {
    if |parts| > 1 {
      JoinEnds(parts[1..], sep);
    }
  }

  /** Splitting on white space undoes joining white-space-free, non-empty
      fields with one space. */
  lemma {:induction false} SplitWhitespaceOfJoin(parts: seq<string>)
    requires parts != []
    requires forall k :: 0 <= k < |parts| ==> parts[k] != [] && NoWhitespace(parts[k])
    ensures SplitWhitespace(Join(parts, " ")) == parts
  {
    if |parts| == 1 {
      RunLengthOfField(parts[0], []);
      assert parts[0] + [] == parts[0];
    } else {
      var w, tail := parts[0], Join(parts[1..], " ");
      assert Join(parts, " ") == w + " " + tail;
      assert tail != [] && !IsWhitespace(tail[0]) by {
        JoinEnds(parts[1..], " ");
        assert parts[1..][0] == parts[1] && NoWhitespace(parts[1]);
      }
      SplitWhitespaceOfFieldThenSpace(w, tail);
      assert SplitWhitespace(tail) == parts[1..] by {
        assert forall k :: 0 <= k < |parts| - 1 ==> parts[1..][k] == parts[k + 1];
        SplitWhitespaceOfJoin(parts[1..]);
      }
      assert parts == [w] + parts[1..];
    }
  }

  /** A field followed by one space and a string that starts with a
      non-white-space character splits there. */
  lemma {:induction false} SplitWhitespaceOfFieldThenSpace(w: string, tail: string)
    requires NoWhitespace(w) && tail != [] && !IsWhitespace(tail[0])
    ensures SplitWhitespace(w + " " + tail) == [w] + SplitWhitespace(tail)
  {
    var s := w + " " + tail;
    assert s == w + (" " + tail);
    RunLengthOfField(w, " " + tail);
    assert s[|w|..] == " " + tail;
    assert RunLength(" " + tail, true) == 1 by {
      assert (" " + tail)[1..] == tail;
    }
    assert s[|w| + 1..] == tail;
    assert s[..|w|] == w;
    SplitWhitespaceUnfold(s, |w|, |w| + 1);
  }

  /** `s.split(c)` for a one-character separator: the fields between the
      occurrences of `c`, the empty string giving one empty field. */
  function SplitOnChar(s: string, c: char): (r: seq<string>)
    ensures r != []
  {
    if s == [] then [[]]
    else
      var rest := SplitOnChar(s[1..], c);
      if s[0] == c then [[]] + rest else [[s[0]] + rest[0]] + rest[1..]
  }

  lemma {:induction false} SplitOnCharOfField(w: string, c: char, t: string)
    requires c !in w
    ensures var rest := SplitOnChar(t, c);
      SplitOnChar(w + t, c) == [w + rest[0]] + rest[1..]
  {
    if w == [] {
      var rest := SplitOnChar(t, c);
      assert w + t == t && w + rest[0] == rest[0];
      assert [rest[0]] + rest[1..] == rest;
    } else {
      assert (w + t)[0] == w[0] && (w + t)[1..] == w[1..] + t;
      SplitOnCharOfField(w[1..], c, t);
      assert [w[0]] + (w[1..] + SplitOnChar(t, c)[0]) == w + SplitOnChar(t, c)[0];
    }
  }

  /** Splitting on a character undoes joining with it, when no part holds
      that character. */
  lemma {:induction false} SplitOnCharOfJoin(parts: seq<string>, c: char)
    requires parts != []
    requires forall k :: 0 <= k < |parts| ==> c !in parts[k]
    ensures SplitOnChar(Join(parts, [c]), c) == parts
  {
    if |parts| == 1 {
      SplitOnCharOfField(parts[0], c, []);
      assert parts[0] + [] == parts[0];
    } else {
      var tail := Join(parts[1..], [c]);
      SplitOnCharOfJoin(parts[1..], c);
      assert ([c] + tail)[0] == c && ([c] + tail)[1..] == tail;
      assert SplitOnChar([c] + tail, c) == [[]] + parts[1..];
      SplitOnCharOfField(parts[0], c, [c] + tail);
      assert Join(parts, [c]) == parts[0] + ([c] + tail);
      assert parts[0] + [] == parts[0];
      assert parts == [parts[0]] + parts[1..];
    }
  }

  /** The parts of a split hold characters of the input and never the
      separator. */
  lemma {:induction false} SplitOnCharParts(s: string, c: char)
    ensures forall k, j :: 0 <= k < |SplitOnChar(s, c)| && 0 <= j < |SplitOnChar(s, c)[k]| ==>
      SplitOnChar(s, c)[k][j] != c && SplitOnChar(s, c)[k][j] in s
  {
    if s != [] {
      var rest := SplitOnChar(s[1..], c);
      SplitOnCharParts(s[1..], c);
      var r := SplitOnChar(s, c);
      forall k, j | 0 <= k < |r| && 0 <= j < |r[k]|
        ensures r[k][j] != c && r[k][j] in s
      {
        if s[0] == c {
          assert r[k] == rest[k - 1];
          PartChar(rest, s[1..], c, k - 1, j);
        } else if k == 0 && j == 0 {
          assert r[k][j] == s[0];
        } else if k == 0 {
          assert r[k][j] == rest[0][j - 1];
          PartChar(rest, s[1..], c, 0, j - 1);
        } else {
          assert r[k] == rest[k];
          PartChar(rest, s[1..], c, k, j);
        }
        assert s == [s[0]] + s[1..];
      }
    }
  }

  lemma {:induction false} PartChar(r: seq<string>, s: string, c: char, k: int, j: int)
    requires forall k, j :: 0 <= k < |r| && 0 <= j < |r[k]| ==> r[k][j] != c && r[k][j] in s
    requires 0 <= k < |r| && 0 <= j < |r[k]|
    ensures r[k][j] != c && r[k][j] in s
  {
  }

  /** `s.replace(/pat/g, rep)` for a literal, non-empty pattern: a
      left-to-right scan replacing non-overlapping occurrences. */
  function ReplaceAll(s: string, pat: string, rep: string): string
    requires pat != []
  {
    if |s| < |pat| then s
    else if s[..|pat|] == pat then rep + ReplaceAll(s[|pat|..], pat, rep)
    else [s[0]] + ReplaceAll(s[1..], pat, rep)
  }
}
