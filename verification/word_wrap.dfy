/** `wordWrap(input, options)` of src/index.ts: a greedy line filler that
    works line by line and token by token, optionally breaking words longer
    than the width into chunks. The specification is a fold of `Step` over
    the tokens of every line; `WordWrap` is the imperative version, with the
    `out` array and the `current` accumulator as local variables, proved
    equal to it. */
module WordWrap {
  import opened JsString

  /** The options record with its defaults filled in. */
  datatype WrapOptions = WrapOptions(width: int, breakLongWords: bool, indent: string, newline: string)

  /** The lines pushed so far and the line being filled. */
  datatype WrapState = WrapState(out: seq<string>, current: string)

  /** `s.split(/\r\n?|\n/)`: the lines between CRLF, CR and LF terminators;
      the empty string is one empty line. */
  function SplitLines(s: string): (r: seq<string>)
    ensures r != []
  {
    if s == [] then [[]]
    else if s[0] == '\n' then [[]] + SplitLines(s[1..])
    else if s[0] == '\r' then
      if |s| > 1 && s[1] == '\n' then [[]] + SplitLines(s[2..]) else [[]] + SplitLines(s[1..])
    else
      var rest := SplitLines(s[1..]);
      [[s[0]] + rest[0]] + rest[1..]
  }

  /** Every token is free of white space or made of white space only. */
  predicate AreRuns(tokens: seq<string>) {
    forall k :: 0 <= k < |tokens| ==> NoWhitespace(tokens[k]) || AllWhitespace(tokens[k])
  }

  /** `line.split(/(\s+)/)`: the fields between white-space runs, each run
      kept as a token of its own between them; a field may be empty. */
  function Tokens(s: string): (r: seq<string>)
    ensures r != []
    decreases |s|
  {
    var i := RunLength(s, false);
    if i == |s| then [s]
    else
      var j := i + RunLength(s[i..], true);
      [s[..i], s[i..j]] + Tokens(s[j..])
  }

  /** The tokens alternate between fields and white-space runs. */
  lemma {:induction false} TokensAreRuns(s: string)
    ensures AreRuns(Tokens(s))
    decreases |s|
  {
    var i := RunLength(s, false);
    if i == |s| {
      assert Tokens(s) == [s];
      assert NoWhitespace(s);
    } else {
      var j := i + RunLength(s[i..], true);
      TokensStep(s, i, j);
      TokensAreRuns(s[j..]);
      RunsAtStart(s, i, j);
      AreRunsPair(s[..i], s[i..j], Tokens(s[j..]));
    }
  }

  /** The field and the white-space run a line's tokens start with. */
  lemma {:induction false} RunsAtStart(s: string, i: nat, j: nat)
    requires i == RunLength(s, false) < |s|
    requires j == i + RunLength(s[i..], true)
    ensures NoWhitespace(s[..i]) && AllWhitespace(s[i..j])
  {
    assert s[i..j] == s[i..][..j - i];
  }

  lemma {:induction false} AreRunsPair(a: string, b: string, rest: seq<string>)
    requires NoWhitespace(a) && AllWhitespace(b) && AreRuns(rest)
    ensures AreRuns([a, b] + rest)
  {
    assert forall k :: 2 <= k < |rest| + 2 ==> ([a, b] + rest)[k] == rest[k - 2];
  }

  /** The chunking loop `for (let i = 0; i < rest.length; i += width)`:
      every full chunk of `width` characters becomes a line of its own, a
      shorter last chunk becomes the line being filled. */
  function Chunks(o: WrapOptions, st: WrapState, rest: string): (r: WrapState)
    requires o.width > 0
    decreases |rest|
  {
    if rest == [] then st
    else if |rest| >= o.width then
      Chunks(o, WrapState(st.out + [o.indent + rest[..o.width]], st.current), rest[o.width..])
    else WrapState(st.out, rest)
  }

  /** One pass of the token loop. */
  function Step(o: WrapOptions, st: WrapState, token: string): WrapState
    requires o.width > 0
  {
    if token == [] then st
    else if |st.current| + |token| <= o.width || |st.current| == 0 then
      WrapState(st.out, st.current + token)
    else if NoWhitespace(token) then
      if o.breakLongWords && |token| > o.width then
        var spaceLeft := o.width - |st.current|;
        if spaceLeft > 0 then
          Chunks(o, WrapState(st.out + [o.indent + (st.current + token[..spaceLeft])], []), token[spaceLeft..])
        else
          Chunks(o, st, token)
      else
        WrapState(st.out + [o.indent + TrimEnd(st.current)], token)
    else
      WrapState(st.out + [o.indent + TrimEnd(st.current)], [])
  }

  /** The state after the first `|tokens|` passes of the token loop. */
  function StepAll(o: WrapOptions, st: WrapState, tokens: seq<string>): WrapState
    requires o.width > 0
  {
    if tokens == [] then st
    else Step(o, StepAll(o, st, tokens[..|tokens| - 1]), tokens[|tokens| - 1])
  }

  /** One pass of the line loop: fill the line's tokens starting from an
      empty `current`, then push what is left. */
  function WrapLine(o: WrapOptions, out: seq<string>, line: string): seq<string>
    requires o.width > 0
  {
    var st := StepAll(o, WrapState(out, []), Tokens(line));
    st.out + [o.indent + TrimEnd(st.current)]
  }

  /** The `out` array after the first `|lines|` passes of the line loop. */
  function WrapLines(o: WrapOptions, lines: seq<string>): seq<string>
    requires o.width > 0
  {
    if lines == [] then []
    else WrapLine(o, WrapLines(o, lines[..|lines| - 1]), lines[|lines| - 1])
  }

  /** `wordWrap(input, options)`: a width of zero or less only prefixes the
      indent; otherwise the wrapped lines joined with `newline`. */
  function Wrap(o: WrapOptions, input: string): (r: string)
    ensures o.width <= 0 ==> r == o.indent + input
  {
    if o.width <= 0 then o.indent + input
    else Join(WrapLines(o, SplitLines(input)), o.newline)
  }

  // ---------------------------------------------------------------------
  // The imperative version

  /** The chunking loop, on the caller's `out` and `current`. */
  method PushChunks(o: WrapOptions, out0: seq<string>, current0: string, rest: string)
    returns (out: seq<string>, current: string)
    requires o.width > 0
    ensures WrapState(out, current) == Chunks(o, WrapState(out0, current0), rest)
  {
    out, current := out0, current0;
    var i := 0;
    while i < |rest|
      invariant 0 <= i
      invariant Chunks(o, WrapState(out, current), SliceFrom(rest, i)) == Chunks(o, WrapState(out0, current0), rest)
      decreases |rest| - i
    {
      var chunk := Slice(rest, i, i + o.width);
      assert SliceFrom(rest, i) == rest[i..];
      if |chunk| == o.width {
        assert rest[i..][..o.width] == chunk && rest[i..][o.width..] == SliceFrom(rest, i + o.width);
        out := out + [o.indent + chunk];
      } else {
        assert chunk == rest[i..] && SliceFrom(rest, i + o.width) == [];
        current := chunk;
      }
      i := i + o.width;
    }
    assert SliceFrom(rest, i) == [];
  }

  /** One pass of the line loop of `wordWrap`: the token loop, which pushes
      finished lines onto `out` and refills `current`, then the push of the
      last line. */
  method WrapOneLine(o: WrapOptions, out0: seq<string>, line: string) returns (out: seq<string>)
    requires o.width > 0
    ensures out == WrapLine(o, out0, line)
  {
    out := out0;
    var current: string := [];
    var tokens := Tokens(line);
    for ti := 0 to |tokens|
      invariant WrapState(out, current) == StepAll(o, WrapState(out0, []), tokens[..ti])
    {
      var token := tokens[ti];
      StepAllAt(o, WrapState(out0, []), tokens, ti);
      ghost var next := Step(o, WrapState(out, current), token);
      if token == [] {
        continue;
      }
      if |current| + |token| <= o.width || |current| == 0 {
        current := current + token;
        continue;
      }
      if NoWhitespace(token) {
        if o.breakLongWords && |token| > o.width {
          var spaceLeft := o.width - |current|;
          if spaceLeft > 0 {
            current := current + Slice(token, 0, spaceLeft);
            out := out + [o.indent + current];
            current := [];
            var rest := SliceFrom(token, spaceLeft);
            out, current := PushChunks(o, out, current, rest);
          } else {
            out, current := PushChunks(o, out, current, token);
          }
        } else {
          out := out + [o.indent + TrimEnd(current)];
          current := token;
        }
      } else {
        out := out + [o.indent + TrimEnd(current)];
        current := [];
      }
    }
    assert tokens[..|tokens|] == tokens;
    out := out + [o.indent + TrimEnd(current)];
  }

  lemma {:induction false} StepAllAt(o: WrapOptions, st: WrapState, tokens: seq<string>, n: nat)
    requires o.width > 0 && n < |tokens|
    ensures StepAll(o, st, tokens[..n + 1]) == Step(o, StepAll(o, st, tokens[..n]), tokens[n])
  {
    assert tokens[..n + 1][..n] == tokens[..n];
  }

  /** `wordWrap(input, options)`: the width check, then the line loop. */
  method WordWrap(input: string, o: WrapOptions) returns (r: string)
    ensures r == Wrap(o, input)
  {
    if o.width <= 0 {
      return o.indent + input;
    }
    var out: seq<string> := [];
    var lines := SplitLines(input);
    for li := 0 to |lines|
      invariant out == WrapLines(o, lines[..li])
    {
      assert lines[..li + 1][..li] == lines[..li];
      out := WrapOneLine(o, out, lines[li]);
    }
    assert lines[..|lines|] == lines;
    r := Join(out, o.newline);
  }

  // ---------------------------------------------------------------------
  // The shape of every output line

  /** A line as `wordWrap` pushes it: the indent, then content that is
      empty or ends in a character other than white space, and that fits
      the width unless it is one word with no white space in it. */
  predicate GoodLine(o: WrapOptions, l: string) {
    StartsWith(l, o.indent) &&
    var c := l[|o.indent|..];
    (c == [] || !IsWhitespace(c[|c| - 1])) && (|c| <= o.width || NoWhitespace(c))
  }

  /** What the token loop keeps true of `current`: it fits the width, or
      it is a single word, or it is white space only. */
  predicate CurrentOk(o: WrapOptions, c: string) {
    |c| <= o.width || NoWhitespace(c) || AllWhitespace(c)
  }

  predicate GoodState(o: WrapOptions, st: WrapState) {
    (forall l :: l in st.out ==> GoodLine(o, l)) && CurrentOk(o, st.current)
  }

  lemma {:induction false} GoodPush(o: WrapOptions, c: string)
    requires c == [] || !IsWhitespace(c[|c| - 1])
    requires |c| <= o.width || NoWhitespace(c)
    ensures GoodLine(o, o.indent + c)
  {
    assert (o.indent + c)[..|o.indent|] == o.indent;
    assert (o.indent + c)[|o.indent|..] == c;
  }

  /** The content `indent + current.trimEnd()` that ends every line fits
      the width or is one word. */
  lemma {:induction false} GoodTrimmedPush(o: WrapOptions, c: string)
    requires CurrentOk(o, c)
    ensures GoodLine(o, o.indent + TrimEnd(c))
  {
    var t := TrimEnd(c);
    if NoWhitespace(c) {
      assert forall k :: 0 <= k < |t| ==> t[k] == c[k];
    }
    GoodPush(o, t);
  }

  lemma {:induction false} ChunksKeepGood(o: WrapOptions, st: WrapState, rest: string)
    requires o.width > 0 && GoodState(o, st) && NoWhitespace(rest)
    ensures GoodState(o, Chunks(o, st, rest))
    ensures |Chunks(o, st, rest).out| >= |st.out|
    decreases |rest|
  {
    if rest != [] && |rest| >= o.width {
      var chunk := rest[..o.width];
      assert chunk[|chunk| - 1] == rest[o.width - 1];
      assert forall k :: 0 <= k < |chunk| ==> chunk[k] == rest[k];
      GoodPush(o, chunk);
      var next := WrapState(st.out + [o.indent + chunk], st.current);
      assert forall k :: 0 <= k < |rest| - o.width ==> rest[o.width..][k] == rest[k + o.width];
      ChunksKeepGood(o, next, rest[o.width..]);
    }
  }

  lemma {:induction false} BrokenWordKeepsGood(o: WrapOptions, st: WrapState, token: string)
    requires o.width > 0 && GoodState(o, st) && NoWhitespace(token) && token != []
    requires 0 < o.width - |st.current| < |token|
    ensures var spaceLeft := o.width - |st.current|;
      GoodState(o, Chunks(o, WrapState(st.out + [o.indent + (st.current + token[..spaceLeft])], []), token[spaceLeft..]))
    ensures var spaceLeft := o.width - |st.current|;
      |Chunks(o, WrapState(st.out + [o.indent + (st.current + token[..spaceLeft])], []), token[spaceLeft..]).out| >= |st.out|
  {
    var spaceLeft := o.width - |st.current|;
    var head := st.current + token[..spaceLeft];
    assert head[|head| - 1] == token[spaceLeft - 1];
    GoodPush(o, head);
    assert forall k :: 0 <= k < |token| - spaceLeft ==> token[spaceLeft..][k] == token[k + spaceLeft];
    ChunksKeepGood(o, WrapState(st.out + [o.indent + head], []), token[spaceLeft..]);
  }

  lemma {:induction false} StepKeepsGood(o: WrapOptions, st: WrapState, token: string)
    requires o.width > 0 && GoodState(o, st)
    requires NoWhitespace(token) || AllWhitespace(token)
    ensures GoodState(o, Step(o, st, token))
    ensures |Step(o, st, token).out| >= |st.out|
  {
    if token == [] {
    } else if |st.current| + |token| <= o.width || |st.current| == 0 {
      if |st.current| == 0 {
        assert st.current + token == token;
      }
    } else if NoWhitespace(token) {
      if o.breakLongWords && |token| > o.width {
        if o.width - |st.current| > 0 {
          BrokenWordKeepsGood(o, st, token);
        } else {
          ChunksKeepGood(o, st, token);
        }
      } else {
        GoodTrimmedPush(o, st.current);
      }
    } else {
      GoodTrimmedPush(o, st.current);
    }
  }

  lemma {:induction false} StepAllKeepsGood(o: WrapOptions, st: WrapState, tokens: seq<string>)
    requires o.width > 0 && GoodState(o, st)
    requires AreRuns(tokens)
    ensures GoodState(o, StepAll(o, st, tokens))
    ensures |StepAll(o, st, tokens).out| >= |st.out|
  {
    if tokens != [] {
      var init := tokens[..|tokens| - 1];
      assert forall k :: 0 <= k < |init| ==> init[k] == tokens[k];
      StepAllKeepsGood(o, st, init);
      StepKeepsGood(o, StepAll(o, st, init), tokens[|tokens| - 1]);
    }
  }

  lemma {:induction false} WrapLineKeepsGood(o: WrapOptions, out: seq<string>, line: string)
    requires o.width > 0 && forall l :: l in out ==> GoodLine(o, l)
    ensures forall l :: l in WrapLine(o, out, line) ==> GoodLine(o, l)
    ensures |WrapLine(o, out, line)| > |out|
  {
    var st := StepAll(o, WrapState(out, []), Tokens(line));
    TokensAreRuns(line);
    StepAllKeepsGood(o, WrapState(out, []), Tokens(line));
    GoodTrimmedPush(o, st.current);
  }

  lemma {:induction false} WrapLinesGood(o: WrapOptions, lines: seq<string>)
    requires o.width > 0
    ensures forall l :: l in WrapLines(o, lines) ==> GoodLine(o, l)
    ensures |WrapLines(o, lines)| >= |lines|
  {
    if lines != [] {
      WrapLinesGood(o, lines[..|lines| - 1]);
      WrapLineKeepsGood(o, WrapLines(o, lines[..|lines| - 1]), lines[|lines| - 1]);
    }
  }

  /** For a positive width, `wordWrap` joins at least one output line per
      input line, and every output line is the indent followed by content
      that does not end in white space and that fits the width unless it is
      a single word with no white space in it. */
  lemma {:induction false} WrapShape(o: WrapOptions, input: string)
    requires o.width > 0
    ensures var ls := WrapLines(o, SplitLines(input));
      Wrap(o, input) == Join(ls, o.newline) &&
      |ls| >= |SplitLines(input)| &&
      forall l :: l in ls ==> GoodLine(o, l)
  {
    WrapLinesGood(o, SplitLines(input));
  }

  // ---------------------------------------------------------------------
  // No word is lost when long words are not broken

  /** The output lines with their indent taken off. */
  function Contents(o: WrapOptions, ls: seq<string>): (r: seq<string>)
    ensures |r| == |ls| && forall k :: 0 <= k < |ls| ==> r[k] == SliceFrom(ls[k], |o.indent|)
  {
    seq(|ls|, k requires 0 <= k < |ls| => SliceFrom(ls[k], |o.indent|))
  }

  /** The text held by a state: its finished lines without their indent,
      then the line being filled. */
  function Held(o: WrapOptions, st: WrapState): string {
    Concat(Contents(o, st.out)) + st.current
  }

  lemma {:induction false} ContentsPush(o: WrapOptions, out: seq<string>, c: string)
    ensures Concat(Contents(o, out + [o.indent + c])) == Concat(Contents(o, out)) + c
  {
    assert Contents(o, out + [o.indent + c]) == Contents(o, out) + [c];
    ConcatAppend(Contents(o, out), [c]);
    assert Concat([c]) == c + Concat([]);
  }

  /** Pushing `current.trimEnd()` and starting afresh with `next` keeps
      every character other than white space, in order. */
  lemma {:induction false} PushTrimmedKeepsContent(o: WrapOptions, st: WrapState, next: string)
    ensures NonWhitespace(Held(o, WrapState(st.out + [o.indent + TrimEnd(st.current)], next))) ==
      NonWhitespace(Held(o, st)) + NonWhitespace(next)
  {
    var prefix := Concat(Contents(o, st.out));
    ContentsPush(o, st.out, TrimEnd(st.current));
    NonWhitespaceAppend(prefix + TrimEnd(st.current), next);
    NonWhitespaceAppend(prefix, TrimEnd(st.current));
    NonWhitespaceAppend(prefix, st.current);
    TrimEndKeepsNonWhitespace(st.current);
  }

  /** Chunking starting from an empty line being filled keeps every
      character of the chunked word, in order. */
  lemma {:induction false} ChunksKeepContent(o: WrapOptions, st: WrapState, rest: string)
    requires o.width > 0 && st.current == []
    ensures Held(o, Chunks(o, st, rest)) == Concat(Contents(o, st.out)) + rest
    decreases |rest|
  {
    var prefix := Concat(Contents(o, st.out));
    if rest == [] {
      assert prefix + [] == prefix;
    } else if |rest| >= o.width {
      var next := WrapState(st.out + [o.indent + rest[..o.width]], st.current);
      ContentsPush(o, st.out, rest[..o.width]);
      ChunksKeepContent(o, next, rest[o.width..]);
      assert rest == rest[..o.width] + rest[o.width..];
    }
  }

  /** A pass of the token loop that does not break words keeps every
      character other than white space, in order. */
  lemma {:induction false} StepKeepsContent(o: WrapOptions, st: WrapState, token: string)
    requires o.width > 0 && !o.breakLongWords
    requires NoWhitespace(token) || AllWhitespace(token)
    ensures NonWhitespace(Held(o, Step(o, st, token))) == NonWhitespace(Held(o, st)) + NonWhitespace(token)
  {
    var prefix := Concat(Contents(o, st.out));
    if token == [] {
      assert NonWhitespace(Held(o, st)) + [] == NonWhitespace(Held(o, st));
    } else if |st.current| + |token| <= o.width || |st.current| == 0 {
      assert prefix + (st.current + token) == Held(o, st) + token;
      NonWhitespaceAppend(Held(o, st), token);
    } else if NoWhitespace(token) {
      PushTrimmedKeepsContent(o, st, token);
    } else {
      PushTrimmedKeepsContent(o, st, []);
      NonWhitespaceOfAllWhitespace(token);
    }
  }

  lemma {:induction false} StepAllKeepsContent(o: WrapOptions, st: WrapState, tokens: seq<string>)
    requires o.width > 0 && !o.breakLongWords
    requires AreRuns(tokens)
    ensures NonWhitespace(Held(o, StepAll(o, st, tokens))) == NonWhitespace(Held(o, st)) + NonWhitespace(Concat(tokens))
  {
    if tokens == [] {
      assert NonWhitespace(Held(o, st)) + [] == NonWhitespace(Held(o, st));
    } else {
      var init, last := tokens[..|tokens| - 1], tokens[|tokens| - 1];
      assert forall k :: 0 <= k < |init| ==> init[k] == tokens[k];
      assert tokens == init + [last];
      calc {
        NonWhitespace(Held(o, StepAll(o, st, tokens)));
        NonWhitespace(Held(o, Step(o, StepAll(o, st, init), last)));
        { StepKeepsContent(o, StepAll(o, st, init), last); }
        NonWhitespace(Held(o, StepAll(o, st, init))) + NonWhitespace(last);
        { StepAllKeepsContent(o, st, init); }
        NonWhitespace(Held(o, st)) + NonWhitespace(Concat(init)) + NonWhitespace(last);
        { NonWhitespaceConcatSnoc(init, last); }
        NonWhitespace(Held(o, st)) + NonWhitespace(Concat(tokens));
      }
    }
  }

  lemma {:induction false} TokensStep(s: string, i: nat, j: nat)
    requires i == RunLength(s, false) < |s|
    requires j == i + RunLength(s[i..], true)
    ensures Tokens(s) == [s[..i], s[i..j]] + Tokens(s[j..])
  {

  }

  lemma {:induction false} SlicesJoin(s: string, i: nat, j: nat)
    requires i <= j <= |s|
    ensures s[..i] + (s[i..j] + s[j..]) == s
  {
    assert s[i..j] + s[j..] == s[i..];
  }

  lemma {:induction false} TokensKeepLine(s: string)
    ensures Concat(Tokens(s)) == s
    decreases |s|
  {
    var i := RunLength(s, false);
    if i == |s| {
      ConcatCons(s, []);
    } else {
      var j := i + RunLength(s[i..], true);
      TokensStep(s, i, j);
      TokensKeepLine(s[j..]);
      ConcatPair(s[..i], s[i..j], Tokens(s[j..]));
      SlicesJoin(s, i, j);
    }
  }

  lemma {:induction false} WrapLineKeepsContent(o: WrapOptions, out: seq<string>, line: string)
    requires o.width > 0 && !o.breakLongWords
    ensures NonWhitespace(Concat(Contents(o, WrapLine(o, out, line)))) ==
      NonWhitespace(Concat(Contents(o, out))) + NonWhitespace(line)
  {
    var start := WrapState(out, []);
    var st := StepAll(o, start, Tokens(line));
    TokensAreRuns(line);
    StepAllKeepsContent(o, start, Tokens(line));
    TokensKeepLine(line);
    assert Held(o, start) == Concat(Contents(o, out));
    PushTrimmedKeepsContent(o, st, []);
    assert Held(o, WrapState(WrapLine(o, out, line), [])) == Concat(Contents(o, WrapLine(o, out, line)));
    assert NonWhitespace(Held(o, st)) + [] == NonWhitespace(Held(o, st));
  }

  lemma {:induction false} WrapLinesKeepContent(o: WrapOptions, lines: seq<string>)
    requires o.width > 0 && !o.breakLongWords
    ensures NonWhitespace(Concat(Contents(o, WrapLines(o, lines)))) == NonWhitespace(Concat(lines))
  {
    if lines != [] {
      var init, last := lines[..|lines| - 1], lines[|lines| - 1];
      assert lines == init + [last];
      calc {
        NonWhitespace(Concat(Contents(o, WrapLines(o, lines))));
        NonWhitespace(Concat(Contents(o, WrapLine(o, WrapLines(o, init), last))));
        { WrapLineKeepsContent(o, WrapLines(o, init), last); }
        NonWhitespace(Concat(Contents(o, WrapLines(o, init)))) + NonWhitespace(last);
        { WrapLinesKeepContent(o, init); }
        NonWhitespace(Concat(init)) + NonWhitespace(last);
        { NonWhitespaceConcatSnoc(init, last); }
        NonWhitespace(Concat(lines));
      }
    }
  }

  lemma {:induction false} ConcatEmptyCons(parts: seq<string>)
    ensures Concat([[]] + parts) == Concat(parts)
  {
    assert ([[]] + parts)[1..] == parts;
  }

  /** The line terminators that `split(/\r\n?|\n/)` removes are white
      space, so splitting into lines keeps every other character. */
  lemma {:induction false} SplitLinesKeepContent(s: string)
    ensures NonWhitespace(Concat(SplitLines(s))) == NonWhitespace(s)
  {
    if s == [] {
    } else if s[0] == '\n' || (s[0] == '\r' && !(|s| > 1 && s[1] == '\n')) {
      SplitLinesKeepContent(s[1..]);
      ConcatEmptyCons(SplitLines(s[1..]));
    } else if s[0] == '\r' {
      SplitLinesKeepContent(s[2..]);
      ConcatEmptyCons(SplitLines(s[2..]));
      assert s[1..][1..] == s[2..];
    } else {
      var rest := SplitLines(s[1..]);
      SplitLinesKeepContent(s[1..]);
      calc {
        Concat(SplitLines(s));
        Concat([[s[0]] + rest[0]] + rest[1..]);
        ([s[0]] + rest[0]) + Concat(rest[1..]);
        [s[0]] + (rest[0] + Concat(rest[1..]));
        [s[0]] + Concat(rest);
      }
      NonWhitespaceAppend([s[0]], Concat(rest));
      NonWhitespaceAppend([s[0]], s[1..]);
      assert s == [s[0]] + s[1..];
    }
  }

  /** When long words are not broken, the output lines, their indent taken
      off, hold exactly the characters of the input other than white
      space, in order: wrapping only moves line breaks and white space. */
  lemma {:induction false} WrapKeepsContent(o: WrapOptions, input: string)
    requires o.width > 0 && !o.breakLongWords
    ensures NonWhitespace(Concat(Contents(o, WrapLines(o, SplitLines(input))))) == NonWhitespace(input)
  {
    WrapLinesKeepContent(o, SplitLines(input));
    SplitLinesKeepContent(input);
  }

  // ---------------------------------------------------------------------
  // A word broken when the line being filled is already full

  /** The token loop as it was evidently meant to be: when a long word is
      broken and the line being filled has no room left, that line is
      pushed first, as every other branch that starts a new line does. */
  function StepCorrected(o: WrapOptions, st: WrapState, token: string): WrapState
    requires o.width > 0
  {
    if token != [] && !(|st.current| + |token| <= o.width || |st.current| == 0) &&
       NoWhitespace(token) && o.breakLongWords && |token| > o.width && o.width - |st.current| <= 0
    then Chunks(o, WrapState(st.out + [o.indent + TrimEnd(st.current)], []), token)
    else Step(o, st, token)
  }

  /** With the correction, a pass of the token loop keeps every character
      other than white space, in order, whether long words are broken or
      not. */
  lemma {:induction false} StepCorrectedKeepsContent(o: WrapOptions, st: WrapState, token: string)
    requires o.width > 0
    requires NoWhitespace(token) || AllWhitespace(token)
    ensures NonWhitespace(Held(o, StepCorrected(o, st, token))) == NonWhitespace(Held(o, st)) + NonWhitespace(token)
  {
    if token == [] || |st.current| + |token| <= o.width || |st.current| == 0 ||
       !NoWhitespace(token) || !o.breakLongWords || |token| <= o.width {
      assert StepCorrected(o, st, token) == Step(o, st, token);
      StepWithoutBreakKeepsContent(o, st, token);
    } else if o.width - |st.current| > 0 {
      var spaceLeft := o.width - |st.current|;
      var pushed := WrapState(st.out + [o.indent + (st.current + token[..spaceLeft])], []);
      assert StepCorrected(o, st, token) == Chunks(o, pushed, token[spaceLeft..]);
      BreakWithRoomKeepsContent(o, st, token, spaceLeft);
    } else {
      var pushed := WrapState(st.out + [o.indent + TrimEnd(st.current)], []);
      assert StepCorrected(o, st, token) == Chunks(o, pushed, token);
      ChunksKeepContent(o, pushed, token);
      PushTrimmedKeepsContent(o, st, token);
    }
  }

  /** A pass that does not reach the branch breaking a long word behaves
      as it would with `breakLongWords` off. */
  lemma {:induction false} StepWithoutBreakKeepsContent(o: WrapOptions, st: WrapState, token: string)
    requires o.width > 0
    requires NoWhitespace(token) || AllWhitespace(token)
    requires token == [] || |st.current| + |token| <= o.width || |st.current| == 0 ||
       !NoWhitespace(token) || !o.breakLongWords || |token| <= o.width
    ensures NonWhitespace(Held(o, Step(o, st, token))) == NonWhitespace(Held(o, st)) + NonWhitespace(token)
  {
    var plain := o.(breakLongWords := false);
    assert Step(o, st, token) == Step(plain, st, token);
    assert Held(o, st) == Held(plain, st);
    assert Held(o, Step(o, st, token)) == Held(plain, Step(plain, st, token));
    StepKeepsContent(plain, st, token);
  }

  /** Filling the line being filled with the head of a long word and
      chunking the rest keeps every character of the word. */
  lemma {:induction false} BreakWithRoomKeepsContent(o: WrapOptions, st: WrapState, token: string, spaceLeft: int)
    requires o.width > 0 && 0 < spaceLeft <= |token|
    ensures var pushed := WrapState(st.out + [o.indent + (st.current + token[..spaceLeft])], []);
      NonWhitespace(Held(o, Chunks(o, pushed, token[spaceLeft..]))) == NonWhitespace(Held(o, st)) + NonWhitespace(token)
  {
    var head, tail := token[..spaceLeft], token[spaceLeft..];
    var pushed := WrapState(st.out + [o.indent + (st.current + head)], []);
    var prefix := Concat(Contents(o, st.out));
    calc {
      Held(o, Chunks(o, pushed, tail));
      { ChunksKeepContent(o, pushed, tail); }
      Concat(Contents(o, pushed.out)) + tail;
      { ContentsPush(o, st.out, st.current + head); }
      prefix + (st.current + head) + tail;
      { assert head + tail == token; }
      (prefix + st.current) + token;
    }
    NonWhitespaceAppend(Held(o, st), token);
  }

  /** The lines of the full `width`-character chunks of `s`, in order,
      each prefixed with the indent (`FullChunkAt` says which characters). */
  function FullChunks(o: WrapOptions, s: string): (r: seq<string>)
    requires o.width > 0
    ensures forall k :: 0 <= k < |r| ==> |r[k]| == |o.indent| + o.width
    decreases |s|
  {
    if |s| < o.width then [] else [o.indent + s[..o.width]] + FullChunks(o, s[o.width..])
  }

  /** How many characters of `s` the full chunks take: a multiple of
      `width` (`ConsumedByFullChunks`) that leaves fewer than `width`. */
  function Consumed(o: WrapOptions, s: string): (n: nat)
    requires o.width > 0
    ensures n <= |s| < n + o.width
    decreases |s|
  {
    if |s| < o.width then 0 else o.width + Consumed(o, s[o.width..])
  }

  lemma {:induction false} ConsumedByFullChunks(o: WrapOptions, s: string)
    requires o.width > 0
    ensures Consumed(o, s) == |FullChunks(o, s)| * o.width
    decreases |s|
  {
    if |s| >= o.width {
      var n := |FullChunks(o, s[o.width..])|;
      ConsumedByFullChunks(o, s[o.width..]);
      MulBounds(n, n + 1, o.width);
    }
  }

  /** Chunk `k` is the indent followed by characters `k * width` up to
      `(k + 1) * width` of `s`. */
  lemma {:induction false} FullChunkAt(o: WrapOptions, s: string, k: nat)
    requires o.width > 0 && k < |FullChunks(o, s)|
    ensures (k + 1) * o.width <= |s|
    ensures FullChunks(o, s)[k] == o.indent + s[k * o.width..(k + 1) * o.width]
    decreases k
  {
    var w := o.width;
    ConsumedByFullChunks(o, s);
    MulBounds(k, |FullChunks(o, s)|, w);
    if k > 0 {
      var rest := FullChunks(o, s[w..]);
      assert FullChunks(o, s)[k] == rest[k - 1];
      FullChunkAt(o, s[w..], k - 1);
      MulBounds(k - 1, k, w);
      var a, b := (k - 1) * w, k * w;
      assert s[w..][a..b] == s[b..b + w];
    }
  }

  /** The chunking loop pushes the full chunks and nothing else; a shorter
      last chunk replaces `current`, and with none `current` is kept. */
  lemma {:induction false} ChunksShape(o: WrapOptions, st: WrapState, rest: string)
    requires o.width > 0
    ensures var r := Chunks(o, st, rest); var m := Consumed(o, rest);
      r.out == st.out + FullChunks(o, rest) &&
      r.current == if m == |rest| then st.current else rest[m..]
    decreases |rest|
  {
    var w := o.width;
    if |rest| >= w {
      var line := o.indent + rest[..w];
      var st' := WrapState(st.out + [line], st.current);
      var tail := FullChunks(o, rest[w..]);
      ChunksShape(o, st', rest[w..]);
      AppendAssoc(st.out, [line], tail);
      var m' := Consumed(o, rest[w..]);
      if m' < |rest[w..]| {
        assert rest[w..][m'..] == rest[m' + w..];
      }
    } else if rest != [] {
      assert rest[0..] == rest;
    }
  }

  lemma MulBounds(k: int, n: int, w: int)
    requires 0 <= k < n && w > 0
    ensures 0 <= k * w && k * w + w == (k + 1) * w <= n * w
  {
  }

  lemma {:induction false} AppendAssoc<T>(x: seq<T>, y: seq<T>, z: seq<T>)
    ensures x + (y + z) == (x + y) + z
  {
  }

  /** As written, breaking a long word when the line being filled is
      already full pushes the word's full chunks and nothing else: the line
      being filled is never pushed. When the word is not a whole number of
      chunks, its last chunk replaces that line, which is lost; otherwise
      the line stays and comes out after the chunks. */
  lemma {:induction false} StepDropsFullLine(o: WrapOptions, st: WrapState, t: string)
    requires o.width > 0 && |st.current| >= o.width
    requires NoWhitespace(t) && o.breakLongWords && |t| > o.width
    ensures var r := Step(o, st, t); var m := Consumed(o, t);
      r.out == st.out + FullChunks(o, t) &&
      r.current == if m == |t| then st.current else t[m..]
  {
    StepBreaksOverFullLine(o, st, t);
    ChunksShape(o, st, t);
  }

  // ---------------------------------------------------------------------
  // Examples

  lemma {:induction false} SplitLinesOfOneLine(s: string)
    requires '\n' !in s && '\r' !in s
    ensures SplitLines(s) == [s]
  {
    if s != [] {
      SplitLinesOfOneLine(s[1..]);
      assert [s[0]] + s[1..] == s;
    }
  }

  lemma {:induction false} TokensOfWord(w: string)
    requires NoWhitespace(w)
    ensures Tokens(w) == [w]
  {
    RunLengthOfField(w, []);
    assert w + [] == w;
  }

  lemma {:induction false} TokensOfGap(w: string, gap: string, rest: string)
    requires NoWhitespace(w) && gap != [] && AllWhitespace(gap)
    requires rest == [] || !IsWhitespace(rest[0])
    ensures Tokens(w + gap + rest) == [w, gap] + Tokens(rest)
  {
    var s := w + gap + rest;
    assert s == w + (gap + rest);
    RunLengthOfField(w, gap + rest);
    assert s[|w|..] == gap + rest;
    RunLengthOfGap(gap, rest);
    assert s[..|w|] == w && s[|w|..|w| + |gap|] == gap && s[|w| + |gap|..] == rest;
  }

  lemma {:induction false} RunLengthOfGap(gap: string, rest: string)
    requires AllWhitespace(gap) && (rest == [] || !IsWhitespace(rest[0]))
    ensures RunLength(gap + rest, true) == |gap|
  {
    if gap == [] {
      assert gap + rest == rest;
    } else {
      assert (gap + rest)[0] == gap[0] && (gap + rest)[1..] == gap[1..] + rest;
      RunLengthOfGap(gap[1..], rest);
    }
  }

  lemma {:induction false} TokensCons(w: string, gap: string, rest: string, tail: seq<string>)
    requires NoWhitespace(w) && gap != [] && AllWhitespace(gap)
    requires rest == [] || !IsWhitespace(rest[0])
    requires Tokens(rest) == tail
    ensures Tokens(w + gap + rest) == [w, gap] + tail
  {
    TokensOfGap(w, gap, rest);
  }

  lemma {:induction false} StepAllSnoc(o: WrapOptions, st: WrapState, tokens: seq<string>, t: string)
    requires o.width > 0
    ensures StepAll(o, st, tokens + [t]) == Step(o, StepAll(o, st, tokens), t)
  {
    assert (tokens + [t])[..|tokens|] == tokens;
  }

  lemma {:induction false} TrimEndOfWordThenGap(w: string, gap: string)
    requires w != [] && !IsWhitespace(w[|w| - 1]) && AllWhitespace(gap)
    ensures TrimEnd(w + gap) == w
  {
    if gap == [] {
      assert w + gap == w;
    } else {
      assert (w + gap)[..|w + gap| - 1] == w + gap[..|gap| - 1];
      TrimEndOfWordThenGap(w, gap[..|gap| - 1]);
    }
  }

  /** A word with no room on a line where it would be alone is still taken
      whole, even when long words are to be broken: a line made of one word
      comes out as that word behind the indent, whatever the width. */
  lemma {:induction false} LoneWordIsKept(o: WrapOptions, w: string)
    requires o.width > 0 && w != [] && NoWhitespace(w)
    ensures Wrap(o, w) == o.indent + w
  {
    assert w[0] in w;
    SplitLinesOfOneLine(w);
    TokensOfWord(w);
    StepAllSnoc(o, WrapState([], []), [], w);
    assert [] + [w] == [w];
    assert StepAll(o, WrapState([], []), [w]) == WrapState([], w);
    TrimEndOfWordThenGap(w, []);
    assert WrapLines(o, [w]) == [o.indent + w] by {
      assert [w][..0] == [];
    }
  }

  /** A token that fits, or meets an empty line, is appended. */
  lemma {:induction false} StepAppends(o: WrapOptions, st: WrapState, t: string)
    requires o.width > 0 && t != [] && (|st.current| + |t| <= o.width || st.current == [])
    ensures Step(o, st, t) == WrapState(st.out, st.current + t)
  {
  }

  /** A word that does not fit, and is not to be broken, starts a new
      line. */
  lemma {:induction false} StepWordStartsLine(o: WrapOptions, st: WrapState, t: string)
    requires o.width > 0 && t != [] && st.current != [] && |st.current| + |t| > o.width
    requires NoWhitespace(t) && !o.breakLongWords
    ensures Step(o, st, t) == WrapState(st.out + [o.indent + TrimEnd(st.current)], t)
  {
  }

  /** The greedy fill of four words whose lengths are 3, 5, 5 and 3 at
      width 10: the first two share a line and so do the last two. */
  lemma {:induction false} TwoLineFill(o: WrapOptions, a: string, b: string, c: string, d: string, sp: string)
    requires o.width == 10 && !o.breakLongWords
    requires NoWhitespace(a) && NoWhitespace(b) && NoWhitespace(c) && NoWhitespace(d)
    requires |a| == 3 && |b| == 5 && |c| == 5 && |d| == 3 && sp == " "
    ensures StepAll(o, WrapState([], []), [a, sp] + ([b, sp] + ([c, sp] + [d]))) == WrapState([o.indent + (a + sp + b)], c + sp + d)
  {
    var st := WrapState([], []);
    var t1 := [] + [a];
    var t2 := t1 + [sp];
    var t3 := t2 + [b];
    var t4 := t3 + [sp];
    var t5 := t4 + [c];
    var t6 := t5 + [sp];
    var t7 := t6 + [d];
    assert StepAll(o, st, t1) == WrapState([], a) by {
      StepAllSnoc(o, st, [], a);
      StepAppends(o, st, a);
    }
    assert StepAll(o, st, t2) == WrapState([], a + sp) by {
      StepAllSnoc(o, st, t1, sp);
      StepAppends(o, WrapState([], a), sp);
    }
    assert StepAll(o, st, t3) == WrapState([], a + sp + b) by {
      StepAllSnoc(o, st, t2, b);
      StepAppends(o, WrapState([], a + sp), b);
    }
    assert StepAll(o, st, t4) == WrapState([], a + sp + b + sp) by {
      StepAllSnoc(o, st, t3, sp);
      StepAppends(o, WrapState([], a + sp + b), sp);
    }
    var out := [o.indent + (a + sp + b)];
    assert StepAll(o, st, t5) == WrapState(out, c) by {
      StepAllSnoc(o, st, t4, c);
      StepWordStartsLine(o, WrapState([], a + sp + b + sp), c);
      TrimEndOfWordThenGap(a + sp + b, sp);
    }
    assert StepAll(o, st, t6) == WrapState(out, c + sp) by {
      StepAllSnoc(o, st, t5, sp);
      StepAppends(o, WrapState(out, c), sp);
    }
    assert StepAll(o, st, t7) == WrapState(out, c + sp + d) by {
      StepAllSnoc(o, st, t6, d);
      StepAppends(o, WrapState(out, c + sp), d);
    }
    assert t7 == [a, sp] + ([b, sp] + ([c, sp] + [d]));
  }

  /** The output for an input with no line terminator in it, from the
      state its tokens leave. */
  lemma {:induction false} WrapOfOneLine(o: WrapOptions, line: string, tokens: seq<string>, st: WrapState)
    requires o.width > 0 && '\n' !in line && '\r' !in line
    requires Tokens(line) == tokens && StepAll(o, WrapState([], []), tokens) == st
    ensures Wrap(o, line) == Join(st.out + [o.indent + TrimEnd(st.current)], o.newline)
  {
    SplitLinesOfOneLine(line);
    assert [line][..0] == [];
    assert WrapLines(o, [line]) == WrapLine(o, [], line);
    assert WrapLine(o, [], line) == st.out + [o.indent + TrimEnd(st.current)];
  }

  /** The output for an input with no line terminator in it whose tokens
      leave one finished line and a last line with no white space at its
      end. */
  lemma {:induction false} WrapOfTwoLines(o: WrapOptions, line: string, tokens: seq<string>, x: string, y: string)
    requires o.width > 0 && '\n' !in line && '\r' !in line
    requires Tokens(line) == tokens && StepAll(o, WrapState([], []), tokens) == WrapState([o.indent + x], y)
    requires TrimEnd(y) == y
    ensures Wrap(o, line) == o.indent + x + o.newline + o.indent + y
  {
    WrapOfOneLine(o, line, tokens, WrapState([o.indent + x], y));
    assert [o.indent + x] + [o.indent + y] == [o.indent + x, o.indent + y];
  }

  lemma {:induction false} FourWordTokens(a: string, b: string, c: string, d: string, sp: string)
    requires NoWhitespace(a) && NoWhitespace(b) && NoWhitespace(c) && NoWhitespace(d)
    requires b != [] && c != [] && d != [] && sp == " "
    ensures Tokens(a + sp + (b + sp + (c + sp + d))) == [a, sp] + ([b, sp] + ([c, sp] + [d]))
  {
    TokensOfWord(d);
    TokensCons(c, sp, d, [d]);
    TokensCons(b, sp, c + sp + d, [c, sp] + [d]);
    TokensCons(a, sp, b + sp + (c + sp + d), [b, sp] + ([c, sp] + [d]));
  }

  lemma {:induction false} NoLineBreak(s: string)
    requires NoWhitespace(s)
    ensures '\n' !in s && '\r' !in s
  {
  }

  lemma {:induction false} WrapFourWords(o: WrapOptions, a: string, b: string, c: string, d: string, sp: string)
    requires o.width == 10 && !o.breakLongWords
    requires NoWhitespace(a) && NoWhitespace(b) && NoWhitespace(c) && NoWhitespace(d)
    requires |a| == 3 && |b| == 5 && |c| == 5 && |d| == 3 && sp == " "
    ensures Wrap(o, a + sp + (b + sp + (c + sp + d))) == o.indent + (a + sp + b) + o.newline + o.indent + (c + sp + d)
  {
    FourWordFacts(o, a, b, c, d, sp);
    FourWordTokens(a, b, c, d, sp);
    TwoLineFill(o, a, b, c, d, sp);
    WrapOfTwoLines(o, a + sp + (b + sp + (c + sp + d)), [a, sp] + ([b, sp] + ([c, sp] + [d])), a + sp + b, c + sp + d);
  }

  lemma {:induction false} FourWordFacts(o: WrapOptions, a: string, b: string, c: string, d: string, sp: string)
    requires o.width == 10 && !o.breakLongWords
    requires NoWhitespace(a) && NoWhitespace(b) && NoWhitespace(c) && NoWhitespace(d)
    requires |a| == 3 && |b| == 5 && |c| == 5 && |d| == 3 && sp == " "
    ensures var line := a + sp + (b + sp + (c + sp + d));
      '\n' !in line && '\r' !in line
    ensures TrimEnd(c + sp + d) == c + sp + d
  {
    NoLineBreak(a);
    NoLineBreak(b);
    NoLineBreak(c);
    NoLineBreak(d);
    TrimEndOfWordThenGap(c + sp + d, []);
    assert c + sp + d + [] == c + sp + d;
  }

  /** `wordWrap('The quick brown fox', { width: 10 })` is
      `'The quick\nbrown fox'`. */
  lemma {:induction false} QuickBrownFoxExample(s: string)
    requires s == "The quick brown fox"
    ensures Wrap(WrapOptions(10, false, "", "\n"), s) == "The quick\nbrown fox"
  {
    var a, b, c, d, sp := QuickBrownFoxWords(s);
    QuickBrownFoxHasNoSpace();
    WrapFourWords(WrapOptions(10, false, "", "\n"), a, b, c, d, sp);
  }

  lemma {:induction false} QuickBrownFoxWords(s: string) returns (a: string, b: string, c: string, d: string, sp: string)
    requires s == "The quick brown fox"
    ensures a == "The" && b == "quick" && c == "brown" && d == "fox" && sp == " "
    ensures s == a + sp + (b + sp + (c + sp + d))
    ensures a + sp + b + "\n" + (c + sp + d) == "The quick\nbrown fox"
  {
    a, b, c, d, sp := s[..3], s[4..9], s[10..15], s[16..], s[3..4];
    assert a == "The" && b == "quick" && c == "brown" && d == "fox" && sp == " ";
    assert s == a + sp + (b + sp + (c + sp + d));
  }

  lemma {:induction false} QuickBrownFoxHasNoSpace()
    ensures NoWhitespace("The") && NoWhitespace("quick") && NoWhitespace("brown") && NoWhitespace("fox")
  {
  }

  /** When a long word is broken, the line being filled is already full. */
  lemma {:induction false} StepBreaksOverFullLine(o: WrapOptions, st: WrapState, t: string)
    requires o.width > 0 && st.current != [] && |st.current| >= o.width
    requires NoWhitespace(t) && o.breakLongWords && |t| > o.width
    ensures Step(o, st, t) == Chunks(o, st, t)
  {
  }

  /** The as-written branch on a whole line: a three-letter word, two spaces
      and a seven-letter word at width 5 with long words broken come out as
      the two chunks of the long word; the first word is lost. */
  lemma {:induction false} FullLineDropped(o: WrapOptions, a: string, gap: string, w: string)
    requires o.width == 5 && o.breakLongWords && o.indent == []
    requires NoWhitespace(a) && NoWhitespace(w) && AllWhitespace(gap)
    requires |a| == 3 && |gap| == 2 && |w| == 7 && '\n' !in gap && '\r' !in gap
    ensures Wrap(o, a + gap + w) == w[..5] + o.newline + w[5..]
  {
    TwoWordFacts(o, a, gap, w);
    WrapOfTwoLines(o, a + gap + w, [a, gap] + [w], w[..5], w[5..]);
  }

  lemma {:induction false} TwoWordFacts(o: WrapOptions, a: string, gap: string, w: string)
    requires o.width == 5 && o.breakLongWords && o.indent == []
    requires NoWhitespace(a) && NoWhitespace(w) && AllWhitespace(gap)
    requires |a| == 3 && |gap| == 2 && |w| == 7 && '\n' !in gap && '\r' !in gap
    ensures var line := a + gap + w;
      '\n' !in line && '\r' !in line
    ensures Tokens(a + gap + w) == [a, gap] + [w]
    ensures StepAll(o, WrapState([], []), [a, gap] + [w]) == WrapState([o.indent + w[..5]], w[5..])
    ensures TrimEnd(w[5..]) == w[5..]
    ensures o.indent + w[..5] == w[..5] && o.indent + w[5..] == w[5..]
  {
    LongWordOverFullLine(o, a, gap, w);
    TokensOfWord(w);
    TokensCons(a, gap, w, [w]);
    NoLineBreak(a);
    NoLineBreak(w);
    TrimEndOfWordThenGap(w[5..], []);
    assert w[5..] + [] == w[5..];
  }

  lemma {:induction false} LongWordOverFullLine(o: WrapOptions, a: string, gap: string, w: string)
    requires o.width == 5 && o.breakLongWords && o.indent == []
    requires NoWhitespace(w) && |a| == 3 && |gap| == 2 && |w| == 7
    ensures StepAll(o, WrapState([], []), [a, gap] + [w]) == WrapState([o.indent + w[..5]], w[5..])
  {
    var st := WrapState([], []);
    var t1 := [] + [a];
    var t2 := t1 + [gap];
    var t3 := t2 + [w];
    assert StepAll(o, st, t1) == WrapState([], a) by {
      StepAllSnoc(o, st, [], a);
      StepAppends(o, st, a);
    }
    assert StepAll(o, st, t2) == WrapState([], a + gap) by {
      StepAllSnoc(o, st, t1, gap);
      StepAppends(o, WrapState([], a), gap);
    }
    assert StepAll(o, st, t3) == WrapState([w[..5]], w[5..]) by {
      StepAllSnoc(o, st, t2, w);
      StepBreaksOverFullLine(o, WrapState([], a + gap), w);
      ChunksOfSeven(o, a + gap, w);
    }
    assert t3 == [a, gap] + [w];
    assert o.indent + w[..5] == w[..5];
  }

  /** A seven-letter word after a full line at width 5: one full chunk,
      and the last two letters left in `current`. */
  lemma {:induction false} ChunksOfSeven(o: WrapOptions, c: string, w: string)
    requires o.width == 5 && o.indent == [] && |w| == 7
    ensures Chunks(o, WrapState([], c), w) == WrapState([w[..5]], w[5..])
  {
    assert o.indent + w[..5] == w[..5];
    calc {
      Chunks(o, WrapState([], c), w);
      Chunks(o, WrapState([w[..5]], c), w[5..]);
      WrapState([w[..5]], w[5..]);
    }
  }

  /** `wordWrap('abc  defghij', { width: 5, breakLongWords: true })` is
      `'defgh\nij'`. */
  lemma {:induction false} FullLineDroppedExample(s: string)
    requires s == "abc  defghij"
    ensures Wrap(WrapOptions(5, true, "", "\n"), s) == "defgh\nij"
  {
    var a, gap, w := s[..3], s[3..5], s[5..];
    assert a == "abc" && gap == "  " && w == "defghij";
    assert s == a + gap + w;
    assert w[..5] + "\n" + w[5..] == "defgh\nij";
    FullLineDropped(WrapOptions(5, true, "", "\n"), a, gap, w);
  }

  /** A ten-letter word after a full line at width 5: two full chunks, and
      `current` left as it was. */
  lemma {:induction false} ChunksOfTen(o: WrapOptions, c: string, w: string)
    requires o.width == 5 && o.indent == [] && |w| == 10
    ensures Chunks(o, WrapState([], c), w) == WrapState([w[..5], w[5..]], c)
  {
    var v := w[5..];
    assert o.indent + w[..5] == w[..5] && o.indent + v[..5] == v;
    assert [] + [w[..5]] == [w[..5]] && [w[..5]] + [v] == [w[..5], v];
    assert Chunks(o, WrapState([], c), w) == Chunks(o, WrapState([w[..5]], c), v);
    assert v[5..] == [];
    assert Chunks(o, WrapState([w[..5]], c), v) == Chunks(o, WrapState([w[..5], v], c), []);
  }

  lemma {:induction false} LongWordAfterFullLine(o: WrapOptions, a: string, gap: string, w: string)
    requires o.width == 5 && o.breakLongWords && o.indent == []
    requires NoWhitespace(w) && |a| == 3 && |gap| == 2 && |w| == 10
    ensures StepAll(o, WrapState([], []), [a, gap] + [w]) == WrapState([w[..5], w[5..]], a + gap)
  {
    var st := WrapState([], []);
    var t1 := [] + [a];
    var t2 := t1 + [gap];
    var t3 := t2 + [w];
    assert StepAll(o, st, t1) == WrapState([], a) by {
      StepAllSnoc(o, st, [], a);
      StepAppends(o, st, a);
    }
    assert StepAll(o, st, t2) == WrapState([], a + gap) by {
      StepAllSnoc(o, st, t1, gap);
      StepAppends(o, WrapState([], a), gap);
    }
    assert StepAll(o, st, t3) == WrapState([w[..5], w[5..]], a + gap) by {
      StepAllSnoc(o, st, t2, w);
      StepBreaksOverFullLine(o, WrapState([], a + gap), w);
      ChunksOfTen(o, a + gap, w);
    }
    assert t3 == [a, gap] + [w];
  }

  /** The output for an input with no line terminator in it whose tokens
      leave two finished lines and a last line. */
  lemma {:induction false} WrapOfThreeLines(o: WrapOptions, line: string, tokens: seq<string>, x: string, y: string, c: string)
    requires o.width > 0 && '\n' !in line && '\r' !in line
    requires Tokens(line) == tokens && StepAll(o, WrapState([], []), tokens) == WrapState([x, y], c)
    ensures Wrap(o, line) == x + o.newline + (y + o.newline + (o.indent + TrimEnd(c)))
  {
    WrapOfOneLine(o, line, tokens, WrapState([x, y], c));
    var z := o.indent + TrimEnd(c);
    assert [x, y] + [z] == [x, y, z];
    JoinOfThree(x, y, z, o.newline);
  }

  lemma {:induction false} JoinOfThree(x: string, y: string, z: string, sep: string)
    ensures Join([x, y, z], sep) == x + sep + (y + sep + z)
  {
    assert [x, y, z][1..] == [y, z] && [y, z][1..] == [z];
    assert Join([z], sep) == z;
    assert Join([y, z], sep) == y + sep + z;
  }

  /** The as-written branch when the long word is a whole number of chunks:
      `current` is never overwritten, so the first word survives but comes
      out after the chunks of the word that followed it. */
  lemma {:induction false} FullLineReordered(o: WrapOptions, a: string, gap: string, w: string)
    requires o.width == 5 && o.breakLongWords && o.indent == []
    requires NoWhitespace(a) && NoWhitespace(w) && AllWhitespace(gap)
    requires |a| == 3 && |gap| == 2 && |w| == 10 && '\n' !in gap && '\r' !in gap
    ensures Wrap(o, a + gap + w) == w[..5] + o.newline + (w[5..] + o.newline + a)
  {
    var line := a + gap + w;
    assert '\n' !in line && '\r' !in line by {
      NoLineBreak(a);
      NoLineBreak(w);
    }
    assert Tokens(line) == [a, gap] + [w] by {
      TokensOfWord(w);
      TokensCons(a, gap, w, [w]);
    }
    LongWordAfterFullLine(o, a, gap, w);
    WrapOfThreeLines(o, line, [a, gap] + [w], w[..5], w[5..], a + gap);
    assert o.indent + TrimEnd(a + gap) == a by {
      TrimEndOfWordThenGap(a, gap);
    }
  }

  /** `wordWrap('abc  fghijklmno', { width: 5, breakLongWords: true })` is
      `'fghij\nklmno\nabc'`: the first word moves behind the second. */
  lemma {:induction false} FullLineReorderedExample(s: string)
    requires s == "abc  fghijklmno"
    ensures Wrap(WrapOptions(5, true, "", "\n"), s) == "fghij\nklmno\nabc"
  {
    var a, gap, w := s[..3], s[3..5], s[5..];
    assert a == "abc" && gap == "  " && w == "fghijklmno";
    assert s == a + gap + w;
    assert w[..5] + "\n" + (w[5..] + "\n" + a) == "fghij\nklmno\nabc";
    ReorderedWords(a, w);
    FullLineReordered(WrapOptions(5, true, "", "\n"), a, gap, w);
  }

  lemma {:induction false} ReorderedWords(a: string, w: string)
    requires a == "abc" && w == "fghijklmno"
    ensures NoWhitespace(a) && NoWhitespace(w)
  {
    LowercaseHasNoWhitespace(a);
    LowercaseHasNoWhitespace(w);
  }

  lemma {:induction false} LowercaseHasNoWhitespace(s: string)
    requires forall k :: 0 <= k < |s| ==> 'a' <= s[k] <= 'z'
    ensures NoWhitespace(s)
  {
  }
}
