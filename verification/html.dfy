/** `escapeHtml` and `unescapeHtml` of src/index.ts: chains of global
    replacements of literal patterns. Escaping replaces `&` first, so every
    special character becomes its entity exactly once; unescaping replaces
    `&amp;` last, so an escaped entity is not decoded twice. */
module Html {
  import opened JsString

  /** The five characters `escapeHtml` rewrites. */
  predicate IsSpecial(c: char) {
    c == '&' || c == '<' || c == '>' || c == '"' || c == '\''
  }

  /** The entity `escapeHtml` writes for a character: a special character
      becomes its named or numeric entity, any other stays as it is. */
  function Entity(c: char): (r: string)
    ensures IsSpecial(c) <==> r != [c]
  {
    if c == '&' then "&amp;"
    else if c == '<' then "&lt;"
    else if c == '>' then "&gt;"
    else if c == '"' then "&quot;"
    else if c == '\'' then "&#39;"
    else [c]
  }

  /** `escapeHtml(input)`. */
  function EscapeHtml(s: string): string {
    ReplaceAll(ReplaceAll(ReplaceAll(ReplaceAll(ReplaceAll(
      s, "&", "&amp;"), "<", "&lt;"), ">", "&gt;"), "\"", "&quot;"), "'", "&#39;")
  }

  /** `unescapeHtml(input)`. */
  function UnescapeHtml(s: string): string {
    ReplaceAll(ReplaceAll(ReplaceAll(ReplaceAll(ReplaceAll(
      s, "&lt;", "<"), "&gt;", ">"), "&quot;", "\""), "&#39;", "'"), "&amp;", "&")
  }

  /** The reference definition of escaping: every character replaced by
      its entity, one at a time. */
  function EscapeChars(s: string): (r: string)
    ensures |r| >= |s|
  {
    if s == [] then [] else Entity(s[0]) + EscapeChars(s[1..])
  }

  // ---------------------------------------------------------------------
  // A global replacement over a string cut into pieces

  /** A piece of text that a scan for `pat` either replaces whole or steps
      over: it is the pattern, or it cannot hold the start of an occurrence
      (it lacks the pattern's first character, or has it only in front,
      followed by a character the pattern does not have there). */
  predicate PieceOk(p: string, pat: string)
    requires pat != []
  {
    p == pat || pat[0] !in p ||
    (|p| >= 2 && |pat| >= 2 && p[0] == pat[0] && p[1] != pat[1] && pat[0] !in p[1..])
  }

  /** Every piece that is the pattern replaced by `rep`. */
  function MapPieces(ps: seq<string>, pat: string, rep: string): (r: seq<string>)
    ensures |r| == |ps| && forall i :: 0 <= i < |ps| ==> r[i] == if ps[i] == pat then rep else ps[i]
  {
    if ps == [] then [] else [if ps[0] == pat then rep else ps[0]] + MapPieces(ps[1..], pat, rep)
  }

  lemma {:induction false} SkipPlain(x: string, rest: string, pat: string, rep: string)
    requires pat != [] && pat[0] !in x
    ensures ReplaceAll(x + rest, pat, rep) == x + ReplaceAll(rest, pat, rep)
  {
    var s := x + rest;
    if x == [] {
      assert s == rest;
    } else if |s| < |pat| {
      ShortIsKept(x, rest, pat, rep);
    } else {
      assert ReplaceAll(s, pat, rep) == [x[0]] + ReplaceAll(s[1..], pat, rep) by {
        assert s[..|pat|] != pat by {
          assert x[0] in x;
          assert s[..|pat|][0] == x[0];
        }
        StepOver(s, pat, rep);
      }
      assert ReplaceAll(s[1..], pat, rep) == x[1..] + ReplaceAll(rest, pat, rep) by {
        assert s[1..] == x[1..] + rest;
        assert pat[0] !in x[1..] by {
          assert forall k :: 0 <= k < |x| - 1 ==> x[1..][k] == x[k + 1];
        }
        SkipPlain(x[1..], rest, pat, rep);
      }
      calc {
        ReplaceAll(s, pat, rep);
        [x[0]] + (x[1..] + ReplaceAll(rest, pat, rep));
        { assert [x[0]] + x[1..] == x; }
        x + ReplaceAll(rest, pat, rep);
      }
    }
  }

  lemma {:induction false} PieceStep(p: string, rest: string, pat: string, rep: string)
    requires pat != [] && PieceOk(p, pat)
    ensures ReplaceAll(p + rest, pat, rep) == (if p == pat then rep else p) + ReplaceAll(rest, pat, rep)
  {
    if p == pat {
      PatternStep(rest, pat, rep);
    } else if pat[0] !in p {
      SkipPlain(p, rest, pat, rep);
    } else {
      MismatchStep(p, rest, pat, rep);
    }
  }

  lemma {:induction false} PatternStep(rest: string, pat: string, rep: string)
    requires pat != []
    ensures ReplaceAll(pat + rest, pat, rep) == rep + ReplaceAll(rest, pat, rep)
  {
    var s := pat + rest;
    assert s[..|pat|] == pat && s[|pat|..] == rest;
  }

  /** A piece that starts like the pattern but differs from it at its
      second character is stepped over. */
  lemma MismatchStep(p: string, rest: string, pat: string, rep: string)
    requires |p| >= 2 && |pat| >= 2 && p[0] == pat[0] && p[1] != pat[1] && pat[0] !in p[1..]
    ensures ReplaceAll(p + rest, pat, rep) == p + ReplaceAll(rest, pat, rep)
  {
    var s := p + rest;
    if |s| < |pat| {
      ShortIsKept(p, rest, pat, rep);
    } else {
      assert s[..|pat|] != pat by {
        assert s[..|pat|][1] == p[1];
      }
      StepOver(s, pat, rep);
      assert s[1..] == p[1..] + rest;
      SkipPlain(p[1..], rest, pat, rep);
      assert p == [p[0]] + p[1..];
    }
  }

  lemma {:induction false} ShortIsKept(p: string, rest: string, pat: string, rep: string)
    requires pat != [] && |p + rest| < |pat|
    ensures ReplaceAll(p + rest, pat, rep) == p + ReplaceAll(rest, pat, rep)
  {
    assert ReplaceAll(rest, pat, rep) == rest;
  }

  lemma {:induction false} StepOver(s: string, pat: string, rep: string)
    requires pat != [] && |s| >= |pat| && s[..|pat|] != pat
    ensures ReplaceAll(s, pat, rep) == [s[0]] + ReplaceAll(s[1..], pat, rep)
  {
  }

  /** The scan over a concatenation of pieces that are each replaced whole
      or stepped over is the concatenation of the replaced pieces. */
  lemma {:induction false} ReplaceOverPieces(ps: seq<string>, pat: string, rep: string)
    requires pat != [] && forall i :: 0 <= i < |ps| ==> PieceOk(ps[i], pat)
    ensures ReplaceAll(Concat(ps), pat, rep) == Concat(MapPieces(ps, pat, rep))
  {
    if ps != [] {
      PieceStep(ps[0], Concat(ps[1..]), pat, rep);
      ReplaceOverPieces(ps[1..], pat, rep);
    }
  }

  // ---------------------------------------------------------------------
  // The stages of escaping and unescaping

  /** A character after the escaping passes for the characters in `done`. */
  function Encoded(done: set<char>, c: char): string {
    if c in done then Entity(c) else [c]
  }

  /** An entity after the unescaping passes for the characters in `done`. */
  function Decoded(done: set<char>, c: char): string {
    if c in done then [c] else Entity(c)
  }

  function EncodedPieces(done: set<char>, s: string): (r: seq<string>)
    ensures |r| == |s| && forall i :: 0 <= i < |s| ==> r[i] == Encoded(done, s[i])
  {
    seq(|s|, i requires 0 <= i < |s| => Encoded(done, s[i]))
  }

  function DecodedPieces(done: set<char>, s: string): (r: seq<string>)
    ensures |r| == |s| && forall i :: 0 <= i < |s| ==> r[i] == Decoded(done, s[i])
  {
    seq(|s|, i requires 0 <= i < |s| => Decoded(done, s[i]))
  }

  /** Only `&` and the characters of entity names and numbers occur in an
      entity. */
  lemma {:induction false} EntityHoldsNoMarkup(x: char, c: char)
    requires IsSpecial(x) && IsSpecial(c) && c != '&'
    ensures c !in Entity(x)
  {
  }

  /** One escaping pass: replacing special character `c` by its entity
      turns the pieces for `done` into the pieces for `done + {c}`, provided
      `&` went first. */
  lemma {:induction false} EscapeStage(s: string, done: set<char>, c: char)
    requires IsSpecial(c) && c !in done && forall x :: x in done ==> IsSpecial(x)
    requires c == '&' ==> done == {}
    ensures ReplaceAll(Concat(EncodedPieces(done, s)), [c], Entity(c)) == Concat(EncodedPieces(done + {c}, s))
  {
    var ps := EncodedPieces(done, s);
    forall i | 0 <= i < |ps|
      ensures PieceOk(ps[i], [c])
      ensures MapPieces(ps, [c], Entity(c))[i] == Encoded(done + {c}, s[i])
    {
      if s[i] in done {
        EntityHoldsNoMarkup(s[i], c);
      }
    }
    ReplaceOverPieces(ps, [c], Entity(c));
    assert MapPieces(ps, [c], Entity(c)) == EncodedPieces(done + {c}, s);
  }

  lemma {:induction false} DecodedStep(done: set<char>, c: char, x: char)
    requires IsSpecial(c) && c !in done && forall y :: y in done ==> IsSpecial(y)
    requires '&' !in done
    ensures PieceOk(Decoded(done, x), Entity(c))
    ensures (if Decoded(done, x) == Entity(c) then [c] else Decoded(done, x)) == Decoded(done + {c}, x)
  {
    if x !in done && IsSpecial(x) && x != c {
      assert Entity(x)[1] != Entity(c)[1];
    }
  }

  /** One unescaping pass: replacing the entity of special character `c` by
      `c` turns the pieces for `done` into the pieces for `done + {c}`,
      provided `&amp;` has not been decoded yet. */
  lemma {:induction false} UnescapeStage(s: string, done: set<char>, c: char)
    requires IsSpecial(c) && c !in done && forall x :: x in done ==> IsSpecial(x)
    requires '&' !in done
    ensures ReplaceAll(Concat(DecodedPieces(done, s)), Entity(c), [c]) == Concat(DecodedPieces(done + {c}, s))
  {
    var ps := DecodedPieces(done, s);
    forall i | 0 <= i < |ps|
      ensures PieceOk(ps[i], Entity(c))
      ensures MapPieces(ps, Entity(c), [c])[i] == Decoded(done + {c}, s[i])
    {
      DecodedStep(done, c, s[i]);
    }
    ReplaceOverPieces(ps, Entity(c), [c]);
    assert MapPieces(ps, Entity(c), [c]) == DecodedPieces(done + {c}, s);
  }

  lemma {:induction false} ConcatOfCharPieces(s: string, done: set<char>)
    requires forall x :: x in done ==> !IsSpecial(x)
    ensures Concat(EncodedPieces(done, s)) == s
  {
    if s != [] {
      ConcatOfCharPieces(s[1..], done);
      assert EncodedPieces(done, s)[1..] == EncodedPieces(done, s[1..]);
    }
  }

  lemma {:induction false} ConcatOfEntityPieces(s: string, done: set<char>)
    requires forall x :: x in done ==> !IsSpecial(x)
    ensures Concat(DecodedPieces(done, s)) == EscapeChars(s)
  {
    if s != [] {
      ConcatOfEntityPieces(s[1..], done);
      assert DecodedPieces(done, s)[1..] == DecodedPieces(done, s[1..]);
    }
  }

  // ---------------------------------------------------------------------
  // Properties

  /** Escaping is the per-character entity map: because `&` is replaced
      first, no entity written by a later pass is escaped again. */
  lemma {:induction false} EscapeIsPerChar(s: string)
    ensures EscapeHtml(s) == EscapeChars(s)
  {
    var s1 := ReplaceAll(s, "&", "&amp;");
    assert s1 == Concat(EncodedPieces({'&'}, s)) by {
      ConcatOfCharPieces(s, {});
      EscapeStage(s, {}, '&');
      assert {} + {'&'} == {'&'};
    }
    var s2 := ReplaceAll(s1, "<", "&lt;");
    assert s2 == Concat(EncodedPieces({'&', '<'}, s)) by {
      EscapeStage(s, {'&'}, '<');
      assert {'&'} + {'<'} == {'&', '<'};
    }
    var s3 := ReplaceAll(s2, ">", "&gt;");
    assert s3 == Concat(EncodedPieces({'&', '<', '>'}, s)) by {
      EscapeStage(s, {'&', '<'}, '>');
      assert {'&', '<'} + {'>'} == {'&', '<', '>'};
    }
    var s4 := ReplaceAll(s3, "\"", "&quot;");
    assert s4 == Concat(EncodedPieces({'&', '<', '>', '"'}, s)) by {
      EscapeStage(s, {'&', '<', '>'}, '"');
      assert {'&', '<', '>'} + {'"'} == {'&', '<', '>', '"'};
    }
    var s5 := ReplaceAll(s4, "'", "&#39;");
    var all := {'&', '<', '>', '"', '\''};
    assert s5 == Concat(EncodedPieces(all, s)) by {
      EscapeStage(s, {'&', '<', '>', '"'}, '\'');
      assert {'&', '<', '>', '"'} + {'\''} == all;
    }
    assert EncodedPieces(all, s) == DecodedPieces({}, s);
    ConcatOfEntityPieces(s, {});
  }

  /** Unescaping undoes escaping: `unescapeHtml(escapeHtml(s)) == s`. */
  lemma {:induction false} UnescapeEscape(s: string)
    ensures UnescapeHtml(EscapeHtml(s)) == s
  {
    EscapeIsPerChar(s);
    var s0 := EscapeHtml(s);
    assert s0 == Concat(DecodedPieces({}, s)) by {
      ConcatOfEntityPieces(s, {});
    }
    var s1 := ReplaceAll(s0, "&lt;", "<");
    assert s1 == Concat(DecodedPieces({'<'}, s)) by {
      UnescapeStage(s, {}, '<');
      assert {} + {'<'} == {'<'};
    }
    var s2 := ReplaceAll(s1, "&gt;", ">");
    assert s2 == Concat(DecodedPieces({'<', '>'}, s)) by {
      UnescapeStage(s, {'<'}, '>');
      assert {'<'} + {'>'} == {'<', '>'};
    }
    var s3 := ReplaceAll(s2, "&quot;", "\"");
    assert s3 == Concat(DecodedPieces({'<', '>', '"'}, s)) by {
      UnescapeStage(s, {'<', '>'}, '"');
      assert {'<', '>'} + {'"'} == {'<', '>', '"'};
    }
    var s4 := ReplaceAll(s3, "&#39;", "'");
    assert s4 == Concat(DecodedPieces({'<', '>', '"', '\''}, s)) by {
      UnescapeStage(s, {'<', '>', '"'}, '\'');
      assert {'<', '>', '"'} + {'\''} == {'<', '>', '"', '\''};
    }
    var s5 := ReplaceAll(s4, "&amp;", "&");
    var all := {'<', '>', '"', '\'', '&'};
    assert s5 == Concat(DecodedPieces(all, s)) by {
      UnescapeStage(s, {'<', '>', '"', '\''}, '&');
      assert {'<', '>', '"', '\''} + {'&'} == all;
    }
    assert DecodedPieces(all, s) == EncodedPieces({}, s);
    ConcatOfCharPieces(s, {});
  }

  predicate IsMarkup(c: char) {
    c == '<' || c == '>' || c == '"' || c == '\''
  }

  lemma {:induction false} EscapeCharsHasNoMarkup(s: string)
    ensures forall k :: 0 <= k < |EscapeChars(s)| ==> !IsMarkup(EscapeChars(s)[k])
  {
    if s != [] {
      EscapeCharsHasNoMarkup(s[1..]);
      var e := Entity(s[0]);
      assert forall k :: 0 <= k < |e| ==> !IsMarkup(e[k]);
      assert EscapeChars(s) == e + EscapeChars(s[1..]);
    }
  }

  /** Escaped text holds no `<`, `>`, `"` or `'`, and it is never shorter
      than the input. */
  lemma {:induction false} EscapedHasNoMarkup(s: string)
    ensures forall k :: 0 <= k < |EscapeHtml(s)| ==> !IsMarkup(EscapeHtml(s)[k])
    ensures |EscapeHtml(s)| >= |s|
  {
    EscapeIsPerChar(s);
    EscapeCharsHasNoMarkup(s);
  }

  /** Text without `&` holds no entity and is left as it is by
      unescaping. */
  lemma {:induction false} UnescapeWithoutAmpersand(s: string)
    requires '&' !in s
    ensures UnescapeHtml(s) == s
  {
    SkipPlain(s, [], "&lt;", "<");
    SkipPlain(s, [], "&gt;", ">");
    SkipPlain(s, [], "&quot;", "\"");
    SkipPlain(s, [], "&#39;", "'");
    SkipPlain(s, [], "&amp;", "&");
    assert s + [] == s;
  }
}
