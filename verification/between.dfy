/** `between` and `betweenAll` of src/index.ts: the text between a start
    marker and the next end marker, once or for every such pair left to
    right. */
module Delimiters {
  import opened JsString

  /** `between(input, start, end, fromIndex)`: `null` becomes `None`. */
  function Between(s: string, start: string, end: string, from: int): (r: Option<string>)
    ensures r.Some? <==>
      IndexOf(s, start, from) != -1 && IndexOf(s, end, IndexOf(s, start, from) + |start|) != -1
    ensures r.Some? ==> |r.value| + |start| + |end| <= |s|
  {
    var i := IndexOf(s, start, from);
    if i == -1 then None
    else
      var j := IndexOf(s, end, i + |start|);
      if j == -1 then None
      else
        Some(s[i + |start|..j])
  }

  /** On success the input is the text before the start marker, the
      start marker, the result, the end marker and the rest. */
  lemma {:induction false} BetweenSplitsInput(s: string, start: string, end: string, from: int)
    requires Between(s, start, end, from).Some?
    ensures var i := IndexOf(s, start, from);
      var j := IndexOf(s, end, i + |start|);
      s == s[..i] + start + Between(s, start, end, from).value + end + s[j + |end|..]
  {
    var i := IndexOf(s, start, from);
    var j := IndexOf(s, end, i + |start|);
    assert OccursAt(s, start, i) && OccursAt(s, end, j) && i + |start| <= j by {
      IndexOfOccurs(s, start, from);
      IndexOfOccurs(s, end, i + |start|);
    }
    Decompose(s, start, end, i, j);
  }

  lemma {:induction false} IndexOfOccurs(s: string, pat: string, from: int)
    requires IndexOf(s, pat, from) != -1
    ensures OccursAt(s, pat, IndexOf(s, pat, from))
  {
    IndexOfIsFirst(s, pat, from);
  }

  lemma {:induction false} Decompose(s: string, start: string, end: string, i: int, j: int)
    requires OccursAt(s, start, i) && OccursAt(s, end, j) && i + |start| <= j
    ensures s == s[..i] + start + s[i + |start|..j] + end + s[j + |end|..]
  {
    assert s == s[..i] + s[i..i + |start|] + s[i + |start|..j] + s[j..j + |end|] + s[j + |end|..];
  }

  /** `between` finds the first start marker at or after `fromIndex` and
      the first end marker after it, and returns what lies between. */
  lemma {:induction false} BetweenFindsFirstPair(s: string, start: string, end: string, from: int, i: nat, j: nat)
    requires SearchStart(from, |s|) <= i && OccursAt(s, start, i)
    requires forall k :: SearchStart(from, |s|) <= k < i ==> !OccursAt(s, start, k)
    requires i + |start| <= j && OccursAt(s, end, j)
    requires forall k :: i + |start| <= k < j ==> !OccursAt(s, end, k)
    ensures Between(s, start, end, from) == Some(s[i + |start|..j])
  {
    IndexOfFinds(s, start, from, i);
    IndexOfFinds(s, end, i + |start|, j);
  }

  /** Without a start marker at or after `fromIndex`, or without an end
      marker after the first one, `between` returns `null`. */
  lemma {:induction false} BetweenMissing(s: string, start: string, end: string, from: int)
    requires (forall k :: SearchStart(from, |s|) <= k ==> !OccursAt(s, start, k)) ||
             (exists i :: SearchStart(from, |s|) <= i && OccursAt(s, start, i) &&
                (forall k :: SearchStart(from, |s|) <= k < i ==> !OccursAt(s, start, k)) &&
                (forall k :: i + |start| <= k ==> !OccursAt(s, end, k)))
    ensures Between(s, start, end, from) == None
  {
    if forall k :: SearchStart(from, |s|) <= k ==> !OccursAt(s, start, k) {
      IndexOfIsFirst(s, start, from);
    } else {
      var i :| SearchStart(from, |s|) <= i && OccursAt(s, start, i) &&
        (forall k :: SearchStart(from, |s|) <= k < i ==> !OccursAt(s, start, k)) &&
        (forall k :: i + |start| <= k ==> !OccursAt(s, end, k));
      MissingEnd(s, start, end, from, i);
    }
  }

  lemma {:induction false} MissingEnd(s: string, start: string, end: string, from: int, i: int)
    requires SearchStart(from, |s|) <= i && OccursAt(s, start, i)
    requires forall k :: SearchStart(from, |s|) <= k < i ==> !OccursAt(s, start, k)
    requires forall k :: i + |start| <= k ==> !OccursAt(s, end, k)
    ensures Between(s, start, end, from) == None
  {
    IndexOfFinds(s, start, from, i);
    IndexOfIsFirst(s, end, i + |start|);
  }

  /** An occurrence with none before it is the one `indexOf` finds. */
  lemma {:induction false} IndexOfFinds(s: string, pat: string, from: int, i: int)
    requires SearchStart(from, |s|) <= i && OccursAt(s, pat, i)
    requires forall k :: SearchStart(from, |s|) <= k < i ==> !OccursAt(s, pat, k)
    ensures IndexOf(s, pat, from) == i
  {
    IndexOfIsFirst(s, pat, from);
    var r := IndexOf(s, pat, from);
    assert r != -1 && r >= i by {
      assert OccursAt(s, pat, i);
    }
  }

  // ---------------------------------------------------------------------
  // betweenAll

  /** The list `betweenAll` builds from position `idx` on. With both
      markers empty the source loop never advances on a non-empty input,
      so one marker must be non-empty unless the input is empty. */
  function BetweenAllFrom(s: string, start: string, end: string, idx: int): seq<string>
    requires start != [] || end != [] || s == []
    decreases |s| - idx, 1
  {
    if idx >= |s| then [] else BetweenAllRound(s, start, end, idx)
  }

  /** One round of the loop at a position inside the input: the value
      found, then the values from just after its end marker on. */
  function BetweenAllRound(s: string, start: string, end: string, idx: int): seq<string>
    requires start != [] || end != [] || s == []
    requires idx < |s|
    decreases |s| - idx, 0
  {
    match Between(s, start, end, idx)
      case None => []
      case Some(v) =>
        var startIdx := IndexOf(s, start, idx);
        var endIdx := IndexOf(s, end, startIdx + |start|);
        [v] + BetweenAllFrom(s, start, end, endIdx + |end|)
  }

  /** `betweenAll(input, start, end)`. */
  method BetweenAll(s: string, start: string, end: string) returns (out: seq<string>)
    requires start != [] || end != [] || s == []
    ensures out == BetweenAllFrom(s, start, end, 0)
  {
    out := [];
    var idx := 0;
    EmptyPrefix(BetweenAllFrom(s, start, end, 0));
    while idx < |s|
      invariant 0 <= idx
      invariant out + BetweenAllFrom(s, start, end, idx) == BetweenAllFrom(s, start, end, 0)
      decreases |s| - idx
    {
      var val := Between(s, start, end, idx);
      if val == None {
        break;
      }
      var startIdx := IndexOf(s, start, idx);
      var endIdx := IndexOf(s, end, startIdx + |start|);
      LoopStep(s, start, end, out, idx, val.value, endIdx + |end|);
      out := out + [val.value];
      idx := endIdx + |end|;
    }
    assert BetweenAllFrom(s, start, end, idx) == [];
    assert out + [] == out;
  }

  lemma {:induction false} EmptyPrefix<T>(x: seq<T>)
    ensures [] + x == x
  {
  }

  lemma {:induction false} AppendStep<T>(out: seq<T>, v: T, rest: seq<T>, x: seq<T>, whole: seq<T>)
    requires out + x == whole && x == [v] + rest
    ensures out + [v] + rest == whole
  {
    assert out + [v] + rest == out + ([v] + rest);
  }

  /** Each round of the `betweenAll` loop moves past the end marker it
      found, which lies after the current position unless both markers
      are empty. */
  lemma {:induction false} Advances(s: string, start: string, end: string, idx: int)
    requires start != [] || end != []
    requires 0 <= idx < |s| && Between(s, start, end, idx).Some?
    ensures IndexOf(s, end, IndexOf(s, start, idx) + |start|) + |end| > idx
  {
  }

  lemma {:induction false} LoopStep(s: string, start: string, end: string, out: seq<string>, idx: int, v: string, next: int)
    requires start != [] || end != []
    requires 0 <= idx < |s| && Between(s, start, end, idx) == Some(v)
    requires next == IndexOf(s, end, IndexOf(s, start, idx) + |start|) + |end|
    requires out + BetweenAllFrom(s, start, end, idx) == BetweenAllFrom(s, start, end, 0)
    ensures out + [v] + BetweenAllFrom(s, start, end, next) == BetweenAllFrom(s, start, end, 0)
    ensures next > idx
  {
    BetweenAllFromStep(s, start, end, idx, next);
    AppendStep(out, v, BetweenAllFrom(s, start, end, next),
      BetweenAllFrom(s, start, end, idx), BetweenAllFrom(s, start, end, 0));
    Advances(s, start, end, idx);
  }

  /** One round of the `betweenAll` loop: the value found, then the
      values from just after its end marker on. */
  lemma {:induction false} BetweenAllFromStep(s: string, start: string, end: string, idx: int, next: int)
    requires start != [] || end != []
    requires idx < |s| && Between(s, start, end, idx).Some?
    requires next == IndexOf(s, end, IndexOf(s, start, idx) + |start|) + |end|
    ensures BetweenAllFrom(s, start, end, idx) == [Between(s, start, end, idx).value] + BetweenAllFrom(s, start, end, next)
  {
  }

  /** With both markers empty, the loop of `betweenAll` finds an empty
      value at the current position and moves on to that same position:
      it never ends on a non-empty input. */
  lemma {:induction false} BetweenAllStalls(s: string, idx: int)
    requires 0 <= idx < |s|
    ensures Between(s, [], [], idx) == Some([])
    ensures var startIdx := IndexOf(s, [], idx); IndexOf(s, [], startIdx + 0) + 0 == idx
  {
    assert OccursAt(s, [], idx);
    IndexOfFinds(s, [], idx, idx);
  }

  /** `betweenAll` with the loop made to advance at least one position per
      round (`idx = Math.max(endIdx + end.length, idx + 1)`), which ends
      for every pair of markers. */
  function BetweenAllCorrected(s: string, start: string, end: string, idx: int): seq<string>
    decreases |s| - idx
  {
    if idx >= |s| then []
    else match Between(s, start, end, idx)
      case None => []
      case Some(v) =>
        var startIdx := IndexOf(s, start, idx);
        var next := IndexOf(s, end, startIdx + |start|) + |end|;
        [v] + BetweenAllCorrected(s, start, end, if next > idx then next else idx + 1)
  }

  /** Where the source loop ends, the correction changes nothing. */
  lemma {:induction false} BetweenAllCorrectedAgrees(s: string, start: string, end: string, idx: int)
    requires start != [] || end != []
    requires 0 <= idx
    ensures BetweenAllCorrected(s, start, end, idx) == BetweenAllFrom(s, start, end, idx)
    decreases |s| - idx
  {
    if idx < |s| && Between(s, start, end, idx).Some? {
      var next := IndexOf(s, end, IndexOf(s, start, idx) + |start|) + |end|;
      Advances(s, start, end, idx);
      BetweenAllFromStep(s, start, end, idx, next);
      BetweenAllCorrectedAgrees(s, start, end, next);
    }
  }

  /** With both markers empty, the corrected loop ends and finds one empty
      value at every position from `idx` on. */
  lemma {:induction false} BetweenAllCorrectedOfEmptyMarkers(s: string, idx: int)
    requires 0 <= idx <= |s|
    ensures BetweenAllCorrected(s, [], [], idx) == seq(|s| - idx, _ => [])
    decreases |s| - idx
  {
    if idx < |s| {
      BetweenAllStalls(s, idx);
      BetweenAllCorrectedOfEmptyMarkers(s, idx + 1);
      var all: seq<string>, rest: seq<string> := seq(|s| - idx, _ => []), seq(|s| - (idx + 1), _ => []);
      assert all == [[]] + rest;
    }
  }

  /** Every value wrapped between a start marker and a one-character end
      marker that it does not hold. */
  function Wrapped(vs: seq<string>, start: string, close: char): string {
    if vs == [] then [] else start + vs[0] + [close] + Wrapped(vs[1..], start, close)
  }

  /** `betweenAll` recovers the values from their wrapped form, when no
      value holds the end marker. */
  lemma {:induction false} BetweenAllOfWrapped(vs: seq<string>, start: string, close: char)
    requires forall k :: 0 <= k < |vs| ==> close !in vs[k]
    ensures BetweenAllFrom(Wrapped(vs, start, close), start, [close], 0) == vs
  {
    EmptyPrefix(Wrapped(vs, start, close));
    BetweenAllOfWrappedFrom([], vs, start, close);
  }

  lemma {:induction false} BetweenAllOfWrappedFrom(pre: string, vs: seq<string>, start: string, close: char)
    requires forall k :: 0 <= k < |vs| ==> close !in vs[k]
    ensures BetweenAllFrom(pre + Wrapped(vs, start, close), start, [close], |pre|) == vs
    decreases |vs|
  {
    var s := pre + Wrapped(vs, start, close);
    if vs == [] {
      assert s == pre;
    } else {
      var v, rest := vs[0], Wrapped(vs[1..], start, close);
      var next := pre + start + v + [close];
      WrappedCons(pre, vs, start, close);
      assert close !in v;
      FirstWrappedValue(s, pre, start, v, close, rest);
      assert forall k :: 0 <= k < |vs| - 1 ==> vs[1..][k] == vs[k + 1];
      BetweenAllOfWrappedFrom(next, vs[1..], start, close);
      assert vs == [v] + vs[1..];
    }
  }

  lemma {:induction false} WrappedCons(pre: string, vs: seq<string>, start: string, close: char)
    requires vs != []
    ensures pre + Wrapped(vs, start, close) ==
      (pre + start + vs[0] + [close]) + Wrapped(vs[1..], start, close)
  {
  }

  /** The first round of `betweenAll` on `pre + start + v + [close] +
      rest`, from the end of `pre`, yields `v` and moves past `close`. */
  lemma FirstWrappedValue(s: string, pre: string, start: string, v: string, close: char, rest: string)
    requires close !in v
    requires s == (pre + start + v + [close]) + rest
    ensures BetweenAllFrom(s, start, [close], |pre|) ==
      [v] + BetweenAllFrom(s, start, [close], |pre + start + v + [close]|)
  {
    var j := |pre| + |start| + |v|;
    FirstWrappedPair(s, pre, start, v, close, rest);
    BetweenAllFromFound(s, start, [close], |pre|, v, j);
  }

  /** In `pre + start + v + [close] + rest`, searching from the end of
      `pre` finds `v`, closed by the `close` right after it. */
  lemma {:induction false} FirstWrappedPair(s: string, pre: string, start: string, v: string, close: char, rest: string)
    requires close !in v
    requires s == (pre + start + v + [close]) + rest
    ensures Between(s, start, [close], |pre|) == Some(v)
    ensures IndexOf(s, [close], IndexOf(s, start, |pre|) + |start|) == |pre| + |start| + |v|
  {
    var i, j := |pre|, |pre| + |start| + |v|;
    WrappedPair(pre, start, v, close, rest);
    IndexOfFinds(s, start, |pre|, i);
    IndexOfFinds(s, [close], i + |start|, j);
    BetweenFindsFirstPair(s, start, [close], |pre|, i, j);
  }

  lemma {:induction false} BetweenAllFromFound(s: string, start: string, end: string, idx: int, v: string, j: int)
    requires start != [] || end != []
    requires idx < |s| && Between(s, start, end, idx) == Some(v)
    requires IndexOf(s, end, IndexOf(s, start, idx) + |start|) == j
    ensures BetweenAllFrom(s, start, end, idx) == [v] + BetweenAllFrom(s, start, end, j + |end|)
  {
    BetweenAllFromStep(s, start, end, idx, j + |end|);
  }

  /** In `pre + start + v + [close] + rest`, the start marker sits right
      after `pre` and the first `close` after it ends `v`. */
  lemma {:induction false} WrappedPair(pre: string, start: string, v: string, close: char, rest: string)
    requires close !in v
    ensures var s := pre + start + v + [close] + rest;
      var i, j := |pre|, |pre| + |start| + |v|;
      OccursAt(s, start, i) && OccursAt(s, [close], j) &&
      (forall k :: i + |start| <= k < j ==> !OccursAt(s, [close], k)) &&
      s[i + |start|..j] == v
  {
    var s := pre + start + v + [close] + rest;
    var i, j := |pre|, |pre| + |start| + |v|;
    assert s[i..i + |start|] == start;
    assert s[j..j + 1] == [close];
    assert s[i + |start|..j] == v;
    forall k | i + |start| <= k < j
      ensures !OccursAt(s, [close], k)
    {
      assert s[k] == v[k - i - |start|];
      assert s[k..k + 1][0] == s[k];
    }
  }
}
