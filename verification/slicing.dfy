/** The length-fitting helpers of src/index.ts: `truncate`,
    `truncateMiddle`, `center`, `toFixedLength`, `mask`, `ensurePrefix` and
    `ensureSuffix`. Lengths and counts are integers; `slice` clamps and
    reads negative indices from the end, as in JavaScript. */
module Slicing {
  import opened JsString

  function Max0(x: int): nat {
    if x < 0 then 0 else x
  }

  // ---------------------------------------------------------------------
  // truncate

  /** `truncate(input, maxLength, { ellipsis, keepWords })`. */
  function Truncate(s: string, maxLength: int, ellipsis: string, keepWords: bool): (r: string)
    ensures |s| <= maxLength ==> r == s
    ensures 0 <= maxLength ==> |r| <= maxLength
    ensures |s| > maxLength && maxLength <= |ellipsis| ==>
      |r| == RelativeIndex(maxLength, |ellipsis|) && r == ellipsis[..|r|]
    ensures |s| > maxLength > |ellipsis| ==>
      |ellipsis| < |r| && EndsWith(r, ellipsis) && r[..|r| - |ellipsis|] == s[..|r| - |ellipsis|]
    ensures |s| > maxLength > |ellipsis| && !keepWords ==> |r| == maxLength
  {
    if |s| <= maxLength then s
    else if maxLength <= |ellipsis| then Slice(ellipsis, 0, maxLength)
    else
      var cut := maxLength - |ellipsis|;
      var lastSpace := if keepWords then LastIndexOf(s[..cut], ' ') else -1;
      var kept := if lastSpace > 0 then lastSpace else cut;
      s[..kept] + ellipsis
  }

  /** With `keepWords`, the text is cut at the last space inside the
      window of `maxLength - |ellipsis|` characters, dropping that space; a
      window with no space after its first character is cut at its end. */
  lemma {:induction false} TruncateKeepsWords(s: string, maxLength: int, ellipsis: string)
    requires |s| > maxLength > |ellipsis|
    ensures var r := Truncate(s, maxLength, ellipsis, true);
      var kept, window := |r| - |ellipsis|, maxLength - |ellipsis|;
      0 < kept <= window &&
      (kept < window ==> s[kept] == ' ' && forall j :: kept < j < window ==> s[j] != ' ') &&
      (kept == window ==> forall j :: 0 < j < window ==> s[j] != ' ')
  {
    var window := maxLength - |ellipsis|;
    var lastSpace := LastIndexOf(s[..window], ' ');
    if lastSpace <= 0 {
      forall j | 0 < j < window
        ensures s[j] != ' '
      {
        assert s[..window][j] == s[j];
      }
    } else {
      assert s[..window][lastSpace] == s[lastSpace];
      forall j | lastSpace < j < window
        ensures s[j] != ' '
      {
        assert s[..window][j] == s[j];
      }
    }
  }

  // ---------------------------------------------------------------------
  // truncateMiddle

  /** `truncateMiddle(input, maxLength, ellipsis)`. */
  function TruncateMiddle(s: string, maxLength: int, ellipsis: string): (r: string)
    ensures |s| <= maxLength ==> r == s
    ensures 0 <= maxLength ==> |r| <= maxLength
    ensures |s| > maxLength && maxLength <= |ellipsis| ==>
      |r| == RelativeIndex(maxLength, |ellipsis|) && r == ellipsis[..|r|]
  {
    if |s| <= maxLength then s
    else if maxLength <= |ellipsis| then Slice(ellipsis, 0, maxLength)
    else
      var keep := maxLength - |ellipsis|;
      var start := (keep + 1) / 2;          // Math.ceil(keep / 2)
      var end := |s| - keep / 2;            // Math.floor(keep / 2)
      s[..start] + ellipsis + s[end..]
  }

  /** When the middle is cut, the result has exactly `maxLength`
      characters: a head of the input, the ellipsis and a tail of the
      input, the two together `maxLength - |ellipsis|` characters that do
      not overlap, the head taking the odd one. */
  lemma {:induction false} TruncateMiddleShape(s: string, maxLength: int, ellipsis: string)
    requires |s| > maxLength > |ellipsis|
    ensures var r := TruncateMiddle(s, maxLength, ellipsis);
      var keep := maxLength - |ellipsis|;
      var head := (keep + 1) / 2;
      var tail := keep - head;
      |r| == maxLength &&
      tail <= head <= tail + 1 && head + tail <= |s| &&
      r[..head] == s[..head] && r[head..head + |ellipsis|] == ellipsis &&
      r[head + |ellipsis|..] == s[|s| - tail..]
  {
    var keep := maxLength - |ellipsis|;
    var head := (keep + 1) / 2;
    assert keep / 2 == keep - head;
    var r := TruncateMiddle(s, maxLength, ellipsis);
    assert r == s[..head] + ellipsis + s[|s| - (keep - head)..];
  }

  // ---------------------------------------------------------------------
  // center

  /** `center(input, width, padChar)`. */
  function Center(s: string, width: int, pad: string): (r: string)
    ensures |s| >= width ==> r == s
    ensures |s| < width ==> |r| == |s| + (width - |s|) * |pad|
  {
    if |s| >= width then s
    else
      var total := width - |s|;
      var left := total / 2;
      Repeat(pad, left) + s + Repeat(pad, total - left)
  }

  /** With a one-character pad the result is `max(width, |s|)` long: the
      input sits in the middle, the padding on the right as long as on the
      left or one longer, and made of the pad character only. */
  lemma {:induction false} CenterShape(s: string, width: int, pad: string)
    requires |pad| == 1
    ensures var r := Center(s, width, pad);
      |r| == if |s| < width then width else |s|
    ensures |s| < width ==>
      var r := Center(s, width, pad);
      var left := (width - |s|) / 2;
      var right := |r| - left - |s|;
      left <= right <= left + 1 && r[left..left + |s|] == s &&
      (forall k :: 0 <= k < left ==> r[k] == pad[0]) &&
      (forall k :: left + |s| <= k < |r| ==> r[k] == pad[0])
  {
    if |s| < width {
      var total := width - |s|;
      var left := total / 2;
      var l, rt := Repeat(pad, left), Repeat(pad, total - left);
      var r := Center(s, width, pad);
      assert r == l + s + rt;
      assert forall k :: left + |s| <= k < |r| ==> r[k] == rt[k - left - |s|];
    }
  }

  // ---------------------------------------------------------------------
  // toFixedLength

  /** `truncateDirection`. */
  datatype Direction = End | Start | Middle

  /** `toFixedLength(input, length, { padChar, truncateDirection })`. */
  function ToFixedLength(s: string, length: int, pad: string, dir: Direction): (r: string)
    ensures |s| == length ==> r == s
    ensures |s| < length ==> |s| <= |r| == |s| + (length - |s|) * |pad| && r[..|s|] == s
  {
    if |s| == length then s
    else if |s| < length then s + Repeat(pad, length - |s|)
    else match dir
      case Start => SliceFrom(s, |s| - length)
      case Middle =>
        var half := length / 2;             // Math.floor(length / 2)
        Slice(s, 0, half) + SliceFrom(s, |s| - (length - half))
      case End => Slice(s, 0, length)
  }

  /** For a non-negative length and a one-character pad, the result has
      exactly `length` characters: the input padded with the pad character,
      or its first `length`, its last `length`, or its first `length / 2`
      and last `length - length / 2` characters. */
  lemma {:induction false} FixedLengthShape(s: string, length: int, pad: string, dir: Direction)
    requires 0 <= length && |pad| == 1
    ensures var r := ToFixedLength(s, length, pad, dir);
      |r| == length &&
      (|s| <= length ==> r[..|s|] == s && forall k :: |s| <= k < length ==> r[k] == pad[0]) &&
      (|s| > length && dir == End ==> r == s[..length]) &&
      (|s| > length && dir == Start ==> r == s[|s| - length..]) &&
      (|s| > length && dir == Middle ==>
        r[..length / 2] == s[..length / 2] && r[length / 2..] == s[|s| - (length - length / 2)..])
  {
    var r := ToFixedLength(s, length, pad, dir);
    if |s| < length {
      var p := Repeat(pad, length - |s|);
      assert r == s + p;
      assert forall k :: |s| <= k < length ==> r[k] == p[k - |s|];
    } else if |s| > length && dir == Middle {
      var half := length / 2;
      assert r == s[..half] + s[|s| - (length - half)..];
    }
  }

  // ---------------------------------------------------------------------
  // mask

  /** `mask(input, { showStart, showEnd, maskChar })`. */
  function Mask(s: string, showStart: int, showEnd: int, maskChar: string): string {
    var start := Slice(s, 0, Max0(showStart));
    var end := SliceFrom(s, Max0(|s| - Max0(showEnd)));
    var maskedLength := Max0(|s| - |start| - |end|);
    start + Repeat(maskChar, maskedLength) + end
  }

  /** When the shown head and tail do not overlap, a one-character mask
      keeps the length: the first `showStart` and last `showEnd` characters
      are shown and every other character is the mask character. */
  lemma {:induction false} MaskShape(s: string, showStart: int, showEnd: int, maskChar: string)
    requires |maskChar| == 1 && Max0(showStart) + Max0(showEnd) <= |s|
    ensures var r := Mask(s, showStart, showEnd, maskChar);
      var a, b := Max0(showStart), Max0(showEnd);
      |r| == |s| && r[..a] == s[..a] && r[|s| - b..] == s[|s| - b..] &&
      forall k :: a <= k < |s| - b ==> r[k] == maskChar[0]
  {
    var a, b := Max0(showStart), Max0(showEnd);
    var m := Repeat(maskChar, |s| - a - b);
    var r := Mask(s, showStart, showEnd, maskChar);
    assert r == s[..a] + m + s[|s| - b..];
    assert forall k :: a <= k < |s| - b ==> r[k] == m[k - a];
  }

  /** As written, a head and a tail that overlap are both shown whole: the
      overlapping characters appear twice and the result is longer than the
      input. */
  lemma {:induction false} MaskOverlapRepeats(s: string, showStart: int, showEnd: int, maskChar: string)
    requires 0 <= showStart <= |s| && 0 <= showEnd <= |s| && showStart + showEnd > |s|
    ensures var r := Mask(s, showStart, showEnd, maskChar);
      r == s[..showStart] + s[|s| - showEnd..] && |r| > |s|
  {
    assert Repeat(maskChar, 0) == [];
  }

  /** `mask('abc', { showStart: 2, showEnd: 2 })` is `'abbc'`. */
  lemma {:induction false} MaskOverlapExample()
    ensures Mask("abc", 2, 2, "*") == "abbc"
  {
    MaskOverlapRepeats("abc", 2, 2, "*");
    assert "abc"[..2] == "ab" && "abc"[1..] == "bc";
  }

  /** `mask` with the tail kept clear of the head: the tail starts no
      earlier than the end of the head. */
  function MaskCorrected(s: string, showStart: int, showEnd: int, maskChar: string): string {
    var start := Slice(s, 0, Max0(showStart));
    var from := Max0(|s| - Max0(showEnd));
    var end := SliceFrom(s, if from < |start| then |start| else from);
    var maskedLength := Max0(|s| - |start| - |end|);
    start + Repeat(maskChar, maskedLength) + end
  }

  /** With the correction a one-character mask always keeps the length,
      every character of the input is shown at most once and in place, and
      the result agrees with `mask` whenever head and tail do not overlap. */
  lemma {:induction false} MaskCorrectedShape(s: string, showStart: int, showEnd: int, maskChar: string)
    requires |maskChar| == 1
    ensures var r := MaskCorrected(s, showStart, showEnd, maskChar);
      |r| == |s| && forall k :: 0 <= k < |s| ==> r[k] == s[k] || r[k] == maskChar[0]
    ensures Max0(showStart) + Max0(showEnd) <= |s| ==>
      MaskCorrected(s, showStart, showEnd, maskChar) == Mask(s, showStart, showEnd, maskChar)
  {
    var a := if Max0(showStart) < |s| then Max0(showStart) else |s|;
    var from := Max0(|s| - Max0(showEnd));
    var e := if from < a then a else from;
    var m := Repeat(maskChar, e - a);
    var r := MaskCorrected(s, showStart, showEnd, maskChar);
    assert r == s[..a] + m + s[e..];
    assert forall k :: a <= k < e ==> r[k] == m[k - a];
    assert forall k :: e <= k < |s| ==> r[k] == s[e..][k - e];
  }

  // ---------------------------------------------------------------------
  // ensurePrefix / ensureSuffix

  /** `ensurePrefix(input, prefix)`. */
  function EnsurePrefix(s: string, prefix: string): (r: string)
    ensures StartsWith(r, prefix)
    ensures r == s <==> StartsWith(s, prefix)
    ensures !StartsWith(s, prefix) ==> r == prefix + s
  {
    if StartsWith(s, prefix) then s else prefix + s
  }

  /** `ensureSuffix(input, suffix)`. */
  function EnsureSuffix(s: string, suffix: string): (r: string)
    ensures EndsWith(r, suffix)
    ensures r == s <==> EndsWith(s, suffix)
    ensures !EndsWith(s, suffix) ==> r == s + suffix
  {
    if EndsWith(s, suffix) then s else s + suffix
  }

  /** Ensuring a prefix or a suffix twice is ensuring it once. */
  lemma {:induction false} EnsureIdempotent(s: string, affix: string)
    ensures EnsurePrefix(EnsurePrefix(s, affix), affix) == EnsurePrefix(s, affix)
    ensures EnsureSuffix(EnsureSuffix(s, affix), affix) == EnsureSuffix(s, affix)
  {
  }
}
