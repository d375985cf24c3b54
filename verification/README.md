# string-utils core, modelled in Dafny

A model of the text-processing core of `@empellio/string-utils`
(`src/index.ts`). It covers these operations:

- `levenshtein` and `similarity`;
- the word segmenter `splitWordsCore` and what is built on it: `words`,
  `toCamelCase`, `toPascalCase`, `toSnakeCase`, `toKebabCase`,
  `toConstantCase` and `initials`;
- the greedy line filler `wordWrap`;
- the fixed-width helpers `truncate`, `truncateMiddle`, `center`,
  `toFixedLength` and `mask`;
- the entity codec `escapeHtml`/`unescapeHtml`;
- the delimiter extractors `between` and `betweenAll`;
- `ensurePrefix` and `ensureSuffix`;
- `dedent`.

A string is a `seq<char>`, one `char` per UTF-16 code unit. JavaScript
primitives the code calls have their ECMAScript meaning, written out in
module `JsString`:

- `slice` with negative and out-of-range indices;
- `indexOf` with a `fromIndex`;
- `lastIndexOf`;
- `trim`, `trimStart` and `trimEnd` over the ECMAScript white-space set;
- `split(/\s+/)`;
- `split` on one character;
- `repeat` and `join`.

The Unicode tables the word segmenter and the case converters consult
are a parameter of type `Words.Unicode`:

- the classes `\p{L}` and `\p{N}`;
- `toLowerCase` and `toUpperCase`;
- `stripDiacritics`.

Its one assumed fact, `Words.WellFormed`, is that no letter or digit is
white space. `Words.Ascii` is a concrete instance, used by the examples.

Form follows the source. Four operations are imperative there, and are
methods here, each proved equal to a specification function whose
properties are proved as lemmas:

- `levenshtein` is a method that updates one `array<nat>` row in place.
- `wordWrap` is a method with the source's nested loops and its `out` and
  `current` locals.
- `betweenAll` is a `while` loop.
- `dedent`'s minimum-indent scan is a loop.

The rest is pure and is written as functions.

Files:

- `js_string.dfy`: JavaScript string primitives.
- `edit_distance.dfy`: edit distance and similarity.
- `words.dfy`: word segmentation.
- `case_conversion.dfy`: case converters and initials.
- `word_wrap.dfy`: word wrapping.
- `html.dfy`: entity codec.
- `slicing.dfy`: truncation, padding, masking, prefixes and suffixes.
- `between.dfy`: delimiters.
- `dedent.dfy`: indentation removal.

## Model

The functions that carry each operation's behaviour have no row of their own. These are `ToCamelCase`, `Initials`, `SplitWordsCore`, `EscapeHtml`, `Mask`, `DedentOf` and the like. Each is covered by the rows whose lemmas state properties of it, which cite the same lines.

| member | source | states |
|---|---|---|
| EditDistance.Levenshtein | src/index.ts:175-199 | the single-row dynamic programme returns exactly the edit distance `Dist(a, b)`, equal-string and empty-string shortcuts and the swap included |
| EditDistance.NextRow | src/index.ts:184-197 | one pass of the outer loop turns the row holding column `j - 1` of the distance table into the row holding column `j`, in place |
| EditDistance.DistSymmetric | src/index.ts:179 | the distance does not depend on argument order, which is what makes the swap of `a` and `b` harmless |
| EditDistance.DistZeroIffEqual | src/index.ts:176 | the distance is 0 exactly when the strings are equal |
| EditDistance.DistBounds | src/index.ts:177-178 | the distance lies between the length difference and the longer length |
| EditDistance.DistOfDisjoint | src/index.ts:189-194 | strings with no character in common are at the largest distance, the longer length |
| EditDistance.KittenSittingExample | src/index.ts:175-199 | `kitten` and `sitting` are three edits apart |
| EditDistance.Similarity | src/index.ts:202-206 | the score is in [0, 1]; it is 1 exactly for equal strings and 0 exactly when the distance is the longer length; otherwise it is `1 - distance / longer length` |
| Words.SplitWordsCoreWordShape | src/index.ts:258-266 | every word is non-empty, holds letters and digits only and has no lower-to-upper camel boundary left inside it |
| Words.SplitWordsCoreKeepsWordChars | src/index.ts:258-266 | concatenating the words gives exactly the letters and digits of the input, apostrophes removed, in order: nothing is lost and nothing is added |
| Words.SplitWordsCoreEmptyIff | src/index.ts:264 | the result is empty exactly when the input holds no letter or digit |
| Words.SplitWordsCoreOfJoinedWords | src/index.ts:258-266 | space-joined words come back unchanged, so the segmenter inverts `join(' ')` on its own output shape |
| Words.SplitWordsCoreIdempotent | src/index.ts:258-266 | segmenting the space-joined words of a segmentation gives the same words |
| Words.SplitWordsCoreIsLetterRuns | src/index.ts:258-266 | the words are exactly the maximal runs of letters and digits of the input after apostrophes are removed and camel boundaries spaced, left to right |
| Words.SplitWordsCoreAtSeparator | src/index.ts:262 | any character that is not a letter or digit, not an apostrophe and not one of `[A-Za-z0-9]` (the camel rule's characters, which the `Unicode` parameter need not class as letters) is a word boundary: the words of `x + [c] + y` are the words of `x` followed by the words of `y` |
| Words.SplitWordsCoreAtCamelBoundary | src/index.ts:261 | a lower-case letter or digit followed by an upper-case letter is a word boundary: the words of `x + y` are the words of `x` followed by the words of `y` |
| Words.SplitWordsCoreDropsApostrophe | src/index.ts:259 | an apostrophe never splits a word: the words of `x + [q] + y` are those of `x + y` |
| Words.CamelCaseExample | src/index.ts:261 | `"fooBarBaz"` splits at its camel boundaries into `foo`, `Bar`, `Baz` |
| Words.ApostropheExample | src/index.ts:259 | apostrophes are removed before splitting: `"don't stop"` gives `dont`, `stop` |
| CaseConversion.CamelCaseShape | src/index.ts:268-272 | camelCase has exactly as many characters as the lower-cased input has letters and digits, and each is the letter or digit at its position, unchanged or upper-cased; it is empty exactly when there are none, and starts with the first word unchanged |
| CaseConversion.PascalIsCapitalizedCamel | src/index.ts:274-277 | PascalCase is camelCase with its first character upper-cased |
| CaseConversion.SnakeCaseSplitsBack | src/index.ts:279-282 | splitting snake_case at `_` gives back the lower-cased, diacritic-stripped words |
| CaseConversion.KebabCaseSplitsBack | src/index.ts:284-287 | splitting kebab-case at `-` gives back the lower-cased, diacritic-stripped words |
| CaseConversion.ConstantCaseSplitsBack | src/index.ts:347-350 | splitting CONSTANT_CASE at `_` gives back the upper-cased, diacritic-stripped words |
| CaseConversion.SnakeAndKebabAgree | src/index.ts:279-287 | snake_case and kebab-case carry the same parts and differ only in the separator |
| CaseConversion.InitialsAreFirstLetters | src/index.ts:478-482 | the initials are the upper-cased first letters of the first `maxLetters` words, with `slice` semantics for the count |
| WordWrap.WordWrap | src/index.ts:362-411 | the imperative wrapper computes exactly the specification fold `Wrap` over all lines and tokens |
| WordWrap.WrapOneLine | src/index.ts:367-409 | the token loop for one line yields the fold of `Step` over that line's tokens, followed by the final push of `current` |
| WordWrap.PushChunks | src/index.ts:386-396 | the chunking loop pushes every full-width chunk and leaves the shorter tail as `current` |
| WordWrap.Wrap | src/index.ts:364 | a non-positive width returns `indent + input` unchanged |
| WordWrap.WrapShape | src/index.ts:362-411 | the output is the pushed lines joined by `newline`; there are at least as many as input lines; each starts with `indent`, has no trailing white space, and either fits the width or is a single unbroken word |
| WordWrap.WrapKeepsContent | src/index.ts:367-409 | without word breaking, the output lines with their indent taken off hold exactly the non-space characters of the input, in order |
| WordWrap.TokensAreRuns | src/index.ts:369 | every token of `split(/(\s+)/)` is either all white space or free of it |
| WordWrap.TokensKeepLine | src/index.ts:369 | concatenating the tokens gives back the line |
| WordWrap.LoneWordIsKept | src/index.ts:372-373 | a line holding one word is emitted as `indent + word`, however long the word |
| WordWrap.QuickBrownFoxExample | src/index.ts:372-401 | `"The quick brown fox"` at width 10 wraps to `"The quick\nbrown fox"` |
| WordWrap.ChunksShape | src/index.ts:392-396 | the chunk loop pushes exactly the full `width`-character chunks, each after `indent`; a shorter last chunk replaces `current`, and when there is none `current` is left as it was |
| WordWrap.FullChunkAt | src/index.ts:393-394 | pushed chunk `k` is `indent` followed by characters `k*width` up to `(k+1)*width` of the word |
| WordWrap.ConsumedByFullChunks | src/index.ts:392-395 | the full chunks take a multiple of `width` characters of the word, leaving fewer than `width` for the last chunk |
| WordWrap.StepDropsFullLine | src/index.ts:379-396 | as written, breaking a word longer than `width` while `current` already fills the width pushes only the word's full chunks, never `current`: if the word is not a whole number of chunks its last chunk overwrites `current`, otherwise `current` stays to come out after the chunks |
| WordWrap.FullLineDroppedExample | src/index.ts:391-396 | as written, `"abc  defghij"` at width 5 with word breaking gives `"defgh\nij"`, so `abc` is lost |
| WordWrap.FullLineReorderedExample | src/index.ts:391-396 | as written, `"abc  fghijklmno"` at width 5 with word breaking gives `"fghij\nklmno\nabc"`: a word that is a whole number of chunks never reassigns `current`, so `abc` comes out after it |
| WordWrap.StepCorrectedKeepsContent | src/index.ts:379-397 | with the full line pushed first, one step of the loop, word breaking included, loses no non-space character |
| Html.EscapeIsPerChar | src/index.ts:24-31 | the five chained replacements equal one pass that maps each special character to its entity, because `&` is escaped first |
| Html.UnescapeEscape | src/index.ts:24-41 | unescaping an escaped string gives it back: the codec round-trips |
| Html.EscapedHasNoMarkup | src/index.ts:24-31 | escaped text contains no `<`, `>`, `"` or `'` and is no shorter than the input |
| Html.UnescapeWithoutAmpersand | src/index.ts:34-41 | text without `&` is left unchanged by unescaping |
| Slicing.Truncate | src/index.ts:136-147 | short input is returned as is; the result never exceeds a non-negative `maxLength`; a too-small limit gives a sliced ellipsis; otherwise the result is a prefix of the input followed by the ellipsis, exactly `maxLength` long without `keepWords` |
| Slicing.TruncateKeepsWords | src/index.ts:141-146 | with `keepWords`, the cut falls on the last space inside the window when there is one past position 0, and at the window's end otherwise |
| Slicing.TruncateMiddle | src/index.ts:150-152 | short input is returned as is; the result never exceeds a non-negative `maxLength`; a too-small limit gives a sliced ellipsis |
| Slicing.TruncateMiddleShape | src/index.ts:153-156 | the result is exactly `maxLength` long: the ceiling half of the input's head, the ellipsis, then the floor half of its tail |
| Slicing.Center | src/index.ts:447-454 | input at least `width` long is returned as is; otherwise `width - length` copies of the pad are added |
| Slicing.CenterShape | src/index.ts:447-454 | with a one-character pad, the result is `width` long with the input in the middle; the right padding equals the left or is one longer |
| Slicing.ToFixedLength | src/index.ts:462-466 | equal length returns the input; shorter input is kept as the prefix and padded |
| Slicing.FixedLengthShape | src/index.ts:462-475 | with a one-character pad the result has exactly the requested length; truncation keeps the head (`end`), the tail (`start`), or the floor half of the head plus the rest from the tail (`middle`) |
| Slicing.MaskShape | src/index.ts:437-444 | when the shown parts fit, the output has the input's length, keeps `showStart` characters at the head and `showEnd` at the tail, and masks everything between |
| Slicing.MaskOverlapRepeats | src/index.ts:440-443 | when `showStart + showEnd` exceeds the length, the head and tail overlap and the output is longer than the input |
| Slicing.MaskOverlapExample | src/index.ts:440-443 | `mask("abc", {showStart: 2, showEnd: 2, maskChar: "*"})` is `"abbc"` |
| Slicing.MaskCorrectedShape | src/index.ts:437-444 | with the tail clipped to what the head leaves, the output always has the input's length, each character is kept or masked, and it agrees with `mask` whenever the parts fit |
| Slicing.EnsurePrefix | src/index.ts:323-325 | the result starts with the prefix; it equals the input exactly when the input already did, and is `prefix + input` otherwise |
| Slicing.EnsureSuffix | src/index.ts:328-330 | the result ends with the suffix; it equals the input exactly when the input already did, and is `input + suffix` otherwise |
| Slicing.EnsureIdempotent | src/index.ts:323-330 | applying `ensurePrefix` or `ensureSuffix` twice is the same as once |
| JsString.IndexOfIsFirst | src/index.ts:536-538 | `indexOf` returns the first occurrence at or after the clamped start, and -1 exactly when there is none |
| JsString.TrimEnd | src/index.ts:399 | `trimEnd` removes exactly a white-space suffix, leaving a prefix that does not end in white space |
| Delimiters.Between | src/index.ts:535-541 | a value exists exactly when `start` occurs from `fromIndex` and `end` occurs after it; the value then fits inside the input |
| Delimiters.BetweenSplitsInput | src/index.ts:535-541 | the input is the text before the marker, `start`, the value, `end`, and the rest |
| Delimiters.BetweenFindsFirstPair | src/index.ts:535-541 | the value is the text between the first `start` at or after `fromIndex` and the first `end` after it |
| Delimiters.BetweenMissing | src/index.ts:537-539 | without such a `start`, or without an `end` after it, the result is null |
| Delimiters.BetweenAll | src/index.ts:544-556 | the loop returns exactly the recursive collection `BetweenAllFrom(0)`; each iteration advances past the `end` marker it used |
| Delimiters.BetweenAllOfWrapped | src/index.ts:544-556 | values each wrapped as `start value close`, with `close` a character absent from them, come back exactly |
| Delimiters.BetweenAllStalls | src/index.ts:547-553 | with both markers empty, an iteration finds an empty value and leaves `idx` where it was, so the loop never ends on a non-empty input |
| Delimiters.BetweenAllCorrectedAgrees | src/index.ts:544-556 | with the loop made to advance at least one position per round, the result is unchanged whenever a marker is non-empty |
| Delimiters.BetweenAllCorrectedOfEmptyMarkers | src/index.ts:547-553 | with that correction and both markers empty, the loop ends with one empty value per position |
| Dedent.TrimNewlines | src/index.ts:417 | the trimmed text is the input minus a run of leading and a run of trailing newlines, and neither starts nor ends with one |
| Dedent.MinIndent | src/index.ts:419-425 | the scan computes the minimum leading white-space length over non-blank lines, or null |
| Dedent.MinIndentNullIffBlank | src/index.ts:419-425 | the minimum is null exactly when every line is blank |
| Dedent.MinIndentIsLeast | src/index.ts:419-425 | the minimum is at most every non-blank line's indent and equals one of them |
| Dedent.Dedent | src/index.ts:414-428 | the imperative version computes exactly the specification `DedentOf` |
| Dedent.DedentWithoutIndent | src/index.ts:426 | when some non-blank line is unindented, or all are blank, the prepared text comes back unchanged |
| Dedent.DedentLinewise | src/index.ts:427 | otherwise the output's lines are the input's lines, each with the common space prefix removed when it has one |
| Dedent.MinIndentShift | src/index.ts:427 | cutting `m` leading spaces from every non-blank line lowers the minimum indent by exactly `m` |
| Dedent.DedentIdempotent | src/index.ts:414-428 | for space-indented input, dedenting a dedented text again changes nothing |

## Left out

- Characters outside the Basic Multilingual Plane: a Dafny `char` is a Unicode scalar value, so UTF-16 surrogate pairs, which JavaScript counts as two code units, are not represented.
- The Unicode tables are parameters, not data. These are `\p{L}`, `\p{N}`, the case maps and `stripDiacritics`, which is NFD normalization followed by removal of combining marks. Case mapping is per character, so mappings that change length, such as `ß` to `SS`, are outside the model.
- `similarity` is computed over `real`. IEEE-754 rounding of the division is not modelled.
- Numeric arguments (`maxLength`, `width`, `length`, `showStart`, `showEnd`, `maxLetters`, `fromIndex`) are `int`. `NaN`, infinities and fractional values are not modelled.
- `String(input)` coercion of non-string arguments is not modelled. Inputs are strings.
- Options objects become explicit parameters. Their default values (`width = 80`, `ellipsis = '…'`, `showEnd = 4`, `maskChar = '•'` and the rest) are left to the caller.
- WordWrap.WrapShape: the bound on line length is "fits the width or is a single word" in both modes. No tighter bound is stated for `breakLongWords`. A long word that starts a line is not broken anyway, by the `current.length === 0` test of line 372.
- WordWrap.WrapKeepsContent: stated only without `breakLongWords`. With it, the source as written can lose a line or move it after the next word (see Findings); the corrected step is proved content-preserving in `StepCorrectedKeepsContent`.
- Delimiters.BetweenAll: requires a non-empty marker or an empty input. With both markers empty the source loop never advances, so on a non-empty input it never ends (`BetweenAllStalls`), which a terminating method cannot model; on the empty input it returns `[]` without entering the loop, and the model does the same. See Findings for the corrected loop.
- Dedent.MinIndent: a blank line is one made only of white space. This is the same test as `!l.trim()`.
- CaseConversion.SnakeCaseSplitsBack, KebabCaseSplitsBack and ConstantCaseSplitsBack: these need the separator to be absent from each converted word. The parameter `Unicode` is arbitrary, so a mapped character could be `_` or `-`.
- The other exports of `src/index.ts` are not part of this model: slugify, title case, filename sanitizing, grapheme counting, base64, the validators, templates and the rest.

## Findings

| source | as written | input that shows it | evidently intended | confidence | as-written member | corrected member |
|---|---|---|---|---|---|---|
| src/index.ts:391-396 | when a long word must be broken and `current` already fills the width, `current` is not pushed first: a last partial chunk overwrites it, and a word that is a whole number of chunks leaves it to be emitted after the chunks | `wordWrap("abc  defghij", {width: 5, breakLongWords: true})` gives `"defgh\nij"`, so `abc` is lost; `wordWrap("abc  fghijklmno", {width: 5, breakLongWords: true})` gives `"fghij\nklmno\nabc"`, out of order (`FullLineReorderedExample`) | push `indent + current.trimEnd()` before chunking, as the other branches do, so no text is lost or reordered | not executed | WordWrap.FullLineDroppedExample | WordWrap.StepCorrectedKeepsContent |
| src/index.ts:440-441 | the tail slice is computed from the input length alone, so it overlaps the head when `showStart + showEnd` exceeds the length | `mask("abc", {showStart: 2, showEnd: 2, maskChar: "*"})` gives `"abbc"`, longer than the input | clip the tail to the characters the head leaves, so the output keeps the input's length | not executed | Slicing.MaskOverlapExample | Slicing.MaskCorrectedShape |
| src/index.ts:547-553 | `idx = endIdx + end.length` does not move when both markers are empty, because both `indexOf` calls then return `idx` | `betweenAll("ab", "", "")` finds `""` at 0 and sets `idx` back to 0, so it never returns | advance at least one position per round, so the call ends with one empty value per position | not executed | Delimiters.BetweenAllStalls | Delimiters.BetweenAllCorrectedOfEmptyMarkers |
