/** Levenshtein edit distance and the similarity score built on it
    (`levenshtein` and `similarity` of src/index.ts). Characters are compared
    as code units, as `charCodeAt` does. */
module EditDistance {

  function Min3(x: nat, y: nat, z: nat): nat {
    if x <= y && x <= z then x else if y <= z then y else z
  }

  function Max(x: nat, y: nat): nat {
    if x < y then y else x
  }

  /** Cell `(i, j)` of the textbook Levenshtein table: the least number of
      single-character insertions, deletions and substitutions that turn
      `a[..i]` into `b[..j]`. Row 0 and column 0 count insertions or
      deletions only; every other cell takes the cheapest of the three
      last steps. */
  function Cell(a: string, b: string, i: nat, j: nat): nat
    requires i <= |a| && j <= |b|
    decreases i + j
  {
    if i == 0 then j
    else if j == 0 then i
    else
      var cost := if a[i - 1] == b[j - 1] then 0 else 1;
      Min3(Cell(a, b, i, j - 1) + 1,            // drop b[j - 1]
           Cell(a, b, i - 1, j) + 1,            // drop a[i - 1]
           Cell(a, b, i - 1, j - 1) + cost)     // match or substitute
  }

  /** The recurrence of an inner cell: the cheapest of a deletion, an
      insertion, and a match or substitution. */
  lemma {:induction false} CellStep(a: string, b: string, i: nat, j: nat)
    requires 0 < i <= |a| && 0 < j <= |b|
    ensures Cell(a, b, i, j) ==
      Min3(Cell(a, b, i, j - 1) + 1, Cell(a, b, i - 1, j) + 1,
           Cell(a, b, i - 1, j - 1) + if a[i - 1] == b[j - 1] then 0 else 1)
  {
  }

  /** The Levenshtein distance of two whole strings. */
  function Dist(a: string, b: string): nat {
    Cell(a, b, |a|, |b|)
  }

  /** A string is at distance zero from itself. */
  lemma {:induction false} CellDiagonalZero(a: string, b: string, i: nat)
    requires i <= |a| && i <= |b| && a[..i] == b[..i]
    ensures Cell(a, b, i, i) == 0
  {
    if i > 0 {
      assert a[..i - 1] == a[..i][..i - 1] && b[..i - 1] == b[..i][..i - 1];
      assert a[i - 1] == a[..i][i - 1];
      CellDiagonalZero(a, b, i - 1);
    }
  }

  /** The table does not depend on which string is the row and which the
      column: what makes the swap at the start of `levenshtein` safe. */
  lemma {:induction false} CellSymmetric(a: string, b: string, i: nat, j: nat)
    requires i <= |a| && j <= |b|
    ensures Cell(a, b, i, j) == Cell(b, a, j, i)
    decreases i + j
  {
    if i > 0 && j > 0 {
      CellSymmetric(a, b, i, j - 1);
      CellSymmetric(a, b, i - 1, j);
      CellSymmetric(a, b, i - 1, j - 1);
    }
  }

  /** No cell exceeds the longer of its two prefix lengths (substitute along
      the shorter prefix, insert the rest). */
  lemma {:induction false} CellAtMostLonger(a: string, b: string, i: nat, j: nat)
    requires i <= |a| && j <= |b|
    ensures Cell(a, b, i, j) <= Max(i, j)
    decreases i + j
  {
    if i > 0 && j > 0 {
      CellAtMostLonger(a, b, i - 1, j - 1);
    }
  }

  /** No cell is below the difference of its two prefix lengths. */
  lemma {:induction false} CellAtLeastLengthGap(a: string, b: string, i: nat, j: nat)
    requires i <= |a| && j <= |b|
    ensures Cell(a, b, i, j) >= i - j && Cell(a, b, i, j) >= j - i
  {
    CellAtLeastRowsLeft(a, b, i, j);
    CellAtLeastColumnsLeft(a, b, i, j);
  }

  lemma {:induction false} CellAtLeastRowsLeft(a: string, b: string, i: nat, j: nat)
    requires i <= |a| && j <= |b|
    ensures Cell(a, b, i, j) >= i - j
    decreases i + j
  {
    if i > 0 && j > 0 {
      CellAtLeastRowsLeft(a, b, i, j - 1);
      CellAtLeastRowsLeft(a, b, i - 1, j);
      CellAtLeastRowsLeft(a, b, i - 1, j - 1);
    }
  }

  lemma {:induction false} CellAtLeastColumnsLeft(a: string, b: string, i: nat, j: nat)
    requires i <= |a| && j <= |b|
    ensures Cell(a, b, i, j) >= j - i
    decreases i + j
  {
    if i > 0 && j > 0 {
      CellAtLeastColumnsLeft(a, b, i, j - 1);
      CellAtLeastColumnsLeft(a, b, i - 1, j);
      CellAtLeastColumnsLeft(a, b, i - 1, j - 1);
    }
  }

  /** A cell is zero exactly when the two prefixes are equal. */
  lemma {:induction false} CellZeroIffEqual(a: string, b: string, i: nat, j: nat)
    requires i <= |a| && j <= |b|
    ensures Cell(a, b, i, j) == 0 <==> a[..i] == b[..j]
    decreases i + j
  {
    if a[..i] == b[..j] {
      CellDiagonalZero(a, b, i);
    } else if Cell(a, b, i, j) == 0 {
      assert i > 0 && j > 0;
      assert a[..i] == a[..i - 1] + [a[i - 1]] && b[..j] == b[..j - 1] + [b[j - 1]];
      CellZeroIffEqual(a, b, i - 1, j - 1);
      assert false;
    }
  }

  /** Prefixes with no character in common are as far apart as the longer
      of them is long. */
  lemma {:induction false} CellOfDisjoint(a: string, b: string, i: nat, j: nat)
    requires i <= |a| && j <= |b|
    requires forall c :: c in a ==> c !in b
    ensures Cell(a, b, i, j) == Max(i, j)
    decreases i + j
  {
    if i > 0 && j > 0 {
      CellOfDisjoint(a, b, i, j - 1);
      CellOfDisjoint(a, b, i - 1, j);
      CellOfDisjoint(a, b, i - 1, j - 1);
      assert a[i - 1] != b[j - 1] by {
        assert a[i - 1] in a && b[j - 1] in b;
      }
    }
  }

  /** The distance is symmetric. */
  lemma {:induction false} DistSymmetric(a: string, b: string)
    ensures Dist(a, b) == Dist(b, a)
  {
    CellSymmetric(a, b, |a|, |b|);
  }

  /** The distance is zero exactly for equal strings; in particular
      `levenshtein(a, a)` is 0. */
  lemma {:induction false} DistZeroIffEqual(a: string, b: string)
    ensures Dist(a, b) == 0 <==> a == b
  {
    CellZeroIffEqual(a, b, |a|, |b|);
    assert a[..|a|] == a && b[..|b|] == b;
  }

  /** The distance lies between the difference of the lengths and the
      longer length. */
  lemma {:induction false} DistBounds(a: string, b: string)
    ensures |a| - |b| <= Dist(a, b) && |b| - |a| <= Dist(a, b)
    ensures Dist(a, b) <= Max(|a|, |b|)
  {
    CellAtLeastLengthGap(a, b, |a|, |b|);
    CellAtMostLonger(a, b, |a|, |b|);
  }

  /** Strings with no character in common are as far apart as the longer
      is long. */
  lemma {:induction false} DistOfDisjoint(a: string, b: string)
    requires forall c :: c in a ==> c !in b
    ensures Dist(a, b) == Max(|a|, |b|)
  {
    CellOfDisjoint(a, b, |a|, |b|);
  }

  /** The classic example: `kitten` becomes `sitting` in three edits
      (two substitutions and an insertion). */
  lemma KittenSittingExample()
    ensures Dist("kitten", "sitting") == 3
  {
    var a, b := "kitten", "sitting";
    assert KittenSittingLetters(a, b);
    KittenSittingTable(a, b);
  }

  /** `a` and `b` spell `kitten` and `sitting`, letter by letter. */
  predicate KittenSittingLetters(a: string, b: string) {
    |a| == 6 && |b| == 7 && a[0] == 'k' && a[1] == 'i' && a[2] == 't' && a[3] == 't' && a[4] == 'e' && a[5] == 'n' && b[0] == 's' && b[1] == 'i' && b[2] == 't' && b[3] == 't' && b[4] == 'i' && b[5] == 'n' && b[6] == 'g'
  }

  /** The table for `kitten` and `sitting`, filled in row by row. */
  lemma {:induction false} KittenSittingTable(a: string, b: string)
    requires KittenSittingLetters(a, b)
    ensures Cell(a, b, 6, 7) == 3
  {
    CellFromNeighbours(a, b, 1, 1, 1, 1, 0, 1);
    CellFromNeighbours(a, b, 1, 2, 1, 2, 1, 2);
    CellFromNeighbours(a, b, 1, 3, 2, 3, 2, 3);
    CellFromNeighbours(a, b, 1, 4, 3, 4, 3, 4);
    CellFromNeighbours(a, b, 1, 5, 4, 5, 4, 5);
    CellFromNeighbours(a, b, 1, 6, 5, 6, 5, 6);
    CellFromNeighbours(a, b, 1, 7, 6, 7, 6, 7);
    CellFromNeighbours(a, b, 2, 1, 2, 1, 1, 2);
    CellFromNeighbours(a, b, 2, 2, 2, 2, 1, 1);
    CellFromNeighbours(a, b, 2, 3, 1, 3, 2, 2);
    CellFromNeighbours(a, b, 2, 4, 2, 4, 3, 3);
    CellFromNeighbours(a, b, 2, 5, 3, 5, 4, 4);
    CellFromNeighbours(a, b, 2, 6, 4, 6, 5, 5);
    CellFromNeighbours(a, b, 2, 7, 5, 7, 6, 6);
    CellFromNeighbours(a, b, 3, 1, 3, 2, 2, 3);
    CellFromNeighbours(a, b, 3, 2, 3, 1, 2, 2);
    CellFromNeighbours(a, b, 3, 3, 2, 2, 1, 1);
    CellFromNeighbours(a, b, 3, 4, 1, 3, 2, 2);
    CellFromNeighbours(a, b, 3, 5, 2, 4, 3, 3);
    CellFromNeighbours(a, b, 3, 6, 3, 5, 4, 4);
    CellFromNeighbours(a, b, 3, 7, 4, 6, 5, 5);
    CellFromNeighbours(a, b, 4, 1, 4, 3, 3, 4);
    CellFromNeighbours(a, b, 4, 2, 4, 2, 3, 3);
    CellFromNeighbours(a, b, 4, 3, 3, 1, 2, 2);
    CellFromNeighbours(a, b, 4, 4, 2, 2, 1, 1);
    CellFromNeighbours(a, b, 4, 5, 1, 3, 2, 2);
    CellFromNeighbours(a, b, 4, 6, 2, 4, 3, 3);
    CellFromNeighbours(a, b, 4, 7, 3, 5, 4, 4);
    CellFromNeighbours(a, b, 5, 1, 5, 4, 4, 5);
    CellFromNeighbours(a, b, 5, 2, 5, 3, 4, 4);
    CellFromNeighbours(a, b, 5, 3, 4, 2, 3, 3);
    CellFromNeighbours(a, b, 5, 4, 3, 1, 2, 2);
    CellFromNeighbours(a, b, 5, 5, 2, 2, 1, 2);
    CellFromNeighbours(a, b, 5, 6, 2, 3, 2, 3);
    CellFromNeighbours(a, b, 5, 7, 3, 4, 3, 4);
    CellFromNeighbours(a, b, 6, 1, 6, 5, 5, 6);
    CellFromNeighbours(a, b, 6, 2, 6, 4, 5, 5);
    CellFromNeighbours(a, b, 6, 3, 5, 3, 4, 4);
    CellFromNeighbours(a, b, 6, 4, 4, 2, 3, 3);
    CellFromNeighbours(a, b, 6, 5, 3, 2, 2, 3);
    CellFromNeighbours(a, b, 6, 6, 3, 3, 2, 2);
    CellFromNeighbours(a, b, 6, 7, 2, 4, 3, 3);
  }

  /** An inner cell from the three cells it is computed from. */
  lemma {:induction false} CellFromNeighbours(a: string, b: string, i: nat, j: nat, left: nat, up: nat, diag: nat, v: nat)
    requires 0 < i <= |a| && 0 < j <= |b|
    requires Cell(a, b, i, j - 1) == left && Cell(a, b, i - 1, j) == up && Cell(a, b, i - 1, j - 1) == diag
    requires v == Min3(left + 1, up + 1, diag + if a[i - 1] == b[j - 1] then 0 else 1)
    ensures Cell(a, b, i, j) == v
  {
  }


  /** One pass of the outer loop of `levenshtein`: turns the row of cells
      `(_, j - 1)` into the row of cells `(_, j)`, left to right, carrying the
      overwritten cell in `prevDiag`. */
  method NextRow(prev: array<nat>, a: string, b: string, j: nat)
    requires prev.Length == |a| + 1 && 0 < j <= |b|
    requires forall k {:trigger prev[k]} :: 0 <= k <= |a| ==> prev[k] == Cell(a, b, k, j - 1)
    modifies prev
    ensures forall k {:trigger prev[k]} :: 0 <= k <= |a| ==> prev[k] == Cell(a, b, k, j)
  {
    var prevDiag := prev[0];
    prev[0] := j;
    for i := 1 to |a| + 1
      invariant forall k {:trigger prev[k]} :: 0 <= k < i ==> prev[k] == Cell(a, b, k, j)
      invariant forall k {:trigger prev[k]} :: i <= k <= |a| ==> prev[k] == Cell(a, b, k, j - 1)
      invariant prevDiag == Cell(a, b, i - 1, j - 1)
    {
      var temp := prev[i];
      var cost := if a[i - 1] == b[j - 1] then 0 else 1;
      var cell := Min3(prev[i] + 1,      // deletion
                       prev[i - 1] + 1,  // insertion
                       prevDiag + cost); // substitution
      assert cell == Cell(a, b, i, j) by {
        CellStep(a, b, i, j);
      }
      ghost var before := prev[..];
      prev[i] := cell;
      assert forall k :: 0 <= k <= |a| && k != i ==> prev[k] == before[k];
      prevDiag := temp;
    }
  }

  /** `levenshtein(a, b)`: the fast paths, the swap that keeps the shorter
      string as the row, and the single rolling row `prev` of `|a| + 1`
      cells updated in place. */
  method Levenshtein(a0: string, b0: string) returns (d: nat)
    ensures d == Dist(a0, b0)
  {
    if a0 == b0 {
      DistZeroIffEqual(a0, b0);
      return 0;
    }
    if |a0| == 0 {
      return |b0|;
    }
    if |b0| == 0 {
      return |a0|;
    }
    var a, b := a0, b0;
    if |a| > |b| {
      a, b := b0, a0;
      DistSymmetric(a0, b0);
    }

    var prev := new nat[|a| + 1];
    for i := 0 to |a| + 1
      invariant forall k {:trigger prev[k]} :: 0 <= k < i ==> prev[k] == Cell(a, b, k, 0)
    {
      prev[i] := i;
    }

    for j := 1 to |b| + 1
      invariant forall k {:trigger prev[k]} :: 0 <= k <= |a| ==> prev[k] == Cell(a, b, k, j - 1)
    {
      NextRow(prev, a, b, j);
    }
    d := prev[|a|];
  }

  /** Helper for `Similarity`: a distance over the longer length is a ratio
      in [0, 1], at its ends exactly for equal and for wholly different
      strings. */
  lemma {:induction false} RatioInUnitInterval(d: nat, m: nat)
    requires 0 < m && d <= m
    ensures 0.0 <= (d as real) / (m as real) <= 1.0
    ensures (d as real) / (m as real) == 0.0 <==> d == 0
    ensures (d as real) / (m as real) == 1.0 <==> d == m
  {
    var q := (d as real) / (m as real);
    assert q * (m as real) == d as real;
  }

  /** `similarity(a, b)`: one minus the distance over the longer length,
      exactly 1 when both strings are empty; it always lies in [0, 1]. */
  method Similarity(a: string, b: string) returns (s: real)
    ensures 0.0 <= s <= 1.0
    ensures s == 1.0 <==> a == b
    ensures s == 0.0 <==> Dist(a, b) == Max(|a|, |b|) && (|a| > 0 || |b| > 0)
    ensures |a| + |b| > 0 ==> s == 1.0 - (Dist(a, b) as real) / (Max(|a|, |b|) as real)
  {
    var maxLen := Max(|a|, |b|);
    if maxLen == 0 {
      return 1.0;
    }
    var d := Levenshtein(a, b);
    DistBounds(a, b);
    DistZeroIffEqual(a, b);
    RatioInUnitInterval(d, maxLen);
    s := 1.0 - (d as real) / (maxLen as real);
  }
}
