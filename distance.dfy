/**
 * The edit-distance calculator (`calc_dist_bytes`): the Levenshtein
 * distance between two byte strings, with unit cost for an insertion,
 * a deletion or a substitution and no cost for a matching byte.
 *
 * `Dist` is the recurrence over the cells of the (|a|+1) x (|b|+1) cost
 * grid and `Lev` its bottom-right cell; `CalcDist` is the Wagner-Fischer
 * computation with two rolling rows that the source runs, proved to
 * return `Lev`. The lemmas are the metric properties of the distance
 * (zero exactly on equal strings, symmetry, the triangle inequality) and
 * its bounds.
 */
module Distance {

  newtype byte = b: int | 0 <= b < 0x100

  function Min(x: int, y: int): int { if x <= y then x else y }

  function Max(x: int, y: int): int { if x <= y then y else x }

  /** Cost of putting byte `y` where byte `x` stands. */
  function Cost(x: byte, y: byte): int { if x == y then 0 else 1 }

  /** The three ways into a cell of the grid: from the cell above (delete
      a byte of `a`), from the cell to the left (insert a byte of `b`) or
      from the diagonal (keep or substitute). */
  function Min3(up: int, left: int, diag: int): int { Min(Min(up, left), diag) }

  /**
   * Cell (i, j) of the cost grid: the edit distance between the first i
   * bytes of `a` and the first j bytes of `b`. Row 0 and column 0 are the
   * base cases (j insertions, i deletions).
   */
  function Dist(a: seq<byte>, b: seq<byte>, i: int, j: int): int
    requires 0 <= i <= |a| && 0 <= j <= |b|
  {
    if i == 0 then j
    else if j == 0 then i
    else Min3(Dist(a, b, i - 1, j) + 1, Dist(a, b, i, j - 1) + 1,
              Dist(a, b, i - 1, j - 1) + Cost(a[i - 1], b[j - 1]))
  }

  /** An interior cell, as the three neighbouring cells determine it. */
  lemma DistStep(a: seq<byte>, b: seq<byte>, i: int, j: int)
    requires 0 < i <= |a| && 0 < j <= |b|
    ensures Dist(a, b, i, j)
         == Min3(Dist(a, b, i - 1, j) + 1, Dist(a, b, i, j - 1) + 1,
                 Dist(a, b, i - 1, j - 1) + Cost(a[i - 1], b[j - 1]))
  {
  }

  /** Cell (i, j) lies between the difference and the larger of the two
      prefix lengths. */
  ghost predicate WithinBounds(a: seq<byte>, b: seq<byte>, i: int, j: int)
    requires 0 <= i <= |a| && 0 <= j <= |b|
  {
    Dist(a, b, i, j) <= Max(i, j) && i <= Dist(a, b, i, j) + j && j <= Dist(a, b, i, j) + i
  }

  /** A prefix is never further from another than the longer of the two
      lengths, and never closer than the difference of the lengths. */
  lemma {:induction false} DistBounds(a: seq<byte>, b: seq<byte>, i: int, j: int)
    requires 0 <= i <= |a| && 0 <= j <= |b|
    ensures WithinBounds(a, b, i, j)
    decreases i + j
  {
    if i > 0 && j > 0 {
      DistBounds(a, b, i - 1, j);
      DistBounds(a, b, i, j - 1);
      DistBounds(a, b, i - 1, j - 1);
      BoundsStep(a, b, i, j);
    }
  }

  /** Inductive step of `DistBounds`. */
  lemma BoundsStep(a: seq<byte>, b: seq<byte>, i: int, j: int)
    requires 0 < i <= |a| && 0 < j <= |b|
    requires WithinBounds(a, b, i - 1, j) && WithinBounds(a, b, i, j - 1)
    requires WithinBounds(a, b, i - 1, j - 1)
    ensures WithinBounds(a, b, i, j)
  {
    DistStep(a, b, i, j);
  }

  lemma DistNonnegative(a: seq<byte>, b: seq<byte>, i: int, j: int)
    requires 0 <= i <= |a| && 0 <= j <= |b|
    ensures Dist(a, b, i, j) >= 0
  {
    DistBounds(a, b, i, j);
  }

  /** The Levenshtein distance between two whole strings. */
  function Lev(a: seq<byte>, b: seq<byte>): (r: nat)
    ensures |a| == 0 ==> r == |b|
    ensures |b| == 0 ==> r == |a|
    ensures r <= Max(|a|, |b|)
    ensures |a| <= r + |b| && |b| <= r + |a|
  {
    DistBounds(a, b, |a|, |b|);
    Dist(a, b, |a|, |b|)
  }

  /**
   * The source's `calc_dist_bytes`. An empty string is answered at once
   * with the other string's length. Otherwise `prev` starts as row 0 of the
   * grid; for each row r = 1 .. |a| (the source's i + 1) `curr` is filled
   * from left to right, cell k = 1 .. |b| (the source's j + 1) out of
   * `prev` and its own previous cell, and the two buffers are then
   * exchanged, so that `prev` always holds the last finished row
   * (`DistIsPrefixLev` reads cell (r, k) as the distance between prefixes).
   */
  method CalcDist(a: seq<byte>, b: seq<byte>) returns (d: nat)
    ensures d == Lev(a, b)
  {
    if |a| == 0 {
      return |b|;
    }
    if |b| == 0 {
      return |a|;
    }
    var n := |b|;
    var prev := new int[n + 1](j => j);
    var curr := new int[n + 1];
    for r := 1 to |a| + 1
      invariant prev.Length == n + 1 && curr.Length == n + 1 && prev != curr
      invariant fresh(prev) && fresh(curr)
      invariant forall j {:trigger prev[j]} :: 0 <= j <= n ==> prev[j] == Dist(a, b, r - 1, j)
    {
      curr[0] := r;
      for k := 1 to n + 1
        invariant forall j {:trigger prev[j]} :: 0 <= j <= n ==> prev[j] == Dist(a, b, r - 1, j)
        invariant forall j {:trigger curr[j]} :: 0 <= j < k ==> curr[j] == Dist(a, b, r, j)
      {
        curr[k] := Min3(prev[k] + 1, curr[k - 1] + 1, prev[k - 1] + Cost(a[r - 1], b[k - 1]));
        DistStep(a, b, r, k);
      }
      prev, curr := curr, prev;
    }
    DistBounds(a, b, |a|, n);
    d := prev[n];
  }

  /** The smallest of three values is at most each of them and is one of them. */
  lemma Min3Facts(x: int, y: int, z: int)
    ensures Min3(x, y, z) <= x && Min3(x, y, z) <= y && Min3(x, y, z) <= z
    ensures Min3(x, y, z) == x || Min3(x, y, z) == y || Min3(x, y, z) == z
  {
  }

  lemma Min3Swap(x: int, y: int, z: int)
    ensures Min3(x, y, z) == Min3(y, x, z)
  {
  }

  /** A prefix is at distance zero from itself. */
  lemma {:induction false} DistSelf(a: seq<byte>, i: int)
    requires 0 <= i <= |a|
    ensures Dist(a, a, i, i) == 0
  {
    if i > 0 {
      DistSelf(a, i - 1);
      DistBounds(a, a, i - 1, i);
      DistBounds(a, a, i, i - 1);
    }
  }

  /** A string is at distance zero from itself. */
  lemma LevSelf(a: seq<byte>)
    ensures Lev(a, a) == 0
  {
    DistSelf(a, |a|);
  }

  /** A zero interior cell comes from a zero diagonal cell and two equal
      bytes, and conversely. */
  lemma ZeroStep(a: seq<byte>, b: seq<byte>, i: int, j: int)
    requires 0 < i <= |a| && 0 < j <= |b|
    ensures Dist(a, b, i, j) == 0 <==> Dist(a, b, i - 1, j - 1) == 0 && a[i - 1] == b[j - 1]
  {
    DistStep(a, b, i, j);
    DistNonnegative(a, b, i - 1, j);
    DistNonnegative(a, b, i, j - 1);
    DistNonnegative(a, b, i - 1, j - 1);
    Min3Facts(Dist(a, b, i - 1, j) + 1, Dist(a, b, i, j - 1) + 1,
              Dist(a, b, i - 1, j - 1) + Cost(a[i - 1], b[j - 1]));
  }

  /** Two non-empty prefixes are equal exactly when the prefixes one byte
      shorter are equal and so are their last bytes. */
  lemma PrefixSnoc(a: seq<byte>, b: seq<byte>, i: int, j: int)
    requires 0 < i <= |a| && 0 < j <= |b|
    ensures a[..i] == b[..j] <==> a[..i - 1] == b[..j - 1] && a[i - 1] == b[j - 1]
  {
    assert a[..i] == a[..i - 1] + [a[i - 1]];
    assert b[..j] == b[..j - 1] + [b[j - 1]];
    if a[..i] == b[..j] {
      assert a[..i - 1] == a[..i][..i - 1] && b[..j - 1] == b[..j][..j - 1];
      assert a[i - 1] == a[..i][i - 1] && b[j - 1] == b[..j][j - 1];
    }
  }

  /** Two prefixes are at distance zero exactly when they are equal. */
  lemma {:induction false} DistZeroIff(a: seq<byte>, b: seq<byte>, i: int, j: int)
    requires 0 <= i <= |a| && 0 <= j <= |b|
    ensures Dist(a, b, i, j) == 0 <==> a[..i] == b[..j]
    decreases i + j
  {
    if i > 0 && j > 0 {
      DistZeroIff(a, b, i - 1, j - 1);
      ZeroStep(a, b, i, j);
      PrefixSnoc(a, b, i, j);
    }
  }

  /** Distance zero means the strings are equal, and conversely. */
  lemma LevZeroIffEqual(a: seq<byte>, b: seq<byte>)
    ensures Lev(a, b) == 0 <==> a == b
  {
    DistZeroIff(a, b, |a|, |b|);
    assert a[..|a|] == a && b[..|b|] == b;
  }

  /** Cell (i, j) of the grid of `a` against `b` is cell (j, i) of the grid
      of `b` against `a`. */
  ghost predicate Transposed(a: seq<byte>, b: seq<byte>, i: int, j: int)
    requires 0 <= i <= |a| && 0 <= j <= |b|
  {
    Dist(a, b, i, j) == Dist(b, a, j, i)
  }

  /** Inductive step of `DistSymmetric`. */
  lemma SymmetricStep(a: seq<byte>, b: seq<byte>, i: int, j: int)
    requires 0 < i <= |a| && 0 < j <= |b|
    requires Transposed(a, b, i - 1, j) && Transposed(a, b, i, j - 1)
    requires Transposed(a, b, i - 1, j - 1)
    ensures Transposed(a, b, i, j)
  {
    Min3Swap(Dist(a, b, i, j - 1) + 1, Dist(a, b, i - 1, j) + 1,
             Dist(a, b, i - 1, j - 1) + Cost(a[i - 1], b[j - 1]));
  }

  /** Swapping the strings transposes the grid. */
  lemma {:induction false} DistSymmetric(a: seq<byte>, b: seq<byte>, i: int, j: int)
    requires 0 <= i <= |a| && 0 <= j <= |b|
    ensures Transposed(a, b, i, j)
    decreases i + j
  {
    if i > 0 && j > 0 {
      DistSymmetric(a, b, i - 1, j);
      DistSymmetric(a, b, i, j - 1);
      DistSymmetric(a, b, i - 1, j - 1);
      SymmetricStep(a, b, i, j);
    }
  }

  /** The distance does not depend on the order of its arguments. */
  lemma LevSymmetric(a: seq<byte>, b: seq<byte>)
    ensures Lev(a, b) == Lev(b, a)
  {
    DistSymmetric(a, b, |a|, |b|);
  }

  /** The grid cell for `a` against `c` is no larger than going through `b`:
      cell (i, k) is at most cell (i, j) plus cell (j, k). */
  ghost predicate Triangle(a: seq<byte>, b: seq<byte>, c: seq<byte>, i: int, j: int, k: int)
    requires 0 <= i <= |a| && 0 <= j <= |b| && 0 <= k <= |c|
  {
    Dist(a, c, i, k) <= Dist(a, b, i, j) + Dist(b, c, j, k)
  }

  /** `Triangle` on the border of the grids, where one prefix is empty. */
  lemma TriangleBase(a: seq<byte>, b: seq<byte>, c: seq<byte>, i: int, j: int, k: int)
    requires 0 <= i <= |a| && 0 <= j <= |b| && 0 <= k <= |c|
    requires i == 0 || j == 0 || k == 0
    ensures Triangle(a, b, c, i, j, k)
  {
    DistBounds(a, c, i, k);
    DistBounds(a, b, i, j);
    DistBounds(b, c, j, k);
  }

  /**
   * Inductive step of `DistTriangle`. Whichever way cell (i, j) of `a`
   * against `b` and cell (j, k) of `b` against `c` are reached, the same
   * edits, with the middle byte of `b` dropped or reused, reach cell (i, k)
   * of `a` against `c`; a substitution through `b[j - 1]` costs at most
   * the two substitutions it replaces.
   */
  lemma TriangleStep(a: seq<byte>, b: seq<byte>, c: seq<byte>, i: int, j: int, k: int)
    requires 0 < i <= |a| && 0 < j <= |b| && 0 < k <= |c|
    requires Triangle(a, b, c, i - 1, j, k) && Triangle(a, b, c, i, j, k - 1)
    requires Triangle(a, b, c, i, j - 1, k) && Triangle(a, b, c, i, j - 1, k - 1)
    requires Triangle(a, b, c, i - 1, j - 1, k) && Triangle(a, b, c, i - 1, j - 1, k - 1)
    ensures Triangle(a, b, c, i, j, k)
  {
  }

  /** Every cell satisfies the triangle inequality through any cell of `b`. */
  lemma {:induction false} DistTriangle(a: seq<byte>, b: seq<byte>, c: seq<byte>, i: int, j: int, k: int)
    requires 0 <= i <= |a| && 0 <= j <= |b| && 0 <= k <= |c|
    ensures Triangle(a, b, c, i, j, k)
    decreases i + j + k
  {
    if i == 0 || j == 0 || k == 0 {
      TriangleBase(a, b, c, i, j, k);
    } else {
      DistTriangle(a, b, c, i - 1, j, k);
      DistTriangle(a, b, c, i, j, k - 1);
      DistTriangle(a, b, c, i, j - 1, k);
      DistTriangle(a, b, c, i, j - 1, k - 1);
      DistTriangle(a, b, c, i - 1, j - 1, k);
      DistTriangle(a, b, c, i - 1, j - 1, k - 1);
      TriangleStep(a, b, c, i, j, k);
    }
  }

  /** The triangle inequality: going through `b` is never shorter. */
  lemma LevTriangle(a: seq<byte>, b: seq<byte>, c: seq<byte>)
    ensures Lev(a, c) <= Lev(a, b) + Lev(b, c)
  {
    DistTriangle(a, b, c, |a|, |b|, |c|);
  }

  /** Inductive step of `DistOfPrefixes`. */
  lemma PrefixStep(a: seq<byte>, b: seq<byte>, m: int, n: int, i: int, j: int)
    requires 0 < i <= m <= |a| && 0 < j <= n <= |b|
    requires Dist(a, b, i - 1, j) == Dist(a[..m], b[..n], i - 1, j)
    requires Dist(a, b, i, j - 1) == Dist(a[..m], b[..n], i, j - 1)
    requires Dist(a, b, i - 1, j - 1) == Dist(a[..m], b[..n], i - 1, j - 1)
    ensures Dist(a, b, i, j) == Dist(a[..m], b[..n], i, j)
  {
    assert a[..m][i - 1] == a[i - 1] && b[..n][j - 1] == b[j - 1];
  }

  /** A cell of the grid only looks at the bytes before it: it is the same
      cell of the grid of any longer prefixes. */
  lemma {:induction false} DistOfPrefixes(a: seq<byte>, b: seq<byte>, m: int, n: int, i: int, j: int)
    requires 0 <= i <= m <= |a| && 0 <= j <= n <= |b|
    ensures Dist(a, b, i, j) == Dist(a[..m], b[..n], i, j)
    decreases i + j
  {
    if i > 0 && j > 0 {
      DistOfPrefixes(a, b, m, n, i - 1, j);
      DistOfPrefixes(a, b, m, n, i, j - 1);
      DistOfPrefixes(a, b, m, n, i - 1, j - 1);
      PrefixStep(a, b, m, n, i, j);
    }
  }

  /** Cell (i, j) is the distance between the first i bytes of `a` and the
      first j bytes of `b`. */
  lemma DistIsPrefixLev(a: seq<byte>, b: seq<byte>, i: int, j: int)
    requires 0 <= i <= |a| && 0 <= j <= |b|
    ensures Dist(a, b, i, j) == Lev(a[..i], b[..j])
  {
    DistOfPrefixes(a, b, i, j, i, j);
  }

  /** Two strings that differ only in their last byte are one substitution
      apart. */
  lemma LevSubstituteLast(a: seq<byte>, b: seq<byte>)
    requires |a| == |b| > 0 && a[..|a| - 1] == b[..|b| - 1] && a[|a| - 1] != b[|b| - 1]
    ensures Lev(a, b) == 1
  {
    var n := |a|;
    DistZeroIff(a, b, n - 1, n - 1);
    DistStep(a, b, n, n);
    Min3Facts(Dist(a, b, n - 1, n) + 1, Dist(a, b, n, n - 1) + 1,
              Dist(a, b, n - 1, n - 1) + Cost(a[n - 1], b[n - 1]));
    LevZeroIffEqual(a, b);
  }

  /** No byte of `a` occurs in `b`. */
  predicate Disjoint(a: seq<byte>, b: seq<byte>) {
    forall x, y :: 0 <= x < |a| && 0 <= y < |b| ==> a[x] != b[y]
  }

  /** Inductive step of `DistDisjoint`. */
  lemma DisjointStep(a: seq<byte>, b: seq<byte>, i: int, j: int)
    requires 0 < i <= |a| && 0 < j <= |b| && a[i - 1] != b[j - 1]
    requires Dist(a, b, i - 1, j) == Max(i - 1, j)
    requires Dist(a, b, i, j - 1) == Max(i, j - 1)
    requires Dist(a, b, i - 1, j - 1) == Max(i - 1, j - 1)
    ensures Dist(a, b, i, j) == Max(i, j)
  {
  }

  /** Without a common byte, every cell is the longer of the two prefix
      lengths: nothing can be kept. */
  lemma {:induction false} DistDisjoint(a: seq<byte>, b: seq<byte>, i: int, j: int)
    requires 0 <= i <= |a| && 0 <= j <= |b| && Disjoint(a, b)
    ensures Dist(a, b, i, j) == Max(i, j)
    decreases i + j
  {
    if i > 0 && j > 0 {
      DistDisjoint(a, b, i - 1, j);
      DistDisjoint(a, b, i, j - 1);
      DistDisjoint(a, b, i - 1, j - 1);
      DisjointStep(a, b, i, j);
    }
  }

  /** Two strings with no byte in common are as far apart as the longer one
      is long. */
  lemma LevDisjoint(a: seq<byte>, b: seq<byte>)
    requires Disjoint(a, b)
    ensures Lev(a, b) == Max(|a|, |b|)
  {
    DistDisjoint(a, b, |a|, |b|);
  }
}
