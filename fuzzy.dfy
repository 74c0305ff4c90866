/*
 * The edit distance behind `isFuzzyMatch` of SubsequenceTST: the classic
 * dynamic programme over a (|word| + 1) x (|pattern| + 1) table.
 */
module EditDistance {

  function Min3(a: int, b: int, c: int): int {
    if a <= b && a <= c then a else if b <= c then b else c
  }

  /**
   * The entry `dp[i][j]`: the fewest deletions, insertions and
   * substitutions that turn `a[..i]` into `b[..j]`.
   */
  function Dist(a: string, b: string, i: nat, j: nat): nat
    requires i <= |a| && j <= |b|
    decreases i + j
  {
    if i == 0 then j
    else if j == 0 then i
    else Min3(Dist(a, b, i - 1, j) + 1, Dist(a, b, i, j - 1) + 1,
              Dist(a, b, i - 1, j - 1) + if a[i - 1] == b[j - 1] then 0 else 1)
  }

  /** The edit distance of two strings: the last entry of the table. */
  function Distance(a: string, b: string): nat {
    Dist(a, b, |a|, |b|)
  }

  /** The distance is at least the difference of the lengths. */
  lemma {:induction false} DistAtLeast(a: string, b: string, i: nat, j: nat)
    requires i <= |a| && j <= |b|
    ensures i - j <= Dist(a, b, i, j) && j - i <= Dist(a, b, i, j)
    decreases i + j
  {
    if i > 0 && j > 0 {
      DistAtLeast(a, b, i - 1, j);
      DistAtLeast(a, b, i, j - 1);
      DistAtLeast(a, b, i - 1, j - 1);
    }
  }

  /** The distance is at most the longer length. */
  lemma {:induction false} DistAtMost(a: string, b: string, i: nat, j: nat)
    requires i <= |a| && j <= |b|
    ensures Dist(a, b, i, j) <= if i < j then j else i
    decreases i + j
  {
    if i > 0 && j > 0 {
      DistAtMost(a, b, i - 1, j - 1);
    }
  }

  /** Equal prefixes are no edit apart. */
  lemma {:induction false} DistSame(a: string, b: string, i: nat)
    requires i <= |a| && i <= |b| && a[..i] == b[..i]
    ensures Dist(a, b, i, i) == 0
    decreases i
  {
    if i > 0 {
      assert a[..i - 1] == a[..i][..i - 1] && b[..i - 1] == b[..i][..i - 1];
      assert a[i - 1] == a[..i][i - 1] && b[i - 1] == b[..i][i - 1];
      DistSame(a, b, i - 1);
    }
  }

  /** Turning `a` into `b` costs as much as turning `b` into `a`. */
  lemma {:induction false} DistSymmetric(a: string, b: string, i: nat, j: nat)
    requires i <= |a| && j <= |b|
    ensures Dist(a, b, i, j) == Dist(b, a, j, i)
    decreases i + j
  {
    if i > 0 && j > 0 {
      DistSymmetric(a, b, i - 1, j);
      DistSymmetric(a, b, i, j - 1);
      DistSymmetric(a, b, i - 1, j - 1);
    }
  }

  /** The whole-string facts: a string is at distance 0 from itself, the distance is symmetric and bounded by the lengths. */
  lemma DistanceProperties(a: string, b: string)
    ensures Distance(a, a) == 0
    ensures Distance(a, b) == Distance(b, a)
    ensures |a| - |b| <= Distance(a, b) && |b| - |a| <= Distance(a, b)
    ensures Distance(a, b) <= if |a| < |b| then |b| else |a|
  {
    DistSame(a, a, |a|);
    DistSymmetric(a, b, |a|, |b|);
    DistAtLeast(a, b, |a|, |b|);
    DistAtMost(a, b, |a|, |b|);
  }

  /**
   * One row of the table: `dp[i][j]` from the row above and the entry to
   * the left, for `j` in `1...n`. Only row `i` changes.
   */
  method FillRow(dp: array2<nat>, word: string, pattern: string, above: nat, i: nat)
    requires dp.Length0 == |word| + 1 && dp.Length1 == |pattern| + 1 && i == above + 1 <= |word|
    requires forall c {:trigger dp[above, c]} :: 0 <= c <= |pattern| ==> dp[above, c] == Dist(word, pattern, above, c)
    requires dp[i, 0] == i
    modifies dp
    ensures forall c {:trigger dp[i, c]} :: 0 <= c <= |pattern| ==> dp[i, c] == Dist(word, pattern, i, c)
    ensures forall k, c :: 0 <= k <= |word| && 0 <= c <= |pattern| && k != i ==> dp[k, c] == old(dp[k, c])
  {
    for j := 1 to |pattern| + 1
      invariant forall c {:trigger dp[i, c]} :: 0 <= c < j ==> dp[i, c] == Dist(word, pattern, i, c)
      invariant forall k, c :: 0 <= k <= |word| && 0 <= c <= |pattern| && k != i ==> dp[k, c] == old(dp[k, c])
    {
      var cost := if word[i - 1] == pattern[j - 1] then 0 else 1;
      var d := Min3(dp[above, j] + 1, dp[i, j - 1] + 1, dp[above, j - 1] + cost);
      assert d == Dist(word, pattern, i, j);
      dp[i, j] := d;
    }
  }

  /**
   * `isFuzzyMatch`: fill the table row by row and compare its last entry
   * with `maxDistance`. Both strings must be non-empty: the loops
   * `1...word.count` and `1...pattern.count` trap on an empty range.
   */
  method IsFuzzyMatch(word: string, pattern: string, maxDistance: int) returns (r: bool)
    requires word != [] && pattern != []
    ensures r <==> Distance(word, pattern) <= maxDistance
  {
    var m, n := |word|, |pattern|;
    var dp := new nat[m + 1, n + 1];
    for i := 0 to m + 1
      invariant forall k :: 0 <= k < i ==> dp[k, 0] == k
    {
      dp[i, 0] := i;
    }
    for j := 0 to n + 1
      invariant forall k :: 0 <= k <= m ==> dp[k, 0] == k
      invariant forall c :: 0 <= c < j ==> dp[0, c] == c
    {
      dp[0, j] := j;
    }
    var above := 0;
    for i := 1 to m + 1
      invariant above == i - 1
      invariant forall c {:trigger dp[above, c]} :: 0 <= c <= n ==> dp[above, c] == Dist(word, pattern, above, c)
      invariant forall k :: i <= k <= m ==> dp[k, 0] == k
    {
      FillRow(dp, word, pattern, above, i);
      above := i;
    }
    r := dp[m, n] <= maxDistance;
  }
}
