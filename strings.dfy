/*
 * String utilities: all non-empty subsequences by backtracking, and n-grams.
 * A Swift `String` is a sequence of `Character`s, here `seq<char>`.
 */
module Strings {

  function Pow2(k: nat): (r: nat)
    ensures r >= 1
  {
    if k == 0 then 1 else 2 * Pow2(k - 1)
  }

  /** `x` can be obtained from `s` by deleting characters. */
  predicate IsSubsequence(x: string, s: string)
    decreases |s|
  {
    if x == [] then true
    else if s == [] then false
    else (x[0] == s[0] && IsSubsequence(x[1..], s[1..])) || IsSubsequence(x, s[1..])
  }

  /**
   * What `backtrack(index, current)` outputs: `current` itself when it is
   * non-empty, then, for each later position `i`, everything produced from
   * `current + [s[i]]` and `i + 1`.
   */
  function Extensions(s: string, index: nat, current: string): seq<string>
    requires index <= |s|
    decreases |s| - index, 1
  {
    (if current != [] then [current] else []) + Branches(s, index, |s|, current)
  }

  /** The outputs of the loop iterations `index ..< j` of `backtrack(index, current)`. */
  function Branches(s: string, index: nat, j: nat, current: string): seq<string>
    requires index <= j <= |s|
    decreases |s| - index, 0, j
  {
    if j == index then []
    else Branches(s, index, j - 1, current) + Extensions(s, j, current + [s[j - 1]])
  }

  /** `backtrack`: the recursive search, appending to the captured result. */
  method Backtrack(s: string, index: nat, current: string, acc: seq<string>) returns (result: seq<string>)
    requires index <= |s|
    ensures result == acc + Extensions(s, index, current)
    decreases |s| - index
  {
    result := acc;
    if current != [] {
      result := result + [current];
    }
    for i := index to |s|
      invariant result == acc + (if current != [] then [current] else []) + Branches(s, index, i, current)
    {
      result := Backtrack(s, i + 1, current + [s[i]], result);
    }
  }

  /** `allSubsequences(of:)`: backtrack from the start with an empty prefix. */
  method AllSubsequences(s: string) returns (result: seq<string>)
    ensures result == Extensions(s, 0, [])
  {
    result := Backtrack(s, 0, [], []);
  }

  /**
   * There are 2^(n - index) outputs from a non-empty prefix (one less from
   * the empty one): every subset of the remaining positions, the empty
   * subset standing for `current` itself.
   */
  lemma {:induction false} ExtensionsCount(s: string, index: nat, current: string)
    requires index <= |s|
    ensures |Extensions(s, index, current)| == Pow2(|s| - index) - (if current == [] then 1 else 0)
    decreases |s| - index, 1
  {
    BranchesCount(s, index, |s|, current);
  }

  lemma {:induction false} BranchesCount(s: string, index: nat, j: nat, current: string)
    requires index <= j <= |s|
    ensures |Branches(s, index, j, current)| == Pow2(|s| - index) - Pow2(|s| - j)
    decreases |s| - index, 0, j
  {
    if j > index {
      BranchesCount(s, index, j - 1, current);
      ExtensionsCount(s, j, current + [s[j - 1]]);
      assert Pow2(|s| - (j - 1)) == 2 * Pow2(|s| - j);
    }
  }

  /** `allSubsequences` of a string of n characters has 2^n - 1 entries (none for ""). */
  lemma AllSubsequencesCount(s: string)
    ensures |Extensions(s, 0, [])| == Pow2(|s|) - 1
  {
    ExtensionsCount(s, 0, []);
  }

  /** Dropping the first character keeps a subsequence. */
  lemma {:induction false} SubsequenceOfTail(x: string, s: string)
    requires s != [] && IsSubsequence(x, s[1..])
    ensures IsSubsequence(x, s)
  {
  }

  /** Skipping `s[index..i]` and taking `s[i]` extends a subsequence of `s[i+1..]`. */
  lemma {:induction false} SubsequenceSkip(y: string, s: string, index: nat, i: nat)
    requires index <= i < |s| && IsSubsequence(y, s[i + 1..])
    ensures IsSubsequence([s[i]] + y, s[index..])
    decreases i - index
  {
    if i == index {
      assert s[index..][1..] == s[i + 1..];
      assert ([s[i]] + y)[1..] == y;
    } else {
      SubsequenceSkip(y, s, index + 1, i);
      assert s[index..][1..] == s[index + 1..];
      SubsequenceOfTail([s[i]] + y, s[index..]);
    }
  }

  /** Every output of `backtrack(index, current)` is non-empty and is `current` followed by a subsequence of `s[index..]`. */
  lemma {:induction false} ExtensionsAreSubsequences(s: string, index: nat, current: string, x: string)
    requires index <= |s| && x in Extensions(s, index, current)
    ensures x != [] && |current| <= |x| && x[..|current|] == current && IsSubsequence(x[|current|..], s[index..])
    decreases |s| - index, 1
  {
    if current != [] && x == current {
    } else {
      BranchesAreSubsequences(s, index, |s|, current, x);
    }
  }

  lemma {:induction false} BranchesAreSubsequences(s: string, index: nat, j: nat, current: string, x: string)
    requires index <= j <= |s| && x in Branches(s, index, j, current)
    ensures x != [] && |current| <= |x| && x[..|current|] == current && IsSubsequence(x[|current|..], s[index..])
    decreases |s| - index, 0, j
  {
    if x in Branches(s, index, j - 1, current) {
      BranchesAreSubsequences(s, index, j - 1, current, x);
    } else {
      var c := current + [s[j - 1]];
      ExtensionsAreSubsequences(s, j, c, x);
      var y := x[|c|..];
      assert x[|current|..] == [s[j - 1]] + y;
      SubsequenceSkip(y, s, index, j - 1);
    }
  }

  /** Every entry of `allSubsequences(of: s)` is a non-empty subsequence of `s`. */
  lemma AllSubsequencesSound(s: string, x: string)
    requires x in Extensions(s, 0, [])
    ensures x != [] && IsSubsequence(x, s)
  {
    ExtensionsAreSubsequences(s, 0, [], x);
    assert s[0..] == s;
  }

  /** Where a non-empty subsequence of `s[index..]` takes its first character from. */
  lemma {:induction false} FirstOccurrence(y: string, s: string, index: nat) returns (j: nat)
    requires index <= |s| && y != [] && IsSubsequence(y, s[index..])
    ensures index <= j < |s| && s[j] == y[0] && IsSubsequence(y[1..], s[j + 1..])
    decreases |s| - index
  {
    assert s[index..][1..] == s[index + 1..];
    if y[0] == s[index] && IsSubsequence(y[1..], s[index + 1..]) {
      j := index;
    } else {
      j := FirstOccurrence(y, s, index + 1);
    }
  }

  /** The outputs of `Extensions(s, j, ...)` are among those of the loop iterations `index ..< k` once `j <= k`. */
  lemma {:induction false} BranchesInclude(s: string, index: nat, k: nat, j: nat, current: string, x: string)
    requires index < j <= k <= |s| && x in Extensions(s, j, current + [s[j - 1]])
    ensures x in Branches(s, index, k, current)
    decreases k
  {
    if k > j {
      BranchesInclude(s, index, k - 1, j, current, x);
    }
  }

  /**
   * Conversely, `backtrack(index, current)` outputs `current` followed by
   * every subsequence of `s[index..]`, as long as the result is non-empty.
   */
  lemma {:induction false} ExtensionsComplete(s: string, index: nat, current: string, y: string)
    requires index <= |s| && IsSubsequence(y, s[index..]) && current + y != []
    ensures current + y in Extensions(s, index, current)
    decreases |s| - index
  {
    if y == [] {
      assert current + y == current;
    } else {
      var j := FirstOccurrence(y, s, index);
      var c := current + [s[j]];
      ExtensionsComplete(s, j + 1, c, y[1..]);
      assert c + y[1..] == current + y by {
        assert y == [y[0]] + y[1..];
      }
      BranchesInclude(s, index, |s|, j + 1, current, current + y);
    }
  }

  /** `allSubsequences(of: s)` holds exactly the non-empty subsequences of `s`. */
  lemma AllSubsequencesSpec(s: string, x: string)
    ensures x in Extensions(s, 0, []) <==> x != [] && IsSubsequence(x, s)
  {
    assert s[0..] == s;
    if x in Extensions(s, 0, []) {
      AllSubsequencesSound(s, x);
    }
    if x != [] && IsSubsequence(x, s) {
      ExtensionsComplete(s, 0, [], x);
      assert [] + x == x;
    }
  }

  /** A prefix of a subsequence is a subsequence. */
  lemma {:induction false} SubsequencePrefix(x: string, s: string, n: nat)
    requires n <= |x| && IsSubsequence(x, s)
    ensures IsSubsequence(x[..n], s)
    decreases |s|
  {
    if n > 0 {
      if x[0] == s[0] && IsSubsequence(x[1..], s[1..]) {
        SubsequencePrefix(x[1..], s[1..], n - 1);
        assert x[..n][1..] == x[1..][..n - 1];
      } else {
        SubsequencePrefix(x, s[1..], n);
      }
    }
  }

  /** `Character.lowercased()` on the ASCII letters; every other character is kept. */
  function LowerChar(c: char): (r: char)
    ensures 'A' <= c <= 'Z' ==> r as int == c as int + 32
    ensures !('A' <= c <= 'Z') ==> r == c
  {
    if 'A' <= c <= 'Z' then (c as int + 32) as char else c
  }

  /** `String.lowercased()`, character by character. */
  function Lower(s: string): (r: string)
    ensures |r| == |s|
    ensures forall i :: 0 <= i < |s| ==> r[i] == LowerChar(s[i])
  {
    seq(|s|, i requires 0 <= i < |s| => LowerChar(s[i]))
  }

  /** Lower-casing twice is lower-casing once. */
  lemma LowerIdempotent(s: string)
    ensures Lower(Lower(s)) == Lower(s)
  {
  }

  /** The `n` characters of `s` from position `i`. */
  function Window(s: string, i: nat, n: nat): (w: string)
    requires i + n <= |s|
    ensures |w| == n
  {
    s[i..i + n]
  }

  /** `g` is one of the `n`-character windows of `s`. */
  ghost predicate IsGram(g: string, s: string, n: int) {
    n > 0 && |g| == n && exists i: nat :: i + n <= |s| && Window(s, i, n) == g
  }

  /**
   * `nGrams(of:n:)`: no grams when `n <= 0` or the string is shorter than
   * `n`; otherwise the `|s| - n + 1` windows of length `n`, in order.
   */
  method NGrams(s: string, n: int) returns (grams: seq<string>)
    ensures n <= 0 || |s| < n ==> grams == []
    ensures n > 0 && |s| >= n ==>
      |grams| == |s| - n + 1 && forall i :: 0 <= i < |grams| ==> grams[i] == s[i..i + n]
    ensures forall g :: g in grams <==> IsGram(g, s, n)
  {
    if !(n > 0 && |s| >= n) {
      return [];
    }
    grams := [];
    for i := 0 to |s| - n + 1
      invariant |grams| == i && forall k :: 0 <= k < i ==> grams[k] == s[k..k + n]
    {
      grams := grams + [s[i..i + n]];
    }
    forall g | g in grams ensures IsGram(g, s, n) {
      var i :| 0 <= i < |grams| && grams[i] == g;
      assert Window(s, i, n) == g;
    }
    forall g | IsGram(g, s, n) ensures g in grams {
      var i: nat :| i + n <= |s| && Window(s, i, n) == g;
      assert grams[i] == g;
    }
  }
}
