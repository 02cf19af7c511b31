/** The positional comparison every comparator of the repository performs:
    walk the index i from 0 to max(|a|, |b|) - 1, read a missing line as "",
    and record Difference(i + 1, a_i, b_i) whenever the two lines differ. */
module Diffs {
  import opened Base

  /** A recorded mismatch: 1-based position and the two effective lines. */
  datatype Difference = Difference(lineNumber: nat, firstFileContent: string, secondFileContent: string)

  /** The line compared at index i: the line itself, or "" past the end. */
  function EffectiveLine(s: seq<string>, i: nat): string
  {
    if i < |s| then s[i] else ""
  }

  /** Differences found at the first n positions of the walk, in walk order. */
  function DiffsUpTo(a: seq<string>, b: seq<string>, n: nat): seq<Difference>
  {
    if n == 0 then []
    else
      var x, y := EffectiveLine(a, n - 1), EffectiveLine(b, n - 1);
      DiffsUpTo(a, b, n - 1) + (if x != y then [Difference(n, x, y)] else [])
  }

  /** One more position of the walk adds a Difference exactly when the
      effective lines there differ. */
  lemma DiffsUpToNext(a: seq<string>, b: seq<string>, k: nat)
    ensures var x, y := EffectiveLine(a, k), EffectiveLine(b, k);
      && (x != y ==> DiffsUpTo(a, b, k + 1) == DiffsUpTo(a, b, k) + [Difference(k + 1, x, y)])
      && (x == y ==> DiffsUpTo(a, b, k + 1) == DiffsUpTo(a, b, k))
  {
  }

  /** The complete difference list of a comparison of `a` with `b`. */
  function PositionalDiff(a: seq<string>, b: seq<string>): seq<Difference>
  {
    DiffsUpTo(a, b, Max(|a|, |b|))
  }

  /** Every recorded difference is a genuine mismatch at a position of the
      walk, and positions strictly increase. */
  lemma DiffsUpToSound(a: seq<string>, b: seq<string>, n: nat)
    ensures var ds := DiffsUpTo(a, b, n);
      && |ds| <= n
      && (forall j :: 0 <= j < |ds| ==>
            && 1 <= ds[j].lineNumber <= n
            && ds[j].firstFileContent == EffectiveLine(a, ds[j].lineNumber - 1)
            && ds[j].secondFileContent == EffectiveLine(b, ds[j].lineNumber - 1)
            && ds[j].firstFileContent != ds[j].secondFileContent)
      && (forall j, k :: 0 <= j < k < |ds| ==> ds[j].lineNumber < ds[k].lineNumber)
  {
    DiffsUpToEntries(a, b, n);
    DiffsUpToIncreasing(a, b, n);
  }

  lemma {:induction false} DiffsUpToEntries(a: seq<string>, b: seq<string>, n: nat)
    ensures var ds := DiffsUpTo(a, b, n);
      && |ds| <= n
      && (forall j :: 0 <= j < |ds| ==>
            && 1 <= ds[j].lineNumber <= n
            && ds[j].firstFileContent == EffectiveLine(a, ds[j].lineNumber - 1)
            && ds[j].secondFileContent == EffectiveLine(b, ds[j].lineNumber - 1)
            && ds[j].firstFileContent != ds[j].secondFileContent)
  {
    if n > 0 {
      DiffsUpToEntries(a, b, n - 1);
      var prev, ds := DiffsUpTo(a, b, n - 1), DiffsUpTo(a, b, n);
      var x, y := EffectiveLine(a, n - 1), EffectiveLine(b, n - 1);
      DiffsUpToNext(a, b, n - 1);
      forall j | 0 <= j < |ds|
        ensures && 1 <= ds[j].lineNumber <= n
                && ds[j].firstFileContent == EffectiveLine(a, ds[j].lineNumber - 1)
                && ds[j].secondFileContent == EffectiveLine(b, ds[j].lineNumber - 1)
                && ds[j].firstFileContent != ds[j].secondFileContent
      {
        if j < |prev| {
          assert ds[j] == prev[j];
        } else {
          assert ds[j] == Difference(n, x, y);
        }
      }
    }
  }

  lemma {:induction false} DiffsUpToIncreasing(a: seq<string>, b: seq<string>, n: nat)
    ensures var ds := DiffsUpTo(a, b, n);
      forall j, k :: 0 <= j < k < |ds| ==> ds[j].lineNumber < ds[k].lineNumber
  {
    if n > 0 {
      DiffsUpToIncreasing(a, b, n - 1);
      DiffsUpToEntries(a, b, n - 1);
      var prev, ds := DiffsUpTo(a, b, n - 1), DiffsUpTo(a, b, n);
      var x, y := EffectiveLine(a, n - 1), EffectiveLine(b, n - 1);
      DiffsUpToNext(a, b, n - 1);
      forall j, k | 0 <= j < k < |ds|
        ensures ds[j].lineNumber < ds[k].lineNumber
      {
        assert ds[j] == prev[j];
        if k < |prev| {
          assert ds[k] == prev[k];
        } else {
          assert ds[k] == Difference(n, x, y);
        }
      }
    }
  }

  /** Every mismatching position of the walk is recorded. */
  lemma {:induction false} DiffsUpToComplete(a: seq<string>, b: seq<string>, n: nat, i: nat)
    requires i < n && EffectiveLine(a, i) != EffectiveLine(b, i)
    ensures Difference(i + 1, EffectiveLine(a, i), EffectiveLine(b, i)) in DiffsUpTo(a, b, n)
  {
    if i < n - 1 {
      DiffsUpToComplete(a, b, n - 1, i);
    } else {
      var ds := DiffsUpTo(a, b, n);
      assert ds[|ds| - 1] == Difference(i + 1, EffectiveLine(a, i), EffectiveLine(b, i));
    }
  }

  /** A Difference with line number i + 1 is recorded iff the effective lines
      differ at index i, and it carries exactly those lines; line numbers are
      strictly increasing within 1..max(|a|, |b|). */
  lemma PositionalDiffSpec(a: seq<string>, b: seq<string>)
    ensures var ds, n := PositionalDiff(a, b), Max(|a|, |b|);
      && |ds| <= n
      && (forall j, k :: 0 <= j < k < |ds| ==> ds[j].lineNumber < ds[k].lineNumber)
      && (forall d: Difference :: d in ds <==>
            && 1 <= d.lineNumber <= n
            && d.firstFileContent == EffectiveLine(a, d.lineNumber - 1)
            && d.secondFileContent == EffectiveLine(b, d.lineNumber - 1)
            && d.firstFileContent != d.secondFileContent)
  {
    var ds, n := PositionalDiff(a, b), Max(|a|, |b|);
    DiffsUpToSound(a, b, n);
    forall d: Difference | 1 <= d.lineNumber <= n
        && d.firstFileContent == EffectiveLine(a, d.lineNumber - 1)
        && d.secondFileContent == EffectiveLine(b, d.lineNumber - 1)
        && d.firstFileContent != d.secondFileContent
      ensures d in ds
    {
      DiffsUpToComplete(a, b, n, d.lineNumber - 1);
    }
  }

  /** The walk's difference list for n positions extends the one for i <= n
      positions, and everything it adds lies beyond position i. */
  lemma {:induction false} DiffsUpToPrefix(a: seq<string>, b: seq<string>, i: nat, n: nat)
    requires i <= n
    ensures var small, big := DiffsUpTo(a, b, i), DiffsUpTo(a, b, n);
      && |small| <= |big|
      && big[..|small|] == small
      && (forall j :: |small| <= j < |big| ==> big[j].lineNumber > i)
  {
    if i < n {
      DiffsUpToPrefix(a, b, i, n - 1);
      DiffsUpToSound(a, b, n);
      var small, mid, big := DiffsUpTo(a, b, i), DiffsUpTo(a, b, n - 1), DiffsUpTo(a, b, n);
      assert big[..|mid|] == mid;
      assert big[..|small|] == mid[..|small|];
      forall j | |mid| <= j < |big|
        ensures big[j].lineNumber > i
      {
        assert big[j].lineNumber == n;
      }
    }
  }

  /** Comparing a sequence with itself finds nothing. */
  lemma {:induction false} NoDiffsUpToOfIdentical(a: seq<string>, n: nat)
    ensures DiffsUpTo(a, a, n) == []
  {
    if n > 0 {
      NoDiffsUpToOfIdentical(a, n - 1);
    }
  }

  lemma IdenticalInputsNoDifferences(a: seq<string>)
    ensures PositionalDiff(a, a) == []
  {
    NoDiffsUpToOfIdentical(a, |a|);
  }

  /** The same differences with the two sides exchanged. */
  function SwapSides(ds: seq<Difference>): (r: seq<Difference>)
    ensures |r| == |ds|
    ensures forall j :: 0 <= j < |ds| ==>
      r[j] == Difference(ds[j].lineNumber, ds[j].secondFileContent, ds[j].firstFileContent)
  {
    if ds == [] then []
    else
      [Difference(ds[0].lineNumber, ds[0].secondFileContent, ds[0].firstFileContent)]
        + SwapSides(ds[1..])
  }

  lemma {:induction false} SwapDiffsUpTo(a: seq<string>, b: seq<string>, n: nat)
    ensures DiffsUpTo(b, a, n) == SwapSides(DiffsUpTo(a, b, n))
  {
    if n > 0 {
      SwapDiffsUpTo(a, b, n - 1);
    }
  }

  /** Comparing (b, a) reports the positions of (a, b) with the sides swapped. */
  lemma CompareSwapped(a: seq<string>, b: seq<string>)
    ensures PositionalDiff(b, a) == SwapSides(PositionalDiff(a, b))
  {
    SwapDiffsUpTo(a, b, Max(|a|, |b|));
  }

  lemma {:induction false} DiffsUpToAgainstEmpty(b: seq<string>, n: nat)
    requires n <= |b|
    requires forall k :: 0 <= k < |b| ==> b[k] != ""
    ensures var ds := DiffsUpTo([], b, n);
      |ds| == n && forall k :: 0 <= k < n ==> ds[k] == Difference(k + 1, "", b[k])
  {
    if n > 0 {
      DiffsUpToAgainstEmpty(b, n - 1);
    }
  }

  /** An empty first file against lines that are all non-empty: one
      Difference per line, each with an empty first side. */
  lemma EmptyAgainstLines(b: seq<string>)
    requires forall k :: 0 <= k < |b| ==> b[k] != ""
    ensures var ds := PositionalDiff([], b);
      |ds| == |b| && forall k :: 0 <= k < |b| ==> ds[k] == Difference(k + 1, "", b[k])
  {
    DiffsUpToAgainstEmpty(b, |b|);
  }

  /** Fewer differences than positions as soon as one position agrees. */
  lemma {:induction false} DiffCountBelowWhenALineMatches(a: seq<string>, b: seq<string>, n: nat, i: nat)
    requires i < n && EffectiveLine(a, i) == EffectiveLine(b, i)
    ensures |DiffsUpTo(a, b, n)| < n
  {
    DiffsUpToSound(a, b, n - 1);
    if i < n - 1 {
      DiffCountBelowWhenALineMatches(a, b, n - 1, i);
    }
  }
}
