/**
 The min-max normaliser: rescales a column of numbers to [0, 1], mapping a
 constant column to the neutral value 0.5.
 */
module Normalizer {

  const NEUTRAL: real := 0.5

  /** Smallest element of a non-empty column. */
  function MinOf(s: seq<real>): (m: real)
    requires |s| > 0
    ensures m in s
    ensures forall i :: 0 <= i < |s| ==> m <= s[i]
    decreases |s|
  {
    if |s| == 1 then s[0]
    else
      var rest := MinOf(s[1..]);
      if s[0] <= rest then s[0] else rest
  }

  /** Largest element of a non-empty column. */
  function MaxOf(s: seq<real>): (m: real)
    requires |s| > 0
    ensures m in s
    ensures forall i :: 0 <= i < |s| ==> s[i] <= m
    decreases |s|
  {
    if |s| == 1 then s[0]
    else
      var rest := MaxOf(s[1..]);
      if s[0] >= rest then s[0] else rest
  }

  /** (x - min) / (max - min) for each element, or 0.5 everywhere when the
      column is constant. An empty column stays empty. */
  function NormalizeColumn(s: seq<real>): (r: seq<real>)
    ensures |r| == |s|
    ensures |s| > 0 && MaxOf(s) == MinOf(s) ==> forall i :: 0 <= i < |r| ==> r[i] == NEUTRAL
    ensures |s| > 0 && MaxOf(s) != MinOf(s) ==>
      forall i :: 0 <= i < |r| ==> r[i] == Scale(s[i], MinOf(s), MaxOf(s))
  {
    if |s| == 0 then []
    else
      var lo, hi := MinOf(s), MaxOf(s);
      if hi == lo then seq(|s|, _ => NEUTRAL)
      else seq(|s|, i requires 0 <= i < |s| => Scale(s[i], lo, hi))
  }

  /** One element of a non-constant column: it lies between the minimum and
      the maximum, and normalises to its offset from the minimum over the range. */
  lemma NormalizeAt(s: seq<real>, i: nat)
    requires i < |s| && MaxOf(s) != MinOf(s)
    ensures MinOf(s) < MaxOf(s) && MinOf(s) <= s[i] <= MaxOf(s)
    ensures NormalizeColumn(s)[i] == Scale(s[i], MinOf(s), MaxOf(s))
  {
  }

  /** (x - lo) / (hi - lo): the position of x in the range from lo to hi. */
  function Scale(x: real, lo: real, hi: real): (y: real)
    requires lo < hi
    ensures lo <= x <= hi ==> 0.0 <= y <= 1.0
    ensures x == lo ==> y == 0.0
    ensures x == hi ==> y == 1.0
  {
    var y := (x - lo) / (hi - lo);
    assert (lo <= x <= hi ==> 0.0 <= y <= 1.0) && (x == lo ==> y == 0.0) && (x == hi ==> y == 1.0) by {
      if lo <= x <= hi {
        DivideWithin(x - lo, hi - lo);
      }
    }
    y
  }

  /** 0 <= a <= d with d > 0 puts a / d in [0, 1]. */
  lemma DivideWithin(a: real, d: real)
    requires d > 0.0 && 0.0 <= a <= d
    ensures 0.0 <= a / d <= 1.0
    ensures a == 0.0 ==> a / d == 0.0
    ensures a == d ==> a / d == 1.0
  {
  }

  /** Every normalised value lies in [0, 1]; the minimum maps to 0 and the
      maximum to 1 unless the column is constant. */
  lemma NormalizeBounds(s: seq<real>)
    ensures forall i :: 0 <= i < |s| ==> 0.0 <= NormalizeColumn(s)[i] <= 1.0
    ensures |s| > 0 && MaxOf(s) != MinOf(s) ==>
      forall i :: 0 <= i < |s| ==>
        (s[i] == MinOf(s) ==> NormalizeColumn(s)[i] == 0.0) && (s[i] == MaxOf(s) ==> NormalizeColumn(s)[i] == 1.0)
  {
    if |s| > 0 && MaxOf(s) != MinOf(s) {
      forall i | 0 <= i < |s|
        ensures 0.0 <= NormalizeColumn(s)[i] <= 1.0
        ensures s[i] == MinOf(s) ==> NormalizeColumn(s)[i] == 0.0
        ensures s[i] == MaxOf(s) ==> NormalizeColumn(s)[i] == 1.0
      {
        NormalizeAt(s, i);
      }
    }
  }

  /** A non-constant column keeps its order: x <= y exactly when the
      normalised x <= the normalised y (and likewise for <). */
  lemma NormalizeMonotone(s: seq<real>, i: nat, j: nat)
    requires i < |s| && j < |s|
    requires MaxOf(s) != MinOf(s)
    ensures s[i] <= s[j] <==> NormalizeColumn(s)[i] <= NormalizeColumn(s)[j]
    ensures s[i] < s[j] <==> NormalizeColumn(s)[i] < NormalizeColumn(s)[j]
  {
    NormalizeAt(s, i);
    NormalizeAt(s, j);
    ScaleOrder(s[i], s[j], MinOf(s), MaxOf(s));
  }

  /** Scaling into a range keeps and reflects order. */
  lemma ScaleOrder(x: real, y: real, lo: real, hi: real)
    requires lo < hi
    ensures x <= y <==> Scale(x, lo, hi) <= Scale(y, lo, hi)
    ensures x < y <==> Scale(x, lo, hi) < Scale(y, lo, hi)
  {
    DivideOrder(x - lo, y - lo, hi - lo);
  }

  /** Division by a positive number keeps and reflects order. */
  lemma DivideOrder(a: real, b: real, d: real)
    requires d > 0.0
    ensures a <= b <==> a / d <= b / d
    ensures a < b <==> a / d < b / d
  {
  }

  /** A constant column, of any positive length, normalises to all 0.5. */
  lemma NormalizeConstant(x: real, n: nat)
    requires n > 0
    ensures NormalizeColumn(seq(n, _ => x)) == seq(n, _ => NEUTRAL)
  {
  }
}
