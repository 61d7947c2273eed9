/**
 The ranker: keeps the N rows with the highest weekend score, best first,
 and among equal scores the row that came first.
 */
module Ranking {
  import opened Scoring

  /** Row a is ranked ahead of row b: a higher weekend score, or the same
      score and an earlier position. This is a strict total order on the
      positions of `s`. */
  predicate Before(s: seq<Scored>, a: nat, b: nat)
    requires a < |s| && b < |s|
  {
    s[a].weekendScore > s[b].weekendScore ||
    (s[a].weekendScore == s[b].weekendScore && a < b)
  }

  /** Before never ranks a row ahead of itself, is transitive, and of two
      distinct positions ranks exactly one ahead of the other. */
  lemma BeforeIsStrictTotal(s: seq<Scored>, a: nat, b: nat, c: nat)
    requires a < |s| && b < |s| && c < |s|
    ensures !Before(s, a, a)
    ensures Before(s, a, b) && Before(s, b, c) ==> Before(s, a, c)
    ensures a != b ==> (Before(s, a, b) <==> !Before(s, b, a))
  {
  }

  /** The rows of `s` at the positions `idx`, in that order. */
  function Pick(s: seq<Scored>, idx: seq<nat>): (rows: seq<Scored>)
    requires forall i :: 0 <= i < |idx| ==> idx[i] < |s|
    ensures |rows| == |idx| && forall i :: 0 <= i < |idx| ==> rows[i] == s[idx[i]]
  {
    seq(|idx|, i requires 0 <= i < |idx| => s[idx[i]])
  }

  /** Picking at the positions of `a` then `b` is picking at `a + b`. */
  lemma PickAppend(s: seq<Scored>, a: seq<nat>, b: seq<nat>)
    requires forall i :: 0 <= i < |a| ==> a[i] < |s|
    requires forall i :: 0 <= i < |b| ==> b[i] < |s|
    ensures forall i :: 0 <= i < |a + b| ==> (a + b)[i] < |s|
    ensures Pick(s, a + b) == Pick(s, a) + Pick(s, b)
  {
  }

  /** Positions below k pick the same rows from `s` and from its first k rows. */
  lemma PickPrefix(s: seq<Scored>, k: nat, idx: seq<nat>)
    requires k <= |s|
    requires forall i :: 0 <= i < |idx| ==> idx[i] < k
    ensures Pick(s, idx) == Pick(s[..k], idx)
  {
  }

  /** Rows picked at distinct positions are a sub-multiset of the input:
      no row is picked more often than it occurs. */
  lemma {:induction false} PickDistinct(s: seq<Scored>, idx: seq<nat>)
    requires forall i :: 0 <= i < |idx| ==> idx[i] < |s|
    requires forall i, j :: 0 <= i < j < |idx| ==> idx[i] != idx[j]
    ensures multiset(Pick(s, idx)) <= multiset(s)
    decreases |s|
  {
    if |s| > 0 {
      var last := |s| - 1;
      assert s == s[..last] + [s[last]];
      if j :| 0 <= j < |idx| && idx[j] == last {
        DistinctWithout(idx, j);
        var rest := idx[..j] + idx[j + 1..];
        PickDistinct(s[..last], rest);
        PickWithoutLast(s, idx, j, rest);
      } else {
        PickPrefix(s, last, idx);
        PickDistinct(s[..last], idx);
      }
    }
  }

  /** Picking the last row at position j of `idx`, beside the others. */
  lemma PickWithoutLast(s: seq<Scored>, idx: seq<nat>, j: nat, rest: seq<nat>)
    requires |s| > 0 && j < |idx| && idx[j] == |s| - 1
    requires forall i :: 0 <= i < |idx| ==> idx[i] < |s|
    requires rest == idx[..j] + idx[j + 1..]
    requires forall i :: 0 <= i < |rest| ==> rest[i] < |s| - 1
    ensures multiset(Pick(s, idx)) == multiset(Pick(s[..|s| - 1], rest)) + multiset{s[|s| - 1]}
  {
    var last := |s| - 1;
    var before, after := idx[..j], idx[j + 1..];
    assert idx == before + [last] + after;
    assert forall i :: 0 <= i < |before| ==> before[i] == rest[i];
    assert forall i :: 0 <= i < |after| ==> after[i] == rest[j + i];
    PickAppend(s, before + [last], after);
    PickAppend(s, before, [last]);
    PickPrefix(s, last, before);
    PickPrefix(s, last, after);
    PickAppend(s[..last], before, after);
    var a, b := Pick(s[..last], before), Pick(s[..last], after);
    assert Pick(s, [last]) == [s[last]];
    assert Pick(s, idx) == a + [s[last]] + b;
    assert Pick(s[..last], rest) == a + b;
  }

  /** Removing the entry at j from a list of distinct positions below n + 1
      whose entry at j is n leaves distinct positions below n. */
  lemma DistinctWithout(idx: seq<nat>, j: nat)
    requires j < |idx|
    requires forall i :: 0 <= i < |idx| ==> idx[i] <= idx[j]
    requires forall a, b :: 0 <= a < b < |idx| ==> idx[a] != idx[b]
    ensures var rest := idx[..j] + idx[j + 1..];
      (forall i :: 0 <= i < |rest| ==> rest[i] < idx[j]) &&
      (forall a, b :: 0 <= a < b < |rest| ==> rest[a] != rest[b])
  {
    var rest := idx[..j] + idx[j + 1..];
    assert forall i :: 0 <= i < |rest| ==> rest[i] == if i < j then idx[i] else idx[i + 1];
  }

  /** The number of rows kept: N, or every row when there are fewer. */
  function TopCount(n: nat, len: nat): (m: nat)
    ensures m <= n && m <= len
    ensures m == n || m == len
  {
    if n < len then n else len
  }

  /** `idx` lists positions of `s` that a top-N selection keeps: as many as
      N allows, ranked by Before, with every position left out ranked behind
      every position kept, and every position kept when N covers them all. */
  predicate TopPositions(s: seq<Scored>, n: nat, idx: seq<nat>)
  {
    && |idx| == TopCount(n, |s|)
    && (forall i :: 0 <= i < |idx| ==> idx[i] < |s|)
    && (forall i, j :: 0 <= i < j < |idx| ==> Before(s, idx[i], idx[j]))
    && (forall i, k :: 0 <= i < |idx| && 0 <= k < |s| && k !in idx ==> Before(s, idx[i], k))
    && (n >= |s| ==> forall k :: 0 <= k < |s| ==> k in idx)
  }

  /** Positions of the `n` best rows of `s`, best first (ties in input
      order), and those rows. Every row left out is ranked behind every row
      kept, so among equal scores the earlier rows are the ones kept. */
  method TopN(s: seq<Scored>, n: nat) returns (idx: seq<nat>, top: seq<Scored>)
    ensures TopPositions(s, n, idx)
    ensures |top| == |idx| && forall i :: 0 <= i < |idx| ==> top[i] == s[idx[i]]
    ensures forall i, j :: 0 <= i < j < |idx| ==> idx[i] != idx[j]
    ensures forall i, j :: 0 <= i < j < |top| ==> top[i].weekendScore >= top[j].weekendScore
    ensures forall i, k :: 0 <= i < |top| && 0 <= k < |s| && k !in idx ==> s[k].weekendScore <= top[i].weekendScore
  {
    var m := TopCount(n, |s|);
    idx := [];
    var remaining: seq<nat> := seq(|s|, k => k);
    forall k | 0 <= k < |s| ensures k in remaining {
      assert remaining[k] == k;
    }
    while |idx| < m
      invariant |idx| <= m
      invariant |idx| + |remaining| == |s|
      invariant forall i :: 0 <= i < |idx| ==> idx[i] < |s|
      invariant forall t :: 0 <= t < |remaining| ==> remaining[t] < |s|
      invariant forall t, u :: 0 <= t < u < |remaining| ==> remaining[t] < remaining[u]
      invariant forall k :: 0 <= k < |s| ==> k in idx || k in remaining
      invariant forall i, j :: 0 <= i < j < |idx| ==> Before(s, idx[i], idx[j])
      invariant forall i, t :: 0 <= i < |idx| && 0 <= t < |remaining| ==> Before(s, idx[i], remaining[t])
      decreases m - |idx|
    {
      // Find the remaining position ranked ahead of all other remaining ones.
      var p := 0;
      for q := 1 to |remaining|
        invariant 0 <= p < |remaining|
        invariant p < q
        invariant forall t :: 0 <= t < q && t != p ==> Before(s, remaining[p], remaining[t])
      {
        if Before(s, remaining[q], remaining[p]) {
          p := q;
        }
      }
      var best := remaining[p];
      idx := idx + [best];
      remaining := remaining[..p] + remaining[p + 1..];
    }
    top := seq(|idx|, i requires 0 <= i < |idx| => s[idx[i]]);
  }

  /** `top` is a top-N selection from `s`: the right number of rows, all
      taken from `s`, best first, none left out that scores higher than one
      kept, and all of `s` when N covers it. */
  predicate IsTopSelection(s: seq<Scored>, n: nat, top: seq<Scored>)
  {
    && |top| == TopCount(n, |s|)
    && multiset(top) <= multiset(s)
    && (forall i, j :: 0 <= i < j < |top| ==> top[i].weekendScore >= top[j].weekendScore)
    && (forall x, i :: x in s && x !in top && 0 <= i < |top| ==> x.weekendScore <= top[i].weekendScore)
    && (n >= |s| ==> forall x :: x in s ==> x in top)
  }

  /** The positions TopN chooses give a top-N selection of the rows. */
  lemma TopPositionsSelect(s: seq<Scored>, n: nat, idx: seq<nat>, top: seq<Scored>)
    requires TopPositions(s, n, idx)
    requires |top| == |idx| && forall i :: 0 <= i < |idx| ==> top[i] == s[idx[i]]
    ensures IsTopSelection(s, n, top)
  {
    assert top == Pick(s, idx);
    PickDistinct(s, idx);
    forall i, j | 0 <= i < j < |top| ensures top[i].weekendScore >= top[j].weekendScore {
      assert Before(s, idx[i], idx[j]);
    }
    forall x, i | x in s && x !in top && 0 <= i < |top|
      ensures x.weekendScore <= top[i].weekendScore
    {
      var k :| 0 <= k < |s| && s[k] == x;
      assert k !in idx;
      assert Before(s, idx[i], k);
    }
    if n >= |s| {
      forall x | x in s ensures x in top {
        var k :| 0 <= k < |s| && s[k] == x;
        assert k in idx;
        var j :| 0 <= j < |idx| && idx[j] == k;
        assert top[j] == x;
      }
    }
  }

  /** The positions of a top-N selection are determined by the rows and N:
      two position lists that both meet TopPositions are the same list. */
  lemma TopPositionsUnique(s: seq<Scored>, n: nat, p: seq<nat>, q: seq<nat>)
    requires TopPositions(s, n, p) && TopPositions(s, n, q)
    ensures p == q
  {
    for i := 0 to |p|
      invariant p[..i] == q[..i]
    {
      SamePositionNext(s, n, p, q, i);
      assert p[..i + 1] == p[..i] + [p[i]] && q[..i + 1] == q[..i] + [q[i]];
    }
    assert p == p[..|p|] && q == q[..|q|];
  }

  /** Two top-N position lists that agree before i agree at i. */
  lemma SamePositionNext(s: seq<Scored>, n: nat, p: seq<nat>, q: seq<nat>, i: nat)
    requires TopPositions(s, n, p) && TopPositions(s, n, q)
    requires i < |p| && p[..i] == q[..i]
    ensures p[i] == q[i]
  {
    var a, b := p[i], q[i];
    if a != b {
      AheadOfLater(s, n, p, q, i);
      AheadOfLater(s, n, q, p, i);
    }
  }

  /** If p and q agree before i, then p's entry at i is ranked ahead of q's
      whenever they differ. */
  lemma AheadOfLater(s: seq<Scored>, n: nat, p: seq<nat>, q: seq<nat>, i: nat)
    requires TopPositions(s, n, p) && TopPositions(s, n, q)
    requires i < |p| && p[..i] == q[..i] && p[i] != q[i]
    ensures Before(s, p[i], q[i])
  {
    var b := q[i];
    if b in p {
      var j :| 0 <= j < |p| && p[j] == b;
      if j < i {
        assert false;
      }
      assert Before(s, p[i], p[j]);
    }
  }

  /** The N best weekend getaways from a source city: its rows scored, then
      the N highest weekend scores kept, best first. Fails with CityNotFound
      exactly when the source city's state cannot be resolved. */
  method GetTopDestinations(ds: Dataset, sourceCity: string, n: nat) returns (res: Result<seq<Scored>>)
    ensures Unresolved(ds.rows, sourceCity) ==> res == Err(CityNotFound(sourceCity))
    ensures !Unresolved(ds.rows, sourceCity) ==>
      res.Ok? && IsTopSelection(ScoredRows(ds, sourceCity), n, res.value)
    ensures !Unresolved(ds.rows, sourceCity) ==>
      exists idx :: TopPositions(ScoredRows(ds, sourceCity), n, idx) && res.value == Pick(ScoredRows(ds, sourceCity), idx)
  {
    var scored := CalculateWeekendScore(ds, sourceCity);
    if scored.Err? {
      return scored;
    }
    var idx, top := TopN(scored.value, n);
    TopPositionsSelect(scored.value, n, idx, top);
    assert top == Pick(scored.value, idx);
    res := Ok(top);
  }
}
