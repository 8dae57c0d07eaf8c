/**
 * Tile arrangements of the sliding-tile puzzle: a grid of n cells is a
 * sequence of n tile labels, index = cell, value = tile. Tiles are labelled
 * 1..n and the puzzle is solved when cell k holds tile k + 1.
 */
module Arrangement {

  /** The canonical arrangement [1, 2, ..., n] the grid is built from: n cells, already solved. */
  function Identity(n: nat): (r: seq<int>)
    ensures |r| == n
    ensures IsSolved(r)
  {
    seq(n, k => k + 1)
  }

  /** `s` is a permutation of the tiles 1..|s|. */
  ghost predicate IsArrangement(s: seq<int>)
  {
    multiset(s) == multiset(Identity(|s|))
  }

  /** Every cell holds a tile of 1..m. */
  predicate TilesInRange(s: seq<int>, m: int)
  {
    forall k :: 0 <= k < |s| ==> 1 <= s[k] <= m
  }

  /** No two cells hold the same tile. */
  predicate TilesDistinct(s: seq<int>)
  {
    forall k, l :: 0 <= k < l < |s| ==> s[k] != s[l]
  }

  /**
   * Every cell holds its own tile: cell k holds k + 1. A solved grid holds
   * distinct tiles, all of them in 1..|s|.
   */
  predicate IsSolved(s: seq<int>): (b: bool)
    ensures b ==> TilesInRange(s, |s|) && TilesDistinct(s)
  {
    forall k :: 0 <= k < |s| ==> s[k] == k + 1
  }

  /** Exchanges the tiles in cells i and j and leaves every other cell alone. */
  function Swap(s: seq<int>, i: nat, j: nat): (r: seq<int>)
    requires i < |s| && j < |s|
    ensures |r| == |s|
    ensures r[i] == s[j] && r[j] == s[i]
    ensures forall k :: 0 <= k < |s| && k != i && k != j ==> r[k] == s[k]
  {
    s[i := s[j]][j := s[i]]
  }

  /** Exchanging two cells only reorders the tiles. */
  lemma SwapPermutes(s: seq<int>, i: nat, j: nat)
    requires i < |s| && j < |s|
    ensures multiset(Swap(s, i, j)) == multiset(s)
    ensures IsArrangement(s) ==> IsArrangement(Swap(s, i, j))
  {
    var t := s[i := s[j]];
    assert multiset(t) == multiset(s) - multiset{s[i]} + multiset{s[j]};
    assert multiset(t[j := s[i]]) == multiset(t) - multiset{t[j]} + multiset{s[i]};
  }

  /** Exchanging a cell with itself changes nothing. */
  lemma SwapSameCell(s: seq<int>, i: nat)
    requires i < |s|
    ensures Swap(s, i, i) == s
  {
  }

  /** Exchanging the same two cells twice restores the grid. */
  lemma SwapInvolution(s: seq<int>, i: nat, j: nat)
    requires i < |s| && j < |s|
    ensures Swap(Swap(s, i, j), i, j) == s
  {
  }

  /** The solved arrangement is exactly the canonical one, and it is an arrangement. */
  lemma SolvedIsIdentity(s: seq<int>)
    ensures IsSolved(s) <==> s == Identity(|s|)
    ensures IsSolved(s) ==> IsArrangement(s)
  {
  }

  /** Each tile 1..n occurs exactly once in the canonical arrangement, and nothing else does. */
  lemma {:induction false} IdentityCount(n: nat, v: int)
    ensures multiset(Identity(n))[v] == if 1 <= v <= n then 1 else 0
  {
    if n > 0 {
      assert Identity(n) == Identity(n - 1) + [n];
      IdentityCount(n - 1, v);
    }
  }

  /** A value occurring at two different cells occurs at least twice in the multiset. */
  lemma RepeatedValueCount(s: seq<int>, k: nat, l: nat)
    requires k < l < |s| && s[k] == s[l]
    ensures multiset(s)[s[k]] >= 2
  {
    assert s == s[..l] + s[l..];
    assert s[k] in s[..l];
    assert s[l..][0] == s[l];
    assert multiset(s) == multiset(s[..l]) + multiset(s[l..]);
  }

  /**
   * An arrangement has no out-of-range tiles, no duplicates and no gaps:
   * every cell holds a tile of 1..n, no two cells hold the same tile, and
   * every tile of 1..n is somewhere on the grid.
   */
  lemma ArrangementHasNoGapsOrDuplicates(s: seq<int>)
    requires IsArrangement(s)
    ensures TilesInRange(s, |s|)
    ensures TilesDistinct(s)
    ensures forall v :: 1 <= v <= |s| ==> v in s
  {
    var n := |s|;
    forall k | 0 <= k < n
      ensures 1 <= s[k] <= n
    {
      assert s[k] in multiset(s);
      IdentityCount(n, s[k]);
    }
    forall k, l | 0 <= k < l < n
      ensures s[k] != s[l]
    {
      if s[k] == s[l] {
        RepeatedValueCount(s, k, l);
        IdentityCount(n, s[k]);
        assert false;
      }
    }
    forall v | 1 <= v <= n
      ensures v in s
    {
      IdentityCount(n, v);
      assert v in multiset(s);
    }
  }

  /** The grid without cell p. */
  function RemoveCell(s: seq<int>, p: nat): (r: seq<int>)
    requires p < |s|
    ensures |r| == |s| - 1
    ensures multiset(s) == multiset(r) + multiset{s[p]}
  {
    assert s == s[..p] + [s[p]] + s[p + 1..];
    s[..p] + s[p + 1..]
  }

  /** Removing a cell keeps the other tiles distinct, and every one of them differs from the removed tile. */
  lemma RemoveCellDistinct(s: seq<int>, p: nat)
    requires p < |s| && TilesDistinct(s)
    ensures TilesDistinct(RemoveCell(s, p))
    ensures forall k :: 0 <= k < |s| - 1 ==> RemoveCell(s, p)[k] != s[p]
    ensures forall k :: 0 <= k < |s| - 1 ==> RemoveCell(s, p)[k] in s
  {
    var r := RemoveCell(s, p);
    forall k | 0 <= k < |r|
      ensures r[k] == s[if k < p then k else k + 1]
    {
    }
  }

  /** Pigeonhole: distinct tiles drawn from 1..m fill at most m cells. */
  lemma {:induction false} DistinctTilesBounded(s: seq<int>, m: nat)
    requires TilesInRange(s, m) && TilesDistinct(s)
    ensures |s| <= m
    decreases m
  {
    if |s| > 0 {
      assert 1 <= s[0] <= m;
      if m in s {
        var p :| 0 <= p < |s| && s[p] == m;
        RemoveCellDistinct(s, p);
        DistinctTilesBounded(RemoveCell(s, p), m - 1);
      } else {
        DistinctTilesBounded(s, m - 1);
      }
    }
  }

  /** Conversely, n distinct tiles all drawn from 1..n form an arrangement. */
  lemma {:induction false} DistinctTilesAreArrangement(s: seq<int>)
    requires TilesInRange(s, |s|) && TilesDistinct(s)
    ensures IsArrangement(s)
    decreases |s|
  {
    var n := |s|;
    if n > 0 {
      if n !in s {
        assert TilesInRange(s, n - 1);
        DistinctTilesBounded(s, n - 1);
        assert false;
      }
      var p :| 0 <= p < n && s[p] == n;
      var r := RemoveCell(s, p);
      RemoveCellDistinct(s, p);
      DistinctTilesAreArrangement(r);
      assert Identity(n) == Identity(n - 1) + [n];
    }
  }
}
