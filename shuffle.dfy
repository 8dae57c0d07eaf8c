/**
 * The shuffle generator: the canonical arrangement of size * size tiles
 * shuffled by Fisher-Yates (Knuth). The random number generator is the
 * caller's: `randoms` holds the values Math.random() returns, in the order
 * the loop asks for them, each in [0, 1).
 */
module Shuffle {
  import opened Arrangement

  /** Every draw of the random source lies in [0, 1). */
  predicate UnitDraws(randoms: seq<real>)
  {
    forall k :: 0 <= k < |randoms| ==> 0.0 <= randoms[k] < 1.0
  }

  /** A draw in [0, 1) scaled by a positive m stays in [0, m). */
  lemma ScaledDrawBelow(r: real, m: real)
    requires 0.0 <= r < 1.0 && 0.0 < m
    ensures 0.0 <= r * m < m
  {
    var d := 1.0 - r;
    assert d * m > 0.0;
    calc {
      r * m;
      (1.0 - d) * m;
      m - d * m;
    }
  }

  /** The index picked at step i from the draw r: floor(r * (i + 1)), always one of 0..i. */
  function Draw(r: real, i: nat): (j: nat)
    requires 0.0 <= r < 1.0
    ensures j <= i
  {
    var x := r * (i + 1) as real;
    ScaledDrawBelow(r, (i + 1) as real);
    x.Floor
  }

  /**
   * The loop of the shuffle from loop index `top` down to 1: step `top`
   * exchanges cell `top` with the cell drawn from `randoms[0]`, and the
   * remaining steps use the remaining draws. Only cells 0..top move: every
   * cell above `top` keeps its tile.
   */
  function FisherYates(s: seq<int>, randoms: seq<real>, top: int): (r: seq<int>)
    requires top < |s| && top <= |randoms|
    requires UnitDraws(randoms)
    ensures |r| == |s|
    ensures forall k :: top < k < |s| && 0 <= k ==> r[k] == s[k]
    decreases top
  {
    if top <= 0 then s
    else FisherYates(Swap(s, top, Draw(randoms[0], top)), randoms[1..], top - 1)
  }

  /** One step of the loop: the first draw picks the partner of cell `top`, the rest go on. */
  lemma FisherYatesStep(s: seq<int>, randoms: seq<real>, top: int, k: nat)
    requires 0 < top < |s| && k + top <= |randoms|
    requires UnitDraws(randoms)
    ensures FisherYates(s, randoms[k..], top)
         == FisherYates(Swap(s, top, Draw(randoms[k], top)), randoms[k + 1..], top - 1)
  {
    assert randoms[k..][0] == randoms[k] && randoms[k..][1..] == randoms[k + 1..];
  }

  /** Whatever the draws, the shuffle only reorders the tiles. */
  lemma {:induction false} FisherYatesPermutes(s: seq<int>, randoms: seq<real>, top: int)
    requires top < |s| && top <= |randoms|
    requires UnitDraws(randoms)
    ensures |FisherYates(s, randoms, top)| == |s|
    ensures multiset(FisherYates(s, randoms, top)) == multiset(s)
    decreases top
  {
    if top > 0 {
      var j := Draw(randoms[0], top);
      var t := Swap(s, top, j);
      SwapPermutes(s, top, j);
      FisherYatesPermutes(t, randoms[1..], top - 1);
      assert FisherYates(s, randoms, top) == FisherYates(t, randoms[1..], top - 1);
    }
  }

  /** Exchanges two cells of an array in place (the destructuring swap of the source). */
  method Exchange(a: array<int>, i: nat, j: nat)
    requires i < a.Length && j < a.Length
    modifies a
    ensures a[..] == Swap(old(a[..]), i, j)
  {
    a[i], a[j] := a[j], a[i];
  }

  /**
   * The loop of the shuffle, in place: for i from the last index down to 1,
   * picks j in 0..i from the next draw and exchanges cells i and j.
   */
  method ShuffleInPlace(numbers: array<int>, randoms: seq<real>)
    requires numbers.Length <= |randoms| + 1
    requires UnitDraws(randoms)
    modifies numbers
    ensures numbers[..] == FisherYates(old(numbers[..]), randoms, numbers.Length - 1)
  {
    var n := numbers.Length;
    var i := n - 1;
    while i > 0
      invariant -1 <= i < n
      invariant n - 1 - i <= |randoms|
      invariant FisherYates(numbers[..], randoms[n - 1 - i..], i) == FisherYates(old(numbers[..]), randoms, n - 1)
    {
      ghost var before := numbers[..];
      var j := Draw(randoms[n - 1 - i], i);
      FisherYatesStep(before, randoms, i, n - 1 - i);
      Exchange(numbers, i, j);
      i := i - 1;
    }
  }

  /**
   * The shuffle of the canonical arrangement of n tiles is an arrangement of
   * those n tiles for every outcome of the draws; a single tile stays put.
   */
  lemma ShuffledIdentityIsArrangement(n: nat, randoms: seq<real>)
    requires n <= |randoms| + 1
    requires UnitDraws(randoms)
    ensures IsArrangement(FisherYates(Identity(n), randoms, n - 1))
    ensures n == 1 ==> FisherYates(Identity(n), randoms, n - 1) == [1]
  {
    FisherYatesPermutes(Identity(n), randoms, n - 1);
    if n == 1 {
      assert Identity(1) == [1];
    }
  }

  /**
   * Builds [1, ..., size * size] and shuffles it. The result is an
   * arrangement of the size * size tiles for every outcome of the draws;
   * a single tile stays where it is.
   */
  method GenerateShuffledGrid(size: nat, randoms: seq<real>) returns (grid: seq<int>)
    requires size * size <= |randoms| + 1
    requires UnitDraws(randoms)
    ensures |grid| == size * size
    ensures grid == FisherYates(Identity(size * size), randoms, size * size - 1)
    ensures IsArrangement(grid)
    ensures size == 1 ==> grid == [1]
  {
    var n := size * size;
    var numbers := new int[n](k => k + 1);
    assert numbers[..] == Identity(n);
    ShuffleInPlace(numbers, randoms);
    grid := numbers[..];
    ShuffledIdentityIsArrangement(n, randoms);
    assert size == 1 ==> n == 1;
  }
}
