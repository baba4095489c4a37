/** Position-wise edits of sequences shared by the registry and the catalogue
    view. */
module Sequences {

  /** No element occurs twice. */
  ghost predicate NoDuplicates<T>(xs: seq<T>) {
    forall a, b :: 0 <= a < |xs| && 0 <= b < |xs| && a != b ==> xs[a] != xs[b]
  }

  /** `splice(i, 1)`: the sequence without its element at position `i`. */
  function RemoveAt<T>(xs: seq<T>, i: int): (ys: seq<T>)
    requires 0 <= i < |xs|
    ensures |ys| == |xs| - 1
    ensures forall a :: 0 <= a < i ==> ys[a] == xs[a]
    ensures forall a :: i <= a < |ys| ==> ys[a] == xs[a + 1]
  {
    xs[..i] + xs[i + 1..]
  }

  /** Without duplicates, removing position `i` removes exactly `xs[i]`. */
  lemma RemoveAtMembers<T>(xs: seq<T>, i: int)
    requires 0 <= i < |xs|
    requires NoDuplicates(xs)
    ensures forall x :: x in RemoveAt(xs, i) <==> x in xs && x != xs[i]
  {
    var ys := RemoveAt(xs, i);
    forall x ensures x in ys <==> x in xs && x != xs[i] {
      if x in ys {
        var j :| 0 <= j < |ys| && ys[j] == x;
        assert xs[if j < i then j else j + 1] == x;
      }
      if x in xs && x != xs[i] {
        var j :| 0 <= j < |xs| && xs[j] == x;
        assert ys[if j < i then j else j - 1] == x;
      }
    }
  }

  /** Swaps two adjacent elements of a sequence. */
  function SwapAdjacent<T>(xs: seq<T>, a: nat): (ys: seq<T>)
    requires a + 1 < |xs|
    ensures |ys| == |xs|
    ensures ys[a] == xs[a + 1] && ys[a + 1] == xs[a]
    ensures forall m :: 0 <= m < |xs| && m != a && m != a + 1 ==> ys[m] == xs[m]
  {
    xs[a := xs[a + 1]][a + 1 := xs[a]]
  }

  /** Swapping the same neighbours twice restores the sequence. */
  lemma SwapAdjacentTwice<T>(xs: seq<T>, a: nat)
    requires a + 1 < |xs|
    ensures SwapAdjacent(SwapAdjacent(xs, a), a) == xs
  {
  }
}
