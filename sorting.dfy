/** The in-place `Array.prototype.sort` with a descending numeric comparator
    `(a, b) => b.key - a.key`, as the views call it. */
module Sorting {
  import opened Seqs
  import opened Records

  /** Which field the comparator subtracts. */
  datatype SortKey = ByRounded | ByPredicted

  function Key(p: Prediction, order: SortKey): int {
    match order
    case ByRounded => ToNumber(p.roundedPredicted)
    case ByPredicted => ToNumber(p.predictedPoints)
  }

  predicate NonIncreasing(s: seq<Prediction>, order: SortKey) {
    forall i, j :: 0 <= i < j < |s| ==> Key(s[i], order) >= Key(s[j], order)
  }

  function KeyIs(order: SortKey, k: int): Prediction -> bool {
    (p: Prediction) => Key(p, order) == k
  }

  /** The elements of `s` whose key is `k`, in their order in `s`. */
  function WithKey(s: seq<Prediction>, order: SortKey, k: int): seq<Prediction> {
    Filter(s, KeyIs(order, k))
  }

  /** `s` and `t` list the elements of each key in the same order: a stable sort keeps this
      between its input and its output. */
  ghost predicate SameTies(s: seq<Prediction>, t: seq<Prediction>, order: SortKey) {
    forall k :: WithKey(s, order, k) == WithKey(t, order, k)
  }

  /** Swapping neighbours with different keys keeps the order among equal keys. */
  lemma SwapKeepsTies(s: seq<Prediction>, j: nat, order: SortKey)
    requires 0 < j < |s| && Key(s[j - 1], order) != Key(s[j], order)
    ensures SameTies(s[j - 1 := s[j]][j := s[j - 1]], s, order)
  {
    forall k ensures WithKey(s[j - 1 := s[j]][j := s[j - 1]], order, k) == WithKey(s, order, k) {
      FilterSwap(s, j, KeyIs(order, k));
    }
  }

  /** Sorts `a` in place so that keys do not increase, by insertion with adjacent swaps. Equal
      keys are never swapped, so the sort is stable like the engine's: elements of equal key
      keep their order. */
  method SortDescending(a: array<Prediction>, order: SortKey)
    modifies a
    ensures NonIncreasing(a[..], order)
    ensures multiset(a[..]) == multiset(old(a[..]))
    ensures SameTies(a[..], old(a[..]), order)
  {
    var i := 0;
    while i < a.Length
      invariant 0 <= i <= a.Length
      invariant NonIncreasing(a[..i], order)
      invariant multiset(a[..]) == multiset(old(a[..]))
      invariant SameTies(a[..], old(a[..]), order)
    {
      Insert(a, i, order);
      i := i + 1;
    }
    assert a[..a.Length] == a[..];
  }

  /** The state of the insertion of `s[j]`: the first `i + 1` elements other than the one at
      `j` are in order, and the one at `j` has a greater key than all to its right. */
  predicate Inserting(s: seq<Prediction>, i: nat, j: nat, order: SortKey)
    requires j <= i < |s|
  {
    (forall x, y :: 0 <= x < y <= i && y != j && x != j ==> Key(s[x], order) >= Key(s[y], order)) &&
    (forall y :: j < y <= i ==> Key(s[j], order) > Key(s[y], order))
  }

  /** Swapping the element being inserted with a left neighbour of smaller key moves it one
      place left. */
  lemma InsertStep(s: seq<Prediction>, i: nat, j: nat, order: SortKey)
    requires 0 < j <= i < |s| && Inserting(s, i, j, order)
    requires Key(s[j - 1], order) < Key(s[j], order)
    ensures Inserting(s[j - 1 := s[j]][j := s[j - 1]], i, j - 1, order)
  {
  }

  /** Once the left neighbour's key is not smaller, the first `i + 1` elements are in order. */
  lemma InsertDone(s: seq<Prediction>, i: nat, j: nat, order: SortKey)
    requires j <= i < |s| && Inserting(s, i, j, order)
    requires j == 0 || Key(s[j - 1], order) >= Key(s[j], order)
    ensures NonIncreasing(s[..i + 1], order)
  {
    forall x, y | 0 <= x < y <= i ensures Key(s[x], order) >= Key(s[y], order) {
      if y == j && x < j - 1 {
        assert Key(s[x], order) >= Key(s[j - 1], order);
      }
    }
  }

  /** Moves `a[i]` left past every element of smaller key, extending the sorted prefix by one. */
  method Insert(a: array<Prediction>, i: nat, order: SortKey)
    requires i < a.Length
    requires NonIncreasing(a[..i], order)
    modifies a
    ensures NonIncreasing(a[..i + 1], order)
    ensures multiset(a[..]) == multiset(old(a[..]))
    ensures SameTies(a[..], old(a[..]), order)
    ensures a[i + 1..] == old(a[i + 1..])
  {
    var j := i;
    assert Inserting(a[..], i, j, order) by {
      forall x, y | 0 <= x < y < i ensures Key(a[x], order) >= Key(a[y], order) {
        assert a[..i][x] == a[x] && a[..i][y] == a[y];
      }
    }
    while j > 0 && Key(a[j - 1], order) < Key(a[j], order)
      invariant 0 <= j <= i
      invariant Inserting(a[..], i, j, order)
      invariant multiset(a[..]) == multiset(old(a[..]))
      invariant SameTies(a[..], old(a[..]), order)
      invariant a[i + 1..] == old(a[i + 1..])
    {
      InsertStep(a[..], i, j, order);
      SwapKeepsTies(a[..], j, order);
      Swap(a, j);
      j := j - 1;
    }
    InsertDone(a[..], i, j, order);
  }

  method Swap(a: array<Prediction>, j: nat)
    requires 0 < j < a.Length
    modifies a
    ensures a[..] == old(a[..])[j - 1 := old(a[j])][j := old(a[j - 1])]
    ensures multiset(a[..]) == multiset(old(a[..]))
  {
    a[j - 1], a[j] := a[j], a[j - 1];
  }

  /** Leaving elements out of a sequence with non-increasing keys keeps the keys non-increasing;
      in particular every `filter` of a sorted list is sorted. */
  lemma {:induction false} SubsequenceNonIncreasing(xs: seq<Prediction>, ys: seq<Prediction>, order: SortKey)
    requires Subsequence(xs, ys) && NonIncreasing(ys, order)
    ensures NonIncreasing(xs, order)
    decreases |ys|
  {
    if xs != [] {
      var xs', ys' := xs[..|xs| - 1], ys[..|ys| - 1];
      assert NonIncreasing(ys', order);
      if xs[|xs| - 1] == ys[|ys| - 1] && Subsequence(xs', ys') {
        SubsequenceNonIncreasing(xs', ys', order);
        SubsequenceMultiset(xs', ys');
        forall i, j | 0 <= i < j < |xs| ensures Key(xs[i], order) >= Key(xs[j], order) {
          if j == |xs| - 1 {
            assert xs[i] == xs'[i];
            assert xs'[i] in multiset(ys');
            var m :| 0 <= m < |ys'| && ys'[m] == xs[i];
            assert ys[m] == xs[i];
          } else {
            assert xs[i] == xs'[i] && xs[j] == xs'[j];
          }
        }
      } else {
        SubsequenceNonIncreasing(xs, ys', order);
      }
    }
  }

  /** The first element of a sorted sequence has the greatest key of all its elements. */
  lemma HeadIsMaximal(s: seq<Prediction>, order: SortKey)
    requires NonIncreasing(s, order) && |s| > 0
    ensures forall p :: p in s ==> Key(p, order) <= Key(s[0], order)
  {
    forall p | p in s ensures Key(p, order) <= Key(s[0], order) {
      var i :| 0 <= i < |s| && s[i] == p;
      if i > 0 {
        assert Key(s[0], order) >= Key(s[i], order);
      }
    }
  }
}
