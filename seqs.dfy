/** Sequence operations that the JavaScript and Python code use through their libraries:
    `Array.prototype.filter`, `Array.prototype.find` and order-preserving selection. */
module Seqs {
  import opened Wrappers

  /** `ys` keeps `xs` in order, possibly with elements left out. */
  predicate Subsequence<T(==)>(xs: seq<T>, ys: seq<T>)
    decreases |ys|
  {
    xs == [] ||
    (ys != [] &&
     ((xs[|xs| - 1] == ys[|ys| - 1] && Subsequence(xs[..|xs| - 1], ys[..|ys| - 1])) ||
      Subsequence(xs, ys[..|ys| - 1])))
  }

  /** Every sequence keeps itself in order. */
  lemma {:induction false} SubsequenceRefl<T>(s: seq<T>)
    ensures Subsequence(s, s)
    decreases |s|
  {
    if s != [] {
      SubsequenceRefl(s[..|s| - 1]);
    }
  }

  lemma {:induction false} SubsequenceMultiset<T>(xs: seq<T>, ys: seq<T>)
    requires Subsequence(xs, ys)
    ensures multiset(xs) <= multiset(ys)
    ensures |xs| <= |ys|
    decreases |ys|
  {
    if xs == [] {
    } else if xs[|xs| - 1] == ys[|ys| - 1] && Subsequence(xs[..|xs| - 1], ys[..|ys| - 1]) {
      SubsequenceMultiset(xs[..|xs| - 1], ys[..|ys| - 1]);
      assert xs == xs[..|xs| - 1] + [xs[|xs| - 1]];
      assert ys == ys[..|ys| - 1] + [ys[|ys| - 1]];
    } else {
      SubsequenceMultiset(xs, ys[..|ys| - 1]);
      assert ys == ys[..|ys| - 1] + [ys[|ys| - 1]];
    }
  }

  /** Taking the element at `k` out of a sequence: what is left on either side, and one copy
      fewer of it in the multiset. */
  lemma MultisetRemove<T>(s: seq<T>, k: nat)
    requires k < |s|
    ensures s == s[..k] + [s[k]] + s[k + 1..]
    ensures multiset(s[..k] + s[k + 1..]) == multiset(s) - multiset{s[k]}
  {
    assert s == s[..k] + [s[k]] + s[k + 1..];
  }

  /** An element of the multiset of a sequence sits at some index of it. */
  lemma IndexOf<T>(s: seq<T>, x: T) returns (k: nat)
    requires x in multiset(s)
    ensures k < |s| && s[k] == x
  {
    k :| 0 <= k < |s| && s[k] == x;
  }

  /** `s.filter(keep)`: the elements satisfying `keep`, in their order, each as often as in `s`. */
  function Filter<T(!new)>(s: seq<T>, keep: T -> bool): (r: seq<T>)
    ensures |r| <= |s|
    ensures forall i :: 0 <= i < |r| ==> keep(r[i])
    ensures Subsequence(r, s)
    decreases |s|
  {
    if s == [] then []
    else
      var init := s[..|s| - 1];
      var last := s[|s| - 1];
      var rest := Filter(init, keep);
      var r := rest + (if keep(last) then [last] else []);
      assert s == init + [last];
      assert Subsequence(r, s) by {
        if keep(last) {
          assert r[|r| - 1] == last && r[..|r| - 1] == rest;
        } else {
          assert r == rest;
        }
      }
      r
  }

  /** Filtering keeps every element satisfying `keep` exactly as often as it occurs. */
  lemma {:induction false} FilterCount<T(!new)>(s: seq<T>, keep: T -> bool)
    ensures forall x :: multiset(Filter(s, keep))[x] == if keep(x) then multiset(s)[x] else 0
    decreases |s|
  {
    if s != [] {
      var init, last := s[..|s| - 1], s[|s| - 1];
      FilterCount(init, keep);
      var tail := if keep(last) then [last] else [];
      assert s == init + [last];
      assert Filter(s, keep) == Filter(init, keep) + tail;
      assert multiset(s) == multiset(init) + multiset{last};
      assert multiset(Filter(s, keep)) == multiset(Filter(init, keep)) + multiset(tail);
    }
  }

  /** The filtered sequence holds exactly the elements of `s` that satisfy `keep`. */
  lemma FilterMembers<T(!new)>(s: seq<T>, keep: T -> bool)
    ensures forall x :: x in Filter(s, keep) <==> x in s && keep(x)
  {
    FilterCount(s, keep);
    forall x ensures x in Filter(s, keep) <==> x in s && keep(x) {
      assert x in Filter(s, keep) <==> multiset(Filter(s, keep))[x] > 0;
      assert x in s <==> multiset(s)[x] > 0;
    }
  }

  lemma FilterAppendOne<T(!new)>(s: seq<T>, x: T, keep: T -> bool)
    ensures Filter(s + [x], keep) == Filter(s, keep) + (if keep(x) then [x] else [])
  {
    assert (s + [x])[..|s + [x]| - 1] == s;
  }

  /** Filtering distributes over concatenation. */
  lemma {:induction false} FilterConcat<T(!new)>(a: seq<T>, b: seq<T>, keep: T -> bool)
    ensures Filter(a + b, keep) == Filter(a, keep) + Filter(b, keep)
    decreases |b|
  {
    if b != [] {
      var init := b[..|b| - 1];
      FilterConcat(a, init, keep);
      assert (a + b)[..|a + b| - 1] == a + init;
      assert (a + b)[|a + b| - 1] == b[|b| - 1];
    } else {
      assert a + b == a;
    }
  }

  /** Filtering a prefix of `s` gives a prefix of the filtered `s`. */
  lemma FilterPrefix<T(!new)>(s: seq<T>, n: nat, keep: T -> bool)
    requires n <= |s|
    ensures Filter(s[..n], keep) <= Filter(s, keep)
  {
    assert s == s[..n] + s[n..];
    FilterConcat(s[..n], s[n..], keep);
  }

  /** Filtering a sequence in three parts filters each part. */
  lemma FilterThree<T(!new)>(front: seq<T>, m: seq<T>, back: seq<T>, keep: T -> bool)
    ensures Filter(front + m + back, keep) == Filter(front, keep) + Filter(m, keep) + Filter(back, keep)
  {
    FilterConcat(front + m, back, keep);
    FilterConcat(front, m, keep);
  }

  /** Two elements of which at most one is kept filter to the same in either order. */
  lemma FilterPair<T(!new)>(x: T, y: T, keep: T -> bool)
    requires !(keep(x) && keep(y))
    ensures Filter([x, y], keep) == Filter([y, x], keep)
  {
    assert [x, y][..1] == [x] && [y, x][..1] == [y];
    assert [x][..0] == [] && [y][..0] == [];
  }

  /** Swapping two neighbours of which at most one is kept leaves the filtered sequence as it
      was. */
  lemma FilterSwap<T(!new)>(s: seq<T>, j: nat, keep: T -> bool)
    requires 0 < j < |s| && !(keep(s[j - 1]) && keep(s[j]))
    ensures Filter(s[j - 1 := s[j]][j := s[j - 1]], keep) == Filter(s, keep)
  {
    var x, y, front, back := s[j - 1], s[j], s[..j - 1], s[j + 1..];
    assert s == front + [x, y] + back;
    assert s[j - 1 := y][j := x] == front + [y, x] + back;
    FilterThree(front, [x, y], back, keep);
    FilterThree(front, [y, x], back, keep);
    FilterPair(x, y, keep);
  }

  /** The filtered sequence starts with the first element that is kept. */
  lemma FilterHead<T(!new)>(s: seq<T>, k: nat, keep: T -> bool)
    requires k < |s| && keep(s[k]) && forall j :: 0 <= j < k ==> !keep(s[j])
    ensures |Filter(s, keep)| > 0 && Filter(s, keep)[0] == s[k]
  {
    assert s == s[..k] + ([s[k]] + s[k + 1..]);
    FilterConcat(s[..k], [s[k]] + s[k + 1..], keep);
    FilterConcat([s[k]], s[k + 1..], keep);
    FilterAppendOne([], s[k], keep);
    assert [] + [s[k]] == [s[k]];
    FilterNone(s[..k], keep);
  }

  /** Nothing is kept from a sequence none of whose elements satisfies `keep`. */
  lemma {:induction false} FilterNone<T(!new)>(s: seq<T>, keep: T -> bool)
    requires forall i :: 0 <= i < |s| ==> !keep(s[i])
    ensures Filter(s, keep) == []
    decreases |s|
  {
    if s != [] {
      var init := s[..|s| - 1];
      forall i | 0 <= i < |init| ensures !keep(init[i]) {
        assert init[i] == s[i];
      }
      FilterNone(init, keep);
    }
  }

  /** Filtering by a predicate every element satisfies keeps the whole sequence. */
  lemma {:induction false} FilterAll<T(!new)>(s: seq<T>, keep: T -> bool)
    requires forall i :: 0 <= i < |s| ==> keep(s[i])
    ensures Filter(s, keep) == s
    decreases |s|
  {
    if s != [] {
      var init := s[..|s| - 1];
      forall i | 0 <= i < |init| ensures keep(init[i]) {
        assert init[i] == s[i];
      }
      FilterAll(init, keep);
      assert init + [s[|s| - 1]] == s;
    }
  }

  /** `s.findIndex(p)`, or the element `s.find(p)` picks: the first index satisfying `p`. */
  function FirstIndex<T>(s: seq<T>, p: T -> bool): (r: Option<nat>)
    ensures r.None? <==> forall i :: 0 <= i < |s| ==> !p(s[i])
    ensures r.Some? ==> r.value < |s| && p(s[r.value]) && forall j :: 0 <= j < r.value ==> !p(s[j])
    decreases |s|
  {
    if s == [] then None
    else if p(s[0]) then Some(0)
    else
      match FirstIndex(s[1..], p)
      case None => None
      case Some(k) => Some(k + 1)
  }

  /** The element an overwriting loop `s.forEach(x => { if (p(x)) chosen = x; })` leaves behind:
      the last one satisfying `p`. */
  function FindLast<T>(s: seq<T>, p: T -> bool): (r: Option<T>)
    ensures r.None? <==> forall i :: 0 <= i < |s| ==> !p(s[i])
    ensures r.Some? ==>
      exists k :: 0 <= k < |s| && s[k] == r.value && p(s[k]) && forall j :: k < j < |s| ==> !p(s[j])
    decreases |s|
  {
    if s == [] then None
    else if p(s[|s| - 1]) then Some(s[|s| - 1])
    else FindLast(s[..|s| - 1], p)
  }

  /** `s.find(p)`: the first element satisfying `p`, or `undefined`. */
  function Find<T>(s: seq<T>, p: T -> bool): (r: Option<T>)
    ensures r.None? <==> forall i :: 0 <= i < |s| ==> !p(s[i])
    ensures r.Some? ==> exists k :: 0 <= k < |s| && s[k] == r.value && p(s[k]) && forall j :: 0 <= j < k ==> !p(s[j])
  {
    match FirstIndex(s, p)
    case None => None
    case Some(k) => Some(s[k])
  }
}
