/** The best-team view: the service's fifteen players are sorted by predicted points, the two
    highest become captain and vice-captain, the total adds the captain's score a second time,
    and the players are listed by position. */
module Best15 {
  import opened Wrappers
  import opened Seqs
  import opened Records
  import opened Sorting

  /** What `fetchData` stores in the view's state. */
  datatype Summary = Summary(
    ordered: seq<Prediction>,
    captain: Prediction,
    viceCaptain: Option<Prediction>,
    teamTotal: int,
    goalies: seq<Prediction>,
    defenders: seq<Prediction>,
    midfielders: seq<Prediction>,
    forwards: seq<Prediction>)

  /** `players.reduce((acc, p) => acc + p.rounded_predicted, 0)`, where adding `null` adds 0. */
  function SumRounded(s: seq<Prediction>): int
    decreases |s|
  {
    if s == [] then 0 else SumRounded(s[..|s| - 1]) + ToNumber(s[|s| - 1].roundedPredicted)
  }

  lemma {:induction false} SumRoundedAppend(a: seq<Prediction>, b: seq<Prediction>)
    ensures SumRounded(a + b) == SumRounded(a) + SumRounded(b)
    decreases |b|
  {
    if b != [] {
      SumRoundedAppend(a, b[..|b| - 1]);
      assert (a + b)[..|a + b| - 1] == a + b[..|b| - 1];
      assert (a + b)[|a + b| - 1] == b[|b| - 1];
    } else {
      assert a + b == a;
    }
  }

  /** Taking a player out of a list takes its rounded score out of the sum. */
  lemma SumRoundedRemove(a: seq<Prediction>, x: Prediction, c: seq<Prediction>)
    ensures SumRounded(a + [x] + c) == SumRounded(a + c) + ToNumber(x.roundedPredicted)
  {
    assert (a + [x])[..|a|] == a;
    SumRoundedAppend(a + [x], c);
    SumRoundedAppend(a, c);
  }

  /** The sum does not depend on the order of the players, so summing the sorted list gives the
      sum of the list as received. */
  lemma {:induction false} SumRoundedPermutation(a: seq<Prediction>, b: seq<Prediction>)
    requires multiset(a) == multiset(b)
    ensures SumRounded(a) == SumRounded(b)
    decreases |a|
  {
    if a == [] {
      assert |b| == |multiset(b)| == 0;
    } else {
      var init, x := a[..|a| - 1], a[|a| - 1];
      MultisetRemove(a, |a| - 1);
      var k := IndexOf(b, x);
      MultisetRemove(b, k);
      SumRoundedRemove(b[..k], x, b[k + 1..]);
      SumRoundedPermutation(init, b[..k] + b[k + 1..]);
    }
  }

  /** The total counts every player, whether or not its position is one of the four groups:
      splitting the players by any test splits the sum. */
  lemma {:induction false} SumRoundedSplit(s: seq<Prediction>, keep: Prediction -> bool)
    ensures SumRounded(s) ==
      SumRounded(Filter(s, keep)) + SumRounded(Filter(s, (p: Prediction) => !keep(p)))
    decreases |s|
  {
    if s != [] {
      var init, x := s[..|s| - 1], s[|s| - 1];
      assert s == init + [x];
      var drop := (p: Prediction) => !keep(p);
      SumRoundedSplit(init, keep);
      var kept, dropped := Filter(init, keep), Filter(init, drop);
      var kx, dx := if keep(x) then [x] else [], if drop(x) then [x] else [];
      FilterAppendOne(init, x, keep);
      FilterAppendOne(init, x, drop);
      SumRoundedAppend(kept, kx);
      SumRoundedAppend(dropped, dx);
      assert SumRounded(kx) + SumRounded(dx) == ToNumber(x.roundedPredicted) by {
        assert [x][..0] == [];
      }
    }
  }

  /** `fetchData` after parsing: a value that is not an array, or an empty one, leaves the view
      as it was; otherwise the players are sorted by predicted points, the first is captain and
      has the highest predicted points, the second (if any) is vice-captain, the total is the sum
      of all rounded scores plus the captain's, and the groups filter the sorted list. */
  method FetchBest15(parsed: Parsed) returns (r: Option<Summary>)
    ensures r.None? <==> parsed.NotAnArray? || |parsed.items| == 0
    ensures r.Some? ==>
      var s, ps := r.value, parsed.items;
      |s.ordered| == |ps| && NonIncreasing(s.ordered, ByPredicted) && multiset(s.ordered) == multiset(ps) &&
      SameTies(s.ordered, ps, ByPredicted) &&
      s.captain == s.ordered[0] && s.captain in ps &&
      (forall p :: p in ps ==> Key(p, ByPredicted) <= Key(s.captain, ByPredicted)) &&
      FirstWithBestKey(ps, s.captain) &&
      s.viceCaptain == (if |ps| > 1 then Some(s.ordered[1]) else None) &&
      s.teamTotal == SumRounded(ps) + ToNumber(s.captain.roundedPredicted) &&
      s.goalies == ByPosition(s.ordered, "GK") && s.defenders == ByPosition(s.ordered, "DEF") &&
      s.midfielders == ByPosition(s.ordered, "MID") && s.forwards == ByPosition(s.ordered, "FWD")
  {
    if parsed.NotAnArray? || |parsed.items| == 0 {
      return None;
    }
    var ps := parsed.items;
    var a := new Prediction[|ps|](i requires 0 <= i < |ps| => ps[i]);
    assert a[..] == ps;
    SortDescending(a, ByPredicted);
    var ordered := a[..];
    var captain := ordered[0];
    var vice := if |ordered| > 1 then Some(ordered[1]) else None;
    var total := SumRounded(ordered) + ToNumber(captain.roundedPredicted);
    SumRoundedPermutation(ordered, ps);
    CaptainIsBest(ordered, ps);
    CaptainIsFirstBest(ordered, ps);
    r := Some(Summary(ordered, captain, vice, total,
      ByPosition(ordered, "GK"), ByPosition(ordered, "DEF"),
      ByPosition(ordered, "MID"), ByPosition(ordered, "FWD")));
  }

  /** The head of a sorted permutation of the players is one of them, with the highest predicted
      points of all. */
  lemma CaptainIsBest(ordered: seq<Prediction>, ps: seq<Prediction>)
    requires |ordered| > 0 && NonIncreasing(ordered, ByPredicted) && multiset(ordered) == multiset(ps)
    ensures ordered[0] in ps
    ensures forall p :: p in ps ==> Key(p, ByPredicted) <= Key(ordered[0], ByPredicted)
  {
    HeadIsMaximal(ordered, ByPredicted);
    assert ordered[0] in multiset(ps);
    forall p | p in ps ensures p in ordered {
      assert p in multiset(ordered);
    }
  }

  /** `c` is the earliest player of `ps` with the highest predicted points: every player before
      it has fewer. */
  predicate FirstWithBestKey(ps: seq<Prediction>, c: Prediction) {
    exists k :: 0 <= k < |ps| && ps[k] == c && forall j :: 0 <= j < k ==> Key(ps[j], ByPredicted) < Key(c, ByPredicted)
  }

  /** The sort is stable, so a tie for the highest predicted points gives the captaincy to the
      tied player that comes first in the response. */
  lemma CaptainIsFirstBest(ordered: seq<Prediction>, ps: seq<Prediction>)
    requires |ordered| > 0 && NonIncreasing(ordered, ByPredicted) && multiset(ordered) == multiset(ps)
    requires SameTies(ordered, ps, ByPredicted)
    ensures FirstWithBestKey(ps, ordered[0])
  {
    var m := Key(ordered[0], ByPredicted);
    var best := KeyIs(ByPredicted, m);
    CaptainIsBest(ordered, ps);
    FilterHead(ordered, 0, best);
    var i := IndexOf(ps, ordered[0]);
    assert best(ps[i]);
    match FirstIndex(ps, best)
    case None =>
      assert false;
    case Some(k) =>
      FilterHead(ps, k, best);
      assert WithKey(ordered, ByPredicted, m) == WithKey(ps, ByPredicted, m);
      forall j | 0 <= j < k ensures Key(ps[j], ByPredicted) < m {
        assert !best(ps[j]);
        assert ps[j] in ps;
      }
  }

  /** Each position group keeps the sorted order, so it lists its players by non-increasing
      predicted points. */
  lemma GroupsNonIncreasing(ordered: seq<Prediction>, pos: string)
    requires NonIncreasing(ordered, ByPredicted)
    ensures NonIncreasing(ByPosition(ordered, pos), ByPredicted)
  {
    SubsequenceNonIncreasing(ByPosition(ordered, pos), ordered, ByPredicted);
  }

  /** `filterOutCaptains` is never applied: captain and vice-captain stay in the group of their
      position. */
  lemma CaptainsStayInGroups(ordered: seq<Prediction>)
    requires |ordered| > 0
    ensures ordered[0] in ByPosition(ordered, ordered[0].position)
    ensures |ordered| > 1 ==> ordered[1] in ByPosition(ordered, ordered[1].position)
  {
    ByPositionContents(ordered, ordered[0].position);
    if |ordered| > 1 {
      ByPositionContents(ordered, ordered[1].position);
    }
  }

  /** A player whose position is none of GK, DEF, MID and FWD is in no group. */
  lemma UnlistedInNoGroup(ordered: seq<Prediction>, p: Prediction)
    requires p.position !in Positions
    ensures forall pos :: pos in Positions ==> p !in ByPosition(ordered, pos)
  {
    forall pos | pos in Positions ensures p !in ByPosition(ordered, pos) {
      ByPositionContents(ordered, pos);
    }
  }
}
