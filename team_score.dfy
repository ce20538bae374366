/** The team-score view: the predicted-score records of the service are joined to the user's
    picks by player id, each kept record is weighted by its pick's multiplier, and the weighted
    scores are summed into the team total. */
module TeamScore {
  import opened Wrappers
  import opened Seqs
  import opened Records

  /** A prediction with the two fields the merge adds: `{...newPlayer, multiplier,
      adjusted_score}`. */
  datatype MergedRow = MergedRow(prediction: Prediction, multiplier: int, adjustedScore: int)

  /** The view's state: the merged rows and the team total. */
  datatype View = View(players: seq<MergedRow>, teamTotal: int)

  /** `oldPlayers.some(old => old.element === id)`. */
  predicate HasPick(picks: seq<Pick>, id: int) {
    exists k :: 0 <= k < |picks| && picks[k].element == id
  }

  /** `oldPlayers.find(old => old.element === id)`. */
  function PickFor(picks: seq<Pick>, id: int): Option<Pick> {
    Find(picks, (p: Pick) => p.element == id)
  }

  /** The `find` succeeds exactly when the `some` holds, and then gives the first pick with the
      id. */
  lemma PickForFirst(picks: seq<Pick>, id: int)
    ensures PickFor(picks, id).Some? <==> HasPick(picks, id)
    ensures PickFor(picks, id).Some? ==> PickFor(picks, id).value.element == id
    ensures PickFor(picks, id).Some? ==>
      exists k :: 0 <= k < |picks| && picks[k] == PickFor(picks, id).value && forall j :: 0 <= j < k ==> picks[j].element != id
  {
  }

  /** `matchingOld ? matchingOld.multiplier || 1 : 1`: a missing pick, a `null` multiplier and a
      multiplier of 0 all give 1. */
  function MultiplierFor(picks: seq<Pick>, id: int): (m: int)
    ensures m != 0
  {
    match PickFor(picks, id)
    case None => 1
    case Some(pick) =>
      match pick.multiplier
      case Val(n) => if n != 0 then n else 1
      case Null => 1
  }

  /** The multiplier comes from the first pick for the id, with 0 and `null` turned into 1. */
  lemma MultiplierFromFirstPick(picks: seq<Pick>, id: int, k: nat)
    requires k < |picks| && picks[k].element == id
    requires forall j :: 0 <= j < k ==> picks[j].element != id
    ensures MultiplierFor(picks, id) ==
      if picks[k].multiplier.Val? && picks[k].multiplier.n != 0 then picks[k].multiplier.n else 1
  {
    var r := FirstIndex(picks, (p: Pick) => p.element == id);
    assert r == Some(k);
  }

  /** The `.filter` step: predictions that some pick points at. */
  function Matched(picks: seq<Pick>, preds: seq<Prediction>): seq<Prediction> {
    Filter(preds, (p: Prediction) => HasPick(picks, p.playerId))
  }

  /** The `.filter` step keeps exactly the predictions that some pick points at. */
  lemma MatchedMembers(picks: seq<Pick>, preds: seq<Prediction>)
    ensures forall p :: p in Matched(picks, preds) <==> p in preds && HasPick(picks, p.playerId)
  {
    FilterMembers(preds, (p: Prediction) => HasPick(picks, p.playerId));
  }

  /** The `.map` step for one prediction. */
  function Annotate(picks: seq<Pick>, pred: Prediction): MergedRow {
    var m := MultiplierFor(picks, pred.playerId);
    MergedRow(pred, m, ToNumber(pred.roundedPredicted) * m)
  }

  /** `mergedData`: one row per prediction that has a pick, its score weighted by the
      multiplier of the first such pick. */
  function Merge(picks: seq<Pick>, preds: seq<Prediction>): (rows: seq<MergedRow>)
    ensures |rows| <= |preds|
    ensures forall i :: 0 <= i < |rows| ==>
      rows[i].prediction in preds && HasPick(picks, rows[i].prediction.playerId)
    ensures forall i :: 0 <= i < |rows| ==>
      rows[i].multiplier == MultiplierFor(picks, rows[i].prediction.playerId) &&
      rows[i].adjustedScore == ToNumber(rows[i].prediction.roundedPredicted) * rows[i].multiplier
  {
    var m := Matched(picks, preds);
    FilterMembers(preds, (p: Prediction) => HasPick(picks, p.playerId));
    seq(|m|, i requires 0 <= i < |m| => Annotate(picks, m[i]))
  }

  function PredictionsOf(rows: seq<MergedRow>): (r: seq<Prediction>)
    ensures |r| == |rows| && forall i :: 0 <= i < |rows| ==> r[i] == rows[i].prediction
  {
    seq(|rows|, i requires 0 <= i < |rows| => rows[i].prediction)
  }

  /** The merged rows list the matched predictions in their original order, each as often as
      it occurs among the predictions; unmatched predictions are dropped, not zero-filled. */
  lemma MergeKeepsMatchedInOrder(picks: seq<Pick>, preds: seq<Prediction>)
    ensures Subsequence(PredictionsOf(Merge(picks, preds)), preds)
    ensures forall p :: (multiset(PredictionsOf(Merge(picks, preds)))[p] ==
      if HasPick(picks, p.playerId) then multiset(preds)[p] else 0)
  {
    assert PredictionsOf(Merge(picks, preds)) == Matched(picks, preds);
    FilterCount(preds, (p: Prediction) => HasPick(picks, p.playerId));
  }

  lemma MergeAppendOne(picks: seq<Pick>, preds: seq<Prediction>, x: Prediction)
    ensures Merge(picks, preds + [x]) ==
      Merge(picks, preds) + if HasPick(picks, x.playerId) then [Annotate(picks, x)] else []
  {
    var keep := (p: Prediction) => HasPick(picks, p.playerId);
    FilterAppendOne(preds, x, keep);
    var m, m' := Matched(picks, preds), Matched(picks, preds + [x]);
    var tail := if HasPick(picks, x.playerId) then [Annotate(picks, x)] else [];
    assert m' == m + if keep(x) then [x] else [];
    var lhs, rhs := Merge(picks, preds + [x]), Merge(picks, preds) + tail;
    assert |lhs| == |rhs|;
    forall i | 0 <= i < |lhs| ensures lhs[i] == rhs[i] {
      assert lhs[i] == Annotate(picks, m'[i]);
    }
  }

  /** `mergedData.reduce((acc, player) => acc + (player.adjusted_score || 0), 0)`; an adjusted
      score is always a number here, so `|| 0` leaves it as it is. */
  function Total(rows: seq<MergedRow>): int
    decreases |rows|
  {
    if rows == [] then 0 else Total(rows[..|rows| - 1]) + rows[|rows| - 1].adjustedScore
  }

  /** Independent reference for the team total: each prediction contributes its score times its
      multiplier when a pick points at it, and nothing otherwise. */
  function Contributions(picks: seq<Pick>, preds: seq<Prediction>): int
    decreases |preds|
  {
    if preds == [] then 0
    else
      var x := preds[|preds| - 1];
      Contributions(picks, preds[..|preds| - 1]) +
        if HasPick(picks, x.playerId) then ToNumber(x.roundedPredicted) * MultiplierFor(picks, x.playerId) else 0
  }

  /** The team total is the sum of the contributions of the matched predictions. */
  lemma {:induction false} TotalOfMerge(picks: seq<Pick>, preds: seq<Prediction>)
    ensures Total(Merge(picks, preds)) == Contributions(picks, preds)
    decreases |preds|
  {
    if preds != [] {
      var init, x := preds[..|preds| - 1], preds[|preds| - 1];
      assert preds == init + [x];
      TotalOfMerge(picks, init);
      MergeAppendOne(picks, init, x);
      var rows := Merge(picks, preds);
      if HasPick(picks, x.playerId) {
        assert rows == Merge(picks, init) + [Annotate(picks, x)];
        assert rows[..|rows| - 1] == Merge(picks, init);
        assert Total(rows) == Total(Merge(picks, init)) + Annotate(picks, x).adjustedScore;
      } else {
        assert rows == Merge(picks, init);
      }
    }
  }

  /** The total of rows put one after the other is the sum of their totals. */
  lemma {:induction false} TotalAppend(a: seq<MergedRow>, b: seq<MergedRow>)
    ensures Total(a + b) == Total(a) + Total(b)
    decreases |b|
  {
    if b != [] {
      TotalAppend(a, b[..|b| - 1]);
      assert (a + b)[..|a + b| - 1] == a + b[..|b| - 1];
      assert (a + b)[|a + b| - 1] == b[|b| - 1];
      assert Total(a + b) == Total(a + b[..|b| - 1]) + b[|b| - 1].adjustedScore;
    } else {
      assert a + b == a;
    }
  }

  /** The render guard `player.multiplier !== 0`: which rows are shown. */
  function Displayed(rows: seq<MergedRow>): seq<MergedRow> {
    Filter(rows, (r: MergedRow) => r.multiplier != 0)
  }

  /** Since `|| 1` never yields 0, the render guard hides no merged row. */
  lemma DisplayedIsAll(picks: seq<Pick>, preds: seq<Prediction>)
    ensures Displayed(Merge(picks, preds)) == Merge(picks, preds)
  {
    FilterAll(Merge(picks, preds), (r: MergedRow) => r.multiplier != 0);
  }

  /** The effect of the picks arriving: with no picks nothing is fetched; with a response that
      is not `ok` nothing is stored; and a parsed value that is not an array makes `.filter`
      throw into the `catch`. In those cases the view is unchanged; otherwise the rows are
      replaced by the merge and the total by the matched contributions. */
  function Evaluate(current: View, oldPlayers: seq<Pick>, responseOk: bool, newData: Parsed): (next: View)
    ensures |oldPlayers| == 0 || !responseOk || newData.NotAnArray? ==> next == current
    ensures |oldPlayers| > 0 && responseOk && newData.JsonArray? ==>
      next.players == Merge(oldPlayers, newData.items) &&
      next.teamTotal == Contributions(oldPlayers, newData.items)
  {
    if |oldPlayers| > 0 && responseOk && newData.JsonArray? then
      var rows := Merge(oldPlayers, newData.items);
      TotalOfMerge(oldPlayers, newData.items);
      View(rows, Total(rows))
    else current
  }

  /** Three predictions of which only the first two have picks merge into their two rows. */
  lemma MergeTwoOfThree(picks: seq<Pick>, a: Prediction, b: Prediction, c: Prediction)
    requires HasPick(picks, a.playerId) && HasPick(picks, b.playerId) && !HasPick(picks, c.playerId)
    ensures Merge(picks, [a, b, c]) == [Annotate(picks, a), Annotate(picks, b)]
  {
    MergeAppendOne(picks, [], a);
    assert [] + [a] == [a];
    MergeAppendOne(picks, [a], b);
    assert [a] + [b] == [a, b];
    MergeAppendOne(picks, [a, b], c);
    assert [a, b] + [c] == [a, b, c];
  }

  /** The per-prediction steps of the benched-pick example: 1 and 2 have picks, with
      multipliers 2 and 1 (the 0 turned into 1), and 3 has none. */
  lemma BenchedPickSteps(picks: seq<Pick>, p1: Prediction, p2: Prediction)
    requires picks == [Pick(1, Val(2)), Pick(2, Val(0))]
    requires p1.playerId == 1 && p1.roundedPredicted == Val(5)
    requires p2.playerId == 2 && p2.roundedPredicted == Val(3)
    ensures HasPick(picks, 1) && HasPick(picks, 2) && !HasPick(picks, 3)
    ensures Annotate(picks, p1) == MergedRow(p1, 2, 10)
    ensures Annotate(picks, p2) == MergedRow(p2, 1, 3)
  {
    assert picks[0].element == 1 && picks[1].element == 2;
    MultiplierFromFirstPick(picks, 1, 0);
    MultiplierFromFirstPick(picks, 2, 1);
  }

  /** The rows of the benched-pick example: 1 and 2 are matched, with multipliers 2 and 1. */
  lemma BenchedPickRows()
    ensures var picks := [Pick(1, Val(2)), Pick(2, Val(0))];
      var p1 := Prediction(1, "A", "MID", Val(5), Val(5));
      var p2 := Prediction(2, "B", "DEF", Val(3), Val(3));
      var p3 := Prediction(3, "C", "FWD", Val(9), Val(9));
      Merge(picks, [p1, p2, p3]) == [MergedRow(p1, 2, 10), MergedRow(p2, 1, 3)]
  {
    var picks := [Pick(1, Val(2)), Pick(2, Val(0))];
    var p1 := Prediction(1, "A", "MID", Val(5), Val(5));
    var p2 := Prediction(2, "B", "DEF", Val(3), Val(3));
    var p3 := Prediction(3, "C", "FWD", Val(9), Val(9));
    var r1, r2 := MergedRow(p1, 2, 10), MergedRow(p2, 1, 3);
    BenchedPickSteps(picks, p1, p2);
    MergeTwoOfThree(picks, p1, p2, p3);
  }

  /** A benched pick (multiplier 0) is counted once, not zero times: picks {1 x2, 2 x0} and
      predictions 1:5, 2:3, 3:9 give rows for 1 and 2 with scores 10 and 3, and a total of 13. */
  lemma BenchedPickCountsOnce()
    ensures var picks := [Pick(1, Val(2)), Pick(2, Val(0))];
      var p1 := Prediction(1, "A", "MID", Val(5), Val(5));
      var p2 := Prediction(2, "B", "DEF", Val(3), Val(3));
      var p3 := Prediction(3, "C", "FWD", Val(9), Val(9));
      Merge(picks, [p1, p2, p3]) == [MergedRow(p1, 2, 10), MergedRow(p2, 1, 3)] &&
      Contributions(picks, [p1, p2, p3]) == 13
  {
    var picks := [Pick(1, Val(2)), Pick(2, Val(0))];
    var p1 := Prediction(1, "A", "MID", Val(5), Val(5));
    var p2 := Prediction(2, "B", "DEF", Val(3), Val(3));
    var p3 := Prediction(3, "C", "FWD", Val(9), Val(9));
    var r1, r2 := MergedRow(p1, 2, 10), MergedRow(p2, 1, 3);
    BenchedPickRows();
    TotalOfMerge(picks, [p1, p2, p3]);
    assert Total([r1]) == 10 by { assert [r1][..0] == []; }
    assert Total([r1, r2]) == 13 by { assert [r1, r2][..1] == [r1]; }
  }
}
