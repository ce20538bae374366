/** The player-comparison view: the user's picks are joined to the service's predictions through
    a lookup table keyed by player id, each pick becomes a display row, and the rows are narrowed
    to the position of the player chosen for comparison. */
module ComparePlayer {
  import opened Wrappers
  import opened Seqs
  import opened Strings
  import opened Records

  /** A row's `rounded_predicted`: the prediction's value, or the text `'N/A'`. */
  datatype Shown = Points(value: Num) | NotAvailable

  /** One row of `teamPlayers`; a `null` position is `None`. */
  datatype TeamRow = TeamRow(playerId: int, name: string, position: Option<string>, roundedPredicted: Shown)

  /** The prediction the lookup table holds for `id` once every prediction has been stored:
      the last one carrying that id, since each store overwrites the previous one. */
  function LastPrediction(preds: seq<Prediction>, id: int): (r: Option<Prediction>)
    ensures r.None? <==> forall i :: 0 <= i < |preds| ==> preds[i].playerId != id
    ensures r.Some? ==>
      exists k :: 0 <= k < |preds| && preds[k] == r.value && r.value.playerId == id &&
        forall j :: k < j < |preds| ==> preds[j].playerId != id
    decreases |preds|
  {
    if preds == [] then None
    else if preds[|preds| - 1].playerId == id then Some(preds[|preds| - 1])
    else LastPrediction(preds[..|preds| - 1], id)
  }

  /** `predictions.forEach(pred => { predLookup[pred.player_id] = pred; })`. */
  method BuildLookup(preds: seq<Prediction>) returns (lookup: map<int, Prediction>)
    ensures forall id :: id in lookup ==> LastPrediction(preds, id) == Some(lookup[id])
    ensures forall id :: id !in lookup ==> LastPrediction(preds, id) == None
  {
    lookup := map[];
    var i := 0;
    while i < |preds|
      invariant 0 <= i <= |preds|
      invariant forall id :: id in lookup ==> LastPrediction(preds[..i], id) == Some(lookup[id])
      invariant forall id :: id !in lookup ==> LastPrediction(preds[..i], id) == None
    {
      var pred := preds[i];
      assert preds[..i + 1][..i] == preds[..i];
      lookup := lookup[pred.playerId := pred];
      i := i + 1;
    }
    assert preds[..i] == preds;
  }

  /** The row for one pick: what the prediction says when there is one, and otherwise the name
      `Player <element>`, no position and `'N/A'`. */
  function RowFor(element: int, pred: Option<Prediction>): TeamRow {
    match pred
    case Some(p) => TeamRow(element, p.name, Some(p.position), Points(p.roundedPredicted))
    case None => TeamRow(element, "Player " + IntToString(element), None, NotAvailable)
  }

  /** Step (F): with picks and predictions both present, `teamPlayers` becomes one row per pick,
      in the order of the picks, each joined to the last prediction with the pick's id;
      otherwise it is left as it was. */
  method MatchTeam(picks: seq<Pick>, preds: seq<Prediction>, current: seq<TeamRow>)
    returns (teamPlayers: seq<TeamRow>)
    ensures |picks| == 0 || |preds| == 0 ==> teamPlayers == current
    ensures |picks| > 0 && |preds| > 0 ==>
      |teamPlayers| == |picks| &&
      forall i :: 0 <= i < |picks| ==>
        teamPlayers[i] == RowFor(picks[i].element, LastPrediction(preds, picks[i].element))
  {
    if |picks| == 0 || |preds| == 0 {
      return current;
    }
    var lookup := BuildLookup(preds);
    teamPlayers := seq(|picks|, i requires 0 <= i < |picks| =>
      var element := picks[i].element;
      RowFor(element, if element in lookup then Some(lookup[element]) else None));
  }

  /** Every row names its pick's id; a row with a prediction copies its name, position and
      rounded score, and a row without one has the default name, no position and `'N/A'`. */
  lemma RowForFields(element: int, pred: Option<Prediction>)
    ensures RowFor(element, pred).playerId == element
    ensures pred.Some? ==>
      RowFor(element, pred).name == pred.value.name &&
      RowFor(element, pred).position == Some(pred.value.position) &&
      RowFor(element, pred).roundedPredicted == Points(pred.value.roundedPredicted)
    ensures pred.None? ==>
      RowFor(element, pred).name == "Player " + IntToString(element) &&
      RowFor(element, pred).position.None? && RowFor(element, pred).roundedPredicted.NotAvailable?
  {
  }

  /** Whether a player was chosen whose position is a non-empty string (the truthiness test). */
  predicate HasSelectedPosition(selected: Option<Prediction>) {
    selected.Some? && selected.value.position != ""
  }

  /** `relevantTeamPlayers`: the rows of the selected player's position, or all rows when no
      position is selected. */
  function Relevant(rows: seq<TeamRow>, selected: Option<Prediction>): (r: seq<TeamRow>)
    ensures Subsequence(r, rows)
    ensures HasSelectedPosition(selected) ==>
      forall i :: 0 <= i < |r| ==> r[i].position == Some(selected.value.position)
  {
    if HasSelectedPosition(selected) then
      Filter(rows, (row: TeamRow) => row.position == Some(selected.value.position))
    else
      assert Subsequence(rows, rows) by { SubsequenceRefl(rows); }
      rows
  }

  /** With a selected position exactly the rows of that position are shown, so rows without a
      prediction (no position) never are; with none every row is shown. */
  lemma RelevantRows(rows: seq<TeamRow>, selected: Option<Prediction>)
    ensures HasSelectedPosition(selected) ==> forall row ::
      row in Relevant(rows, selected) <==> row in rows && row.position == Some(selected.value.position)
    ensures HasSelectedPosition(selected) ==> forall row: TeamRow :: row.position.None? ==> row !in Relevant(rows, selected)
    ensures !HasSelectedPosition(selected) ==> Relevant(rows, selected) == rows
  {
    if HasSelectedPosition(selected) {
      FilterMembers(rows, (row: TeamRow) => row.position == Some(selected.value.position));
    }
  }

  /** Two predictions for the same player: the lookup keeps the second. */
  lemma LastDuplicateWins()
    ensures var a := Prediction(7, "First", "MID", Val(4), Val(4));
      var b := Prediction(7, "Second", "FWD", Val(6), Val(6));
      LastPrediction([a, b], 7) == Some(b) &&
      RowFor(7, LastPrediction([a, b], 7)) == TeamRow(7, "Second", Some("FWD"), Points(Val(6)))
  {
  }
}
