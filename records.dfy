/** The records the extension's views receive from the prediction service, after the response
    text has been cleaned and parsed. */
module Records {
  import opened Seqs

  /** A JSON number, or `null` (which is what a `NaN` of the service becomes). Fractional
      points are abstracted to integers. */
  datatype Num = Null | Val(n: int)

  /** JavaScript's numeric coercion as used by `+`, `-` and `*`: `null` counts as 0. */
  function ToNumber(x: Num): int {
    match x
    case Null => 0
    case Val(n) => n
  }

  /** One record of the prediction service: `{player_id, name, position, predicted_points,
      rounded_predicted}`. */
  datatype Prediction = Prediction(
    playerId: int,
    name: string,
    position: string,
    predictedPoints: Num,
    roundedPredicted: Num)

  /** One roster slot of the user's team: `{element, multiplier}`. */
  datatype Pick = Pick(element: int, multiplier: Num)

  /** The result of `JSON.parse` on a prediction response, as far as the views look at it. */
  datatype Parsed = JsonArray(items: seq<Prediction>) | NotAnArray

  /** The four positions the views group by; any other position (such as "AM") is in none. */
  const Positions: seq<string> := ["GK", "DEF", "MID", "FWD"]

  /** `players.filter(p => p.position === pos)`. */
  function ByPosition(s: seq<Prediction>, pos: string): seq<Prediction> {
    Filter(s, (p: Prediction) => p.position == pos)
  }

  lemma ByPositionAppendOne(s: seq<Prediction>, x: Prediction, pos: string)
    ensures ByPosition(s + [x], pos) == ByPosition(s, pos) + if x.position == pos then [x] else []
  {
    FilterAppendOne(s, x, (p: Prediction) => p.position == pos);
  }

  /** A position group holds exactly the players of that position, each as often as listed. */
  lemma ByPositionContents(s: seq<Prediction>, pos: string)
    ensures forall p :: multiset(ByPosition(s, pos))[p] == if p.position == pos then multiset(s)[p] else 0
    ensures forall p :: p in ByPosition(s, pos) <==> p in s && p.position == pos
  {
    FilterCount(s, (p: Prediction) => p.position == pos);
    FilterMembers(s, (p: Prediction) => p.position == pos);
  }
}
