/** The top-players view: players are put into the buckets GK, DEF, MID and FWD by position,
    and each bucket is sorted by predicted score, highest first, and cut to its first five. */
module TopPlayers {
  import opened Seqs
  import opened Records
  import opened Sorting

  /** The length of `slice(0, 5)`. */
  const TopCount: nat := 5

  /** No player left out of `top` scores more than a player kept in it. */
  predicate KeepsHighest(top: seq<Prediction>, bucket: seq<Prediction>) {
    forall p, q :: p in multiset(bucket) - multiset(top) && q in top ==>
      Key(p, ByRounded) <= Key(q, ByRounded)
  }

  /** For every score, the players of `top` with that score are the first players of `bucket`
      with it, in bucket order: a tie at the fifth place is decided by the order of the bucket. */
  ghost predicate TiesInBucketOrder(top: seq<Prediction>, bucket: seq<Prediction>) {
    forall k :: WithKey(top, ByRounded, k) <= WithKey(bucket, ByRounded, k)
  }

  /** `top` is what sorting `bucket` by descending `rounded_predicted` and keeping five leaves:
      as many players as fit, highest first, taken from the bucket, all of them when there are
      at most five, none left out scoring more than one kept, and ties kept in bucket order. */
  ghost predicate IsTopFive(top: seq<Prediction>, bucket: seq<Prediction>) {
    |top| == (if |bucket| < TopCount then |bucket| else TopCount) &&
    NonIncreasing(top, ByRounded) &&
    multiset(top) <= multiset(bucket) &&
    (|bucket| <= TopCount ==> multiset(top) == multiset(bucket)) &&
    KeepsHighest(top, bucket) &&
    TiesInBucketOrder(top, bucket)
  }

  /** A prefix of a stable sort of `bucket` keeps its ties in bucket order. */
  lemma SortedPrefixTies(sorted: seq<Prediction>, bucket: seq<Prediction>, n: nat)
    requires n <= |sorted| && SameTies(sorted, bucket, ByRounded)
    ensures TiesInBucketOrder(sorted[..n], bucket)
  {
    forall k ensures WithKey(sorted[..n], ByRounded, k) <= WithKey(bucket, ByRounded, k) {
      FilterPrefix(sorted, n, KeyIs(ByRounded, k));
    }
  }

  lemma SortedPrefixKeepsHighest(sorted: seq<Prediction>, bucket: seq<Prediction>, n: nat)
    requires n <= |sorted|
    requires NonIncreasing(sorted, ByRounded) && multiset(sorted) == multiset(bucket)
    ensures KeepsHighest(sorted[..n], bucket)
  {
    var top := sorted[..n];
    assert sorted == top + sorted[n..];
    assert multiset(bucket) - multiset(top) == multiset(sorted[n..]);
    forall p, q | p in multiset(bucket) - multiset(top) && q in top
      ensures Key(p, ByRounded) <= Key(q, ByRounded)
    {
      assert p in sorted[n..];
      var k :| n <= k < |sorted| && sorted[k] == p;
      var j :| 0 <= j < n && sorted[j] == q;
    }
  }

  /** The first `TopCount` players of a sorted permutation of `bucket` are its top five. */
  lemma SortedPrefixIsTopFive(sorted: seq<Prediction>, bucket: seq<Prediction>, n: nat)
    requires |sorted| == |bucket|
    requires NonIncreasing(sorted, ByRounded) && multiset(sorted) == multiset(bucket)
    requires SameTies(sorted, bucket, ByRounded)
    requires n == if |bucket| < TopCount then |bucket| else TopCount
    ensures IsTopFive(sorted[..n], bucket)
  {
    SortedPrefixTies(sorted, bucket, n);
    var top := sorted[..n];
    assert sorted == top + sorted[n..];
    assert multiset(sorted) == multiset(top) + multiset(sorted[n..]);
    SortedPrefixKeepsHighest(sorted, bucket, n);
    if |bucket| <= TopCount {
      assert top == sorted;
    }
  }

  /** `groupsObj[pos].sort((a, b) => b.rounded_predicted - a.rounded_predicted)` followed by
      `groupsObj[pos].slice(0, 5)`. */
  method SortAndTruncate(bucket: seq<Prediction>) returns (top: seq<Prediction>)
    ensures IsTopFive(top, bucket)
  {
    var a := new Prediction[|bucket|](i requires 0 <= i < |bucket| => bucket[i]);
    assert a[..] == bucket;
    SortDescending(a, ByRounded);
    var n := if a.Length < TopCount then a.Length else TopCount;
    SortedPrefixIsTopFive(a[..], bucket, n);
    top := a[..n];
  }

  /** One more player extends exactly the group of its own position, when there is one. */
  lemma GroupStep(grouped: map<string, seq<Prediction>>, players: seq<Prediction>, i: nat)
    requires i < |players|
    requires forall pos :: pos in grouped ==> grouped[pos] == ByPosition(players[..i], pos)
    ensures var p := players[i];
      var next := if p.position in grouped then grouped[p.position := grouped[p.position] + [p]] else grouped;
      forall pos :: pos in next ==> next[pos] == ByPosition(players[..i + 1], pos)
  {
    var p := players[i];
    var next := if p.position in grouped then grouped[p.position := grouped[p.position] + [p]] else grouped;
    assert players[..i + 1] == players[..i] + [p];
    forall pos | pos in next ensures next[pos] == ByPosition(players[..i + 1], pos) {
      ByPositionAppendOne(players[..i], p, pos);
    }
  }

  /** The `forEach` over the players that pushes each one onto the bucket of its position. */
  method GroupByPosition(players: seq<Prediction>) returns (grouped: map<string, seq<Prediction>>)
    ensures grouped.Keys == {"GK", "DEF", "MID", "FWD"}
    ensures forall pos :: pos in grouped ==> grouped[pos] == ByPosition(players, pos)
  {
    grouped := map["GK" := [], "DEF" := [], "MID" := [], "FWD" := []];
    var i := 0;
    while i < |players|
      invariant 0 <= i <= |players|
      invariant grouped.Keys == {"GK", "DEF", "MID", "FWD"}
      invariant forall pos :: pos in grouped ==> grouped[pos] == ByPosition(players[..i], pos)
    {
      var player := players[i];
      GroupStep(grouped, players, i);
      // The if-chain on 'GK', 'DEF', 'MID', 'FWD': exactly the keys of the buckets.
      if player.position in grouped {
        grouped := grouped[player.position := grouped[player.position] + [player]];
      }
      i := i + 1;
    }
    assert players[..i] == players;
  }

  /** The buckets named in `done` hold their top five, the others are still as grouped. */
  ghost predicate TruncatedUpTo(next: map<string, seq<Prediction>>, grouped: map<string, seq<Prediction>>, done: seq<string>) {
    next.Keys == grouped.Keys &&
    forall pos :: pos in next ==>
      if pos in done then IsTopFive(next[pos], grouped[pos]) else next[pos] == grouped[pos]
  }

  /** Truncating the next bucket extends the buckets already done. */
  lemma TruncateStep(next: map<string, seq<Prediction>>, grouped: map<string, seq<Prediction>>,
                     k: nat, top: seq<Prediction>)
    requires k < |Positions| && TruncatedUpTo(next, grouped, Positions[..k])
    requires Positions[k] in grouped && IsTopFive(top, grouped[Positions[k]])
    ensures TruncatedUpTo(next[Positions[k] := top], grouped, Positions[..k + 1])
  {
    assert Positions[..k + 1] == Positions[..k] + [Positions[k]];
  }

  /** Once every position is done, each bucket holds the top five of its position. */
  lemma TruncatedAll(next: map<string, seq<Prediction>>, grouped: map<string, seq<Prediction>>,
                     players: seq<Prediction>)
    requires TruncatedUpTo(next, grouped, Positions)
    requires grouped.Keys == {"GK", "DEF", "MID", "FWD"}
    requires forall pos :: pos in grouped ==> grouped[pos] == ByPosition(players, pos)
    ensures next.Keys == {"GK", "DEF", "MID", "FWD"}
    ensures forall pos :: pos in next ==> IsTopFive(next[pos], ByPosition(players, pos))
  {
    forall pos | pos in next ensures IsTopFive(next[pos], ByPosition(players, pos)) {
      assert pos in Positions;
    }
  }

  /** `fetchData` after the text has been parsed: a value that is not an array leaves the groups
      as they were; otherwise every bucket becomes the top five of its position. */
  method FetchTopPlayers(parsed: Parsed, groups: map<string, seq<Prediction>>)
    returns (next: map<string, seq<Prediction>>)
    ensures parsed.NotAnArray? ==> next == groups
    ensures parsed.JsonArray? ==>
      next.Keys == {"GK", "DEF", "MID", "FWD"} &&
      forall pos :: pos in next ==> IsTopFive(next[pos], ByPosition(parsed.items, pos))
  {
    if parsed.NotAnArray? {
      return groups;
    }
    var players := parsed.items;
    var grouped := GroupByPosition(players);
    next := grouped;
    assert forall j :: 0 <= j < |Positions| ==> Positions[j] in grouped;
    var k := 0;
    while k < |Positions|
      invariant 0 <= k <= |Positions|
      invariant TruncatedUpTo(next, grouped, Positions[..k])
    {
      var pos := Positions[k];
      var top := SortAndTruncate(grouped[pos]);
      TruncateStep(next, grouped, k, top);
      next := next[pos := top];
      k := k + 1;
    }
    assert Positions[..k] == Positions;
    TruncatedAll(next, grouped, players);
  }

  /** A bucket holds only players of its own position taken from the input, so a player whose
      position is not one of the four is in no bucket. */
  lemma TopFiveHoldsOnlyItsPosition(top: seq<Prediction>, players: seq<Prediction>, pos: string)
    requires IsTopFive(top, ByPosition(players, pos))
    ensures forall p :: p in top ==> p in players && p.position == pos
  {
    ByPositionContents(players, pos);
    forall p | p in top ensures p in players && p.position == pos {
      assert multiset(top)[p] > 0;
    }
  }
}
