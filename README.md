# Fantasy-football predictor: the sequential logic of the extension and its data loader

This project models the small pieces of sequential logic in the fantasy-football predictor, and proves what they do. The predictor is a browser extension with a single-page application, plus a Python data pipeline. The pieces are:

- **Team score** (`TeamScore`). The service's predicted scores are joined to the user's picks by player id. Each kept prediction is weighted by the multiplier of the first pick that matches it. The weighted scores are summed into the team total.
- **Top players** (`TopPlayers`). Players are put into the GK, DEF, MID and FWD buckets. Each bucket is sorted by rounded predicted score, highest first, and cut to five.
- **Best fifteen** (`Best15`). The list is sorted by predicted points. The first two players become captain and vice-captain. The total adds the captain's score a second time, and the players are grouped by position.
- **Player comparison** (`ComparePlayer`). A lookup table is built in which the last prediction with a given id wins. Each pick becomes a display row, with defaults when it has no prediction. The rows are narrowed to the position of the selected player.
- **Text clean-up before parsing** (`NanText`). Three views replace every `NaN` with `null`. The team-score view replaces only a `NaN` that stands as a word on its own.
- **Content script**:
  - `ElementWaiter`: the 500 ms polling element waiter. It is modelled as a class whose fields are the closure's mutable state, plus a tick function.
  - `ContentScript`: the login flag, the choice of gameweek, and the steps of the automated transfer. The first step that fails stops all later steps.
- **Gameweek data loader** (`GwData`). Raw CSV lines are split by comma count into the old and the new column layout. The new part is cut back to the old columns and appended after the old part. Three columns are renamed and `round` is dropped.

Shared modules:
- `Wrappers`: `Option` and `Result`.
- `Seqs`: `filter`, `find` and order-preserving subsequences.
- `Strings`: `includes`, `trim`, ASCII `toLowerCase`, Python `strip` and `count`, and `\w`.
- `Records`: the prediction and pick records. A number that may be `null` is counted as 0 in arithmetic.
- `Sorting`: the in-place descending sort on an array.

Fetched data enters as parameters. The page is a snapshot `Page`. Each mention of an element the script waits for is a sequence of what successive polls see.

A multiplier of 0 marks a benched pick. The render guard `multiplier !== 0` (fpl-predictor/src/TeamScore/TeamScore.js:202) is written to hide such rows. But the merge writes `matchingOld.multiplier || 1` (fpl-predictor/src/TeamScore/TeamScore.js:129), and `||` treats 0 like a missing value and gives 1. So a benched pick is counted once in the total (`TeamScore.BenchedPickCountsOnce`), and the guard never hides a row (`TeamScore.DisplayedIsAll`).

The comments in the views mention an "AM" position. In the code, a player at "AM" is in no group, in both the top-players view and the best-fifteen view, and the model follows the code.

## Model

| member | source | states |
|---|---|---|
| NanText.ReplaceNaN | fpl-predictor/src/TopPlayers/TopPlayers.js:20 | `text.replace(/NaN/g, 'null')` as a left-to-right scan over non-overlapping matches, which the same rewrite does in Best15.js:23 and ComparePlayer.js:87; what it does is stated by the lemmas below, from `ReplaceNaNLeavesNone` to `ReplaceNaNRoundTrip` |
| NanText.ReplaceNaNLeavesNone | fpl-predictor/src/TopPlayers/TopPlayers.js:20 | after `replace(/NaN/g, 'null')` no `NaN` substring is left in the text |
| NanText.ReplaceNaNIdentity | fpl-predictor/src/Best15/Best15.js:23 | text without `NaN` is returned unchanged |
| NanText.ReplaceNaNChanges | fpl-predictor/src/ComparePlayer/ComparePlayer.js:87 | the global rewrite changes the text exactly when it contains `NaN` |
| NanText.ReplaceNaNIdempotent | fpl-predictor/src/TopPlayers/TopPlayers.js:20 | applying the global rewrite twice gives the same text as applying it once |
| NanText.ReplaceWordNaN | fpl-predictor/src/TeamScore/TeamScore.js:113 | the `/\bNaN\b/g` scan, with the word-ness of the character before the rest of the text carried along; its properties are the `ReplaceWordNaN…` lemmas below |
| Strings.IsWordChar | fpl-predictor/src/TeamScore/TeamScore.js:113 | the class `\w` that `\b` tests; `NanText.ReplaceWordNaNLeavesNone` and `NanText.VariantsDiffer` state what the boundary rewrite does with it |
| NanText.ReplaceStandaloneNaN | fpl-predictor/src/TeamScore/TeamScore.js:113 | the word-boundary rewrite of a whole text, with no word character before it; it is summed up by `ReplaceStandaloneNaNProperties` and `StandaloneExample` |
| NanText.ReplaceWordNaNLeavesNone | fpl-predictor/src/TeamScore/TeamScore.js:113 | after the `\bNaN\b` rewrite no `NaN` is left that has a non-word character or an end of text on each side |
| NanText.ReplaceWordNaNIdentity | fpl-predictor/src/TeamScore/TeamScore.js:113 | text with no standalone `NaN` is unchanged by the word-boundary rewrite |
| NanText.NoNaNNoStandalone | fpl-predictor/src/TeamScore/TeamScore.js:113 | text without any `NaN` has no standalone `NaN` either |
| NanText.ReplaceNaNPrefix | fpl-predictor/src/TopPlayers/TopPlayers.js:20 | a rewritten text starts with characters other than `n` only where the original text did, since every replacement starts with `n` |
| NanText.ReplaceNaNRoundTrip | fpl-predictor/src/TopPlayers/TopPlayers.js:20 | on text without `null`, turning every `null` back into `NaN` gives the original text: each match becomes exactly `null` and every other character is kept in place |
| NanText.ReplaceWordNaNPrefix | fpl-predictor/src/TeamScore/TeamScore.js:113 | the same prefix property for the word-boundary rewrite |
| NanText.ReplaceWordNaNRoundTrip | fpl-predictor/src/TeamScore/TeamScore.js:113 | on text without `null`, turning every `null` back into `NaN` undoes the word-boundary rewrite: each standalone match becomes `null` and every other character is kept |
| NanText.StandaloneExample | fpl-predictor/src/TeamScore/TeamScore.js:113 | `[NaN,1]` becomes `[null,1]` |
| NanText.ReplaceStandaloneNaNProperties | fpl-predictor/src/TeamScore/TeamScore.js:113 | the word-boundary rewrite changes the text exactly when it has a standalone `NaN`, leaves text without `NaN` unchanged, leaves no standalone `NaN`, and is idempotent |
| NanText.VariantsDiffer | fpl-predictor/src/TeamScore/TeamScore.js:113 | on `NaNa` the word-boundary rewrite changes nothing while the global one gives `nulla` |
| Records.ByPosition | fpl-predictor/src/Best15/Best15.js:57-68 | `players.filter(p => p.position === pos)`; `ByPositionAppendOne` and `ByPositionContents` state what it holds |
| Records.ToNumber | fpl-predictor/src/TeamScore/TeamScore.js:133 | the numeric coercion of `*`, `+` and `-`, under which `null` counts as 0; `TeamScore.Merge` and `Best15.SumRoundedAppend` state the scores and sums built from it |
| Records.ByPositionAppendOne | fpl-predictor/src/TopPlayers/TopPlayers.js:33-43 | pushing a player extends exactly the group of its own position |
| Records.ByPositionContents | fpl-predictor/src/Best15/Best15.js:57-68 | a position group holds each player of that position as often as the list does, and no other player |
| Sorting.SortDescending | fpl-predictor/src/TopPlayers/TopPlayers.js:47 | the in-place sort with comparator `b.key - a.key` leaves the array non-increasing by the key and a permutation of what it was, and it is stable: elements of equal key keep their order |
| Sorting.Insert | fpl-predictor/src/TopPlayers/TopPlayers.js:47 | one insertion step extends the sorted prefix by one element, permutes the array, keeps the order among equal keys and leaves every element after the inserted one where it was |
| Sorting.SwapKeepsTies | fpl-predictor/src/TopPlayers/TopPlayers.js:47 | swapping neighbours of different keys keeps, for every key, the list of elements with that key |
| Sorting.SubsequenceNonIncreasing | fpl-predictor/src/Best15/Best15.js:57-68 | a subsequence of a non-increasing list is non-increasing |
| Sorting.HeadIsMaximal | fpl-predictor/src/Best15/Best15.js:33-36 | the first element of a sorted list has the greatest key |
| TeamScore.Annotate | fpl-predictor/src/TeamScore/TeamScore.js:127-134 | `{...newPlayer, multiplier, adjusted_score}` for one prediction; `MultiplierFromFirstPick` and `Merge` state its multiplier and score |
| TeamScore.Total | fpl-predictor/src/TeamScore/TeamScore.js:140-143 | the `reduce` over the rows adding each adjusted score; `TotalAppend` and `TotalOfMerge` state what it adds up to |
| TeamScore.Displayed | fpl-predictor/src/TeamScore/TeamScore.js:202 | the rows the render guard `multiplier !== 0` shows; `DisplayedIsAll` states that it is every merged row |
| TeamScore.MultiplierFor | fpl-predictor/src/TeamScore/TeamScore.js:128-129 | the multiplier given to a row is never 0 |
| TeamScore.HasPick | fpl-predictor/src/TeamScore/TeamScore.js:124 | `oldPlayers.some(...)`: some pick has the id; `PickForFirst` states that it holds exactly when the `find` succeeds |
| TeamScore.PickFor | fpl-predictor/src/TeamScore/TeamScore.js:128 | `oldPlayers.find(...)`; `PickForFirst` states what it finds |
| TeamScore.PickForFirst | fpl-predictor/src/TeamScore/TeamScore.js:124-128 | the `find` succeeds exactly when the `some` holds, and then gives the first pick with that id |
| TeamScore.Matched | fpl-predictor/src/TeamScore/TeamScore.js:122-125 | the `.filter` step; `MatchedMembers` and `MergeKeepsMatchedInOrder` state what it keeps |
| TeamScore.MatchedMembers | fpl-predictor/src/TeamScore/TeamScore.js:122-125 | the `.filter` step keeps exactly the predictions that some pick points at |
| TeamScore.MultiplierFromFirstPick | fpl-predictor/src/TeamScore/TeamScore.js:128-129 | the multiplier is the first matching pick's multiplier when that is a non-zero number, and 1 otherwise (0 and `null` included) |
| TeamScore.Merge | fpl-predictor/src/TeamScore/TeamScore.js:122-135 | there are never more rows than predictions; every row is a prediction that some pick matches; its multiplier is the first matching pick's; and its adjusted score is the rounded score times that multiplier |
| TeamScore.MergeKeepsMatchedInOrder | fpl-predictor/src/TeamScore/TeamScore.js:122-126 | the rows list the matched predictions in their original order, each as often as it occurs; unmatched predictions are dropped, not zero-filled |
| TeamScore.MergeAppendOne | fpl-predictor/src/TeamScore/TeamScore.js:122-135 | one more prediction adds one row at the end if a pick matches it, and no row otherwise |
| TeamScore.TotalOfMerge | fpl-predictor/src/TeamScore/TeamScore.js:140-143 | the reduce over the rows equals the reference total: the sum over matched predictions of score times multiplier, with `null` as 0 and an empty merge giving 0 |
| TeamScore.TotalAppend | fpl-predictor/src/TeamScore/TeamScore.js:140-143 | the total of two row lists put together is the sum of their totals |
| TeamScore.DisplayedIsAll | fpl-predictor/src/TeamScore/TeamScore.js:202 | the render guard `multiplier !== 0` keeps every merged row |
| TeamScore.Evaluate | fpl-predictor/src/TeamScore/TeamScore.js:118-154 | with no picks, a response that is not ok, or a parsed value that is not an array (whose `.filter` throws into the `catch`), the view is unchanged; otherwise its rows become the merge and its total the reference total |
| TeamScore.BenchedPickCountsOnce | fpl-predictor/src/TeamScore/TeamScore.js:129-143 | picks {1 ×2, 2 ×0} and predictions 1:5, 2:3, 3:9 give rows with scores 10 and 3 for players 1 and 2, and a total of 13 |
| TeamScore.BenchedPickRows | fpl-predictor/src/TeamScore/TeamScore.js:122-135 | in that example prediction 3 has no pick and is dropped, and the rows are players 1 and 2 with multipliers 2 and 1 |
| TeamScore.MergeTwoOfThree | fpl-predictor/src/TeamScore/TeamScore.js:122-135 | three predictions of which only the first two have picks merge into exactly their two rows, in order |
| TeamScore.BenchedPickSteps | fpl-predictor/src/TeamScore/TeamScore.js:124-133 | in that example players 1 and 2 have picks and 3 has none, and the rows get multipliers 2 and 1 and scores 10 and 3 |
| TopPlayers.SortedPrefixKeepsHighest | fpl-predictor/src/TopPlayers/TopPlayers.js:47-48 | top-k: in a sorted permutation cut to a prefix, no player left out scores more than a player kept |
| TopPlayers.SortedPrefixIsTopFive | fpl-predictor/src/TopPlayers/TopPlayers.js:47-48 | the first five (or fewer) of a sorted permutation of a bucket are its top five |
| TopPlayers.SortAndTruncate | fpl-predictor/src/TopPlayers/TopPlayers.js:47-48 | sort then `slice(0, 5)`: at most five players, all of them when the bucket has five or fewer; non-increasing; a sub-multiset of the bucket; no dropped player scores more than a kept one; and of the players with any one score, the kept ones are the first of them in bucket order, so a tie at the fifth place goes to the earlier player |
| TopPlayers.SortedPrefixTies | fpl-predictor/src/TopPlayers/TopPlayers.js:47-48 | a prefix of a stable sort keeps, for every score, the first players of the bucket with that score |
| TopPlayers.TruncateStep | fpl-predictor/src/TopPlayers/TopPlayers.js:46-49 | cutting the next key's bucket to its top five keeps the buckets already cut and leaves the others as grouped |
| TopPlayers.TruncatedAll | fpl-predictor/src/TopPlayers/TopPlayers.js:46-49 | once all four keys are done, every bucket is the top five of its position's players |
| TopPlayers.GroupByPosition | fpl-predictor/src/TopPlayers/TopPlayers.js:31-43 | the four buckets are exactly the GK, DEF, MID and FWD filters of the players, in input order |
| TopPlayers.GroupStep | fpl-predictor/src/TopPlayers/TopPlayers.js:33-43 | one pass of the if-chain appends the player to the bucket of its position, and leaves everything as it was for any other position |
| TopPlayers.FetchTopPlayers | fpl-predictor/src/TopPlayers/TopPlayers.js:24-49 | a parsed value that is not an array leaves the groups as they were; otherwise the keys are the four positions and each bucket is the top five of the players at that position |
| TopPlayers.TopFiveHoldsOnlyItsPosition | fpl-predictor/src/TopPlayers/TopPlayers.js:33-48 | each bucket holds only input players of its own position, so a player at any other position (such as "AM") is in no bucket |
| Best15.SumRounded | fpl-predictor/src/Best15/Best15.js:43-46 | the `reduce` adding each rounded score, `null` adding 0; `SumRoundedAppend`, `SumRoundedPermutation` and `SumRoundedSplit` state its properties |
| Best15.SumRoundedAppend | fpl-predictor/src/Best15/Best15.js:43-46 | the sum of rounded scores over two lists put together is the sum of their sums |
| Best15.SumRoundedPermutation | fpl-predictor/src/Best15/Best15.js:33-46 | the sum of rounded scores does not depend on the order, so sorting first does not change it |
| Best15.SumRoundedSplit | fpl-predictor/src/Best15/Best15.js:43-68 | splitting the players by any test splits the sum, so the total counts players in no group as well |
| Best15.CaptainIsFirstBest | fpl-predictor/src/Best15/Best15.js:27-36 | after a stable sort the head is the earliest player of the response with the highest predicted points, so a tie for captain goes to the player that comes first |
| Best15.FetchBest15 | fpl-predictor/src/Best15/Best15.js:27-68 | nothing is stored for a non-array or empty list; otherwise the list is sorted by predicted points and is a permutation of the input; the order among equal predicted points is the input order; the captain is the first player, is an input player, has the highest predicted points, and is the earliest input player with them; the vice-captain is the second player, or absent for a single player; the total is the sum of all rounded scores plus the captain's; the groups are the GK, DEF, MID and FWD filters of the sorted list |
| Best15.CaptainIsBest | fpl-predictor/src/Best15/Best15.js:33-37 | the head of a sorted permutation is one of the players and has the highest predicted points |
| Best15.GroupsNonIncreasing | fpl-predictor/src/Best15/Best15.js:57-68 | each position group of the sorted list is non-increasing by predicted points |
| Best15.CaptainsStayInGroups | fpl-predictor/src/Best15/Best15.js:51-68 | captain and vice-captain stay in the groups of their positions, because `filterOutCaptains` is never applied |
| Best15.UnlistedInNoGroup | fpl-predictor/src/Best15/Best15.js:57-68 | a player whose position is none of the four is in no group |
| ComparePlayer.LastPrediction | fpl-predictor/src/ComparePlayer/ComparePlayer.js:101-104 | the entry for an id is absent exactly when no prediction carries that id; otherwise it is the last prediction that does |
| ComparePlayer.BuildLookup | fpl-predictor/src/ComparePlayer/ComparePlayer.js:101-104 | the table built by the overwriting loop maps each id to the last prediction carrying it, and holds no other id |
| ComparePlayer.MatchTeam | fpl-predictor/src/ComparePlayer/ComparePlayer.js:100-115 | with no picks or no predictions the rows are unchanged; otherwise there is one row per pick, in pick order, each built from the last prediction for the pick's element |
| ComparePlayer.RowFor | fpl-predictor/src/ComparePlayer/ComparePlayer.js:105-113 | the row the `map` builds for one pick; `RowForFields` states its fields |
| ComparePlayer.RowForFields | fpl-predictor/src/ComparePlayer/ComparePlayer.js:105-113 | a row has its pick's element as id; it copies name, position and rounded score from the prediction, or has the name `Player ` followed by the decimal text of the element, no position and `N/A` |
| Strings.IntToString | fpl-predictor/src/ComparePlayer/ComparePlayer.js:109 | the decimal text a number gets inside a template literal; `IntToStringValue` and `IntToStringExamples` state it |
| Strings.NatToStringValue | fpl-predictor/src/ComparePlayer/ComparePlayer.js:109 | reading the decimal text of a natural number back gives the number |
| Strings.IntToStringValue | fpl-predictor/src/ComparePlayer/ComparePlayer.js:109 | reading the text of an integer back, with its minus sign, gives the integer, so different ids give different names |
| Strings.IntToStringExamples | fpl-predictor/src/ComparePlayer/ComparePlayer.js:109 | 7, -12 and 405 print as `7`, `-12` and `405` |
| Strings.Contains | fpl-predictor/public/contentScript.js:128-129 | `includes`; `ContainsOccurrence` states what it means |
| Strings.ContainsOccurrence | fpl-predictor/public/contentScript.js:128-129 | `includes` holds exactly when the needle occurs at some position of the text |
| Strings.ToLower | fpl-predictor/public/contentScript.js:128-129 | `toLowerCase` keeps the length and lower-cases each ASCII letter and nothing else |
| Strings.LowerChar | fpl-predictor/public/contentScript.js:128-129 | the per-character ASCII part of `toLowerCase`; `ToLower` states how it is applied |
| Strings.TrimStart | fpl-predictor/public/contentScript.js:91 | removes exactly the leading run of characters of the class: what is left is a suffix whose first character is not of the class, and all removed characters are |
| Strings.TrimEnd | fpl-predictor/public/contentScript.js:91 | the same for the trailing run: a prefix whose last character is not of the class, and all removed characters are |
| Strings.JsTrim | fpl-predictor/public/contentScript.js:91 | `trim` with the whitespace and line terminators of ECMA-262; `TrimStart` and `TrimEnd` state what it removes |
| Strings.IsJsSpace | fpl-predictor/public/contentScript.js:91 | the characters `trim` removes; `TrimStart` and `TrimEnd` state that exactly the leading and trailing runs of them go |
| Strings.PyStrip | src/data.py:48 | `strip()` with the characters for which `isspace()` holds; `TrimEmpty` states when nothing is left |
| Strings.IsPySpace | src/data.py:48 | the characters `strip()` removes; `GwData.BlankMeansWhitespace` states that a line is blank exactly when it holds only these |
| Strings.TrimEmpty | src/data.py:48 | trimming leaves nothing exactly when every character is of the trimmed class |
| Strings.Count | src/data.py:50 | `count(',')` is the number of occurrences of the character, and at most the length |
| ComparePlayer.Relevant | fpl-predictor/src/ComparePlayer/ComparePlayer.js:119-122 | the shown rows keep the order of the rows and, with a selected position, all have that position |
| ComparePlayer.HasSelectedPosition | fpl-predictor/src/ComparePlayer/ComparePlayer.js:120 | `selectedPlayer && selectedPlayer.position`: a player is chosen and its position is non-empty; `RelevantRows` states which rows it lets through |
| ComparePlayer.RelevantRows | fpl-predictor/src/ComparePlayer/ComparePlayer.js:119-122 | with a selected position a row is shown exactly when it has that position, so rows without a prediction never are; with none, every row is shown |
| ComparePlayer.LastDuplicateWins | fpl-predictor/src/ComparePlayer/ComparePlayer.js:101-111 | of two predictions for player 7 the row shows the second |
| ElementWaiter.Tick | fpl-predictor/public/contentScript.js:71-81 | one interval callback: resolve on a sighting, advance the elapsed time, reject once it reaches the timeout; `TickKeepsActiveIffWaiting` states its invariant |
| ElementWaiter.Settle | fpl-predictor/public/contentScript.js:68-81 | a promise settles once: a pending one takes the outcome, a settled one keeps its own; `ResolvesOnFirstSighting` states it for a resolve on the final poll |
| ElementWaiter.Run | fpl-predictor/public/contentScript.js:71-81 | the callbacks over successive polls until the interval is cleared; `RunKeepsActiveIffWaiting`, `ResolvesOnFirstSighting`, `RejectsAtTimeout` and `PendingBeforeTimeout` state its outcomes |
| ElementWaiter.PollLimit | fpl-predictor/public/contentScript.js:69-78 | the number of polls before a rejection is the first multiple of 500 that reaches the timeout, and at least one |
| ElementWaiter.PollLimitsUsed | fpl-predictor/public/contentScript.js:67-78 | the default timeout of 15000 allows 30 polls, and a timeout of 10000 allows 20 |
| ElementWaiter.TickKeepsActiveIffWaiting | fpl-predictor/public/contentScript.js:71-81 | one interval run keeps "the interval is running exactly while the promise is pending" |
| ElementWaiter.RunKeepsActiveIffWaiting | fpl-predictor/public/contentScript.js:71-82 | so does any number of runs: the interval is cleared on both the success and the failure path |
| ElementWaiter.ResolvesFrom | fpl-predictor/public/contentScript.js:72-77 | from any poll count within the limit, the first poll that sees the element resolves with it, and nothing changes the outcome afterwards |
| ElementWaiter.ResolvesOnFirstSighting | fpl-predictor/public/contentScript.js:69-81 | the promise resolves with the element seen on the first poll that finds it, even when that poll also reaches the timeout |
| ElementWaiter.RejectsFrom | fpl-predictor/public/contentScript.js:77-81 | missing polls from any count up to the limit end with the rejection at elapsed time 500 × limit |
| ElementWaiter.RejectsAtTimeout | fpl-predictor/public/contentScript.js:77-81 | if every poll up to the limit misses, the promise is rejected with `Element not found: <selector>` once 500 × limit ms have elapsed, and the interval stops |
| ElementWaiter.StallsFrom | fpl-predictor/public/contentScript.js:68-82 | missing polls that stop short of the limit leave the promise pending |
| ElementWaiter.PendingBeforeTimeout | fpl-predictor/public/contentScript.js:68-82 | fewer missing polls than the limit leave the promise pending and the interval running |
| ElementWaiter.Waiter.constructor | fpl-predictor/public/contentScript.js:69-71 | a new waiter has elapsed time 0, a pending promise and a running interval |
| ElementWaiter.Waiter.OnInterval | fpl-predictor/public/contentScript.js:71-81 | the interval callback updates the fields to what the tick function gives |
| ElementWaiter.WaitForElement | fpl-predictor/public/contentScript.js:67-84 | polling until the promise settles or the polls run out gives the outcome of the tick function run over the polls |
| ContentScript.IsNavLink | fpl-predictor/public/contentScript.js:91 | the `find` test for the nav link: trimmed `href` is `/transfers` and the trimmed, lower-cased text includes `transfers`; `NavControl` states its use |
| ContentScript.Labels | fpl-predictor/public/contentScript.js:128-129 | the `forEach` test for a button: its lower-cased text includes the lower-cased name and the step's word; `LastButton` states its use |
| ContentScript.PlayerById | fpl-predictor/public/contentScript.js:115-116 | `elements.find(p => p.id === Number(id))`, with `Seqs.Find` stating that it is the first entry of that id |
| ContentScript.LoggedIn | fpl-predictor/public/contentScript.js:12-18 | the flag is false exactly when the sign-in heading exists and `Sign In` occurs in its text |
| ContentScript.CurrentEvent | fpl-predictor/public/contentScript.js:51-55 | the id of the first current event; failing that, of the first next event; the error exactly when no event is current or next |
| ContentScript.NavControl | fpl-predictor/public/contentScript.js:89-98 | the first anchor whose trimmed `href` is `/transfers` and whose trimmed, lower-cased text contains `transfers`; else the fallback |
| ContentScript.LastButton | fpl-predictor/public/contentScript.js:125-132 | no button exactly when none is labelled with the name and the word; otherwise the last one that is |
| ContentScript.FindLastButton | fpl-predictor/public/contentScript.js:146-153 | the overwriting `forEach` leaves the last qualifying button |
| ContentScript.Transfer | fpl-predictor/public/contentScript.js:86-160 | the steps of `automateTransfer` in order, the first failing step ending the trace; the lemmas below, from `SwapStepsInOrder` on, state its properties |
| ContentScript.ListViewSteps | fpl-predictor/public/contentScript.js:103-107 | the wait for the list view and its click, then the later steps; `ListViewStepsInOrder` and `ListViewStepsCompleted` state it |
| ContentScript.PlayerSteps | fpl-predictor/public/contentScript.js:111-122 | the id look-up that throws when either id is unknown, then the swap; `PlayerStepsInOrder` states it |
| ContentScript.SwapSteps | fpl-predictor/public/contentScript.js:124-155 | the remove click, the search and the add click; `SwapStepsOutcome` and `SwapStepsActions` state it |
| ContentScript.AutomateTransfer | fpl-predictor/public/contentScript.js:86-160 | the step-by-step procedure produces the trace of the transfer specification |
| ContentScript.SwapStepsInOrder | fpl-predictor/public/contentScript.js:124-155 | the remove, search and add steps extend the first two actions in step order |
| ContentScript.PlayerStepsInOrder | fpl-predictor/public/contentScript.js:111-155 | the player look-up and the later steps keep step order |
| ContentScript.ListViewStepsInOrder | fpl-predictor/public/contentScript.js:104-155 | the list-view step and the later steps keep step order after the nav click |
| ContentScript.TransferFollowsStepOrder | fpl-predictor/public/contentScript.js:86-160 | the actions are the steps in their fixed order, none skipped; all five are taken exactly when the transfer completes, so the first failure stops every later step |
| ContentScript.ListViewStepsUnknownPlayer | fpl-predictor/public/contentScript.js:115-119 | an unresolved id leaves at most the nav and list-view clicks |
| ContentScript.UnknownPlayerStopsBeforeSwap | fpl-predictor/public/contentScript.js:115-119 | if either id is missing from the bootstrap data, the transfer does not complete, and nothing is removed, searched or added |
| ContentScript.TransferAfterNav | fpl-predictor/public/contentScript.js:88-100 | without a nav link the transfer fails before any action; with one it clicks it and goes on |
| ContentScript.NavClickedFirst | fpl-predictor/public/contentScript.js:89-100 | the first action clicks the chosen nav link |
| ContentScript.ListViewStepsStartWithNav | fpl-predictor/public/contentScript.js:100-107 | the later steps never displace the nav click |
| ContentScript.SwapStepsCompleted | fpl-predictor/public/contentScript.js:124-155 | a completed swap clicks the last qualifying remove button, types the new name, and clicks the last qualifying add button |
| ContentScript.ListViewStepsCompleted | fpl-predictor/public/contentScript.js:104-155 | the same holds when the steps after the nav click complete |
| ContentScript.CompletedSwapUsesLastButtons | fpl-predictor/public/contentScript.js:124-155 | a completed transfer resolved both ids, removed with the last qualifying remove button, typed the new player's name, and added with the last qualifying add button |
| ContentScript.SwapStepsActions | fpl-predictor/public/contentScript.js:124-155 | in every swap, finished or not, a remove click is on the last qualifying remove button, a search types the new name, and an add click is on the last qualifying add button |
| ContentScript.TransferUsesLastButtons | fpl-predictor/public/contentScript.js:111-155 | in every transfer that gets past the player look-up, whether it completes, fails or stalls later, the third action clicks the last qualifying remove button, the fourth types the new player's name, and the fifth clicks the last qualifying add button |
| ContentScript.SwapStepsOutcome | fpl-predictor/public/contentScript.js:124-155 | no qualifying remove button fails the swap with `Remove button not found for <name>` before any swap action; a rejected or stalled search wait ends it after the remove click; no qualifying add button fails it with `Add button not found for <name>` after the search; it completes exactly when both buttons and the search box are found |
| ContentScript.TransferReachesSwap | fpl-predictor/public/contentScript.js:86-122 | once the nav link, the list view and both players are found, the transfer is the swap steps for the two names after the nav and list-view clicks |
| ContentScript.TransferAfterPlayers | fpl-predictor/public/contentScript.js:124-160 | past the player look-up, the whole trace of the transfer in each case: a missing remove button fails right after the nav and list-view clicks, the search wait's rejection or stall ends it after the remove click, a missing add button fails after the search, and it completes exactly when both buttons and the search box are found |
| GwData.ColumnLayouts | src/data.py:20-38 | the old layout has 42 columns; the new one has 49, being the old one with the seven manager columns inserted after `minutes` |
| GwData.EarlyColumns | src/data.py:20-38 | the first 21 columns of the two layouts agree, up to and including `minutes` |
| GwData.ManagerSlot | src/data.py:30-38 | columns 22 to 28 of the new layout are the manager columns |
| GwData.LaterColumns | src/data.py:20-38 | the rest of the new layout is the rest of the old one, seven places further on |
| GwData.PartitionLines | src/data.py:44-53 | the loop yields the non-blank lines with at most 42 commas as good lines, and the others as bad lines, each list in file order |
| GwData.PartitionStep | src/data.py:47-53 | a blank line is skipped; any other line joins the good list if it has at most 42 commas, and the bad list otherwise |
| GwData.PartitionSplitsNonBlank | src/data.py:47-53 | blank lines go nowhere; every other line goes into exactly one list, as often as it occurs; both lists keep the file's order |
| GwData.IsBlank | src/data.py:48-49 | `line.strip() == ''`; `BlankMeansWhitespace` states what it means |
| GwData.IsGoodLine | src/data.py:50-51 | a non-blank line with at most 42 commas; `PartitionLines` and `PartitionSplitsNonBlank` state how it splits the lines |
| GwData.IsBadLine | src/data.py:50-53 | a non-blank line with more than 42 commas; `PartitionLines` and `PartitionSplitsNonBlank` state that it gets exactly the lines `IsGoodLine` does not |
| GwData.BlankMeansWhitespace | src/data.py:48-49 | a line counts as blank exactly when `strip()` would remove all of it |
| GwData.Select | src/data.py:60 | projecting by names gives those columns in that order, each cell taken from the column of that name |
| GwData.ColumnIndex | src/data.py:60 | selecting by name finds the first column of that name |
| GwData.CutBack | src/data.py:60 | the new-layout part cut back has the old columns and the same number of rows |
| GwData.Concat | src/data.py:63 | the combined rows are the first part's rows followed by the second part's rows |
| GwData.Rename | src/data.py:66-70 | renaming changes only the column names, through the mapping, and keeps every cell |
| GwData.RenameColumn | src/data.py:66-70 | the mapping; `RenameTargets` states its three targets and `DropRoundAfterRename` that nothing is renamed to or from `round` |
| GwData.DropCells | src/data.py:73-74 | a row loses as many cells as there are columns with the dropped name |
| GwData.DropCellsNone | src/data.py:73-74 | a row with no column of the dropped name keeps every cell |
| GwData.DropCellsAt | src/data.py:73-74 | when only column `k` has the dropped name, the row loses cell `k` and keeps the others in order |
| GwData.RoundColumn | src/data.py:20-27 | `round` is the 28th column of the old layout and no other column has that name |
| GwData.DropRoundCells | src/data.py:73-74 | dropping `round` from an old-layout row removes its 28th cell and nothing else |
| GwData.DropColumn | src/data.py:73-74 | the columns afterwards are the others; a frame without the column is unchanged |
| GwData.DropCellsNames | src/data.py:73-74 | dropping a name from the column names keeps the other names in their order |
| GwData.DropColumnNames | src/data.py:73-74 | when the column exists, the kept names and every row go through the same mask, so each kept cell stays under its own name |
| GwData.ProjectionFollowsNames | src/data.py:57-60 | every old column exists in the new layout, and each cut-back cell comes from the new column of the same name |
| GwData.RenamedColumns | src/data.py:66-70 | after the rename the column names are the old layout's names passed through the mapping |
| GwData.RenameTargets | src/data.py:66-70 | `element`, `GW` and `value` become `player_id`, `gameweek` and `now_cost` |
| GwData.Combine | src/data.py:56-74 | the cut-back new-layout part appended after the old-layout part, renamed, without `round`; `CombineShape`, `CombineRowOrder` and `CombineDropsRound` state its columns and rows |
| GwData.CombineShape | src/data.py:60-74 | the result has as many rows as both parts together; its columns are the renamed old columns in their order without the 28th, `round`, and include `player_id`, `gameweek` and `now_cost` |
| GwData.RenameThenDropNames | src/data.py:66-74 | renaming and dropping `round` leaves the renamed old names in order without the 28th |
| GwData.DropRoundAfterRename | src/data.py:66-74 | since no name is renamed to or from `round`, dropping it after the rename removes the same cells |
| GwData.RenameThenDropRows | src/data.py:66-74 | on a frame of the old layout, rename followed by drop keeps the rows in order, each without its `round` cell |
| GwData.CombineRowOrder | src/data.py:60-74 | every old-layout row comes first and every cut-back new-layout row after, in order, each without its `round` cell |
| GwData.CombineDropsRound | src/data.py:60-74 | each combined row is its source row with the 28th cell removed, the old-layout rows first and then the cut-back new-layout rows |

## Left out

- Network I/O and `JSON.parse` are not modelled. The views receive already-parsed records, and the text clean-up is a separate string function. A parse failure, which lands in the `catch`, is not modelled. For the team-score, top-players and best-fifteen views, a parsed value that is not an array is modelled.
- React state hooks, rendering and routing are not modelled, nor is `chrome.storage` with the messaging around the content script. A view's "state" is the value a function or method returns.
- Browser and DOM access is not modelled: real DOM queries, clicks, synthetic `input` events, XPath evaluation and the fixed `setTimeout` settle delays. The page is a `Page` snapshot, in which each step sees a fixed list of anchors or buttons.
- The concurrency and re-entrancy of `automateTransfer`, and the timing of the interval callback, are not modelled. The waiter only sees a finite sequence of polls, so `Stalled` stands for "still waiting when the polls run out".
- Floating-point scores are modelled as integers. `toFixed` and other display formatting are left out.
- Strings are sequences of Unicode scalar values. JavaScript strings are UTF-16 code units, and Python strings may hold lone surrogates. Case folding, `\w` and the whitespace classes distinguish only ASCII characters and whitespace of the Basic Multilingual Plane. `includes` compares characters of every kind, as in a web name like `Ødegaard`, but a well-formed needle can match a well-formed text only at whole characters. So the modelled operations give the same result on well-formed text under either view.
  - `toLowerCase` is modelled only for ASCII letters.
  - `trim` and Python's `strip` use the whitespace sets of the languages.
  - `\w` is ASCII.
- Numbers or missing fields where a record has a string are not modelled.
- `undefined` fields are not modelled. Player ids are already numbers, so `Number(id)` is the identity.
- `adjusted_score || 0` in the team total is the score itself. A score that is `NaN` cannot occur with integer scores.
- The engine's sorting algorithm is not modelled, only its result (`Sorting.SortDescending`). `Array.prototype.sort` must be stable since ECMAScript 2019, and the model's insertion sort is proved stable, so the order it gives is the one the engine gives.
- ComparePlayer.MatchTeam: the predictions are taken to be an array, as the comment at ComparePlayer.js:88 expects. `setPredictions` stores whatever `JSON.parse` returns. A non-array object leaves the team rows unchanged, because its `length` is undefined, and a non-empty string makes `forEach` throw with nothing to catch it. Neither case is modelled.
- ComparePlayer.MatchTeam: a JavaScript object key is the text of the id. In this model the table is keyed by the integer id, which gives the same matches for integer ids.
- ContentScript.CurrentEvent: the `response.ok` check and the fetch inside `getCurrentEvent` are not modelled.
- The gameweek loader does not model reading or parsing the file:
  - `pandas.read_csv` itself is not modelled, including `header=0` dropping the file's header line and `on_bad_lines='skip'`. The frames after reading are parameters of `GwData.Combine`.
  - `astype(int)` on `now_cost` is not modelled.
  - The `readlines` file access is not modelled.
- `getFPLStats` is not part of this model, nor the message listeners of the content script, `background.js`, `App.js`, `TeamIDPrompt.js` or the Python model, features, optimizer and app scripts.
