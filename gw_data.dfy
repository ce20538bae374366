/** `load_merged_gws_data`: the merged gameweek file changes layout part-way through the
    season, when seven manager columns appear after `minutes`. Its lines are split by comma
    count into the old layout and the new one, the new part is cut back to the old columns, the
    parts are put one after the other, three columns are renamed and `round` is dropped. */
module GwData {
  import opened Wrappers
  import opened Seqs
  import opened Strings

  /** `old_columns`: the layout of the early gameweeks. */
  const OldColumns: seq<string> := [
    "name", "position", "team", "xP", "assists", "bonus", "bps", "clean_sheets", "creativity",
    "element", "expected_assists", "expected_goal_involvements", "expected_goals", "expected_goals_conceded",
    "fixture", "goals_conceded", "goals_scored", "ict_index", "influence", "kickoff_time", "minutes",
    "modified", "opponent_team", "own_goals", "penalties_missed", "penalties_saved", "red_cards",
    "round", "saves", "selected", "starts", "team_a_score", "team_h_score", "threat", "total_points",
    "transfers_balance", "transfers_in", "transfers_out", "value", "was_home", "yellow_cards", "GW"]

  /** The seven columns the later gameweeks insert after `minutes`. */
  const ManagerColumns: seq<string> := [
    "mng_clean_sheets", "mng_draw", "mng_goals_scored", "mng_loss", "mng_underdog_draw", "mng_underdog_win", "mng_win"]

  /** `new_columns`: the layout of the later gameweeks. */
  const NewColumns: seq<string> := [
    "name", "position", "team", "xP", "assists", "bonus", "bps", "clean_sheets", "creativity",
    "element", "expected_assists", "expected_goal_involvements", "expected_goals", "expected_goals_conceded",
    "fixture", "goals_conceded", "goals_scored", "ict_index", "influence", "kickoff_time", "minutes",
    "mng_clean_sheets", "mng_draw", "mng_goals_scored", "mng_loss", "mng_underdog_draw", "mng_underdog_win", "mng_win",
    "modified", "opponent_team", "own_goals", "penalties_missed", "penalties_saved", "red_cards",
    "round", "saves", "selected", "starts", "team_a_score", "team_h_score", "threat", "total_points",
    "transfers_balance", "transfers_in", "transfers_out", "value", "was_home", "yellow_cards", "GW"]

  /** Up to `minutes`, the 21st column, the two layouts agree. */
  lemma EarlyColumns()
    ensures forall i :: 0 <= i < 21 ==> NewColumns[i] == OldColumns[i]
  {
  }

  /** Then the new layout has the seven manager columns. */
  lemma ManagerSlot()
    ensures forall i :: 0 <= i < 7 ==> NewColumns[21 + i] == ManagerColumns[i]
  {
  }

  /** After them it has the rest of the old layout, seven places further on. */
  lemma LaterColumns()
    ensures forall i :: 28 <= i < 49 ==> NewColumns[i] == OldColumns[i - 7]
  {
  }

  /** A sequence that agrees index by index with `a` spliced with `m` at `k` is that splice. */
  lemma Spliced<T>(n: seq<T>, a: seq<T>, m: seq<T>, k: nat)
    requires k <= |a| && |n| == |a| + |m|
    requires forall i :: 0 <= i < k ==> n[i] == a[i]
    requires forall i :: 0 <= i < |m| ==> n[k + i] == m[i]
    requires forall i :: k + |m| <= i < |n| ==> n[i] == a[i - |m|]
    ensures n == a[..k] + m + a[k..]
  {
    var s := a[..k] + m + a[k..];
    forall i | 0 <= i < |n| ensures n[i] == s[i] {
      if k <= i < k + |m| {
        assert n[k + (i - k)] == m[i - k];
      }
    }
  }

  /** The new layout is the old one with the manager columns inserted after `minutes`, the 21st
      column; so the old layout has 42 columns and the new one 49. */
  lemma ColumnLayouts()
    ensures |OldColumns| == 42 && |NewColumns| == 49
    ensures OldColumns[20] == "minutes"
    ensures NewColumns == OldColumns[..21] + ManagerColumns + OldColumns[21..]
  {
    EarlyColumns();
    ManagerSlot();
    LaterColumns();
    Spliced(NewColumns, OldColumns, ManagerColumns, 21);
  }

  /** `line.strip() == ''`. */
  predicate IsBlank(line: string) {
    PyStrip(line) == ""
  }

  /** A line of the old layout: at most `len(old_columns)` commas. */
  predicate IsGoodLine(line: string) {
    !IsBlank(line) && Count(line, ',') <= |OldColumns|
  }

  /** A line of the new layout: more commas than that. */
  predicate IsBadLine(line: string) {
    !IsBlank(line) && Count(line, ',') > |OldColumns|
  }

  /** One more line extends the good list, the bad list, or neither. */
  lemma PartitionStep(lines: seq<string>, i: nat)
    requires i < |lines|
    ensures IsBlank(lines[i]) ==>
      Filter(lines[..i + 1], IsGoodLine) == Filter(lines[..i], IsGoodLine) &&
      Filter(lines[..i + 1], IsBadLine) == Filter(lines[..i], IsBadLine)
    ensures !IsBlank(lines[i]) && Count(lines[i], ',') <= |OldColumns| ==>
      Filter(lines[..i + 1], IsGoodLine) == Filter(lines[..i], IsGoodLine) + [lines[i]] &&
      Filter(lines[..i + 1], IsBadLine) == Filter(lines[..i], IsBadLine)
    ensures !IsBlank(lines[i]) && Count(lines[i], ',') > |OldColumns| ==>
      Filter(lines[..i + 1], IsGoodLine) == Filter(lines[..i], IsGoodLine) &&
      Filter(lines[..i + 1], IsBadLine) == Filter(lines[..i], IsBadLine) + [lines[i]]
  {
    assert lines[..i + 1] == lines[..i] + [lines[i]];
    FilterAppendOne(lines[..i], lines[i], IsGoodLine);
    FilterAppendOne(lines[..i], lines[i], IsBadLine);
  }

  /** The `for line in lines` loop that fills `good_lines` and `bad_lines`. */
  method PartitionLines(lines: seq<string>) returns (good: seq<string>, bad: seq<string>)
    ensures good == Filter(lines, IsGoodLine)
    ensures bad == Filter(lines, IsBadLine)
  {
    good, bad := [], [];
    for i := 0 to |lines|
      invariant good == Filter(lines[..i], IsGoodLine)
      invariant bad == Filter(lines[..i], IsBadLine)
    {
      var line := lines[i];
      PartitionStep(lines, i);
      if IsBlank(line) {
        continue;
      }
      if Count(line, ',') <= |OldColumns| {
        good := good + [line];
      } else {
        bad := bad + [line];
      }
    }
    assert lines[..|lines|] == lines;
  }

  /** Blank lines go nowhere; every other line goes to exactly one of the two lists, each list
      keeping the order of the file. */
  lemma PartitionSplitsNonBlank(lines: seq<string>)
    ensures forall l ::
      multiset(Filter(lines, IsGoodLine))[l] + multiset(Filter(lines, IsBadLine))[l] ==
        if IsBlank(l) then 0 else multiset(lines)[l]
    ensures forall l :: !(l in Filter(lines, IsGoodLine) && l in Filter(lines, IsBadLine))
    ensures Subsequence(Filter(lines, IsGoodLine), lines) && Subsequence(Filter(lines, IsBadLine), lines)
  {
    FilterCount(lines, IsGoodLine);
    FilterCount(lines, IsBadLine);
    FilterMembers(lines, IsGoodLine);
    FilterMembers(lines, IsBadLine);
  }

  /** A line is blank exactly when it holds only whitespace. */
  lemma BlankMeansWhitespace(line: string)
    ensures IsBlank(line) <==> forall i :: 0 <= i < |line| ==> IsPySpace(line[i])
  {
    TrimEmpty(line, IsPySpace);
  }

  /** A data frame: column names and rows of cells, one cell per column. */
  datatype Frame = Frame(columns: seq<string>, rows: seq<seq<string>>)

  predicate Rectangular(f: Frame) {
    forall i :: 0 <= i < |f.rows| ==> |f.rows[i]| == |f.columns|
  }

  /** The position of the first column called `name`. */
  function ColumnIndex(columns: seq<string>, name: string): (k: nat)
    requires name in columns
    ensures k < |columns| && columns[k] == name
    ensures forall j :: 0 <= j < k ==> columns[j] != name
  {
    FirstIndex(columns, (c: string) => c == name).value
  }

  /** `df[names]`: the columns called `names`, in that order, for every row. */
  function Select(f: Frame, names: seq<string>): (r: Frame)
    requires Rectangular(f)
    requires forall j :: 0 <= j < |names| ==> names[j] in f.columns
    ensures r.columns == names && |r.rows| == |f.rows| && Rectangular(r)
    ensures forall i, j :: 0 <= i < |f.rows| && 0 <= j < |names| ==>
      r.rows[i][j] == f.rows[i][ColumnIndex(f.columns, names[j])]
  {
    Frame(names, seq(|f.rows|, i requires 0 <= i < |f.rows| =>
      seq(|names|, j requires 0 <= j < |names| => f.rows[i][ColumnIndex(f.columns, names[j])])))
  }

  /** `pd.concat([a, b], ignore_index=True)` for frames with the same columns. */
  function Concat(a: Frame, b: Frame): (r: Frame)
    requires a.columns == b.columns
    ensures r.columns == a.columns && |r.rows| == |a.rows| + |b.rows|
    ensures forall i :: 0 <= i < |a.rows| ==> r.rows[i] == a.rows[i]
    ensures forall i :: 0 <= i < |b.rows| ==> r.rows[|a.rows| + i] == b.rows[i]
  {
    Frame(a.columns, a.rows + b.rows)
  }

  /** The rename mapping: `element`, `GW` and `value` get new names, every other name stays. */
  function RenameColumn(c: string): string {
    if c == "element" then "player_id"
    else if c == "GW" then "gameweek"
    else if c == "value" then "now_cost"
    else c
  }

  /** `df.rename(columns=...)`: names change, cells do not. */
  function Rename(f: Frame): (r: Frame)
    ensures |r.columns| == |f.columns| && r.rows == f.rows
    ensures forall j :: 0 <= j < |f.columns| ==> r.columns[j] == RenameColumn(f.columns[j])
  {
    Frame(seq(|f.columns|, j requires 0 <= j < |f.columns| => RenameColumn(f.columns[j])), f.rows)
  }

  /** The cells of a row whose column is not called `name`. */
  function DropCells(columns: seq<string>, row: seq<string>, name: string): (r: seq<string>)
    requires |row| == |columns|
    ensures |r| == |Filter(columns, (c: string) => c != name)|
    decreases |columns|
  {
    if columns == [] then []
    else
      var k := |columns| - 1;
      DropCells(columns[..k], row[..k], name) + if columns[k] != name then [row[k]] else []
  }

  /** A row of columns none of which is called `name` keeps all its cells. */
  lemma {:induction false} DropCellsNone(columns: seq<string>, row: seq<string>, name: string)
    requires |row| == |columns|
    requires forall j :: 0 <= j < |columns| ==> columns[j] != name
    ensures DropCells(columns, row, name) == row
    decreases |columns|
  {
    if columns != [] {
      var k := |columns| - 1;
      DropCellsNone(columns[..k], row[..k], name);
      assert row == row[..k] + [row[k]];
    }
  }

  /** When only column `k` is called `name`, exactly cell `k` goes and the others stay in
      order. */
  lemma {:induction false} DropCellsAt(columns: seq<string>, row: seq<string>, name: string, k: nat)
    requires |row| == |columns| && k < |columns|
    requires columns[k] == name
    requires forall j :: 0 <= j < |columns| && j != k ==> columns[j] != name
    ensures DropCells(columns, row, name) == row[..k] + row[k + 1..]
    decreases |columns|
  {
    var last := |columns| - 1;
    var init := columns[..last];
    if k == last {
      forall j | 0 <= j < |init| ensures init[j] != name {
        assert init[j] == columns[j];
      }
      DropCellsNone(init, row[..last], name);
    } else {
      forall j | 0 <= j < |init| && j != k ensures init[j] != name {
        assert init[j] == columns[j];
      }
      DropCellsAt(init, row[..last], name, k);
      assert row[..last][..k] == row[..k];
      assert row[k + 1..] == row[..last][k + 1..] + [row[last]];
    }
  }

  /** `round` is the 28th old column and no other. */
  lemma RoundColumn()
    ensures OldColumns[27] == "round"
    ensures forall j :: 0 <= j < |OldColumns| && j != 27 ==> OldColumns[j] != "round"
  {
  }

  /** Dropping `round` from a row of the old layout removes its 28th cell and nothing else. */
  lemma DropRoundCells(row: seq<string>)
    requires |row| == |OldColumns|
    ensures DropCells(OldColumns, row, "round") == row[..27] + row[28..]
  {
    RoundColumn();
    DropCellsAt(OldColumns, row, "round", 27);
  }

  /** `if name in df.columns: df = df.drop(columns=[name])`. */
  function DropColumn(f: Frame, name: string): (r: Frame)
    requires Rectangular(f)
    ensures Rectangular(r) && |r.rows| == |f.rows|
    ensures forall c :: c in r.columns <==> c in f.columns && c != name
    ensures name !in f.columns ==> r == f
  {
    FilterMembers(f.columns, (c: string) => c != name);
    if name in f.columns then
      Frame(Filter(f.columns, (c: string) => c != name),
        seq(|f.rows|, i requires 0 <= i < |f.rows| => DropCells(f.columns, f.rows[i], name)))
    else f
  }

  /** Dropping `name` from the column names themselves leaves the other names in their order. */
  lemma {:induction false} DropCellsNames(columns: seq<string>, name: string)
    ensures DropCells(columns, columns, name) == Filter(columns, (c: string) => c != name)
    decreases |columns|
  {
    if columns != [] {
      var k := |columns| - 1;
      DropCellsNames(columns[..k], name);
    }
  }

  /** When `name` is a column, the kept names are the column names passed through the same
      mask as every row, so the cell at each position stays under the name it had before. */
  lemma DropColumnNames(f: Frame, name: string)
    requires Rectangular(f) && name in f.columns
    ensures DropColumn(f, name).columns == DropCells(f.columns, f.columns, name)
    ensures forall i :: 0 <= i < |f.rows| ==>
      DropColumn(f, name).rows[i] == DropCells(f.columns, f.rows[i], name)
  {
    DropCellsNames(f.columns, name);
  }

  /** Lines 60 to 74: the new-layout part cut back to the old columns, appended after the
      old-layout part, renamed, and without `round`. */
  function Combine(good: Frame, bad: Frame): Frame
    requires good.columns == OldColumns && bad.columns == NewColumns
    requires Rectangular(good) && Rectangular(bad)
  {
    DropColumn(Rename(Concat(good, CutBack(bad))), "round")
  }

  /** `bad_df[old_columns]`. */
  function CutBack(bad: Frame): (r: Frame)
    requires bad.columns == NewColumns && Rectangular(bad)
    ensures r.columns == OldColumns && Rectangular(r) && |r.rows| == |bad.rows|
  {
    ColumnLayouts();
    Select(bad, OldColumns)
  }

  /** Cutting the new layout back to the old columns takes each old column's cells from the new
      column of the same name, which after `minutes` sits seven places further on. */
  lemma ProjectionFollowsNames(bad: Frame)
    requires bad.columns == NewColumns && Rectangular(bad)
    ensures forall j :: 0 <= j < |OldColumns| ==> OldColumns[j] in NewColumns
    ensures forall i, j :: 0 <= i < |bad.rows| && 0 <= j < |OldColumns| ==>
      CutBack(bad).rows[i][j] == bad.rows[i][ColumnIndex(NewColumns, OldColumns[j])] &&
      NewColumns[ColumnIndex(NewColumns, OldColumns[j])] == OldColumns[j]
  {
    ColumnLayouts();
    forall j | 0 <= j < |OldColumns| ensures OldColumns[j] in NewColumns {
      if j < 21 {
        assert NewColumns[j] == OldColumns[j];
      } else {
        assert NewColumns[j + 7] == OldColumns[j];
      }
    }
  }

  /** After the rename, the column names are the old layout's, each passed through the mapping. */
  lemma RenamedColumns(f: Frame)
    requires f.columns == OldColumns
    ensures forall c :: c in Rename(f).columns <==> exists j :: 0 <= j < |OldColumns| && c == RenameColumn(OldColumns[j])
  {
    var renamed := Rename(f);
    forall c ensures c in renamed.columns <==> exists j :: 0 <= j < |OldColumns| && c == RenameColumn(OldColumns[j]) {
      if c in renamed.columns {
        var j :| 0 <= j < |renamed.columns| && renamed.columns[j] == c;
        assert c == RenameColumn(OldColumns[j]);
      }
      if exists j :: 0 <= j < |OldColumns| && c == RenameColumn(OldColumns[j]) {
        var j :| 0 <= j < |OldColumns| && c == RenameColumn(OldColumns[j]);
        assert renamed.columns[j] == c;
      }
    }
  }

  /** The mapping's three targets come from old columns, and nothing is renamed to `round`. */
  lemma RenameTargets()
    ensures RenameColumn(OldColumns[9]) == "player_id"
    ensures RenameColumn(OldColumns[41]) == "gameweek"
    ensures RenameColumn(OldColumns[38]) == "now_cost"
  {
  }

  /** The combined frame has every row of the old-layout part and then every row of the
      new-layout part, and the columns of the old layout with `element`, `GW` and `value`
      renamed and `round` gone. */
  lemma CombineShape(good: Frame, bad: Frame)
    requires good.columns == OldColumns && bad.columns == NewColumns
    requires Rectangular(good) && Rectangular(bad)
    ensures |Combine(good, bad).rows| == |good.rows| + |bad.rows|
    ensures forall c :: c in Combine(good, bad).columns <==>
      c != "round" && exists j :: 0 <= j < |OldColumns| && c == RenameColumn(OldColumns[j])
    ensures "player_id" in Combine(good, bad).columns && "gameweek" in Combine(good, bad).columns &&
      "now_cost" in Combine(good, bad).columns
    ensures "round" !in Combine(good, bad).columns
    ensures Combine(good, bad).columns == RenamedNames(OldColumns)[..27] + RenamedNames(OldColumns)[28..]
  {
    ColumnLayouts();
    var joined := Concat(good, CutBack(bad));
    assert Combine(good, bad) == DropColumn(Rename(joined), "round");
    RenamedColumns(joined);
    RenameTargets();
    RenameThenDropNames(joined);
  }

  /** On a frame of the old layout, renaming and then dropping `round` leaves the renamed names
      in their order without the 28th. */
  lemma RenameThenDropNames(f: Frame)
    requires f.columns == OldColumns && Rectangular(f)
    ensures DropColumn(Rename(f), "round").columns ==
      RenamedNames(OldColumns)[..27] + RenamedNames(OldColumns)[28..]
  {
    var renamed := Rename(f);
    var names := RenamedNames(OldColumns);
    assert renamed.columns == names;
    assert "round" in renamed.columns by { RenameTargets(); assert renamed.columns[27] == "round"; }
    DropColumnNames(renamed, "round");
    DropRoundAfterRename(OldColumns, names);
    DropRoundCells(names);
  }

  /** The names passed through the rename mapping. */
  function RenamedNames(columns: seq<string>): (r: seq<string>)
    ensures |r| == |columns| && forall j :: 0 <= j < |columns| ==> r[j] == RenameColumn(columns[j])
  {
    seq(|columns|, j requires 0 <= j < |columns| => RenameColumn(columns[j]))
  }

  /** Which cells a row loses depends only on which columns carry the dropped name. */
  lemma {:induction false} DropCellsSameMask(a: seq<string>, b: seq<string>, row: seq<string>, name: string)
    requires |row| == |a| == |b|
    requires forall j :: 0 <= j < |a| ==> (a[j] == name <==> b[j] == name)
    ensures DropCells(a, row, name) == DropCells(b, row, name)
    decreases |a|
  {
    if a != [] {
      var k := |a| - 1;
      DropCellsSameMask(a[..k], b[..k], row[..k], name);
    }
  }

  /** No name is renamed to or from `round`, so dropping it after the rename drops the same
      cells as before it. */
  lemma DropRoundAfterRename(columns: seq<string>, row: seq<string>)
    requires |row| == |columns|
    ensures DropCells(RenamedNames(columns), row, "round") == DropCells(columns, row, "round")
  {
    DropCellsSameMask(RenamedNames(columns), columns, row, "round");
  }

  /** On a frame of the old layout, renaming and then dropping `round` removes the `round`
      cell of every row and keeps the rows in order. */
  lemma RenameThenDropRows(f: Frame)
    requires f.columns == OldColumns && Rectangular(f)
    ensures var r := DropColumn(Rename(f), "round");
      |r.rows| == |f.rows| &&
      forall i :: 0 <= i < |f.rows| ==> r.rows[i] == DropCells(OldColumns, f.rows[i], "round")
  {
    var renamed := Rename(f);
    assert renamed.columns == RenamedNames(OldColumns);
    assert "round" in renamed.columns by { RenameTargets(); assert renamed.columns[27] == "round"; }
    var r := DropColumn(renamed, "round");
    forall i | 0 <= i < |f.rows| ensures r.rows[i] == DropCells(OldColumns, f.rows[i], "round") {
      assert r.rows[i] == DropCells(renamed.columns, f.rows[i], "round");
      DropRoundAfterRename(OldColumns, f.rows[i]);
    }
  }

  /** The combined frame lists the old-layout rows first and the cut-back new-layout rows after
      them, in their order, each without its `round` cell. */
  lemma CombineRowOrder(good: Frame, bad: Frame)
    requires good.columns == OldColumns && bad.columns == NewColumns
    requires Rectangular(good) && Rectangular(bad)
    ensures |Combine(good, bad).rows| == |good.rows| + |bad.rows|
    ensures forall i :: 0 <= i < |good.rows| ==>
      Combine(good, bad).rows[i] == DropCells(OldColumns, good.rows[i], "round")
    ensures forall i :: 0 <= i < |bad.rows| ==>
      Combine(good, bad).rows[|good.rows| + i] == DropCells(OldColumns, CutBack(bad).rows[i], "round")
  {
    var trimmed := CutBack(bad);
    var joined := Concat(good, trimmed);
    RenameThenDropRows(joined);
    var r := Combine(good, bad);
    assert r == DropColumn(Rename(joined), "round");
    forall i | 0 <= i < |good.rows| ensures r.rows[i] == DropCells(OldColumns, good.rows[i], "round") {
      assert joined.rows[i] == good.rows[i];
    }
    forall i | 0 <= i < |bad.rows|
      ensures r.rows[|good.rows| + i] == DropCells(OldColumns, trimmed.rows[i], "round")
    {
      assert joined.rows[|good.rows| + i] == trimmed.rows[i];
    }
  }

  /** So each combined row is its source row without its 28th cell, `round`: the old-layout
      rows first, then the cut-back new-layout rows. */
  lemma CombineDropsRound(good: Frame, bad: Frame)
    requires good.columns == OldColumns && bad.columns == NewColumns
    requires Rectangular(good) && Rectangular(bad)
    ensures |Combine(good, bad).rows| == |good.rows| + |bad.rows|
    ensures forall i :: 0 <= i < |good.rows| ==>
      Combine(good, bad).rows[i] == good.rows[i][..27] + good.rows[i][28..]
    ensures forall i :: 0 <= i < |bad.rows| ==>
      var cut := CutBack(bad).rows[i];
      Combine(good, bad).rows[|good.rows| + i] == cut[..27] + cut[28..]
  {
    CombineRowOrder(good, bad);
    var trimmed := CutBack(bad);
    forall i | 0 <= i < |good.rows| ensures DropCells(OldColumns, good.rows[i], "round") == good.rows[i][..27] + good.rows[i][28..] {
      DropRoundCells(good.rows[i]);
    }
    forall i | 0 <= i < |bad.rows| ensures DropCells(OldColumns, trimmed.rows[i], "round") == trimmed.rows[i][..27] + trimmed.rows[i][28..] {
      DropRoundCells(trimmed.rows[i]);
    }
  }
}
