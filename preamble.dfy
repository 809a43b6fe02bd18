/**
  The rows before a table's header row (the preamble) and after its body
  (the postamble) are compared as lines of text: each row, without its
  trailing empty cells, joined with tabs; the two lists of lines go through
  the differ, and every resulting line is split back into cells.
*/
module Preamble {
  import opened Marks
  import opened SimpleDiff
  import opened Output

  /** The row without its trailing empty cells: the shortest prefix after which only empty cells remain. */
  function RemoveTrailingEmpties(items: seq<string>): (r: seq<string>)
    ensures r <= items
    ensures forall k :: |r| <= k < |items| ==> items[k] == ""
    ensures r == [] || r[|r| - 1] != ""
  {
    if items == [] || items[|items| - 1] != "" then items
    else RemoveTrailingEmpties(items[..|items| - 1])
  }

  /** Any prefix leaving only empty cells behind is at least as long. */
  lemma RemoveTrailingEmptiesIsShortest(items: seq<string>, m: nat)
    requires m <= |items| && forall k :: m <= k < |items| ==> items[k] == ""
    ensures |RemoveTrailingEmpties(items)| <= m
  {
    var r := RemoveTrailingEmpties(items);
    if |r| > 0 {
      assert items[|r| - 1] == r[|r| - 1];
    }
  }

  /** `"\t".join(cells)`. */
  function Join(cells: seq<string>): string
  {
    if cells == [] then ""
    else if |cells| == 1 then cells[0]
    else cells[0] + "\t" + Join(cells[1..])
  }

  /** `line.split("\t")`: the pieces between tabs; a line without a tab is one piece, even when empty. */
  function SplitTabs(line: string): (pieces: seq<string>)
    ensures |pieces| >= 1
    ensures forall k :: 0 <= k < |pieces| ==> '\t' !in pieces[k]
    decreases |line|
  {
    if '\t' !in line then [line]
    else
      var t := TabAt(line);
      [line[..t]] + SplitTabs(line[t + 1..])
  }

  /** The position of the first tab. */
  function TabAt(line: string): (t: nat)
    requires '\t' in line
    ensures t < |line| && line[t] == '\t' && '\t' !in line[..t]
  {
    if line[0] == '\t' then 0
    else
      var t := 1 + TabAt(line[1..]);
      assert line[..t] == [line[0]] + line[1..][..t - 1];
      t
  }

  /** Splitting undoes joining, for at least one cell and no tabs inside cells. */
  lemma {:induction false} SplitJoin(cells: seq<string>)
    requires cells != []
    requires forall k :: 0 <= k < |cells| ==> '\t' !in cells[k]
    ensures SplitTabs(Join(cells)) == cells
  {
    if |cells| > 1 {
      SplitAtFirstTab(cells[0], Join(cells[1..]));
      SplitJoin(cells[1..]);
      assert [cells[0]] + cells[1..] == cells;
    }
  }

  /** The first piece of a line is everything before its first tab. */
  lemma SplitAtFirstTab(head: string, rest: string)
    requires '\t' !in head
    ensures SplitTabs(head + "\t" + rest) == [head] + SplitTabs(rest)
  {
    var line := head + "\t" + rest;
    assert line[|head|] == '\t';
    assert line[..|head|] == head;
    assert TabAt(line) == |head|;
    assert line[|head| + 1..] == rest;
  }

  /** `[ (cells[i] if i < len(cells) else '') for i in range(width) ]`: cut or padded to `width` cells. */
  function Fit(cells: seq<string>, width: nat): (row: seq<string>)
    ensures |row| == width
    ensures forall i :: 0 <= i < width ==> row[i] == if i < |cells| then cells[i] else ""
  {
    seq(width, i requires 0 <= i < width => if i < |cells| then cells[i] else "")
  }

  /** The text line of a row: its cells up to the last non-empty one, joined with tabs. */
  function Line(row: seq<string>): string
  {
    Join(RemoveTrailingEmpties(row))
  }

  /** The lines of rows `start` to `end - 1`. */
  function Lines(rows: seq<seq<string>>, start: nat, end: nat): (lines: seq<string>)
    requires start <= end <= |rows|
    ensures |lines| == end - start
  {
    seq(end - start, i requires 0 <= i < end - start => Line(rows[start + i]))
  }

  /** One segment's lines, each with the segment's mark. */
  function Marked(m: Mark, items: seq<string>): (flat: seq<(Mark, string)>)
    ensures |flat| == |items|
  {
    seq(|items|, k requires 0 <= k < |items| => (m, items[k]))
  }

  /** The differ's segments flattened into marked lines. */
  function Flatten(d: seq<Segment<string>>): seq<(Mark, string)>
  {
    if d == [] then [] else Marked(d[0].mark, d[0].items) + Flatten(d[1..])
  }

  /** The number of marked lines not marked `=`. */
  function CountChanged(flat: seq<(Mark, string)>): nat
  {
    if flat == [] then 0 else (if flat[0].0 != Same then 1 else 0) + CountChanged(flat[1..])
  }

  /** The diff row for one marked line: the marker, then the line's cells, fitted to the width of the diff table. */
  function LineRow(entry: (Mark, string), nDiffHeaders: nat): seq<string>
  {
    Fit(SplitTabs(Text(entry.0) + "\t" + entry.1), nDiffHeaders + 1)
  }

  function LineRows(flat: seq<(Mark, string)>, nDiffHeaders: nat): (rows: seq<seq<string>>)
    ensures |rows| == |flat|
  {
    seq(|flat|, k requires 0 <= k < |flat| => LineRow(flat[k], nDiffHeaders))
  }

  lemma LineRowsSnoc(flat: seq<(Mark, string)>, k: nat, nDiffHeaders: nat)
    requires k < |flat|
    ensures LineRows(flat[..k + 1], nDiffHeaders) == LineRows(flat[..k], nDiffHeaders) + [LineRow(flat[k], nDiffHeaders)]
  {
  }

  /** The marked lines of the comparison of old rows `iOldStart..nOldRows-1` with new rows `iNewStart..nNewRows-1`. */
  function Compared(oldRows: seq<seq<string>>, iOldStart: nat, nOldRows: nat,
                    newRows: seq<seq<string>>, iNewStart: nat, nNewRows: nat): seq<(Mark, string)>
    requires iOldStart <= nOldRows <= |oldRows| && iNewStart <= nNewRows <= |newRows|
  {
    Flatten(Diff(Lines(oldRows, iOldStart, nOldRows), Lines(newRows, iNewStart, nNewRows)))
  }

  /**
    `CompareLeadingTrailingRows`: appends one diff row per marked line and
    returns the number of lines not marked `=`.
  */
  method CompareLeadingTrailingRows(diffRows: DiffRows, oldRows: seq<seq<string>>, iOldStart: nat, nOldRows: nat,
                                    newRows: seq<seq<string>>, iNewStart: nat, nNewRows: nat, nDiffHeaders: nat)
    returns (nLeadingChanges: nat)
    requires iOldStart <= nOldRows <= |oldRows| && iNewStart <= nNewRows <= |newRows|
    modifies diffRows
    ensures diffRows.rows == old(diffRows.rows)
      + LineRows(Compared(oldRows, iOldStart, nOldRows, newRows, iNewStart, nNewRows), nDiffHeaders)
    ensures nLeadingChanges == CountChanged(Compared(oldRows, iOldStart, nOldRows, newRows, iNewStart, nNewRows))
  {
    var oldLeadingLines := Lines(oldRows, iOldStart, nOldRows);
    var newLeadingLines := Lines(newRows, iNewStart, nNewRows);
    var rawDiffs := ComputeDiff(oldLeadingLines, newLeadingLines);
    var flatDiffs := Flatten(rawDiffs);
    nLeadingChanges := CountChanged(flatDiffs);
    ghost var rows0 := diffRows.rows;
    var k := 0;
    while k < |flatDiffs|
      invariant 0 <= k <= |flatDiffs|
      invariant diffRows.rows == rows0 + LineRows(flatDiffs[..k], nDiffHeaders)
    {
      var partialRow := SplitTabs(Text(flatDiffs[k].0) + "\t" + flatDiffs[k].1);
      var diffRow := Fit(partialRow, nDiffHeaders + 1);
      LineRowsSnoc(flatDiffs, k, nDiffHeaders);
      diffRows.Append(diffRow);
      k := k + 1;
    }
    assert flatDiffs[..k] == flatDiffs;
  }

  // ---------------------------------------------------------------------
  // What the compared lines and rows promise

  /** The lines of a flattened diff marked with one of `ms`, in order. */
  function LinesMarked(flat: seq<(Mark, string)>, ms: set<Mark>): seq<string>
  {
    if flat == [] then [] else (if flat[0].0 in ms then [flat[0].1] else []) + LinesMarked(flat[1..], ms)
  }

  lemma {:induction false} FlattenAppend(d: seq<Segment<string>>, e: seq<Segment<string>>)
    ensures Flatten(d + e) == Flatten(d) + Flatten(e)
  {
    if d != [] {
      assert (d + e)[1..] == d[1..] + e;
      FlattenAppend(d[1..], e);
    } else {
      assert d + e == e;
    }
  }

  lemma {:induction false} LinesMarkedAppend(f: seq<(Mark, string)>, g: seq<(Mark, string)>, ms: set<Mark>)
    ensures LinesMarked(f + g, ms) == LinesMarked(f, ms) + LinesMarked(g, ms)
    ensures CountChanged(f + g) == CountChanged(f) + CountChanged(g)
  {
    if f != [] {
      assert (f + g)[1..] == f[1..] + g;
      LinesMarkedAppend(f[1..], g, ms);
    } else {
      assert f + g == g;
    }
  }

  /** One segment flattened: every line carries the segment's mark. */
  lemma {:induction false} SegmentLines(m: Mark, items: seq<string>, ms: set<Mark>)
    ensures var f := Marked(m, items);
      && LinesMarked(f, ms) == (if m in ms then items else [])
      && CountChanged(f) == (if m != Same then |items| else 0)
    decreases |items|
  {
    var f := Marked(m, items);
    if items != [] {
      assert f[1..] == Marked(m, items[1..]);
      SegmentLines(m, items[1..], ms);
      assert items == [items[0]] + items[1..];
    }
  }

  /**
    Reading a flattened diff back: its `=` and `-` lines are the old side,
    its `=` and `+` lines the new side, and it has as many lines not marked
    `=` as the two sides have lines outside the `=` segments.
  */
  lemma {:induction false} FlattenSides(d: seq<Segment<string>>)
    requires WellFormed(d)
    ensures LinesMarked(Flatten(d), {Same, Deleted}) == OldSide(d)
    ensures LinesMarked(Flatten(d), {Same, Added}) == NewSide(d)
    ensures LinesMarked(Flatten(d), {Same}) == SameSide(d)
    ensures CountChanged(Flatten(d)) + 2 * |SameSide(d)| == |OldSide(d)| + |NewSide(d)|
  {
    if d != [] {
      var f := Marked(d[0].mark, d[0].items);
      assert WellFormed(d[1..]) by {
        forall k | 0 <= k < |d[1..]| ensures d[1..][k].mark in {Same, Deleted, Added} && d[1..][k].items != [] {
          assert d[1..][k] == d[k + 1];
        }
      }
      assert d[0].mark in {Same, Deleted, Added};
      assert Flatten(d) == f + Flatten(d[1..]);
      FlattenSides(d[1..]);
      LinesMarkedAppend(f, Flatten(d[1..]), {Same, Deleted});
      LinesMarkedAppend(f, Flatten(d[1..]), {Same, Added});
      LinesMarkedAppend(f, Flatten(d[1..]), {Same});
      SegmentLines(d[0].mark, d[0].items, {Same, Deleted});
      SegmentLines(d[0].mark, d[0].items, {Same, Added});
      SegmentLines(d[0].mark, d[0].items, {Same});
    }
  }

  /** Every marked line of a comparison is marked `=`, `-` or `+`. */
  lemma {:induction false} FlattenMarks(d: seq<Segment<string>>)
    requires WellFormed(d)
    ensures forall k :: 0 <= k < |Flatten(d)| ==> Flatten(d)[k].0 in {Same, Deleted, Added}
  {
    if d != [] {
      assert WellFormed(d[1..]) by {
        forall k | 0 <= k < |d[1..]| ensures d[1..][k].mark in {Same, Deleted, Added} && d[1..][k].items != [] {
          assert d[1..][k] == d[k + 1];
        }
      }
      FlattenMarks(d[1..]);
      var f := Marked(d[0].mark, d[0].items);
      assert Flatten(d) == f + Flatten(d[1..]);
      forall k | 0 <= k < |Flatten(d)| ensures Flatten(d)[k].0 in {Same, Deleted, Added} {
        if k >= |f| {
          assert Flatten(d)[k] == Flatten(d[1..])[k - |f|];
        }
      }
    }
  }

  /**
    The comparison reads back both sides: the `=`/`-` lines are the old
    rows' lines and the `=`/`+` lines the new rows' lines, in order; the
    count of changed lines is what lies outside the `=` segments on both sides.
  */
  lemma ComparedRoundTrip(oldRows: seq<seq<string>>, iOldStart: nat, nOldRows: nat,
                          newRows: seq<seq<string>>, iNewStart: nat, nNewRows: nat)
    requires iOldStart <= nOldRows <= |oldRows| && iNewStart <= nNewRows <= |newRows|
    ensures var flat := Compared(oldRows, iOldStart, nOldRows, newRows, iNewStart, nNewRows);
      && LinesMarked(flat, {Same, Deleted}) == Lines(oldRows, iOldStart, nOldRows)
      && LinesMarked(flat, {Same, Added}) == Lines(newRows, iNewStart, nNewRows)
      && CountChanged(flat) + 2 * |LinesMarked(flat, {Same})| == (nOldRows - iOldStart) + (nNewRows - iNewStart)
  {
    var a, b := Lines(oldRows, iOldStart, nOldRows), Lines(newRows, iNewStart, nNewRows);
    DiffRoundTrip(a, b);
    FlattenSides(Diff(a, b));
  }

  /** An empty cell at the end makes no difference once cut or padded. */
  lemma FitEmptyCell(cells: seq<string>, width: nat)
    ensures Fit(cells + [""], width) == Fit(cells, width)
  {
    var a, b := Fit(cells + [""], width), Fit(cells, width);
    forall i | 0 <= i < width ensures a[i] == b[i] {
      if i < |cells| {
        assert (cells + [""])[i] == cells[i];
      }
    }
  }

  /** A tab-free line of cells comes back as its cells behind the marker, cut or padded to the table width. */
  lemma LineRowCells(m: Mark, cells: seq<string>, nDiffHeaders: nat)
    requires forall k :: 0 <= k < |cells| ==> '\t' !in cells[k]
    ensures LineRow((m, Join(cells)), nDiffHeaders) == Fit([Text(m)] + cells, nDiffHeaders + 1)
  {
    var t := Text(m);
    assert '\t' !in t;
    SplitAtFirstTab(t, Join(cells));
    if cells == [] {
      assert SplitTabs("") == [""];
      FitEmptyCell([t], nDiffHeaders + 1);
    } else {
      SplitJoin(cells);
    }
  }

  /** The diff row of a marked line is as wide as the diff table and opens with the line's marker. */
  lemma LineRowMarker(entry: (Mark, string), nDiffHeaders: nat)
    ensures |LineRow(entry, nDiffHeaders)| == nDiffHeaders + 1
    ensures LineRow(entry, nDiffHeaders)[0] == Text(entry.0)
  {
    var line := Text(entry.0) + "\t" + entry.1;
    assert line[|Text(entry.0)|] == '\t';
    assert line[..|Text(entry.0)|] == Text(entry.0);
    assert TabAt(line) == |Text(entry.0)|;
  }

  /** Every appended row has one cell per merged header plus the marker, and the marker is `=`, `-` or `+`. */
  lemma ComparedRowsShape(oldRows: seq<seq<string>>, iOldStart: nat, nOldRows: nat,
                          newRows: seq<seq<string>>, iNewStart: nat, nNewRows: nat, nDiffHeaders: nat)
    requires iOldStart <= nOldRows <= |oldRows| && iNewStart <= nNewRows <= |newRows|
    ensures var rows := LineRows(Compared(oldRows, iOldStart, nOldRows, newRows, iNewStart, nNewRows), nDiffHeaders);
      forall k :: 0 <= k < |rows| ==> |rows[k]| == nDiffHeaders + 1 && rows[k][0] in {"=", "-", "+"}
  {
    var a, b := Lines(oldRows, iOldStart, nOldRows), Lines(newRows, iNewStart, nNewRows);
    var flat := Compared(oldRows, iOldStart, nOldRows, newRows, iNewStart, nNewRows);
    DiffRoundTrip(a, b);
    FlattenMarks(Diff(a, b));
    forall k | 0 <= k < |flat| ensures LineRow(flat[k], nDiffHeaders)[0] in {"=", "-", "+"} {
      LineRowMarker(flat[k], nDiffHeaders);
    }
  }

  /** No line counts as changed exactly when every line is marked `=`. */
  lemma {:induction false} CountChangedNone(flat: seq<(Mark, string)>)
    ensures CountChanged(flat) == 0 <==> forall k :: 0 <= k < |flat| ==> flat[k].0 == Same
  {
    if flat != [] {
      CountChangedNone(flat[1..]);
      assert forall k :: 1 <= k < |flat| ==> flat[k] == flat[1..][k - 1];
    }
  }

  /** The same, read off the marker cells of the appended rows. */
  lemma LineRowsUnchanged(flat: seq<(Mark, string)>, nDiffHeaders: nat)
    ensures CountChanged(flat) == 0 <==> forall k :: 0 <= k < |flat| ==> LineRows(flat, nDiffHeaders)[k][0] == "="
    ensures forall k :: 0 <= k < |flat| ==> |LineRows(flat, nDiffHeaders)[k]| == nDiffHeaders + 1
  {
    CountChangedNone(flat);
    forall k | 0 <= k < |flat|
      ensures |LineRows(flat, nDiffHeaders)[k]| == nDiffHeaders + 1
      ensures LineRows(flat, nDiffHeaders)[k][0] == "=" <==> flat[k].0 == Same
    {
      LineRowMarker(flat[k], nDiffHeaders);
      TextInjective(flat[k].0, Same);
    }
  }

  /** Identical rows compare as all `=` lines, with no change. */
  lemma ComparedIdentical(rows: seq<seq<string>>, start: nat, end: nat)
    requires start <= end <= |rows|
    ensures var flat := Compared(rows, start, end, rows, start, end);
      && CountChanged(flat) == 0
      && forall k :: 0 <= k < |flat| ==> flat[k].0 == Same
  {
    var a := Lines(rows, start, end);
    if a == [] {
      DiffEmpty<string>();
    } else {
      DiffIdentical(a);
      var f := Marked(Same, a);
      assert [Segment(Same, a)][1..] == [];
      assert Flatten([Segment(Same, a)]) == f + Flatten([]);
      assert f + [] == f;
      SegmentLines(Same, a, {});
    }
  }
}
