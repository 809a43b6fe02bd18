/**
  The cleaning of a sheet's values before a table is looked for, and the
  search for its header row: tabs become spaces, trailing empty rows and
  columns are cut and every row is padded to one width; the header row is
  the first row of distinct, non-empty cells (holding the key, when one is
  given); and the columns below it with no repeated value before the first
  empty cell are offered as possible keys.
*/
module Sheets {
  import opened Common
  import opened Preamble

  // ---------------------------------------------------------------------
  // Tabs

  /** `cell.replace("\t", " ")`. */
  function Untab(cell: string): (r: string)
    ensures |r| == |cell| && '\t' !in r
  {
    seq(|cell|, k requires 0 <= k < |cell| => if cell[k] == '\t' then ' ' else cell[k])
  }

  /** Every cell of every row with its tabs replaced. */
  function Untabbed(rows: seq<seq<string>>): (r: seq<seq<string>>)
    ensures |r| == |rows|
  {
    seq(|rows|, i requires 0 <= i < |rows| => seq(|rows[i]|, j requires 0 <= j < |rows[i]| => Untab(rows[i][j])))
  }

  /** A cell without tabs is left as it is, so replacing twice is replacing once. */
  lemma UntabKeeps(cell: string)
    requires '\t' !in cell
    ensures Untab(cell) == cell
  {
    forall k | 0 <= k < |cell| ensures Untab(cell)[k] == cell[k] {
      assert cell[k] in cell;
    }
  }

  /** After the replacement no cell holds a tab, the row shapes are kept, and a second pass changes nothing. */
  lemma UntabbedShape(rows: seq<seq<string>>)
    ensures var r := Untabbed(rows);
      && (forall i :: 0 <= i < |r| ==> |r[i]| == |rows[i]|)
      && (forall i, j :: 0 <= i < |r| && 0 <= j < |r[i]| ==> '\t' !in r[i][j])
      && Untabbed(r) == r
  {
    var r := Untabbed(rows);
    forall i | 0 <= i < |r| ensures Untabbed(r)[i] == r[i] {
      forall j | 0 <= j < |r[i]| ensures Untab(r[i][j]) == r[i][j] {
        UntabKeeps(r[i][j]);
      }
    }
  }

  // ---------------------------------------------------------------------
  // Trimming and padding

  /** The number of cells of a row up to its last non-empty one. */
  function Used(row: seq<string>): nat
  {
    |RemoveTrailingEmpties(row)|
  }

  /** The widest used part of any row. */
  function Width(rows: seq<seq<string>>): (w: nat)
    ensures forall i :: 0 <= i < |rows| ==> Used(rows[i]) <= w
    ensures rows == [] ==> w == 0
  {
    if rows == [] then 0
    else
      var init := rows[..|rows| - 1];
      var w := Width(init);
      var u := Used(rows[|rows| - 1]);
      assert forall i :: 0 <= i < |init| ==> rows[i] == init[i];
      if u > w then u else w
  }

  /** No row is used beyond a bound: neither is the widest. */
  lemma {:induction false} WidthLeast(rows: seq<seq<string>>, b: nat)
    requires forall i :: 0 <= i < |rows| ==> Used(rows[i]) <= b
    ensures Width(rows) <= b
  {
    if rows != [] {
      var init := rows[..|rows| - 1];
      assert forall i :: 0 <= i < |init| ==> init[i] == rows[i];
      WidthLeast(init, b);
    }
  }

  /** A row as wide as the widest used part. */
  lemma {:induction false} WidestRow(rows: seq<seq<string>>) returns (i: nat)
    requires rows != []
    ensures i < |rows| && Used(rows[i]) == Width(rows)
  {
    var init := rows[..|rows| - 1];
    if init == [] || Used(rows[|rows| - 1]) > Width(init) {
      i := |rows| - 1;
    } else {
      i := WidestRow(init);
      assert rows[i] == init[i];
    }
  }

  /** The number of rows up to the last one with a non-empty cell. */
  function Depth(rows: seq<seq<string>>): (d: nat)
    ensures d <= |rows|
    ensures forall i :: d <= i < |rows| ==> Used(rows[i]) == 0
    ensures d > 0 ==> Used(rows[d - 1]) > 0
  {
    if rows == [] then 0
    else if Used(rows[|rows| - 1]) > 0 then |rows|
    else
      var init := rows[..|rows| - 1];
      assert forall i :: 0 <= i < |init| ==> rows[i] == init[i];
      Depth(init)
  }

  /** What `TrimAndPad` leaves: the rows up to the last non-empty one, each cut or padded to the widest used part. */
  function Trimmed(rows: seq<seq<string>>): (r: seq<seq<string>>)
    ensures |r| == Depth(rows)
    ensures forall i :: 0 <= i < |r| ==> |r[i]| == Width(rows)
  {
    seq(Depth(rows), i requires 0 <= i < Depth(rows) => Fit(rows[i], Width(rows)))
  }

  /** A row has no non-empty cell from `Used` on. */
  lemma UsedBound(row: seq<string>, j: nat)
    requires Used(row) <= j < |row|
    ensures row[j] == ""
  {
  }

  /**
    Trimming loses nothing: every cell it cuts off, a whole row or the end of
    a row, was empty; every cell it keeps is unchanged; and the padding is
    empty.
  */
  lemma TrimmedKeepsCells(rows: seq<seq<string>>)
    ensures var r := Trimmed(rows);
      && (forall i, j :: 0 <= i < |r| && 0 <= j < |r[i]| ==> r[i][j] == if j < |rows[i]| then rows[i][j] else "")
      && (forall i, j :: 0 <= i < |rows| && 0 <= j < |rows[i]| && (i >= |r| || j >= Width(rows)) ==> rows[i][j] == "")
  {
    forall i, j | 0 <= i < |rows| && 0 <= j < |rows[i]| && (i >= Depth(rows) || j >= Width(rows))
      ensures rows[i][j] == ""
    {
      UsedBound(rows[i], j);
    }
  }

  lemma UsedCell(row: seq<string>)
    requires Used(row) > 0
    ensures row[Used(row) - 1] != ""
  {
    assert RemoveTrailingEmpties(row)[Used(row) - 1] == row[Used(row) - 1];
  }

  /** Nothing is left exactly when no cell is used. */
  lemma TrimmedEmpty(rows: seq<seq<string>>)
    ensures Depth(rows) == 0 <==> Width(rows) == 0
  {
    var d, w := Depth(rows), Width(rows);
    if d > 0 {
      assert Used(rows[d - 1]) <= w;
    }
    if w > 0 {
      var i := WidestRow(rows);
      assert i < d;
    }
  }

  lemma TrimmedRow(rows: seq<seq<string>>, i: nat)
    requires i < Depth(rows)
    ensures Trimmed(rows)[i] == Fit(rows[i], Width(rows))
  {
  }

  /**
    Trimming is tight below: unless nothing is left, the last row kept has a
    non-empty cell, in column `j`.
  */
  lemma TrimmedLastRowUsed(rows: seq<seq<string>>) returns (j: nat)
    ensures |Trimmed(rows)| > 0 ==>
      j < Width(rows) && Trimmed(rows)[|Trimmed(rows)| - 1][j] != ""
  {
    var d, w := Depth(rows), Width(rows);
    j := 0;
    if d > 0 {
      assert Used(rows[d - 1]) <= w;
      j := Used(rows[d - 1]) - 1;
      UsedCell(rows[d - 1]);
      TrimmedRow(rows, d - 1);
    }
  }

  /**
    Trimming is tight on the right: unless nothing is left, row `i` of what is
    kept has a non-empty cell in the last column.
  */
  lemma TrimmedLastColumnUsed(rows: seq<seq<string>>) returns (i: nat)
    ensures |Trimmed(rows)| > 0 ==>
      Width(rows) > 0 && i < |Trimmed(rows)| && Trimmed(rows)[i][Width(rows) - 1] != ""
  {
    var d, w := Depth(rows), Width(rows);
    i := 0;
    if d > 0 {
      TrimmedEmpty(rows);
      i := WidestRow(rows);
      assert i < d;
      UsedCell(rows[i]);
      TrimmedRow(rows, i);
    }
  }

  /** The used part of a row survives cutting or padding to at least its length. */
  lemma UsedFit(row: seq<string>, w: nat)
    requires Used(row) <= w
    ensures Used(Fit(row, w)) == Used(row)
  {
    var u := Used(row);
    var f := Fit(row, w);
    RemoveTrailingEmptiesIsShortest(f, u);
    if u > 0 {
      UsedCell(row);
      assert f[u - 1] != "";
    }
  }

  /** Every row of a trimmed sheet keeps its used part. */
  lemma TrimmedUsed(rows: seq<seq<string>>)
    ensures forall i :: 0 <= i < |Trimmed(rows)| ==> Used(Trimmed(rows)[i]) == Used(rows[i])
  {
    var r, w := Trimmed(rows), Width(rows);
    forall i | 0 <= i < |r| ensures Used(r[i]) == Used(rows[i]) {
      TrimmedRow(rows, i);
      UsedFit(rows[i], w);
    }
  }

  /** So the widest row and the last used row stay where they were. */
  lemma TrimmedExtent(rows: seq<seq<string>>)
    ensures Width(Trimmed(rows)) == Width(rows) && Depth(Trimmed(rows)) == Depth(rows)
  {
    var r, d, w := Trimmed(rows), Depth(rows), Width(rows);
    TrimmedUsed(rows);
    TrimmedEmpty(rows);
    if d > 0 {
      var i := WidestRow(rows);
      assert i < d;
      assert Used(r[i]) == w;
      assert Used(r[d - 1]) > 0;
      WidthLeast(r, w);
    }
  }

  /** Trimming a trimmed sheet changes nothing. */
  lemma TrimmedIdempotent(rows: seq<seq<string>>)
    ensures Trimmed(Trimmed(rows)) == Trimmed(rows)
  {
    var r, w := Trimmed(rows), Width(rows);
    TrimmedExtent(rows);
    forall i | 0 <= i < |r| ensures Trimmed(r)[i] == r[i] {
      TrimmedRow(r, i);
      FitWhole(r[i], w);
    }
  }

  /** Fitting a row to its own width leaves it as it is. */
  lemma FitWhole(row: seq<string>, width: nat)
    requires |row| == width
    ensures Fit(row, width) == row
  {
  }

  // ---------------------------------------------------------------------
  // The sheet's values, cleaned in place

  /** The values of a sheet, one list of cell strings per row. */
  class Sheet {
    var rows: seq<seq<string>>

    constructor(rows: seq<seq<string>>)
      ensures this.rows == rows
    {
      this.rows := rows;
    }

    /** `NoTabs`: every tab in every cell becomes a space. */
    method NoTabs()
      modifies this
      ensures rows == Untabbed(old(rows))
    {
      var i := 0;
      while i < |rows|
        invariant 0 <= i <= |rows| == |old(rows)|
        invariant forall k :: 0 <= k < i ==> rows[k] == Untabbed(old(rows))[k]
        invariant forall k :: i <= k < |rows| ==> rows[k] == old(rows)[k]
      {
        var row := rows[i];
        var j := 0;
        while j < |row|
          invariant 0 <= j <= |row| == |rows[i]|
          invariant forall q :: 0 <= q < j ==> row[q] == Untab(rows[i][q])
          invariant forall q :: j <= q < |row| ==> row[q] == rows[i][q]
        {
          row := row[j := Untab(row[j])];
          j := j + 1;
        }
        rows := rows[i := row];
        i := i + 1;
      }
    }

    /** `TrimAndPad`: drops the rows after the last non-empty one and cuts or pads every row to the widest used part. */
    method TrimAndPad()
      modifies this
      ensures rows == Trimmed(old(rows))
    {
      var nRows, nColumns := Extent(rows);
      rows := rows[..nRows];
      var i := 0;
      while i < nRows
        invariant 0 <= i <= nRows == |rows|
        invariant forall k :: 0 <= k < i ==> rows[k] == Fit(old(rows)[k], nColumns)
        invariant forall k :: i <= k < nRows ==> rows[k] == old(rows)[k]
      {
        var row := rows[i];
        if |row| > nColumns {
          row := row[..nColumns];
        }
        CutAndPad(rows[i], nColumns, row);
        var padding := seq(nColumns - |row|, j => "");
        row := row + padding;
        rows := rows[i := row];
        i := i + 1;
      }
    }
  }

  /** Cutting a row to `width` cells, or padding it with empty cells up to `width`, is `Fit`. */
  lemma CutAndPad(row: seq<string>, width: nat, cut: seq<string>)
    requires cut == if |row| > width then row[..width] else row
    ensures cut + seq(width - |cut|, j => "") == Fit(row, width)
  {
  }

  /** The scan of `TrimAndPad`: the number of rows up to the last non-empty one, and the widest used part. */
  method Extent(rows: seq<seq<string>>) returns (nRows: nat, nColumns: nat)
    ensures nRows == Depth(rows) && nColumns == Width(rows)
  {
    var iLastRow: int := -1;
    var jLastColumn: int := -1;
    var i := 0;
    while i < |rows|
      invariant 0 <= i <= |rows|
      invariant iLastRow + 1 == Depth(rows[..i])
      invariant jLastColumn + 1 == Width(rows[..i])
    {
      var row := rows[i];
      var jLastThisRow := LastUsed(row);
      if jLastThisRow > jLastColumn {
        jLastColumn := jLastThisRow;
      }
      if jLastThisRow >= 0 {
        iLastRow := i;
        if jLastThisRow > jLastColumn {
          jLastColumn := jLastThisRow;
        }
      }
      assert rows[..i + 1][..i] == rows[..i];
      i := i + 1;
    }
    assert rows[..i] == rows;
    nRows := iLastRow + 1;
    nColumns := jLastColumn + 1;
  }

  /** The inner scan of `TrimAndPad`: the position of the last non-empty cell of a row, or -1. */
  method LastUsed(row: seq<string>) returns (jLastThisRow: int)
    ensures jLastThisRow + 1 == Used(row)
  {
    jLastThisRow := -1;
    var j := |row| - 1;
    while j >= 0
      invariant -1 <= j < |row|
      invariant forall q :: j < q < |row| ==> row[q] == ""
    {
      if row[j] != "" {
        jLastThisRow := j;
        break;
      }
      j := j - 1;
    }
    RemoveTrailingEmptiesIsShortest(row, jLastThisRow + 1);
  }

  // ---------------------------------------------------------------------
  // The header row

  /** `next((j for j, v in enumerate(row) if v == ''), len(row))`: the number of cells before the first empty one. */
  function LeadingValues(row: seq<string>): (n: nat)
    ensures n <= |row|
    ensures forall j :: 0 <= j < n ==> row[j] != ""
    ensures n < |row| ==> row[n] == ""
  {
    if "" in row then FirstIndex(row, "") else |row|
  }

  /**
    The test a row must pass to be the header row: as many leading values
    as the first row has cells, the key among its cells when one is given,
    and as many distinct values as leading values.
  */
  predicate HeaderCandidate(row: seq<string>, nColumns: nat, key: string)
  {
    && LeadingValues(row) == nColumns
    && (key == "" || key in row)
    && |set v | v in row| == LeadingValues(row)
  }

  /** The first candidate row from row `r` on. */
  function FirstHeaderRow(rows: seq<seq<string>>, nColumns: nat, key: string, r: nat): (found: Option<nat>)
    ensures found.Some? ==> r <= found.value < |rows| && HeaderCandidate(rows[found.value], nColumns, key)
    ensures forall q :: r <= q < |rows| && (found.None? || q < found.value) ==> !HeaderCandidate(rows[q], nColumns, key)
    decreases |rows| - r
  {
    if r >= |rows| then None
    else if HeaderCandidate(rows[r], nColumns, key) then Some(r)
    else FirstHeaderRow(rows, nColumns, key, r + 1)
  }

  /** In a row as wide as the first, the test means: no empty cell, no repeated cell, and the key present. */
  lemma HeaderCandidateMeaning(row: seq<string>, nColumns: nat, key: string)
    requires |row| == nColumns
    ensures HeaderCandidate(row, nColumns, key) <==> "" !in row && Distinct(row) && (key == "" || key in row)
  {
    assert (set v | v in row) == Elements(row);
    if "" !in row {
      ElementsBound(row);
      if Distinct(row) {
        DistinctCard(row);
      }
    } else {
      assert LeadingValues(row) < |row|;
    }
  }

  /** The cells of column `j` from row `start` down to the first empty one. */
  function ColumnRun(rows: seq<seq<string>>, start: nat, j: nat): (run: seq<string>)
    requires forall i :: 0 <= i < |rows| ==> j < |rows[i]|
    ensures "" !in run
    decreases |rows| - start
  {
    if start >= |rows| || rows[start][j] == "" then []
    else [rows[start][j]] + ColumnRun(rows, start + 1, j)
  }

  /** The headers among the first `k` whose column below the header row is a run of distinct values. */
  function PossibleKeys(rows: seq<seq<string>>, iHeaders: nat, k: nat): (keys: seq<string>)
    requires iHeaders < |rows| && k <= |rows[iHeaders]|
    requires forall i :: 0 <= i < |rows| ==> |rows[i]| == |rows[iHeaders]|
    ensures |keys| <= k
  {
    if k == 0 then []
    else
      PossibleKeys(rows, iHeaders, k - 1)
        + (if Distinct(ColumnRun(rows, iHeaders + 1, k - 1)) then [rows[iHeaders][k - 1]] else [])
  }

  /** A header is offered as a key exactly when its column holds no repeat before the first empty cell. */
  lemma {:induction false} PossibleKeysMeaning(rows: seq<seq<string>>, iHeaders: nat, k: nat)
    requires iHeaders < |rows| && k <= |rows[iHeaders]|
    requires forall i :: 0 <= i < |rows| ==> |rows[i]| == |rows[iHeaders]|
    requires Distinct(rows[iHeaders])
    ensures forall j :: 0 <= j < |rows[iHeaders]| ==>
      (rows[iHeaders][j] in PossibleKeys(rows, iHeaders, k) <==> j < k && Distinct(ColumnRun(rows, iHeaders + 1, j)))
  {
    if k > 0 {
      PossibleKeysMeaning(rows, iHeaders, k - 1);
    }
  }

  lemma AppendEmptyRun(rows: seq<seq<string>>, seen: seq<string>, i: nat, j: nat)
    requires forall i :: 0 <= i < |rows| ==> j < |rows[i]|
    requires i >= |rows| || rows[i][j] == ""
    ensures seen + ColumnRun(rows, i, j) == seen
  {
    assert ColumnRun(rows, i, j) == [];
  }

  lemma DistinctSnoc(seen: seq<string>, v: string)
    requires Distinct(seen) && v !in seen
    ensures Distinct(seen + [v]) && Elements(seen + [v]) == Elements(seen) + {v}
  {
  }

  lemma RepeatNotDistinct(seen: seq<string>, v: string, rest: seq<string>)
    requires v in seen
    ensures !Distinct(seen + ([v] + rest))
  {
    var p :| 0 <= p < |seen| && seen[p] == v;
    var run := seen + ([v] + rest);
    assert run[p] == v && run[|seen|] == v;
  }

  /** The duplicate scan of one column: whether a value repeats before the first empty cell. */
  method ColumnHasDuplicate(rows: seq<seq<string>>, start: nat, j: nat) returns (dupeFound: bool)
    requires forall i :: 0 <= i < |rows| ==> j < |rows[i]|
    ensures dupeFound == !Distinct(ColumnRun(rows, start, j))
  {
    dupeFound := false;
    var colValues: set<string> := {};
    ghost var seen: seq<string> := [];
    var i := start;
    while i < |rows|
      invariant start <= i
      invariant ColumnRun(rows, start, j) == seen + ColumnRun(rows, i, j)
      invariant colValues == Elements(seen) && Distinct(seen)
      decreases |rows| - i
    {
      var v := rows[i][j];
      if v == "" {
        AppendEmptyRun(rows, seen, i, j);
        break;
      }
      ghost var rest := ColumnRun(rows, i + 1, j);
      assert ColumnRun(rows, i, j) == [v] + rest;
      if v in colValues {
        dupeFound := true;
        RepeatNotDistinct(seen, v, rest);
        break;
      }
      colValues := colValues + {v};
      DistinctSnoc(seen, v);
      AppendAssoc(seen, [v], rest);
      seen := seen + [v];
      i := i + 1;
    }
    if i >= |rows| {
      AppendEmptyRun(rows, seen, i, j);
    }
  }

  /** The header row found, if any, and the headers offered as keys. */
  datatype HeaderGuess = HeaderGuess(iHeaders: Option<nat>, possibleKeys: seq<string>)

  /**
    `GuessHeaderRow`: the first candidate row, and for it the headers whose
    column holds no repeat before its first empty cell. Rows are as
    `TrimAndPad` leaves them: all as wide as the first. A sheet with no
    row at all (a blank sheet trims to none) fails on reading the width of
    its first row.
  */
  method GuessHeaderRow(rows: seq<seq<string>>, key: string) returns (guess: Result<HeaderGuess>)
    requires forall i :: 0 <= i < |rows| ==> |rows[i]| == |rows[0]|
    ensures guess.Err? <==> |rows| == 0
    ensures guess.Err? ==> guess.error == BlankSheet
    ensures guess.Ok? ==> guess.value.iHeaders == FirstHeaderRow(rows, |rows[0]|, key, 0)
    ensures guess.Ok? ==>
      guess.value.possibleKeys
        == if guess.value.iHeaders.None? then [] else PossibleKeys(rows, guess.value.iHeaders.value, |rows[0]|)
  {
    if |rows| == 0 {
      return Err(BlankSheet);
    }
    var iHeaders: Option<nat> := None;
    var nColumns := |rows[0]|;
    var r := 0;
    while r < |rows|
      invariant 0 <= r <= |rows|
      invariant FirstHeaderRow(rows, nColumns, key, 0) == FirstHeaderRow(rows, nColumns, key, r)
    {
      var row := rows[r];
      var nValues := if "" in row then FirstIndex(row, "") else |row|;
      if nValues != nColumns {
        r := r + 1;
        continue;
      }
      if key != "" && key !in row {
        r := r + 1;
        continue;
      }
      var nSetItems := |set v | v in row|;
      if nSetItems != nValues {
        r := r + 1;
        continue;
      }
      iHeaders := Some(r);
      break;
    }
    var possibleKeys: seq<string> := [];
    if iHeaders.Some? {
      var headers := rows[iHeaders.value];
      var j := 0;
      while j < |headers|
        invariant 0 <= j <= |headers| == nColumns
        invariant possibleKeys == PossibleKeys(rows, iHeaders.value, j)
      {
        var dupeFound := ColumnHasDuplicate(rows, iHeaders.value + 1, j);
        if !dupeFound {
          possibleKeys := possibleKeys + [headers[j]];
        }
        j := j + 1;
      }
    }
    guess := Ok(HeaderGuess(iHeaders, possibleKeys));
  }

  // ---------------------------------------------------------------------
  // Renaming a header that is already taken

  /** The decimal digit of `d`. */
  function Digit(d: nat): char
    requires d < 10
  {
    "0123456789"[d]
  }

  /** `str(n)`: the decimal numeral of `n`. */
  function NatStr(n: nat): (s: string)
    ensures 1 <= |s| && (|s| == 1 <==> n < 10)
    ensures s[|s| - 1] == Digit(n % 10)
    decreases n
  {
    if n < 10 then [Digit(n)] else NatStr(n / 10) + [Digit(n % 10)]
  }

  /** Different numbers have different numerals. */
  lemma {:induction false} NatStrInjective(a: nat, b: nat)
    requires NatStr(a) == NatStr(b)
    ensures a == b
    decreases a
  {
    var s := NatStr(a);
    assert Digit(a % 10) == Digit(b % 10);
    assert a % 10 == b % 10 by {
      var x, y := a % 10, b % 10;
      assert "0123456789"[x] == "0123456789"[y];
    }
    if a >= 10 {
      assert NatStr(a)[..|s| - 1] == NatStr(a / 10);
      assert NatStr(b)[..|s| - 1] == NatStr(b / 10);
      NatStrInjective(a / 10, b / 10);
    }
  }

  /** `header + "_" + str(i)`. */
  function Suffixed(header: string, i: nat): string
  {
    header + "_" + NatStr(i)
  }

  lemma SuffixedInjective(header: string, a: nat, b: nat)
    requires Suffixed(header, a) == Suffixed(header, b)
    ensures a == b
  {
    var p := header + "_";
    assert NatStr(a) == Suffixed(header, a)[|p|..];
    assert NatStr(b) == Suffixed(header, b)[|p|..];
    NatStrInjective(a, b);
  }

  /** A set holding `header_1` to `header_i` has at least `i` names. */
  lemma {:induction false} TakenSuffixes(header: string, names: set<string>, i: nat)
    requires forall k :: 1 <= k <= i ==> Suffixed(header, k) in names
    ensures i <= |names|
  {
    if i > 0 {
      var last := Suffixed(header, i);
      var rest := names - {last};
      forall k | 1 <= k <= i - 1 ensures Suffixed(header, k) in rest {
        if Suffixed(header, k) == last {
          SuffixedInjective(header, k, i);
        }
      }
      TakenSuffixes(header, rest, i - 1);
    }
  }

  /** The smallest `k >= i` for which `header_k` is not taken. */
  function FirstFreeSuffix(header: string, names: set<string>, i: nat): (k: nat)
    requires 1 <= i && forall q :: 1 <= q < i ==> Suffixed(header, q) in names
    ensures i <= k && Suffixed(header, k) !in names
    ensures forall q :: i <= q < k ==> Suffixed(header, q) in names
    decreases |names| + 1 - i
  {
    if Suffixed(header, i) !in names then i
    else
      TakenSuffixes(header, names, i);
      FirstFreeSuffix(header, names, i + 1)
  }

  /** The name `UniqueName` picks: the header itself when free, else `header_k` for the smallest free `k >= 1`. */
  function Renamed(header: string, names: set<string>): (h: string)
    ensures h !in names
    ensures header !in names ==> h == header
    ensures header in names ==>
      exists k :: 1 <= k && h == Suffixed(header, k) && (forall q :: 1 <= q < k ==> Suffixed(header, q) in names)
  {
    if header !in names then header
    else Suffixed(header, FirstFreeSuffix(header, names, 1))
  }

  /** The first free suffix is the only free one with every smaller one taken. */
  lemma {:induction false} FirstFreeSuffixUnique(header: string, names: set<string>, i: nat, k: nat)
    requires 1 <= i <= k && forall q :: 1 <= q < k ==> Suffixed(header, q) in names
    requires Suffixed(header, k) !in names
    ensures FirstFreeSuffix(header, names, i) == k
    decreases k - i
  {
    if i < k {
      TakenSuffixes(header, names, i);
      FirstFreeSuffixUnique(header, names, i + 1, k);
    }
  }

  /** The set of header names already used in the merged table. */
  class HeaderSet {
    var names: set<string>

    constructor(names: set<string>)
      ensures this.names == names
    {
      this.names := names;
    }

    /** `UniqueName`: a name for `header` not yet in the set, which is then added to it. */
    method UniqueName(header: string) returns (h: string)
      modifies this
      ensures h == Renamed(header, old(names))
      ensures names == old(names) + {h}
    {
      if header !in names {
        names := names + {header};
        return header;
      }
      var i := 0;
      h := "";
      while true
        invariant names == old(names)
        invariant forall k :: 1 <= k <= i ==> Suffixed(header, k) in names
        invariant i <= |names|
        decreases |names| - i
      {
        i := i + 1;
        h := Suffixed(header, i);
        if h !in names {
          break;
        }
        TakenSuffixes(header, names, i);
      }
      FirstFreeSuffixUnique(header, names, 1, i);
      names := names + {h};
    }
  }
}
