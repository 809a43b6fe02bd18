/**
  The keyed row reconciler (`CompareBody`). The body of each table is the
  rows between its header row and its trailing boundary; each body row is
  identified by its key cell. Rows are laid out by the same rule as the
  header columns (module `Interleave`, applied to the two key lists), and
  each row is written against the merged header list: `-` for a deleted key,
  `+` for an added one, `=` for a key whose compared cells agree, and a
  `c-`/`c+` pair for one whose compared cells differ.
*/
module Body {
  import opened Common
  import opened Marks
  import opened Interleave
  import opened Output

  /** One table as `CompareBody` sees it: all of its rows, the header row, the trailing boundary and the key column. */
  datatype Side = Side(rows: seq<seq<string>>, iHeaders: nat, iTrailing: nat, jKey: nat)

  /**
    The header row precedes the boundary, the key column lies inside the
    rows, and every row is as wide as the header row (the shape the sheet
    loader leaves behind).
  */
  predicate WellShaped(s: Side)
  {
    && s.iHeaders < s.iTrailing <= |s.rows|
    && s.jKey < |s.rows[s.iHeaders]|
    && forall r :: 0 <= r < |s.rows| ==> |s.rows[r]| == |s.rows[s.iHeaders]|
  }

  function Headers(s: Side): seq<string>
    requires s.iHeaders < |s.rows|
  {
    s.rows[s.iHeaders]
  }

  /** The number of body rows. */
  function Height(s: Side): nat
    requires WellShaped(s)
  {
    s.iTrailing - s.iHeaders - 1
  }

  /** Body row `t`, that is row `iHeaders + 1 + t` of the sheet. */
  function BodyRow(s: Side, t: nat): (row: seq<string>)
    requires WellShaped(s) && t < Height(s)
    ensures |row| == |Headers(s)|
  {
    s.rows[s.iHeaders + 1 + t]
  }

  /** The key cells of the body rows, in order. */
  function Keys(s: Side): (keys: seq<string>)
    requires WellShaped(s)
    ensures |keys| == Height(s)
  {
    seq(Height(s), t requires 0 <= t < Height(s) => BodyRow(s, t)[s.jKey])
  }

  /** `row[index[h]] if h in index else ''`: the cell of column `h`, empty when the table lacks it. */
  function Value(s: Side, row: seq<string>, h: string): string
    requires s.iHeaders < |s.rows| && |row| == |Headers(s)|
  {
    if h in Headers(s) then row[LastIndex(Headers(s), h)] else ""
  }

  /** One row's cells under the merged headers. */
  function Cells(s: Side, row: seq<string>, diffHeaders: seq<string>): (cells: seq<string>)
    requires s.iHeaders < |s.rows| && |row| == |Headers(s)|
    ensures |cells| == |diffHeaders|
  {
    seq(|diffHeaders|, p requires 0 <= p < |diffHeaders| => Value(s, row, diffHeaders[p]))
  }

  /** The cells of a matched key's `=` or `c+` row: new values, with old values in the columns only the old table has. */
  function MatchedCells(o: Side, oldRow: seq<string>, n: Side, newRow: seq<string>, diffHeaders: seq<string>): (cells: seq<string>)
    requires o.iHeaders < |o.rows| && |oldRow| == |Headers(o)|
    requires n.iHeaders < |n.rows| && |newRow| == |Headers(n)|
    ensures |cells| == |diffHeaders|
  {
    seq(|diffHeaders|, p requires 0 <= p < |diffHeaders| =>
      if diffHeaders[p] in Headers(o) && diffHeaders[p] !in Headers(n) then Value(o, oldRow, diffHeaders[p])
      else Value(n, newRow, diffHeaders[p]))
  }

  /** The cells of a `c-` row: old values where the old table has the column, new values elsewhere. */
  function ChangedOldCells(o: Side, oldRow: seq<string>, n: Side, newRow: seq<string>, diffHeaders: seq<string>): (cells: seq<string>)
    requires o.iHeaders < |o.rows| && |oldRow| == |Headers(o)|
    requires n.iHeaders < |n.rows| && |newRow| == |Headers(n)|
    ensures |cells| == |diffHeaders|
  {
    seq(|diffHeaders|, p requires 0 <= p < |diffHeaders| =>
      if diffHeaders[p] in Headers(o) then Value(o, oldRow, diffHeaders[p]) else Value(n, newRow, diffHeaders[p]))
  }

  /** The two rows agree on every column both tables have, except the ignored ones. */
  predicate SameOnCompared(o: Side, oldRow: seq<string>, n: Side, newRow: seq<string>, ignoreHeaders: seq<string>)
    requires o.iHeaders < |o.rows| && |oldRow| == |Headers(o)|
    requires n.iHeaders < |n.rows| && |newRow| == |Headers(n)|
  {
    forall h :: h in Headers(o) && h in Headers(n) && h !in ignoreHeaders ==> Value(o, oldRow, h) == Value(n, newRow, h)
  }

  /** The `-` row of old body row `i`. */
  function DeletedRow(o: Side, diffHeaders: seq<string>, i: nat): seq<string>
    requires WellShaped(o) && i < Height(o)
  {
    [Text(Deleted)] + Cells(o, BodyRow(o, i), diffHeaders)
  }

  /** The `+` row of new body row `j`. */
  function AddedRow(n: Side, diffHeaders: seq<string>, j: nat): seq<string>
    requires WellShaped(n) && j < Height(n)
  {
    [Text(Added)] + Cells(n, BodyRow(n, j), diffHeaders)
  }

  /** The rows written for the key of new body row `j` when old body row `i` has the same key. */
  function MatchedRows(o: Side, n: Side, diffHeaders: seq<string>, ignoreHeaders: seq<string>, i: nat, j: nat): seq<seq<string>>
    requires WellShaped(o) && i < Height(o) && WellShaped(n) && j < Height(n)
  {
    var oldRow, newRow := BodyRow(o, i), BodyRow(n, j);
    if SameOnCompared(o, oldRow, n, newRow, ignoreHeaders) then
      [[Text(Same)] + MatchedCells(o, oldRow, n, newRow, diffHeaders)]
    else
      [[Text(ChangedOld)] + ChangedOldCells(o, oldRow, n, newRow, diffHeaders),
       [Text(ChangedNew)] + MatchedCells(o, oldRow, n, newRow, diffHeaders)]
  }

  /** The rows one slot of the key layout stands for. */
  function SlotRows(o: Side, n: Side, diffHeaders: seq<string>, ignoreHeaders: seq<string>, s: Slot): seq<seq<string>>
    requires WellShaped(o) && WellShaped(n) && Fits(Keys(o), Keys(n), s)
  {
    match s
    case FromOld(i) => [DeletedRow(o, diffHeaders, i)]
    case FromNew(j) =>
      if Keys(n)[j] in Keys(o) then MatchedRows(o, n, diffHeaders, ignoreHeaders, LastIndex(Keys(o), Keys(n)[j]), j)
      else [AddedRow(n, diffHeaders, j)]
  }

  /** The rows of a sequence of slots, in order. */
  function RowsOf(o: Side, n: Side, diffHeaders: seq<string>, ignoreHeaders: seq<string>, L: seq<Slot>): seq<seq<string>>
    requires WellShaped(o) && WellShaped(n)
  {
    if L == [] then []
    else
      (if Fits(Keys(o), Keys(n), L[0]) then SlotRows(o, n, diffHeaders, ignoreHeaders, L[0]) else [])
      + RowsOf(o, n, diffHeaders, ignoreHeaders, L[1..])
  }

  // ---------------------------------------------------------------------
  // Key validation

  /**
    The first bad key from position `i` on: an empty key, or one already seen
    before it. Rows are reported by their sheet row number (0-based).
  */
  function KeyErrorFrom(keys: seq<string>, i: nat, table: Which, offset: nat): Option<Error>
    decreases |keys| - i
  {
    if i >= |keys| then None
    else if keys[i] == "" then Some(EmptyKey(table, offset + i))
    else if keys[i] in keys[..i] then Some(DuplicateKey(table, offset + i, keys[i]))
    else KeyErrorFrom(keys, i + 1, table, offset)
  }

  function KeyError(keys: seq<string>, table: Which, offset: nat): Option<Error>
  {
    KeyErrorFrom(keys, 0, table, offset)
  }

  /** `{ key: row }` built key by key; a repeated key keeps its later row. */
  function KeyIndex(keys: seq<string>, offset: nat): map<string, nat>
  {
    if keys == [] then map[] else KeyIndex(keys[..|keys| - 1], offset)[keys[|keys| - 1] := offset + |keys| - 1]
  }

  lemma {:induction false} KeyIndexLookup(keys: seq<string>, offset: nat, k: string)
    ensures k in KeyIndex(keys, offset) <==> k in keys
    ensures k in keys ==> KeyIndex(keys, offset)[k] == offset + LastIndex(keys, k)
  {
    if keys != [] {
      var init := keys[..|keys| - 1];
      KeyIndexLookup(init, offset, k);
      assert keys == init + [keys[|keys| - 1]];
      if k in keys && k != keys[|keys| - 1] {
        var t :| 0 <= t < |keys| && keys[t] == k;
        assert init[t] == k;
      }
    }
  }

  /** `index` holds exactly the keys, each mapped to `offset` plus its last position. */
  ghost predicate IndexOf(index: map<string, nat>, keys: seq<string>, offset: nat)
  {
    forall k {:trigger k in index} :: (k in index <==> k in keys) && (k in keys ==> index[k] == offset + LastIndex(keys, k))
  }

  lemma KeyIndexIsIndex(keys: seq<string>, offset: nat)
    ensures IndexOf(KeyIndex(keys, offset), keys, offset)
  {
    forall k ensures (k in KeyIndex(keys, offset) <==> k in keys)
                  && (k in keys ==> KeyIndex(keys, offset)[k] == offset + LastIndex(keys, k)) {
      KeyIndexLookup(keys, offset, k);
    }
  }

  /** Columns named for `--ignore` that are not in both header rows. */
  function BadIgnores(o: Side, n: Side, ignoreHeaders: seq<string>): set<string>
    requires o.iHeaders < |o.rows| && n.iHeaders < |n.rows|
  {
    set h | h in ignoreHeaders && !(h in Headers(o) && h in Headers(n))
  }

  // ---------------------------------------------------------------------
  // The whole comparison

  /**
    What `CompareBody` returns and what it appends: a key error (old keys
    first) with nothing appended; a bad ignore column after the leading
    deleted rows were appended; or the change count of all the body rows.
  */
  function BodyOutcome(o: Side, n: Side, diffHeaders: seq<string>, ignoreHeaders: seq<string>)
    : (Result<nat>, seq<seq<string>>)
    requires WellShaped(o) && WellShaped(n)
  {
    var oldKeys, newKeys := Keys(o), Keys(n);
    match KeyError(oldKeys, OldTable, o.iHeaders + 1)
    case Some(e) => (Err(e), [])
    case None =>
      match KeyError(newKeys, NewTable, n.iHeaders + 1)
      case Some(e) => (Err(e), [])
      case None =>
        var lead := RowsOf(o, n, diffHeaders, ignoreHeaders, RunFrom(oldKeys, newKeys, 0));
        var bad := BadIgnores(o, n, ignoreHeaders);
        if bad != {} then (Err(BadIgnore(bad)), lead)
        else
          var rows := RowsOf(o, n, diffHeaders, ignoreHeaders, Layout(oldKeys, newKeys));
          LayoutRowsShape(o, n, diffHeaders, ignoreHeaders);
          (Ok(ChangesFrom(rows, 0)), rows)
  }

  // ---------------------------------------------------------------------
  // Shape of the rows

  /** Every row has a marker cell from the body's markers and one cell per merged header. */
  predicate RowsShaped(rows: seq<seq<string>>, width: nat)
  {
    forall k :: 0 <= k < |rows| ==> |rows[k]| == width + 1 && rows[k][0] in {"=", "-", "+", "c-", "c+"}
  }

  lemma SlotRowsShape(o: Side, n: Side, diffHeaders: seq<string>, ignoreHeaders: seq<string>, s: Slot)
    requires WellShaped(o) && WellShaped(n) && Fits(Keys(o), Keys(n), s)
    ensures var rows := SlotRows(o, n, diffHeaders, ignoreHeaders, s);
      && RowsShaped(rows, |diffHeaders|)
      && WellPaired(rows, 0)
      && (s.FromOld? ==> |rows| == 1 && rows[0][0] == "-")
      && (s.FromNew? ==> 1 <= |rows| <= 2 && rows[|rows| - 1][0] in {"=", "+", "c+"} && (|rows| == 2 ==> rows[0][0] == "c-"))
  {
  }

  lemma {:induction false} RowsOfAppend(o: Side, n: Side, diffHeaders: seq<string>, ignoreHeaders: seq<string>, A: seq<Slot>, B: seq<Slot>)
    requires WellShaped(o) && WellShaped(n)
    ensures RowsOf(o, n, diffHeaders, ignoreHeaders, A + B)
         == RowsOf(o, n, diffHeaders, ignoreHeaders, A) + RowsOf(o, n, diffHeaders, ignoreHeaders, B)
  {
    if A != [] {
      assert (A + B)[1..] == A[1..] + B;
      RowsOfAppend(o, n, diffHeaders, ignoreHeaders, A[1..], B);
      AppendAssoc((if Fits(Keys(o), Keys(n), A[0]) then SlotRows(o, n, diffHeaders, ignoreHeaders, A[0]) else []),
                  RowsOf(o, n, diffHeaders, ignoreHeaders, A[1..]), RowsOf(o, n, diffHeaders, ignoreHeaders, B));
    } else {
      assert A + B == B;
    }
  }

  lemma RowsShapedAppend(a: seq<seq<string>>, b: seq<seq<string>>, width: nat)
    requires RowsShaped(a, width) && RowsShaped(b, width)
    ensures RowsShaped(a + b, width)
  {
    assert forall k :: |a| <= k < |a + b| ==> (a + b)[k] == b[k - |a|];
  }

  /** All the rows of a sequence of slots are shaped, and every `c-` row has its `c+` partner next to it. */
  lemma {:induction false} RowsOfShape(o: Side, n: Side, diffHeaders: seq<string>, ignoreHeaders: seq<string>, L: seq<Slot>)
    requires WellShaped(o) && WellShaped(n)
    ensures RowsShaped(RowsOf(o, n, diffHeaders, ignoreHeaders, L), |diffHeaders|)
    ensures WellPaired(RowsOf(o, n, diffHeaders, ignoreHeaders, L), 0)
  {
    if L != [] {
      var head := if Fits(Keys(o), Keys(n), L[0]) then SlotRows(o, n, diffHeaders, ignoreHeaders, L[0]) else [];
      if Fits(Keys(o), Keys(n), L[0]) {
        SlotRowsShape(o, n, diffHeaders, ignoreHeaders, L[0]);
      }
      RowsOfShape(o, n, diffHeaders, ignoreHeaders, L[1..]);
      RowsShapedAppend(head, RowsOf(o, n, diffHeaders, ignoreHeaders, L[1..]), |diffHeaders|);
      ChangesSplit(head, RowsOf(o, n, diffHeaders, ignoreHeaders, L[1..]), 0);
    }
  }

  lemma LayoutRowsShape(o: Side, n: Side, diffHeaders: seq<string>, ignoreHeaders: seq<string>)
    requires WellShaped(o) && WellShaped(n)
    ensures RowsShaped(RowsOf(o, n, diffHeaders, ignoreHeaders, Layout(Keys(o), Keys(n))), |diffHeaders|)
    ensures WellPaired(RowsOf(o, n, diffHeaders, ignoreHeaders, Layout(Keys(o), Keys(n))), 0)
  {
    RowsOfShape(o, n, diffHeaders, ignoreHeaders, Layout(Keys(o), Keys(n)));
  }

  // ---------------------------------------------------------------------
  // Walking the layout one slot at a time

  lemma RowsOfRunStep(o: Side, n: Side, diffHeaders: seq<string>, ignoreHeaders: seq<string>, t: nat)
    requires WellShaped(o) && WellShaped(n) && t < |Keys(o)| && Keys(o)[t] !in Keys(n)
    ensures RowsOf(o, n, diffHeaders, ignoreHeaders, RunFrom(Keys(o), Keys(n), t))
         == [DeletedRow(o, diffHeaders, t)] + RowsOf(o, n, diffHeaders, ignoreHeaders, RunFrom(Keys(o), Keys(n), t + 1))
  {
    assert RunFrom(Keys(o), Keys(n), t)[1..] == RunFrom(Keys(o), Keys(n), t + 1);
  }

  lemma RowsOfBlocksStep(o: Side, n: Side, diffHeaders: seq<string>, ignoreHeaders: seq<string>, j: nat)
    requires WellShaped(o) && WellShaped(n) && j < |Keys(n)|
    ensures RowsOf(o, n, diffHeaders, ignoreHeaders, Blocks(Keys(o), Keys(n), j))
         == (SlotRows(o, n, diffHeaders, ignoreHeaders, FromNew(j)) + RowsOf(o, n, diffHeaders, ignoreHeaders, After(Keys(o), Keys(n), j)))
            + RowsOf(o, n, diffHeaders, ignoreHeaders, Blocks(Keys(o), Keys(n), j + 1))
  {
    var olds, news := Keys(o), Keys(n);
    var A := After(olds, news, j);
    assert Block(olds, news, j) == [FromNew(j)] + A;
    RowsOfAppend(o, n, diffHeaders, ignoreHeaders, [FromNew(j)], A);
    RowsOfAppend(o, n, diffHeaders, ignoreHeaders, Block(olds, news, j), Blocks(olds, news, j + 1));
  }

  // ---------------------------------------------------------------------
  // The reconciler as the source runs it

  /** The key-index loop for one table: the first empty or repeated key stops it. */
  method IndexKeys(keys: seq<string>, table: Which, offset: nat) returns (err: Option<Error>, keyIndex: map<string, nat>)
    ensures err == KeyError(keys, table, offset)
    ensures err.None? ==> IndexOf(keyIndex, keys, offset)
  {
    keyIndex := map[];
    var i := 0;
    while i < |keys|
      invariant 0 <= i <= |keys|
      invariant KeyErrorFrom(keys, i, table, offset) == KeyError(keys, table, offset)
      invariant keyIndex == KeyIndex(keys[..i], offset)
    {
      var r := i + offset;
      var v := keys[i];
      if v == "" {
        return Some(EmptyKey(table, r)), keyIndex;
      }
      KeyIndexLookup(keys[..i], offset, v);
      if v in keyIndex {
        return Some(DuplicateKey(table, r, v)), keyIndex;
      }
      assert keys[..i + 1][..i] == keys[..i];
      keyIndex := keyIndex[v := r];
      i := i + 1;
    }
    assert keys[..i] == keys;
    KeyIndexIsIndex(keys, offset);
    err := None;
  }

  /** Appends the `-` row of old body row `t`: its values under the merged headers. */
  method AppendDeletedRow(diffRows: DiffRows, o: Side, diffHeaders: seq<string>, t: nat)
    requires WellShaped(o) && t < Height(o)
    modifies diffRows
    ensures diffRows.rows == old(diffRows.rows) + [DeletedRow(o, diffHeaders, t)]
  {
    var oldDiffRow := [Text(Deleted)] + Cells(o, o.rows[o.iHeaders + 1 + t], diffHeaders);
    diffRows.Append(oldDiffRow);
  }

  /**
    Appends a `-` row for each old body row from sheet row `r0` on, up to the
    first one whose key the new table has.
  */
  method AppendDeletedRows(diffRows: DiffRows, o: Side, n: Side, diffHeaders: seq<string>, ghost ignoreHeaders: seq<string>,
                           newKeyIndex: map<string, nat>, r0: nat)
    requires WellShaped(o) && WellShaped(n) && IndexOf(newKeyIndex, Keys(n), n.iHeaders + 1)
    requires o.iHeaders + 1 <= r0 <= o.iTrailing
    modifies diffRows
    ensures diffRows.rows == old(diffRows.rows)
      + RowsOf(o, n, diffHeaders, ignoreHeaders, RunFrom(Keys(o), Keys(n), r0 - (o.iHeaders + 1)))
  {
    var oldKeys := Keys(o);
    var offset := o.iHeaders + 1;
    ghost var rows0 := diffRows.rows;
    var j := r0;
    while j < o.iTrailing && oldKeys[j - offset] !in newKeyIndex
      invariant r0 <= j <= o.iTrailing
      invariant diffRows.rows == rows0 + DeletedRows(o, diffHeaders, r0 - offset, j - offset)
      invariant forall q :: r0 - offset <= q < j - offset ==> oldKeys[q] !in newKeyIndex
    {
      var t := j - offset;
      AppendDeletedRow(diffRows, o, diffHeaders, t);
      DeletedRowsSnoc(o, diffHeaders, r0 - offset, t);
      j := j + 1;
    }
    ghost var rows := diffRows.rows;
    DeletedRunAppended(o, n, diffHeaders, ignoreHeaders, newKeyIndex, rows0, rows, r0 - (o.iHeaders + 1), j - offset);
  }

  /** Rows extended by the `-` rows of a whole deleted run are extended by the rows of that run. */
  lemma DeletedRunAppended(o: Side, n: Side, diffHeaders: seq<string>, ignoreHeaders: seq<string>,
                           newKeyIndex: map<string, nat>, rows0: seq<seq<string>>, rows: seq<seq<string>>, lo: nat, hi: nat)
    requires WellShaped(o) && WellShaped(n) && IndexOf(newKeyIndex, Keys(n), n.iHeaders + 1) && lo <= hi <= Height(o)
    requires forall q :: lo <= q < hi ==> Keys(o)[q] !in newKeyIndex
    requires hi == Height(o) || Keys(o)[hi] in newKeyIndex
    requires rows == rows0 + DeletedRows(o, diffHeaders, lo, hi)
    ensures rows == rows0 + RowsOf(o, n, diffHeaders, ignoreHeaders, RunFrom(Keys(o), Keys(n), lo))
  {
    RunRows(o, n, diffHeaders, ignoreHeaders, lo, hi);
  }

  /** The `-` rows of old body rows `lo` to `hi - 1`. */
  function DeletedRows(o: Side, diffHeaders: seq<string>, lo: nat, hi: nat): seq<seq<string>>
    requires WellShaped(o) && lo <= hi <= Height(o)
  {
    seq(hi - lo, q requires 0 <= q < hi - lo => DeletedRow(o, diffHeaders, lo + q))
  }

  lemma DeletedRowsSnoc(o: Side, diffHeaders: seq<string>, lo: nat, t: nat)
    requires WellShaped(o) && lo <= t < Height(o)
    ensures DeletedRows(o, diffHeaders, lo, t + 1) == DeletedRows(o, diffHeaders, lo, t) + [DeletedRow(o, diffHeaders, t)]
  {
  }

  lemma DeletedRowsCons(o: Side, diffHeaders: seq<string>, lo: nat, hi: nat)
    requires WellShaped(o) && lo < hi <= Height(o)
    ensures DeletedRows(o, diffHeaders, lo, hi) == [DeletedRow(o, diffHeaders, lo)] + DeletedRows(o, diffHeaders, lo + 1, hi)
  {
  }

  /** A deleted run from `lo` that stops at `hi` has the `-` rows of `lo` to `hi - 1`. */
  lemma {:induction false} RunRows(o: Side, n: Side, diffHeaders: seq<string>, ignoreHeaders: seq<string>, lo: nat, hi: nat)
    requires WellShaped(o) && WellShaped(n) && lo <= hi <= Height(o)
    requires forall q :: lo <= q < hi ==> Keys(o)[q] !in Keys(n)
    requires hi == Height(o) || Keys(o)[hi] in Keys(n)
    ensures RowsOf(o, n, diffHeaders, ignoreHeaders, RunFrom(Keys(o), Keys(n), lo)) == DeletedRows(o, diffHeaders, lo, hi)
    decreases hi - lo
  {
    if lo < hi {
      RowsOfRunStep(o, n, diffHeaders, ignoreHeaders, lo);
      RunRows(o, n, diffHeaders, ignoreHeaders, lo + 1, hi);
      DeletedRowsCons(o, diffHeaders, lo, hi);
    } else {
      RunFromEnd(Keys(o), Keys(n), lo);
    }
  }

  /**
    The `for j, h in enumerate(diffHeaders)` loop that copies old values
    into a matched key's new row, for the columns only the old table has.
  */
  method IncludeOldValues(newDiffRow: seq<string>, diffHeaders: seq<string>, o: Side, oldRow: seq<string>, n: Side)
    returns (row: seq<string>)
    requires |newDiffRow| == |diffHeaders| + 1
    requires o.iHeaders < |o.rows| && |oldRow| == |Headers(o)| && n.iHeaders < |n.rows|
    ensures |row| == |newDiffRow| && row[0] == newDiffRow[0]
    ensures forall p :: 0 <= p < |diffHeaders| ==>
      row[p + 1] == if diffHeaders[p] in Headers(o) && diffHeaders[p] !in Headers(n) then Value(o, oldRow, diffHeaders[p]) else newDiffRow[p + 1]
  {
    row := newDiffRow;
    var j := 0;
    while j < |diffHeaders|
      invariant 0 <= j <= |diffHeaders|
      invariant |row| == |newDiffRow| && row[0] == newDiffRow[0]
      invariant forall p :: 0 <= p < j ==>
        row[p + 1] == if diffHeaders[p] in Headers(o) && diffHeaders[p] !in Headers(n) then Value(o, oldRow, diffHeaders[p]) else newDiffRow[p + 1]
      invariant forall q :: j + 1 <= q < |row| ==> row[q] == newDiffRow[q]
    {
      var h := diffHeaders[j];
      if h in Headers(o) && h !in Headers(n) {
        row := row[j + 1 := oldRow[LastIndex(Headers(o), h)]];
      }
      j := j + 1;
    }
  }

  /** The loop that builds a `c-` row: `''`, overwritten by the new value, overwritten by the old value. */
  method ChangedOldRow(diffHeaders: seq<string>, o: Side, oldRow: seq<string>, n: Side, newRow: seq<string>)
    returns (oldDiffRow: seq<string>)
    requires o.iHeaders < |o.rows| && |oldRow| == |Headers(o)|
    requires n.iHeaders < |n.rows| && |newRow| == |Headers(n)|
    ensures oldDiffRow == [Text(ChangedOld)] + ChangedOldCells(o, oldRow, n, newRow, diffHeaders)
  {
    oldDiffRow := [Text(ChangedOld)];
    var p := 0;
    while p < |diffHeaders|
      invariant 0 <= p <= |diffHeaders|
      invariant oldDiffRow == [Text(ChangedOld)] + ChangedOldCells(o, oldRow, n, newRow, diffHeaders[..p])
    {
      var h := diffHeaders[p];
      var v := "";
      if h in Headers(n) {
        v := newRow[LastIndex(Headers(n), h)];
      }
      if h in Headers(o) {
        v := oldRow[LastIndex(Headers(o), h)];
      }
      assert ChangedOldCells(o, oldRow, n, newRow, diffHeaders[..p + 1])
          == ChangedOldCells(o, oldRow, n, newRow, diffHeaders[..p]) + [v];
      oldDiffRow := oldDiffRow + [v];
      p := p + 1;
    }
    assert diffHeaders[..p] == diffHeaders;
  }

  /**
    One pass of the loop over the new keys: the rows of new body row `ii`
    (`+`, `=` or `c-`/`c+`), then, for a matched key, the deleted old rows
    that followed its old row.
  */
  method AppendNewKey(diffRows: DiffRows, o: Side, n: Side, diffHeaders: seq<string>, ignoreHeaders: seq<string>,
                      oldKeyIndex: map<string, nat>, newKeyIndex: map<string, nat>, ii: nat)
    requires WellShaped(o) && WellShaped(n) && ii < Height(n)
    requires IndexOf(oldKeyIndex, Keys(o), o.iHeaders + 1) && IndexOf(newKeyIndex, Keys(n), n.iHeaders + 1)
    modifies diffRows
    ensures diffRows.rows == old(diffRows.rows)
      + (SlotRows(o, n, diffHeaders, ignoreHeaders, FromNew(ii)) + RowsOf(o, n, diffHeaders, ignoreHeaders, After(Keys(o), Keys(n), ii)))
  {
    var k := Keys(n)[ii];
    var i := ii + n.iHeaders + 1;
    var newRow := n.rows[i];
    assert newRow == BodyRow(n, ii);
    var newDiffRow := [Text(Added)] + Cells(n, newRow, diffHeaders);
    ghost var rows0 := diffRows.rows;
    if k in oldKeyIndex {
      ghost var t := LastIndex(Keys(o), k);
      var oldRow := o.rows[oldKeyIndex[k]];
      assert oldRow == BodyRow(o, t);
      AppendMatchedKey(diffRows, o, n, diffHeaders, ignoreHeaders, t, oldRow, ii, newRow);
      AppendDeletedRows(diffRows, o, n, diffHeaders, ignoreHeaders, newKeyIndex, oldKeyIndex[k] + 1);
      AppendAssoc(rows0, MatchedRows(o, n, diffHeaders, ignoreHeaders, t, ii),
                  RowsOf(o, n, diffHeaders, ignoreHeaders, After(Keys(o), Keys(n), ii)));
    } else {
      diffRows.Append(newDiffRow);
    }
  }

  /** `MatchedRows` of the two given body rows. */
  lemma MatchedRowsOf(o: Side, n: Side, diffHeaders: seq<string>, ignoreHeaders: seq<string>, t: nat, ii: nat,
                      oldRow: seq<string>, newRow: seq<string>)
    requires WellShaped(o) && WellShaped(n) && t < Height(o) && ii < Height(n)
    requires oldRow == BodyRow(o, t) && newRow == BodyRow(n, ii)
    ensures SameOnCompared(o, oldRow, n, newRow, ignoreHeaders) ==>
      MatchedRows(o, n, diffHeaders, ignoreHeaders, t, ii) == [[Text(Same)] + MatchedCells(o, oldRow, n, newRow, diffHeaders)]
    ensures !SameOnCompared(o, oldRow, n, newRow, ignoreHeaders) ==>
      MatchedRows(o, n, diffHeaders, ignoreHeaders, t, ii)
        == [[Text(ChangedOld)] + ChangedOldCells(o, oldRow, n, newRow, diffHeaders),
            [Text(ChangedNew)] + MatchedCells(o, oldRow, n, newRow, diffHeaders)]
  {
  }

  /** The rows of a new body row whose key the old table has: `=`, or `c-` and `c+`. */
  method AppendMatchedKey(diffRows: DiffRows, o: Side, n: Side, diffHeaders: seq<string>, ignoreHeaders: seq<string>,
                          ghost t: nat, oldRow: seq<string>, ii: nat, newRow: seq<string>)
    requires WellShaped(o) && WellShaped(n) && t < Height(o) && ii < Height(n)
    requires oldRow == BodyRow(o, t) && newRow == BodyRow(n, ii)
    modifies diffRows
    ensures diffRows.rows == old(diffRows.rows) + MatchedRows(o, n, diffHeaders, ignoreHeaders, t, ii)
  {
    var newDiffRow := MatchedNewRow(diffHeaders, o, oldRow, n, newRow);
    ghost var matched := MatchedCells(o, oldRow, n, newRow, diffHeaders);
    MatchedRowsOf(o, n, diffHeaders, ignoreHeaders, t, ii, oldRow, newRow);
    if SameOnCompared(o, oldRow, n, newRow, ignoreHeaders) {
      newDiffRow := newDiffRow[0 := Text(Same)];
      Remark(Text(Added), matched, Text(Same));
      diffRows.Append(newDiffRow);
    } else {
      var oldDiffRow := ChangedOldRow(diffHeaders, o, oldRow, n, newRow);
      diffRows.Append(oldDiffRow);
      newDiffRow := newDiffRow[0 := Text(ChangedNew)];
      Remark(Text(Added), matched, Text(ChangedNew));
      diffRows.Append(newDiffRow);
    }
  }

  /** The `+` row of a matched key, with the old value in each column only the old table has. */
  method MatchedNewRow(diffHeaders: seq<string>, o: Side, oldRow: seq<string>, n: Side, newRow: seq<string>)
    returns (newDiffRow: seq<string>)
    requires o.iHeaders < |o.rows| && |oldRow| == |Headers(o)|
    requires n.iHeaders < |n.rows| && |newRow| == |Headers(n)|
    ensures newDiffRow == [Text(Added)] + MatchedCells(o, oldRow, n, newRow, diffHeaders)
  {
    newDiffRow := [Text(Added)] + Cells(n, newRow, diffHeaders);
    newDiffRow := IncludeOldValues(newDiffRow, diffHeaders, o, oldRow, n);
    assert newDiffRow[1..] == MatchedCells(o, oldRow, n, newRow, diffHeaders);
  }

  /** Replacing the marker of a row keeps its cells. */
  lemma Remark(m: string, cells: seq<string>, m': string)
    ensures ([m] + cells)[0 := m'] == [m'] + cells
  {
    assert ([m] + cells)[0 := m'][1..] == cells;
  }

  /**
    `CompareBody`: validates both key columns, appends the body's diff rows
    to `diffRows` and returns the number of changed cells, counting a
    deleted or added row as one.
  */
  method CompareBody(diffRows: DiffRows, diffHeaders: seq<string>, ignoreHeaders: seq<string>, o: Side, n: Side)
    returns (r: Result<nat>)
    requires WellShaped(o) && WellShaped(n)
    modifies diffRows
    ensures r == BodyOutcome(o, n, diffHeaders, ignoreHeaders).0
    ensures diffRows.rows == old(diffRows.rows) + BodyOutcome(o, n, diffHeaders, ignoreHeaders).1
  {
    var iFirstBodyRow := |diffRows.rows|;
    ghost var rows0 := diffRows.rows;
    var oldKeys := Keys(o);
    var oldErr, oldKeyIndex := IndexKeys(oldKeys, OldTable, o.iHeaders + 1);
    if oldErr.Some? {
      return Err(oldErr.value);
    }
    var newKeys := Keys(n);
    var newErr, newKeyIndex := IndexKeys(newKeys, NewTable, n.iHeaders + 1);
    if newErr.Some? {
      return Err(newErr.value);
    }
    // The deleted rows before the first row whose key survives.
    AppendDeletedRows(diffRows, o, n, diffHeaders, ignoreHeaders, newKeyIndex, o.iHeaders + 1);
    var remainingHeaders := BadIgnores(o, n, ignoreHeaders);
    if remainingHeaders != {} {
      return Err(BadIgnore(remainingHeaders));
    }
    ghost var total := diffRows.rows + RowsOf(o, n, diffHeaders, ignoreHeaders, Blocks(oldKeys, newKeys, 0));
    var ii := 0;
    while ii < |newKeys|
      invariant 0 <= ii <= |newKeys|
      invariant diffRows.rows + RowsOf(o, n, diffHeaders, ignoreHeaders, Blocks(oldKeys, newKeys, ii)) == total
    {
      RowsOfBlocksStep(o, n, diffHeaders, ignoreHeaders, ii);
      ghost var before := diffRows.rows;
      AppendNewKey(diffRows, o, n, diffHeaders, ignoreHeaders, oldKeyIndex, newKeyIndex, ii);
      AppendAssoc(before,
                  SlotRows(o, n, diffHeaders, ignoreHeaders, FromNew(ii)) + RowsOf(o, n, diffHeaders, ignoreHeaders, After(oldKeys, newKeys, ii)),
                  RowsOf(o, n, diffHeaders, ignoreHeaders, Blocks(oldKeys, newKeys, ii + 1)));
      ii := ii + 1;
    }
    ghost var body := RowsOf(o, n, diffHeaders, ignoreHeaders, Layout(oldKeys, newKeys));
    RowsOfAppend(o, n, diffHeaders, ignoreHeaders, RunFrom(oldKeys, newKeys, 0), Blocks(oldKeys, newKeys, 0));
    AppendAssoc(rows0, RowsOf(o, n, diffHeaders, ignoreHeaders, RunFrom(oldKeys, newKeys, 0)),
                RowsOf(o, n, diffHeaders, ignoreHeaders, Blocks(oldKeys, newKeys, 0)));
    assert diffRows.rows == rows0 + body;
    LayoutRowsShape(o, n, diffHeaders, ignoreHeaders);
    ChangesAfter(rows0, body, 0);
    var nBodyChanges := CountChanges(diffRows.rows, iFirstBodyRow);
    r := Ok(nBodyChanges);
  }

  // ---------------------------------------------------------------------
  // Properties: key validation

  /** Key `t` cannot identify a row: it is empty, or an earlier row has it too. */
  predicate BadKey(keys: seq<string>, t: nat)
    requires t < |keys|
  {
    keys[t] == "" || keys[t] in keys[..t]
  }

  lemma {:induction false} KeyErrorFromFirstBad(keys: seq<string>, i: nat, table: Which, offset: nat)
    requires i <= |keys|
    ensures KeyErrorFrom(keys, i, table, offset).None? <==> forall t :: i <= t < |keys| ==> !BadKey(keys, t)
    ensures KeyErrorFrom(keys, i, table, offset).Some? ==>
      var e := KeyErrorFrom(keys, i, table, offset).value;
      && (e.EmptyKey? || e.DuplicateKey?) && e.table == table && offset + i <= e.row < offset + |keys|
      && BadKey(keys, e.row - offset)
      && (forall u :: i <= u < e.row - offset ==> !BadKey(keys, u))
      && (e.EmptyKey? <==> keys[e.row - offset] == "")
      && (e.DuplicateKey? ==> e.key == keys[e.row - offset])
    decreases |keys| - i
  {
    if i < |keys| && !BadKey(keys, i) {
      KeyErrorFromFirstBad(keys, i + 1, table, offset);
    }
  }

  /**
    The keys are accepted exactly when none is empty and none repeats; when
    they are not, the error names the first row whose key is empty or
    repeats an earlier one, and says which of the two it is.
  */
  lemma KeyErrorFirstBad(keys: seq<string>, table: Which, offset: nat)
    ensures KeyError(keys, table, offset).None? <==> "" !in keys && Distinct(keys)
    ensures KeyError(keys, table, offset).Some? ==>
      var e := KeyError(keys, table, offset).value;
      && (e.EmptyKey? || e.DuplicateKey?) && e.table == table && offset <= e.row < offset + |keys|
      && BadKey(keys, e.row - offset)
      && (forall u :: 0 <= u < e.row - offset ==> !BadKey(keys, u))
      && (e.EmptyKey? <==> keys[e.row - offset] == "")
      && (e.DuplicateKey? ==> e.key == keys[e.row - offset])
  {
    KeyErrorFromFirstBad(keys, 0, table, offset);
    if "" !in keys && Distinct(keys) {
      forall t | 0 <= t < |keys| ensures !BadKey(keys, t) {
        assert keys[t] in keys;
      }
    }
    if forall t :: 0 <= t < |keys| ==> !BadKey(keys, t) {
      forall u | 0 <= u < |keys| ensures keys[u] != "" {
        assert !BadKey(keys, u);
      }
      forall u, v | 0 <= u < v < |keys| ensures keys[u] != keys[v] {
        assert !BadKey(keys, v);
        assert keys[..v][u] == keys[u];
      }
    }
  }

  /** With both key columns and the ignored columns accepted, the body is the rows of the layout and their count. */
  lemma BodyAccepted(o: Side, n: Side, diffHeaders: seq<string>, ignoreHeaders: seq<string>)
    requires WellShaped(o) && WellShaped(n)
    requires KeyError(Keys(o), OldTable, o.iHeaders + 1) == None && KeyError(Keys(n), NewTable, n.iHeaders + 1) == None
    requires BadIgnores(o, n, ignoreHeaders) == {}
    ensures var rows := RowsOf(o, n, diffHeaders, ignoreHeaders, Layout(Keys(o), Keys(n)));
      WellPaired(rows, 0) && BodyOutcome(o, n, diffHeaders, ignoreHeaders) == (Ok(ChangesFrom(rows, 0)), rows)
  {
    LayoutRowsShape(o, n, diffHeaders, ignoreHeaders);
  }

  /** Keys that are all non-empty and distinct are accepted. */
  lemma KeysAccepted(keys: seq<string>, table: Which, offset: nat)
    requires "" !in keys && Distinct(keys)
    ensures KeyError(keys, table, offset) == None
  {
    KeyErrorFirstBad(keys, table, offset);
  }

  // ---------------------------------------------------------------------
  // Properties: the rows of one matched key

  /** The number of merged columns that both tables have and in which the two rows disagree. */
  function CommonDifferences(o: Side, oldRow: seq<string>, n: Side, newRow: seq<string>, diffHeaders: seq<string>): nat
    requires o.iHeaders < |o.rows| && |oldRow| == |Headers(o)|
    requires n.iHeaders < |n.rows| && |newRow| == |Headers(n)|
  {
    if diffHeaders == [] then 0
    else
      var h := diffHeaders[|diffHeaders| - 1];
      CommonDifferences(o, oldRow, n, newRow, diffHeaders[..|diffHeaders| - 1])
      + (if h in Headers(o) && h in Headers(n) && Value(o, oldRow, h) != Value(n, newRow, h) then 1 else 0)
  }

  lemma {:induction false} ChangedPairDifferences(o: Side, oldRow: seq<string>, n: Side, newRow: seq<string>, diffHeaders: seq<string>, k: nat)
    requires o.iHeaders < |o.rows| && |oldRow| == |Headers(o)|
    requires n.iHeaders < |n.rows| && |newRow| == |Headers(n)|
    requires k <= |diffHeaders|
    ensures Differing([Text(ChangedOld)] + ChangedOldCells(o, oldRow, n, newRow, diffHeaders[..k]),
                      [Text(ChangedNew)] + MatchedCells(o, oldRow, n, newRow, diffHeaders))
         == CommonDifferences(o, oldRow, n, newRow, diffHeaders[..k])
  {
    var a := [Text(ChangedOld)] + ChangedOldCells(o, oldRow, n, newRow, diffHeaders[..k]);
    var b := [Text(ChangedNew)] + MatchedCells(o, oldRow, n, newRow, diffHeaders);
    if k > 0 {
      ChangedPairDifferences(o, oldRow, n, newRow, diffHeaders, k - 1);
      ChangedPairSnoc(o, oldRow, n, newRow, diffHeaders, k);
      DifferingSnoc(a, b);
    }
  }

  /** The `c-` row over one more merged column, and how its last cell compares with the `c+` row's. */
  lemma ChangedPairSnoc(o: Side, oldRow: seq<string>, n: Side, newRow: seq<string>, diffHeaders: seq<string>, k: nat)
    requires o.iHeaders < |o.rows| && |oldRow| == |Headers(o)|
    requires n.iHeaders < |n.rows| && |newRow| == |Headers(n)|
    requires 0 < k <= |diffHeaders|
    ensures var a := [Text(ChangedOld)] + ChangedOldCells(o, oldRow, n, newRow, diffHeaders[..k]);
            var b := [Text(ChangedNew)] + MatchedCells(o, oldRow, n, newRow, diffHeaders);
            var h := diffHeaders[k - 1];
            && a[..k] == [Text(ChangedOld)] + ChangedOldCells(o, oldRow, n, newRow, diffHeaders[..k - 1])
            && (a[k] != b[k] <==> h in Headers(o) && h in Headers(n) && Value(o, oldRow, h) != Value(n, newRow, h))
            && diffHeaders[..k][..k - 1] == diffHeaders[..k - 1]
  {
    var a := [Text(ChangedOld)] + ChangedOldCells(o, oldRow, n, newRow, diffHeaders[..k]);
    var b := [Text(ChangedNew)] + MatchedCells(o, oldRow, n, newRow, diffHeaders);
    assert diffHeaders[..k][..k - 1] == diffHeaders[..k - 1];
    assert a[k] == ChangedOldCells(o, oldRow, n, newRow, diffHeaders[..k])[k - 1];
    assert b[k] == MatchedCells(o, oldRow, n, newRow, diffHeaders)[k - 1];
  }

  /**
    A matched key costs nothing when its compared cells agree; otherwise its
    `c-`/`c+` pair counts one change per column that both tables have and
    in which the two rows disagree, ignored columns included.
  */
  lemma MatchedRowsChanges(o: Side, n: Side, diffHeaders: seq<string>, ignoreHeaders: seq<string>, i: nat, j: nat)
    requires WellShaped(o) && i < Height(o) && WellShaped(n) && j < Height(n)
    ensures WellPaired(MatchedRows(o, n, diffHeaders, ignoreHeaders, i, j), 0)
    ensures ChangesFrom(MatchedRows(o, n, diffHeaders, ignoreHeaders, i, j), 0)
         == if SameOnCompared(o, BodyRow(o, i), n, BodyRow(n, j), ignoreHeaders) then 0
            else CommonDifferences(o, BodyRow(o, i), n, BodyRow(n, j), diffHeaders)
  {
    var oldRow, newRow := BodyRow(o, i), BodyRow(n, j);
    if !SameOnCompared(o, oldRow, n, newRow, ignoreHeaders) {
      ChangedPairDifferences(o, oldRow, n, newRow, diffHeaders, |diffHeaders|);
      assert diffHeaders[..|diffHeaders|] == diffHeaders;
      PairChanges([Text(ChangedOld)] + ChangedOldCells(o, oldRow, n, newRow, diffHeaders),
                  [Text(ChangedNew)] + MatchedCells(o, oldRow, n, newRow, diffHeaders));
    } else {
      SameRowChanges([Text(Same)] + MatchedCells(o, oldRow, n, newRow, diffHeaders));
    }
  }

  /** A lone `=` row counts nothing. */
  lemma SameRowChanges(row: seq<string>)
    requires |row| > 0 && row[0] == "="
    ensures WellPaired([row], 0) && ChangesFrom([row], 0) == 0
  {
    assert ChangesFrom([row], 1) == 0;
  }

  /** A `c-`/`c+` pair counts the cells in which the two rows differ. */
  lemma PairChanges(a: seq<string>, b: seq<string>)
    requires |a| <= |b| && |a| > 0 && a[0] == "c-" && |b| > 0 && b[0] == "c+"
    ensures WellPaired([a, b], 0) && ChangesFrom([a, b], 0) == Differing(a, b)
  {
    assert ChangesFrom([a, b], 2) == 0;
    assert ChangesFrom([a, b], 1) == 0;
  }

  /** A disagreement in a column both tables have and the merged headers name counts. */
  lemma {:induction false} CommonDifferencesPositive(o: Side, oldRow: seq<string>, n: Side, newRow: seq<string>,
                                                     diffHeaders: seq<string>, h: string)
    requires o.iHeaders < |o.rows| && |oldRow| == |Headers(o)|
    requires n.iHeaders < |n.rows| && |newRow| == |Headers(n)|
    requires h in diffHeaders && h in Headers(o) && h in Headers(n) && Value(o, oldRow, h) != Value(n, newRow, h)
    ensures CommonDifferences(o, oldRow, n, newRow, diffHeaders) > 0
  {
    var last := diffHeaders[|diffHeaders| - 1];
    if last != h {
      var init := diffHeaders[..|diffHeaders| - 1];
      assert h in init by {
        var p :| 0 <= p < |diffHeaders| && diffHeaders[p] == h;
        assert init[p] == h;
      }
      CommonDifferencesPositive(o, oldRow, n, newRow, init, h);
    }
  }

  // ---------------------------------------------------------------------
  // Properties: the whole body

  /** The merged headers name every column of both tables, as the header union does. */
  predicate Covers(diffHeaders: seq<string>, o: Side, n: Side)
    requires o.iHeaders < |o.rows| && n.iHeaders < |n.rows|
  {
    && (forall h :: h in Headers(o) ==> h in diffHeaders)
    && (forall h :: h in Headers(n) ==> h in diffHeaders)
  }

  predicate AllSame(rows: seq<seq<string>>)
  {
    forall k :: 0 <= k < |rows| ==> |rows[k]| > 0 && rows[k][0] == "="
  }

  lemma SlotUnchanged(o: Side, n: Side, diffHeaders: seq<string>, ignoreHeaders: seq<string>, s: Slot)
    requires WellShaped(o) && WellShaped(n) && Covers(diffHeaders, o, n) && Fits(Keys(o), Keys(n), s)
    ensures WellPaired(SlotRows(o, n, diffHeaders, ignoreHeaders, s), 0)
    ensures ChangesFrom(SlotRows(o, n, diffHeaders, ignoreHeaders, s), 0) == 0
        <==> AllSame(SlotRows(o, n, diffHeaders, ignoreHeaders, s))
  {
    SlotRowsShape(o, n, diffHeaders, ignoreHeaders, s);
    var rows := SlotRows(o, n, diffHeaders, ignoreHeaders, s);
    match s
    case FromOld(i) =>
      assert ChangesFrom(rows, 1) == 0;
    case FromNew(j) =>
      var keys := Keys(o);
      if Keys(n)[j] in keys {
        var i := LastIndex(keys, Keys(n)[j]);
        MatchedRowsChanges(o, n, diffHeaders, ignoreHeaders, i, j);
        var oldRow, newRow := BodyRow(o, i), BodyRow(n, j);
        if !SameOnCompared(o, oldRow, n, newRow, ignoreHeaders) {
          var h :| h in Headers(o) && h in Headers(n) && h !in ignoreHeaders && Value(o, oldRow, h) != Value(n, newRow, h);
          CommonDifferencesPositive(o, oldRow, n, newRow, diffHeaders, h);
        }
      } else {
        assert ChangesFrom(rows, 1) == 0;
      }
  }

  lemma {:induction false} RowsOfUnchanged(o: Side, n: Side, diffHeaders: seq<string>, ignoreHeaders: seq<string>, L: seq<Slot>)
    requires WellShaped(o) && WellShaped(n) && Covers(diffHeaders, o, n)
    ensures WellPaired(RowsOf(o, n, diffHeaders, ignoreHeaders, L), 0)
    ensures ChangesFrom(RowsOf(o, n, diffHeaders, ignoreHeaders, L), 0) == 0
        <==> AllSame(RowsOf(o, n, diffHeaders, ignoreHeaders, L))
  {
    RowsOfShape(o, n, diffHeaders, ignoreHeaders, L);
    if L != [] {
      var head := if Fits(Keys(o), Keys(n), L[0]) then SlotRows(o, n, diffHeaders, ignoreHeaders, L[0]) else [];
      var rest := RowsOf(o, n, diffHeaders, ignoreHeaders, L[1..]);
      if Fits(Keys(o), Keys(n), L[0]) {
        SlotUnchanged(o, n, diffHeaders, ignoreHeaders, L[0]);
      }
      RowsOfUnchanged(o, n, diffHeaders, ignoreHeaders, L[1..]);
      ChangesSplit(head, rest, 0);
      AllSameAppend(head, rest);
    }
  }

  lemma AllSameAppend(a: seq<seq<string>>, b: seq<seq<string>>)
    ensures AllSame(a + b) <==> AllSame(a) && AllSame(b)
  {
    if AllSame(a + b) {
      assert forall k :: 0 <= k < |a| ==> (a + b)[k] == a[k];
      assert forall k :: 0 <= k < |b| ==> (a + b)[|a| + k] == b[k];
    }
  }

  /**
    When the merged headers name every column, an accepted comparison counts
    no change exactly when every body row it writes is an `=` row.
  */
  lemma BodyUnchanged(o: Side, n: Side, diffHeaders: seq<string>, ignoreHeaders: seq<string>)
    requires WellShaped(o) && WellShaped(n) && Covers(diffHeaders, o, n)
    ensures BodyOutcome(o, n, diffHeaders, ignoreHeaders).0.Ok? ==>
      (BodyOutcome(o, n, diffHeaders, ignoreHeaders).0.value == 0 <==> AllSame(BodyOutcome(o, n, diffHeaders, ignoreHeaders).1))
  {
    RowsOfUnchanged(o, n, diffHeaders, ignoreHeaders, Layout(Keys(o), Keys(n)));
  }

  lemma {:induction false} AllSameCountsNothing(rows: seq<seq<string>>, k: nat)
    requires AllSame(rows)
    ensures WellPaired(rows, k) && ChangesFrom(rows, k) == 0
    decreases |rows| - k
  {
    if k < |rows| {
      AllSameCountsNothing(rows, k + 1);
    }
  }

  /** The `=` rows of a table compared with itself, from body row `j` on. */
  function SameRows(s: Side, diffHeaders: seq<string>, j: nat): (rows: seq<seq<string>>)
    requires WellShaped(s) && j <= Height(s)
    ensures |rows| == Height(s) - j
  {
    seq(Height(s) - j, q requires 0 <= q < Height(s) - j => [Text(Same)] + Cells(s, BodyRow(s, j + q), diffHeaders))
  }

  /** Against itself, a key is matched with its own row, agrees, and has no deleted run after it. */
  lemma IdenticalBlock(s: Side, diffHeaders: seq<string>, ignoreHeaders: seq<string>, j: nat)
    requires WellShaped(s) && Distinct(Keys(s)) && j < Height(s)
    ensures SlotRows(s, s, diffHeaders, ignoreHeaders, FromNew(j)) + RowsOf(s, s, diffHeaders, ignoreHeaders, After(Keys(s), Keys(s), j))
         == [[Text(Same)] + Cells(s, BodyRow(s, j), diffHeaders)]
  {
    var keys := Keys(s);
    LastIndexDistinct(keys, j);
    var k := LastIndex(keys, keys[j]) + 1;
    assert After(keys, keys, j) == [] by {
      assert k < |keys| ==> keys[k] in keys;
    }
    var row := BodyRow(s, j);
    assert MatchedCells(s, row, s, row, diffHeaders) == Cells(s, row, diffHeaders);
  }

  lemma SameRowsStep(s: Side, diffHeaders: seq<string>, j: nat)
    requires WellShaped(s) && j < Height(s)
    ensures SameRows(s, diffHeaders, j) == [[Text(Same)] + Cells(s, BodyRow(s, j), diffHeaders)] + SameRows(s, diffHeaders, j + 1)
  {
  }

  lemma {:induction false} RowsOfIdentical(s: Side, diffHeaders: seq<string>, ignoreHeaders: seq<string>, j: nat)
    requires WellShaped(s) && Distinct(Keys(s)) && j <= Height(s)
    ensures RowsOf(s, s, diffHeaders, ignoreHeaders, Blocks(Keys(s), Keys(s), j)) == SameRows(s, diffHeaders, j)
    decreases Height(s) - j
  {
    if j < Height(s) {
      var keys := Keys(s);
      var row := [Text(Same)] + Cells(s, BodyRow(s, j), diffHeaders);
      var block := SlotRows(s, s, diffHeaders, ignoreHeaders, FromNew(j)) + RowsOf(s, s, diffHeaders, ignoreHeaders, After(keys, keys, j));
      var rest := RowsOf(s, s, diffHeaders, ignoreHeaders, Blocks(keys, keys, j + 1));
      RowsOfBlocksStep(s, s, diffHeaders, ignoreHeaders, j);
      assert RowsOf(s, s, diffHeaders, ignoreHeaders, Blocks(keys, keys, j)) == block + rest;
      IdenticalBlock(s, diffHeaders, ignoreHeaders, j);
      assert block == [row];
      RowsOfIdentical(s, diffHeaders, ignoreHeaders, j + 1);
      assert rest == SameRows(s, diffHeaders, j + 1);
      SameRowsStep(s, diffHeaders, j);
    }
  }

  /**
    A table compared with itself, when its keys are accepted and every
    ignored column is one of its columns: one `=` row per body row, in the
    table's own order with its own cells, and no change counted.
  */
  lemma BodyIdentical(s: Side, diffHeaders: seq<string>, ignoreHeaders: seq<string>)
    requires WellShaped(s) && "" !in Keys(s) && Distinct(Keys(s))
    requires forall h :: h in ignoreHeaders ==> h in Headers(s)
    ensures BodyOutcome(s, s, diffHeaders, ignoreHeaders).0 == Ok(0)
    ensures var rows := BodyOutcome(s, s, diffHeaders, ignoreHeaders).1;
      && |rows| == Height(s)
      && forall t :: 0 <= t < Height(s) ==> rows[t] == [Text(Same)] + Cells(s, BodyRow(s, t), diffHeaders)
  {
    var keys := Keys(s);
    KeysAccepted(keys, OldTable, s.iHeaders + 1);
    KeysAccepted(keys, NewTable, s.iHeaders + 1);
    assert BadIgnores(s, s, ignoreHeaders) == {};
    BodyAccepted(s, s, diffHeaders, ignoreHeaders);
    if |keys| > 0 {
      assert keys[0] in keys;
    }
    RunFromEnd(keys, keys, 0);
    assert Layout(keys, keys) == Blocks(keys, keys, 0);
    RowsOfIdentical(s, diffHeaders, ignoreHeaders, 0);
    AllSameCountsNothing(SameRows(s, diffHeaders, 0), 0);
  }
}
