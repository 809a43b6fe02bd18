/**
  The older draft of the engine kept at the top of the repository. It shares
  the header and row layout rule with the current engine, but differs in the
  details modelled here: it accepts repeated header names, it guesses the
  header row by the most non-empty cells, its `c-` rows and its new-side
  rows leave a column empty where that side lacks it, it has no ignore set
  and no trailing boundary, and its header zone tests the old header row
  only. Its failures are exceptions without a position.

  The draft's `NoTabs`, `TrimAndPad` and `RemoveTrailingEmpties` are the same
  code as the current engine's and share their models (`Sheets`, `Preamble`).
*/
module Legacy {
  import opened Common
  import opened Marks
  import opened Interleave
  import opened Output
  import opened Body
  import HeaderMerge
  import Tables

  /** Which check of the draft raised. */
  datatype Failure = BlankHeader(table: Which) | BlankKey(table: Which) | RepeatedKey(table: Which)

  /** A value, or the exception the draft raises instead. */
  datatype Outcome<T> = Done(value: T) | Raised(failure: Failure)

  // ---------------------------------------------------------------------
  // Unique

  /** The values of `s`, each once, at its first occurrence. */
  function Deduped<T(==)>(s: seq<T>): seq<T>
  {
    if s == [] then []
    else
      var init := s[..|s| - 1];
      if s[|s| - 1] in init then Deduped(init) else Deduped(init) + [s[|s| - 1]]
  }

  /** `Unique`: one pass keeping each item not seen before. */
  method Unique<T(==)>(theList: seq<T>) returns (u: seq<T>)
    ensures u == Deduped(theList)
  {
    var seen: set<T> := {};
    u := [];
    var i := 0;
    while i < |theList|
      invariant 0 <= i <= |theList|
      invariant u == Deduped(theList[..i])
      invariant forall x :: x in seen <==> x in theList[..i]
    {
      var item := theList[i];
      assert theList[..i + 1][..i] == theList[..i];
      if item !in seen {
        u := u + [item];
        seen := seen + {item};
      }
      i := i + 1;
    }
    assert theList[..i] == theList;
  }

  /** The first position of a value does not move when values are added behind it. */
  lemma FirstIndexPrefix<T>(s: seq<T>, x: T)
    requires s != [] && x in s[..|s| - 1]
    ensures FirstIndex(s, x) == FirstIndex(s[..|s| - 1], x)
  {
    var init := s[..|s| - 1];
    var a, b := FirstIndex(s, x), FirstIndex(init, x);
    assert s[b] == x;
    assert forall t :: 0 <= t < b ==> s[t] == init[t];
  }

  /** `Unique` keeps exactly the values of its input. */
  lemma {:induction false} DedupedElements<T>(s: seq<T>, y: T)
    ensures y in Deduped(s) <==> y in s
  {
    if s != [] {
      var init, x := s[..|s| - 1], s[|s| - 1];
      assert s == init + [x];
      DedupedElements(init, y);
    }
  }

  /** `Unique` keeps no value twice. */
  lemma {:induction false} DedupedNoRepeats<T>(s: seq<T>)
    ensures Distinct(Deduped(s))
  {
    if s != [] {
      var init, x := s[..|s| - 1], s[|s| - 1];
      DedupedNoRepeats(init);
      DedupedElements(init, x);
      if x !in init {
        var d := Deduped(init);
        assert x !in d;
        forall p, q | 0 <= p < q < |d + [x]| ensures (d + [x])[p] != (d + [x])[q] {
          if q == |d| {
            assert (d + [x])[p] == d[p] && d[p] in d;
          }
        }
      }
    }
  }

  /**
    `Unique` keeps the values in the order of their first occurrences: of two
    values it keeps, the earlier one first occurs earlier in the input.
  */
  lemma {:induction false} DedupedOrderAt<T>(s: seq<T>, p: nat, q: nat)
    requires p < q < |Deduped(s)|
    ensures Deduped(s)[p] in s && Deduped(s)[q] in s && FirstIndex(s, Deduped(s)[p]) < FirstIndex(s, Deduped(s)[q])
  {
    var init, x := s[..|s| - 1], s[|s| - 1];
    var d, e := Deduped(init), Deduped(s);
    assert e == if x in init then d else d + [x];
    assert e[p] == d[p];
    DedupedElements(init, d[p]);
    FirstIndexPrefix(s, d[p]);
    if q < |d| {
      assert e[q] == d[q];
      DedupedElements(init, d[q]);
      FirstIndexPrefix(s, d[q]);
      DedupedOrderAt(init, p, q);
    } else {
      assert e[q] == x && x !in init;
      assert FirstIndex(s, x) == |s| - 1;
    }
  }

  /** A list without repeats comes back as it was. */
  lemma {:induction false} DedupedDistinct<T>(s: seq<T>)
    requires Distinct(s)
    ensures Deduped(s) == s
  {
    if s != [] {
      var init := s[..|s| - 1];
      assert Distinct(init);
      DedupedDistinct(init);
      assert s[|s| - 1] !in init;
      assert s == init + [s[|s| - 1]];
    }
  }

  // ---------------------------------------------------------------------
  // GuessHeaderRow

  /** `[v for v in row if v]`: the non-empty cells of a row, in order. */
  function Filled(row: seq<string>): (values: seq<string>)
    ensures |values| <= |row| && "" !in values
  {
    if row == [] then []
    else Filled(row[..|row| - 1]) + (if row[|row| - 1] != "" then [row[|row| - 1]] else [])
  }

  /** The draft's header test: the key present when one is given, and no non-empty value twice. */
  predicate Eligible(row: seq<string>, key: string)
  {
    (key == "" || key in row) && Distinct(Filled(row))
  }

  /** `len(set(values)) != len(values)` is the test for a repeated value. */
  lemma SetSizeDistinct(values: seq<string>)
    ensures |set v | v in values| == |values| <==> Distinct(values)
  {
    assert (set v | v in values) == Elements(values);
    ElementsBound(values);
    if Distinct(values) {
      DistinctCard(values);
    }
  }

  /**
    The draft's `GuessHeaderRow`: among the rows that pass the test, the
    earliest one with the most non-empty cells; none when no such row has a
    non-empty cell.
  */
  method GuessHeaderRow(rows: seq<seq<string>>, key: string) returns (iHeaders: Option<nat>)
    ensures iHeaders.None? <==> forall r :: 0 <= r < |rows| && Eligible(rows[r], key) ==> |Filled(rows[r])| == 0
    ensures iHeaders.Some? ==>
      && iHeaders.value < |rows| && Eligible(rows[iHeaders.value], key) && |Filled(rows[iHeaders.value])| > 0
      && (forall r :: 0 <= r < iHeaders.value && Eligible(rows[r], key) ==> |Filled(rows[r])| < |Filled(rows[iHeaders.value])|)
      && (forall r :: iHeaders.value < r < |rows| && Eligible(rows[r], key) ==> |Filled(rows[r])| <= |Filled(rows[iHeaders.value])|)
  {
    iHeaders := None;
    var maxValues := 0;
    for r := 0 to |rows|
      invariant iHeaders.None? ==> maxValues == 0
      invariant iHeaders.Some? ==>
        && iHeaders.value < r && Eligible(rows[iHeaders.value], key)
        && maxValues == |Filled(rows[iHeaders.value])| > 0
        && (forall t :: 0 <= t < iHeaders.value && Eligible(rows[t], key) ==> |Filled(rows[t])| < maxValues)
      invariant forall t :: 0 <= t < r && Eligible(rows[t], key) ==> |Filled(rows[t])| <= maxValues
    {
      var row := rows[r];
      if key != "" && key !in row {
        continue;
      }
      var values := Filled(row);
      var nValues := |values|;
      var nSetItems := |set v | v in values|;
      SetSizeDistinct(values);
      if nSetItems != nValues {
        continue;
      }
      if nValues > maxValues {
        maxValues := nValues;
        iHeaders := Some(r);
      }
    }
  }

  // ---------------------------------------------------------------------
  // CompareHeaders

  /**
    The draft's header merge: a failure for an empty header (old row checked
    first), else the marks and the merged names. Repeated names are not
    checked.
  */
  function MergedHeaders(olds: seq<string>, news: seq<string>): Outcome<(seq<Mark>, seq<string>)>
  {
    if "" in olds then Raised(BlankHeader(OldTable))
    else if "" in news then Raised(BlankHeader(NewTable))
    else
      var L := Layout(olds, news);
      LayoutFits(olds, news);
      Done((MarksOf(olds, news, L), Items(olds, news, L)))
  }

  /** The draft's `CompareHeaders`: the empty-header checks, then the same merge loop as the current engine. */
  method CompareHeaders(oldHeaders: seq<string>, oldHeaderIndex: map<string, nat>,
                        newHeaders: seq<string>, newHeaderIndex: map<string, nat>)
    returns (r: Outcome<(seq<Mark>, seq<string>)>)
    requires oldHeaderIndex == PositionMap(oldHeaders) && newHeaderIndex == PositionMap(newHeaders)
    ensures r == MergedHeaders(oldHeaders, newHeaders)
  {
    if "" in oldHeaders {
      return Raised(BlankHeader(OldTable));
    }
    if "" in newHeaders {
      return Raised(BlankHeader(NewTable));
    }
    var diffHeaderMarks, diffHeaders := HeaderMerge.MergeHeaders(oldHeaders, oldHeaderIndex, newHeaders, newHeaderIndex);
    r := Done((diffHeaderMarks, diffHeaders));
  }

  /** On header rows without repeats the draft merges exactly as the current engine does. */
  lemma MergedHeadersAgree(olds: seq<string>, news: seq<string>)
    requires Distinct(olds) && Distinct(news)
    ensures MergedHeaders(olds, news).Done? <==> HeaderMerge.HeaderUnion(olds, news).Ok?
    ensures MergedHeaders(olds, news).Done? ==> MergedHeaders(olds, news).value == HeaderMerge.HeaderUnion(olds, news).value
  {
  }

  /**
    The draft's merge fails exactly on an empty header; otherwise its marks
    say on which sides each name occurs, and leaving out the `-` names gives
    back the new header row.
  */
  lemma MergedHeadersMarks(olds: seq<string>, news: seq<string>)
    ensures MergedHeaders(olds, news).Raised? <==> "" in olds || "" in news
    ensures MergedHeaders(olds, news).Done? ==>
      var (marks, names) := MergedHeaders(olds, news).value;
      && |marks| == |names|
      && Surviving(marks, names) == news
      && forall p :: 0 <= p < |names| ==>
        && (marks[p] == Same <==> names[p] in olds && names[p] in news)
        && (marks[p] == Added <==> names[p] !in olds && names[p] in news)
        && (marks[p] == Deleted <==> names[p] in olds && names[p] !in news)
  {
    if "" !in olds && "" !in news {
      LayoutMarks(olds, news);
      SurvivingIsNewItems(olds, news, Layout(olds, news));
      LayoutNewOrder(olds, news);
    }
  }

  /** Unlike the current engine, the draft lets a repeated new header through, and repeats it in the merged row. */
  lemma MergedHeadersRepeat()
    ensures MergedHeaders(["a"], ["a", "a"]) == Done(([Same, Same], ["a", "a"]))
    ensures HeaderMerge.HeaderUnion(["a"], ["a", "a"]) == Err(DuplicateHeader(NewTable))
  {
    var olds, news := ["a"], ["a", "a"];
    assert RunFrom(olds, news, 0) == [];
    assert RunFrom(olds, news, 1) == [];
    assert Block(olds, news, 0) == [FromNew(0)];
    assert Block(olds, news, 1) == [FromNew(1)];
    var L := Layout(olds, news);
    assert L == [FromNew(0), FromNew(1)];
    LayoutFits(olds, news);
    assert Items(olds, news, L) == ["a", "a"];
    assert MarksOf(olds, news, L) == [Same, Same];
    assert !Distinct(news);
  }

  // ---------------------------------------------------------------------
  // CompareTableRows

  /**
    A table as the draft reads it: the body runs from below the header row to
    the last row, and the key column is where the header row names the key.
  */
  function DraftSide(rows: seq<seq<string>>, iHeaders: nat, key: string): (s: Side)
    requires iHeaders < |rows| && key in rows[iHeaders]
    ensures s.rows == rows && s.iHeaders == iHeaders && s.iTrailing == |rows|
    ensures s.jKey < |Headers(s)| && Headers(s)[s.jKey] == key
  {
    Side(rows, iHeaders, |rows|, LastIndex(rows[iHeaders], key))
  }

  /**
    The draft's rows for new body row `j` whose key old body row `i` has: one
    `=` row when the rows agree on every column both tables have, else a `c-`
    row and a `c+` row. Each row holds its own table's values only.
  */
  function DraftMatchedRows(o: Side, n: Side, diffHeaders: seq<string>, i: nat, j: nat): seq<seq<string>>
    requires WellShaped(o) && i < Height(o) && WellShaped(n) && j < Height(n)
  {
    var oldRow, newRow := BodyRow(o, i), BodyRow(n, j);
    if SameOnCompared(o, oldRow, n, newRow, []) then [[Text(Same)] + Cells(n, newRow, diffHeaders)]
    else [[Text(ChangedOld)] + Cells(o, oldRow, diffHeaders), [Text(ChangedNew)] + Cells(n, newRow, diffHeaders)]
  }

  /** The draft's rows for one slot of the key layout. */
  function DraftSlotRows(o: Side, n: Side, diffHeaders: seq<string>, s: Slot): seq<seq<string>>
    requires WellShaped(o) && WellShaped(n) && Fits(Keys(o), Keys(n), s)
  {
    match s
    case FromOld(i) => [DeletedRow(o, diffHeaders, i)]
    case FromNew(j) =>
      if Keys(n)[j] in Keys(o) then DraftMatchedRows(o, n, diffHeaders, LastIndex(Keys(o), Keys(n)[j]), j)
      else [AddedRow(n, diffHeaders, j)]
  }

  /** The draft's rows of a sequence of slots, in order. */
  function DraftRowsOf(o: Side, n: Side, diffHeaders: seq<string>, L: seq<Slot>): seq<seq<string>>
    requires WellShaped(o) && WellShaped(n)
  {
    if L == [] then []
    else
      (if Fits(Keys(o), Keys(n), L[0]) then DraftSlotRows(o, n, diffHeaders, L[0]) else [])
      + DraftRowsOf(o, n, diffHeaders, L[1..])
  }

  /** The draft's key check: an empty key first, then a repeated one, with no position. */
  function DraftKeyFailure(keys: seq<string>, table: Which): Option<Failure>
  {
    if "" in keys then Some(BlankKey(table))
    else if !Distinct(keys) then Some(RepeatedKey(table))
    else None
  }

  /** What `CompareTableRows` raises or appends: the key checks (old keys first), then every body row in layout order. */
  function DraftBody(o: Side, n: Side, diffHeaders: seq<string>): Outcome<seq<seq<string>>>
    requires WellShaped(o) && WellShaped(n)
  {
    match DraftKeyFailure(Keys(o), OldTable)
    case Some(f) => Raised(f)
    case None =>
      match DraftKeyFailure(Keys(n), NewTable)
      case Some(f) => Raised(f)
      case None => Done(DraftRowsOf(o, n, diffHeaders, Layout(Keys(o), Keys(n))))
  }

  /** The key index has one entry per distinct key, so it is shorter than the key list exactly when a key repeats. */
  lemma KeyIndexSize(keys: seq<string>, offset: nat)
    ensures |KeyIndex(keys, offset)| == |keys| <==> Distinct(keys)
  {
    var m := KeyIndex(keys, offset);
    forall k ensures k in m <==> k in Elements(keys) {
      KeyIndexLookup(keys, offset, k);
    }
    assert m.Keys == Elements(keys);
    ElementsBound(keys);
    if Distinct(keys) {
      DistinctCard(keys);
    }
  }

  lemma {:induction false} DraftRowsOfAppend(o: Side, n: Side, diffHeaders: seq<string>, A: seq<Slot>, B: seq<Slot>)
    requires WellShaped(o) && WellShaped(n)
    ensures DraftRowsOf(o, n, diffHeaders, A + B) == DraftRowsOf(o, n, diffHeaders, A) + DraftRowsOf(o, n, diffHeaders, B)
  {
    if A != [] {
      assert (A + B)[1..] == A[1..] + B;
      DraftRowsOfAppend(o, n, diffHeaders, A[1..], B);
      AppendAssoc((if Fits(Keys(o), Keys(n), A[0]) then DraftSlotRows(o, n, diffHeaders, A[0]) else []),
                  DraftRowsOf(o, n, diffHeaders, A[1..]), DraftRowsOf(o, n, diffHeaders, B));
    } else {
      assert A + B == B;
    }
  }

  /** A run of deleted keys gives the same `-` rows in the draft as in the current engine. */
  lemma {:induction false} DraftRunRows(o: Side, n: Side, diffHeaders: seq<string>, ignoreHeaders: seq<string>, k: nat)
    requires WellShaped(o) && WellShaped(n)
    ensures DraftRowsOf(o, n, diffHeaders, RunFrom(Keys(o), Keys(n), k))
         == RowsOf(o, n, diffHeaders, ignoreHeaders, RunFrom(Keys(o), Keys(n), k))
    decreases |Keys(o)| - k
  {
    var olds, news := Keys(o), Keys(n);
    if k < |olds| && olds[k] !in news {
      DraftRunRows(o, n, diffHeaders, ignoreHeaders, k + 1);
      assert RunFrom(olds, news, k)[1..] == RunFrom(olds, news, k + 1);
    }
  }

  lemma DraftRowsOfBlocksStep(o: Side, n: Side, diffHeaders: seq<string>, j: nat)
    requires WellShaped(o) && WellShaped(n) && j < |Keys(n)|
    ensures DraftRowsOf(o, n, diffHeaders, Blocks(Keys(o), Keys(n), j))
         == (DraftSlotRows(o, n, diffHeaders, FromNew(j)) + DraftRowsOf(o, n, diffHeaders, After(Keys(o), Keys(n), j)))
            + DraftRowsOf(o, n, diffHeaders, Blocks(Keys(o), Keys(n), j + 1))
  {
    var olds, news := Keys(o), Keys(n);
    var A := After(olds, news, j);
    assert Block(olds, news, j) == [FromNew(j)] + A;
    DraftRowsOfAppend(o, n, diffHeaders, [FromNew(j)], A);
    DraftRowsOfAppend(o, n, diffHeaders, Block(olds, news, j), Blocks(olds, news, j + 1));
  }

  /** The draft's rows of a new body row whose key the old table has: `=`, or `c-` and `c+`. */
  method AppendDraftMatched(diffRows: DiffRows, o: Side, n: Side, diffHeaders: seq<string>,
                            ghost t: nat, oldRow: seq<string>, ii: nat, newRow: seq<string>)
    requires WellShaped(o) && WellShaped(n) && t < Height(o) && ii < Height(n)
    requires oldRow == BodyRow(o, t) && newRow == BodyRow(n, ii)
    modifies diffRows
    ensures diffRows.rows == old(diffRows.rows) + DraftMatchedRows(o, n, diffHeaders, t, ii)
  {
    var newDiffRow := [Text(Added)] + Cells(n, newRow, diffHeaders);
    if SameOnCompared(o, oldRow, n, newRow, []) {
      newDiffRow := newDiffRow[0 := Text(Same)];
      assert newDiffRow == [Text(Same)] + Cells(n, newRow, diffHeaders);
      diffRows.Append(newDiffRow);
    } else {
      var oldDiffRow := [Text(ChangedOld)] + Cells(o, oldRow, diffHeaders);
      diffRows.Append(oldDiffRow);
      newDiffRow := newDiffRow[0 := Text(ChangedNew)];
      assert newDiffRow == [Text(ChangedNew)] + Cells(n, newRow, diffHeaders);
      diffRows.Append(newDiffRow);
    }
  }

  /** The rows of one new key, then, for a matched key, the deleted old rows that followed its old row. */
  method AppendDraftKey(diffRows: DiffRows, o: Side, n: Side, diffHeaders: seq<string>,
                        oldKeyIndex: map<string, nat>, newKeyIndex: map<string, nat>, ii: nat)
    requires WellShaped(o) && WellShaped(n) && ii < Height(n)
    requires IndexOf(oldKeyIndex, Keys(o), o.iHeaders + 1) && IndexOf(newKeyIndex, Keys(n), n.iHeaders + 1)
    modifies diffRows
    ensures diffRows.rows == old(diffRows.rows)
      + (DraftSlotRows(o, n, diffHeaders, FromNew(ii)) + DraftRowsOf(o, n, diffHeaders, After(Keys(o), Keys(n), ii)))
  {
    var k := Keys(n)[ii];
    var newRow := n.rows[ii + n.iHeaders + 1];
    assert newRow == BodyRow(n, ii);
    ghost var rows0 := diffRows.rows;
    if k in oldKeyIndex {
      ghost var t := LastIndex(Keys(o), k);
      var oldRow := o.rows[oldKeyIndex[k]];
      assert oldRow == BodyRow(o, t);
      AppendDraftMatched(diffRows, o, n, diffHeaders, t, oldRow, ii, newRow);
      ghost var matched := diffRows.rows;
      AppendDeletedRows(diffRows, o, n, diffHeaders, [], newKeyIndex, oldKeyIndex[k] + 1);
      assert diffRows.rows == matched + RowsOf(o, n, diffHeaders, [], RunFrom(Keys(o), Keys(n), t + 1));
      DraftRunRows(o, n, diffHeaders, [], t + 1);
      AppendAssoc(rows0, DraftMatchedRows(o, n, diffHeaders, t, ii),
                  DraftRowsOf(o, n, diffHeaders, After(Keys(o), Keys(n), ii)));
    } else {
      var newDiffRow := [Text(Added)] + Cells(n, newRow, diffHeaders);
      diffRows.Append(newDiffRow);
    }
  }

  /** The draft's body rows once both key columns have passed the checks. */
  method AppendDraftBody(diffRows: DiffRows, o: Side, n: Side, diffHeaders: seq<string>,
                         oldKeyIndex: map<string, nat>, newKeyIndex: map<string, nat>)
    requires WellShaped(o) && WellShaped(n)
    requires IndexOf(oldKeyIndex, Keys(o), o.iHeaders + 1) && IndexOf(newKeyIndex, Keys(n), n.iHeaders + 1)
    modifies diffRows
    ensures diffRows.rows == old(diffRows.rows) + DraftRowsOf(o, n, diffHeaders, Layout(Keys(o), Keys(n)))
  {
    ghost var rows0 := diffRows.rows;
    var oldKeys, newKeys := Keys(o), Keys(n);
    // The deleted rows before the first row whose key survives.
    AppendDeletedRows(diffRows, o, n, diffHeaders, [], newKeyIndex, o.iHeaders + 1);
    DraftRunRows(o, n, diffHeaders, [], 0);
    ghost var lead := DraftRowsOf(o, n, diffHeaders, RunFrom(oldKeys, newKeys, 0));
    assert diffRows.rows == rows0 + lead;
    ghost var total := diffRows.rows + DraftRowsOf(o, n, diffHeaders, Blocks(oldKeys, newKeys, 0));
    var ii := 0;
    while ii < |newKeys|
      invariant 0 <= ii <= |newKeys|
      invariant diffRows.rows + DraftRowsOf(o, n, diffHeaders, Blocks(oldKeys, newKeys, ii)) == total
    {
      DraftRowsOfBlocksStep(o, n, diffHeaders, ii);
      ghost var before := diffRows.rows;
      AppendDraftKey(diffRows, o, n, diffHeaders, oldKeyIndex, newKeyIndex, ii);
      AppendAssoc(before,
                  DraftSlotRows(o, n, diffHeaders, FromNew(ii)) + DraftRowsOf(o, n, diffHeaders, After(oldKeys, newKeys, ii)),
                  DraftRowsOf(o, n, diffHeaders, Blocks(oldKeys, newKeys, ii + 1)));
      ii := ii + 1;
    }
    DraftRowsOfAppend(o, n, diffHeaders, RunFrom(oldKeys, newKeys, 0), Blocks(oldKeys, newKeys, 0));
    AppendAssoc(rows0, lead, DraftRowsOf(o, n, diffHeaders, Blocks(oldKeys, newKeys, 0)));
  }

  /** Indexes one table's keys, sheet row by key, and reports the draft's failure for them. */
  method IndexDraftKeys(keys: seq<string>, table: Which, offset: nat) returns (failure: Option<Failure>, keyIndex: map<string, nat>)
    ensures failure == DraftKeyFailure(keys, table)
    ensures keyIndex == KeyIndex(keys, offset)
  {
    keyIndex := KeyIndex(keys, offset);
    KeyIndexLookup(keys, offset, "");
    KeyIndexSize(keys, offset);
    if "" in keyIndex {
      return Some(BlankKey(table)), keyIndex;
    }
    if |keys| != |keyIndex| {
      return Some(RepeatedKey(table)), keyIndex;
    }
    failure := None;
  }

  /**
    The draft's `CompareTableRows`: checks both key columns, then appends the
    leading deleted rows and, for every new key in order, its rows and the
    deleted old rows after its old row. Returns the failure it raises, if any;
    nothing is appended then.
  */
  method CompareTableRows(diffRows: DiffRows, diffHeaders: seq<string>, key: string,
                          oldRows: seq<seq<string>>, iOldHeaders: nat, oldHeaderIndex: map<string, nat>,
                          newRows: seq<seq<string>>, iNewHeaders: nat, newHeaderIndex: map<string, nat>)
    returns (failure: Option<Failure>)
    requires iOldHeaders < |oldRows| && oldHeaderIndex == PositionMap(oldRows[iOldHeaders]) && key in oldRows[iOldHeaders]
    requires iNewHeaders < |newRows| && newHeaderIndex == PositionMap(newRows[iNewHeaders]) && key in newRows[iNewHeaders]
    requires forall r :: 0 <= r < |oldRows| ==> |oldRows[r]| == |oldRows[iOldHeaders]|
    requires forall r :: 0 <= r < |newRows| ==> |newRows[r]| == |newRows[iNewHeaders]|
    modifies diffRows
    ensures var o, n := DraftSide(oldRows, iOldHeaders, key), DraftSide(newRows, iNewHeaders, key);
      && WellShaped(o) && WellShaped(n)
      && match DraftBody(o, n, diffHeaders)
         case Raised(f) => failure == Some(f) && diffRows.rows == old(diffRows.rows)
         case Done(body) => failure == None && diffRows.rows == old(diffRows.rows) + body
  {
    PositionMapIsLastIndex(oldRows[iOldHeaders], key);
    PositionMapIsLastIndex(newRows[iNewHeaders], key);
    var o := Side(oldRows, iOldHeaders, |oldRows|, oldHeaderIndex[key]);
    var n := Side(newRows, iNewHeaders, |newRows|, newHeaderIndex[key]);
    assert o == DraftSide(oldRows, iOldHeaders, key) && n == DraftSide(newRows, iNewHeaders, key);
    var oldFailure, oldKeyIndex := IndexDraftKeys(Keys(o), OldTable, iOldHeaders + 1);
    if oldFailure.Some? {
      return oldFailure;
    }
    var newFailure, newKeyIndex := IndexDraftKeys(Keys(n), NewTable, iNewHeaders + 1);
    if newFailure.Some? {
      return newFailure;
    }
    KeyIndexIsIndex(Keys(o), iOldHeaders + 1);
    KeyIndexIsIndex(Keys(n), iNewHeaders + 1);
    AppendDraftBody(diffRows, o, n, diffHeaders, oldKeyIndex, newKeyIndex);
    failure := None;
  }

  /**
    The draft raises exactly where the current engine reports a key error:
    the old table's keys are checked first, and an empty key is reported
    before a repeated one.
  */
  lemma DraftBodyFails(o: Side, n: Side, diffHeaders: seq<string>)
    requires WellShaped(o) && WellShaped(n)
    ensures DraftBody(o, n, diffHeaders).Done?
        <==> KeyError(Keys(o), OldTable, o.iHeaders + 1).None? && KeyError(Keys(n), NewTable, n.iHeaders + 1).None?
    ensures DraftBody(o, n, diffHeaders).Raised? ==>
      var f := DraftBody(o, n, diffHeaders).failure;
      var keys := if f.table == OldTable then Keys(o) else Keys(n);
      && (f.BlankKey? || f.RepeatedKey?)
      && (f.table == OldTable <==> KeyError(Keys(o), OldTable, o.iHeaders + 1).Some?)
      && (f.BlankKey? <==> "" in keys)
      && (f.RepeatedKey? ==> !Distinct(keys))
  {
    KeyErrorFirstBad(Keys(o), OldTable, o.iHeaders + 1);
    KeyErrorFirstBad(Keys(n), NewTable, n.iHeaders + 1);
  }

  lemma DraftSlotShape(o: Side, n: Side, diffHeaders: seq<string>, s: Slot)
    requires WellShaped(o) && WellShaped(n) && Fits(Keys(o), Keys(n), s)
    ensures var rows := DraftSlotRows(o, n, diffHeaders, s);
      && RowsShaped(rows, |diffHeaders|)
      && WellPaired(rows, 0)
  {
  }

  /** Every draft row has a mark and one cell per merged header, and every `c-` row has its `c+` row next to it. */
  lemma {:induction false} DraftRowsShape(o: Side, n: Side, diffHeaders: seq<string>, L: seq<Slot>)
    requires WellShaped(o) && WellShaped(n)
    ensures RowsShaped(DraftRowsOf(o, n, diffHeaders, L), |diffHeaders|)
    ensures WellPaired(DraftRowsOf(o, n, diffHeaders, L), 0)
  {
    if L != [] {
      var head := if Fits(Keys(o), Keys(n), L[0]) then DraftSlotRows(o, n, diffHeaders, L[0]) else [];
      if Fits(Keys(o), Keys(n), L[0]) {
        DraftSlotShape(o, n, diffHeaders, L[0]);
      }
      DraftRowsShape(o, n, diffHeaders, L[1..]);
      RowsShapedAppend(head, DraftRowsOf(o, n, diffHeaders, L[1..]), |diffHeaders|);
      ChangesSplit(head, DraftRowsOf(o, n, diffHeaders, L[1..]), 0);
    }
  }

  lemma DraftSlotAgrees(o: Side, n: Side, diffHeaders: seq<string>, s: Slot)
    requires WellShaped(o) && WellShaped(n) && Fits(Keys(o), Keys(n), s)
    requires forall h :: h in diffHeaders ==> h in Headers(o) && h in Headers(n)
    ensures DraftSlotRows(o, n, diffHeaders, s) == SlotRows(o, n, diffHeaders, [], s)
  {
    if s.FromNew? && Keys(n)[s.j] in Keys(o) {
      var i := LastIndex(Keys(o), Keys(n)[s.j]);
      var oldRow, newRow := BodyRow(o, i), BodyRow(n, s.j);
      assert MatchedCells(o, oldRow, n, newRow, diffHeaders) == Cells(n, newRow, diffHeaders);
      assert ChangedOldCells(o, oldRow, n, newRow, diffHeaders) == Cells(o, oldRow, diffHeaders);
    }
  }

  /**
    When both tables have every merged column, the draft writes the same body
    rows as the current engine with nothing ignored.
  */
  lemma {:induction false} DraftRowsAgree(o: Side, n: Side, diffHeaders: seq<string>, L: seq<Slot>)
    requires WellShaped(o) && WellShaped(n)
    requires forall h :: h in diffHeaders ==> h in Headers(o) && h in Headers(n)
    ensures DraftRowsOf(o, n, diffHeaders, L) == RowsOf(o, n, diffHeaders, [], L)
  {
    if L != [] {
      if Fits(Keys(o), Keys(n), L[0]) {
        DraftSlotAgrees(o, n, diffHeaders, L[0]);
      }
      DraftRowsAgree(o, n, diffHeaders, L[1..]);
    }
  }

  /**
    In a column only the old table has, the draft leaves a matched key's `=`
    or `c+` cell empty, where the current engine carries the old value over.
  */
  lemma DraftDropsOldOnlyValues(o: Side, n: Side, diffHeaders: seq<string>, i: nat, j: nat, p: nat)
    requires WellShaped(o) && i < Height(o) && WellShaped(n) && j < Height(n) && p < |diffHeaders|
    requires diffHeaders[p] in Headers(o) && diffHeaders[p] !in Headers(n)
    ensures var draft, current := DraftMatchedRows(o, n, diffHeaders, i, j), MatchedRows(o, n, diffHeaders, [], i, j);
      && |draft| == |current|
      && draft[|draft| - 1][p + 1] == ""
      && current[|current| - 1][p + 1] == Value(o, BodyRow(o, i), diffHeaders[p])
  {
  }

  // ---------------------------------------------------------------------
  // CompareTables: the header zone

  /**
    The draft's header zone: a single `=` row holding the OLD header row
    whenever the merged row is as long as the old one; otherwise a `-` row of
    the old names and a `+` row of the new names under the merged headers.
  */
  function DraftHeaderZone(olds: seq<string>, news: seq<string>, diffHeaders: seq<string>): seq<seq<string>>
  {
    if |diffHeaders| == |olds| then [[Text(Same)] + olds]
    else [[Text(Deleted)] + Tables.NamedCells(olds, diffHeaders), [Text(Added)] + Tables.NamedCells(news, diffHeaders)]
  }

  /** Where the body starts: right after the header zone. */
  function DraftBodyStart(iDiffHeaders: nat, olds: seq<string>, news: seq<string>, diffHeaders: seq<string>): (iDiffBody: nat)
    ensures iDiffBody == iDiffHeaders + (if |diffHeaders| == |olds| then 1 else 2)
  {
    iDiffHeaders + |DraftHeaderZone(olds, news, diffHeaders)|
  }

  /**
    A column that only the old table has goes unreported: the merged row is
    as long as the old one, so the draft writes one `=` row, while the
    corrected zone writes the `c-`/`c+` pair.
  */
  lemma DraftZoneHidesDeletedColumn()
    ensures var olds, news := ["a", "b"], ["a"];
      && MergedHeaders(olds, news) == Done(([Same, Deleted], ["a", "b"]))
      && DraftHeaderZone(olds, news, ["a", "b"]) == [["=", "a", "b"]]
      && "b" !in news
      && |Tables.HeaderZone(olds, news, ["a", "b"])| == 2
  {
    var olds, news := ["a", "b"], ["a"];
    assert RunFrom(olds, news, 0) == [];
    assert RunFrom(olds, news, 2) == [];
    assert RunFrom(olds, news, 1) == [FromOld(1)];
    assert LastIndex(olds, "a") == 0;
    assert Block(olds, news, 0) == [FromNew(0), FromOld(1)];
    var L := Layout(olds, news);
    assert L == [FromNew(0), FromOld(1)];
    LayoutFits(olds, news);
    assert Items(olds, news, L) == ["a", "b"];
    assert MarksOf(olds, news, L) == [Same, Deleted];
    assert !Tables.SameWidth(olds, news, ["a", "b"]);
    assert [Text(Same)] + olds == ["=", "a", "b"];
  }

  /**
    Reordered columns are misnamed: the draft's `=` row lists the old order
    above body cells laid out in the new order.
  */
  lemma DraftZoneMisnamesColumns()
    ensures var olds, news := ["a", "b"], ["b", "a"];
      && MergedHeaders(olds, news) == Done(([Same, Same], ["b", "a"]))
      && DraftHeaderZone(olds, news, ["b", "a"]) == [["=", "a", "b"]]
      && Tables.HeaderZone(olds, news, ["b", "a"]) == [["=", "b", "a"]]
  {
    var olds, news := ["a", "b"], ["b", "a"];
    assert RunFrom(olds, news, 0) == [];
    assert RunFrom(olds, news, 1) == [];
    assert RunFrom(olds, news, 2) == [];
    assert LastIndex(olds, "b") == 1 && LastIndex(olds, "a") == 0;
    assert Block(olds, news, 0) == [FromNew(0)];
    assert Block(olds, news, 1) == [FromNew(1)];
    var L := Layout(olds, news);
    assert L == [FromNew(0), FromNew(1)];
    LayoutFits(olds, news);
    assert Items(olds, news, L) == ["b", "a"];
    assert MarksOf(olds, news, L) == [Same, Same];
    assert [Text(Same)] + olds == ["=", "a", "b"];
    assert [Text(Same)] + ["b", "a"] == ["=", "b", "a"];
  }
}
