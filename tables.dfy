/**
  The comparison of two whole tables (`CompareTables`): the optional echo of
  the command, the rows before the header rows, the header zone, the body,
  and the rows after the body, all in one diff table whose rows carry a
  marker cell and one cell per merged header. The total change count adds
  up the changed lines before and after the table, the changed column
  names, and the body's changes.
*/
module Tables {
  import opened Common
  import opened Marks
  import opened Interleave
  import opened HeaderMerge
  import opened Output
  import opened Preamble
  import opened Body

  /** The diff table and where its parts start, as `CompareTables` returns them. */
  datatype Report = Report(diffRows: seq<seq<string>>, iDiffHeaders: nat, iDiffBody: nat, iDiffTrailing: nat, nChanges: nat)

  /** The first row when a command is echoed: `#`, the command, then empty cells up to the table width. */
  function CommandRow(command: string, nDiffHeaders: nat): (row: seq<string>)
    requires 1 <= nDiffHeaders
    ensures |row| == nDiffHeaders + 1 && row[0] == Text(Comment)
  {
    [Text(Comment), command] + seq(nDiffHeaders - 1, j => "")
  }

  /** A header row under the merged headers: each merged name where this row has it, else empty. */
  function NamedCells(headers: seq<string>, diffHeaders: seq<string>): (cells: seq<string>)
    ensures |cells| == |diffHeaders|
  {
    seq(|diffHeaders|, p requires 0 <= p < |diffHeaders| => if diffHeaders[p] in headers then diffHeaders[p] else "")
  }

  /** Neither side gained nor lost a column: the merged row is as long as both header rows. */
  predicate SameWidth(olds: seq<string>, news: seq<string>, diffHeaders: seq<string>)
  {
    |diffHeaders| == |olds| && |diffHeaders| == |news|
  }

  /**
    The header zone: one `=` row holding the merged headers when no column
    was added or deleted, else a `c-` row of the old names and a `c+` row
    of the new names under the merged headers.
  */
  function HeaderZone(olds: seq<string>, news: seq<string>, diffHeaders: seq<string>): seq<seq<string>>
  {
    if SameWidth(olds, news, diffHeaders) then [[Text(Same)] + diffHeaders]
    else [[Text(ChangedOld)] + NamedCells(olds, diffHeaders), [Text(ChangedNew)] + NamedCells(news, diffHeaders)]
  }

  /** The column changes: the cells in which the `c-` and `c+` header rows differ; none with a single `=` row. */
  function ColumnChanges(olds: seq<string>, news: seq<string>, diffHeaders: seq<string>): nat
  {
    if SameWidth(olds, news, diffHeaders) then 0
    else Differing([Text(ChangedOld)] + NamedCells(olds, diffHeaders), [Text(ChangedNew)] + NamedCells(news, diffHeaders))
  }

  /**
    What `CompareTables` returns: the first failure of the header check or
    of the body, else the diff table, the positions of its header zone, its
    body and its trailing rows, and the total change count.
  */
  function Reconciled(o: Side, n: Side, ignoreHeaders: seq<string>, command: string): Result<Report>
    requires WellShaped(o) && WellShaped(n)
  {
    match HeaderUnion(Headers(o), Headers(n))
    case Err(e) => Err(e)
    case Ok(union) =>
      UnionNonEmpty(o, n);
      Assembled(o, n, ignoreHeaders, command, union.1)
  }

  /** The echoed command row, if any. */
  function Echo(command: string, nDiffHeaders: nat): seq<seq<string>>
    requires 1 <= nDiffHeaders
  {
    if command == "" then [] else [CommandRow(command, nDiffHeaders)]
  }

  /** The marked lines before the header rows. */
  function Leading(o: Side, n: Side): seq<(Mark, string)>
    requires WellShaped(o) && WellShaped(n)
  {
    Compared(o.rows, 0, o.iHeaders, n.rows, 0, n.iHeaders)
  }

  /** The marked lines after the body. */
  function Trailing(o: Side, n: Side): seq<(Mark, string)>
    requires WellShaped(o) && WellShaped(n)
  {
    Compared(o.rows, o.iTrailing, |o.rows|, n.rows, n.iTrailing, |n.rows|)
  }

  /**
    The diff table from its parts: the echo, the leading lines, the header
    zone, the body rows and the trailing lines, with the positions where the
    header zone, the body and the trailing rows start, and the total count.
  */
  function Assemble(echo: seq<seq<string>>, lead: seq<(Mark, string)>, zone: seq<seq<string>>, columnChanges: nat,
                    bodyRows: seq<seq<string>>, bodyChanges: nat, trail: seq<(Mark, string)>, nDiffHeaders: nat): (r: Report)
    ensures r.iDiffHeaders <= r.iDiffBody <= r.iDiffTrailing <= |r.diffRows|
  {
    var iDiffHeaders := |echo| + |lead|;
    Report((((echo + LineRows(lead, nDiffHeaders)) + zone) + bodyRows) + LineRows(trail, nDiffHeaders),
           iDiffHeaders,
           iDiffHeaders + |zone|,
           iDiffHeaders + |zone| + |bodyRows|,
           CountChanged(lead) + columnChanges + bodyChanges + CountChanged(trail))
  }

  /** The outcome once the merged headers are known. */
  function Assembled(o: Side, n: Side, ignoreHeaders: seq<string>, command: string, diffHeaders: seq<string>): Result<Report>
    requires WellShaped(o) && WellShaped(n) && 1 <= |diffHeaders|
  {
    var body := BodyOutcome(o, n, diffHeaders, ignoreHeaders);
    if body.0.Err? then Err(body.0.error)
    else
      Ok(Assemble(Echo(command, |diffHeaders|), Leading(o, n), HeaderZone(Headers(o), Headers(n), diffHeaders),
                  ColumnChanges(Headers(o), Headers(n), diffHeaders), body.1, body.0.value, Trailing(o, n), |diffHeaders|))
  }

  /** The header row holds the key column, so the merged header row is never empty. */
  lemma UnionNonEmpty(o: Side, n: Side)
    requires WellShaped(o) && WellShaped(n) && HeaderUnion(Headers(o), Headers(n)).Ok?
    ensures |HeaderUnion(Headers(o), Headers(n)).value.1| >= 1
  {
    HeaderUnionIsUnion(Headers(o), Headers(n));
    assert Headers(o)[0] in Headers(o);
  }

  /** The merged header row names every column of both tables. */
  lemma UnionCovers(o: Side, n: Side)
    requires WellShaped(o) && WellShaped(n) && HeaderUnion(Headers(o), Headers(n)).Ok?
    ensures Covers(HeaderUnion(Headers(o), Headers(n)).value.1, o, n)
  {
    HeaderUnionIsUnion(Headers(o), Headers(n));
  }

  /** Appends the header zone and returns its column changes. */
  method AppendHeaderZone(diffRows: DiffRows, oldHeaders: seq<string>, oldHeaderIndex: map<string, nat>,
                          newHeaders: seq<string>, newHeaderIndex: map<string, nat>, diffHeaders: seq<string>)
    returns (nColumnChanges: nat)
    requires oldHeaderIndex == PositionMap(oldHeaders) && newHeaderIndex == PositionMap(newHeaders)
    modifies diffRows
    ensures diffRows.rows == old(diffRows.rows) + HeaderZone(oldHeaders, newHeaders, diffHeaders)
    ensures nColumnChanges == ColumnChanges(oldHeaders, newHeaders, diffHeaders)
  {
    nColumnChanges := 0;
    if |diffHeaders| == |oldHeaders| && |diffHeaders| == |newHeaders| {
      // No columns were added or deleted.
      diffRows.Append([Text(Same)] + diffHeaders);
    } else {
      var oldDiffRow := [Text(ChangedOld)] + seq(|diffHeaders|, p requires 0 <= p < |diffHeaders| =>
        if diffHeaders[p] in oldHeaderIndex then oldHeaders[oldHeaderIndex[diffHeaders[p]]] else "");
      assert oldDiffRow == [Text(ChangedOld)] + NamedCells(oldHeaders, diffHeaders);
      diffRows.Append(oldDiffRow);
      var newDiffRow := [Text(ChangedNew)] + seq(|diffHeaders|, p requires 0 <= p < |diffHeaders| =>
        if diffHeaders[p] in newHeaderIndex then newHeaders[newHeaderIndex[diffHeaders[p]]] else "");
      assert newDiffRow == [Text(ChangedNew)] + NamedCells(newHeaders, diffHeaders);
      diffRows.Append(newDiffRow);
      nColumnChanges := Differing(oldDiffRow, newDiffRow);
    }
  }

  /** Echoes the command on the first row, when there is one. */
  method EchoCommand(diffRows: DiffRows, command: string, nDiffHeaders: nat)
    requires 1 <= nDiffHeaders
    modifies diffRows
    ensures diffRows.rows == old(diffRows.rows) + Echo(command, nDiffHeaders)
  {
    if command != "" {
      var cmdRow := seq(nDiffHeaders + 1, j => "");
      cmdRow := cmdRow[0 := Text(Comment)];
      cmdRow := cmdRow[1 := command];
      assert cmdRow == CommandRow(command, nDiffHeaders);
      diffRows.Append(cmdRow);
    }
  }

  /** `CompareTables` as the source runs it, on a diff table of its own. */
  method CompareTables(o: Side, n: Side, ignoreHeaders: seq<string>, command: string) returns (r: Result<Report>)
    requires WellShaped(o) && WellShaped(n)
    ensures r == Reconciled(o, n, ignoreHeaders, command)
  {
    var oldHeaders := o.rows[o.iHeaders];
    var oldHeaderIndex := PositionMap(oldHeaders);
    var newHeaders := n.rows[n.iHeaders];
    var newHeaderIndex := PositionMap(newHeaders);
    var headers := CompareHeaders(oldHeaders, oldHeaderIndex, newHeaders, newHeaderIndex);
    if headers.Err? {
      return Err(headers.error);
    }
    UnionNonEmpty(o, n);
    r := CompareTablesWith(o, oldHeaderIndex, n, newHeaderIndex, ignoreHeaders, command, headers.value.1);
  }

  /** The rest of `CompareTables`, once the merged headers are known. */
  method CompareTablesWith(o: Side, oldHeaderIndex: map<string, nat>, n: Side, newHeaderIndex: map<string, nat>,
                           ignoreHeaders: seq<string>, command: string, diffHeaders: seq<string>)
    returns (r: Result<Report>)
    requires WellShaped(o) && WellShaped(n) && 1 <= |diffHeaders|
    requires oldHeaderIndex == PositionMap(Headers(o)) && newHeaderIndex == PositionMap(Headers(n))
    ensures r == Assembled(o, n, ignoreHeaders, command, diffHeaders)
  {
    var nDiffHeaders := |diffHeaders|;
    ghost var echo := Echo(command, nDiffHeaders);
    ghost var leading, trailing := Leading(o, n), Trailing(o, n);
    ghost var zone := HeaderZone(Headers(o), Headers(n), diffHeaders);
    ghost var body := BodyOutcome(o, n, diffHeaders, ignoreHeaders);
    var diffRows := new DiffRows();
    EchoCommand(diffRows, command, nDiffHeaders);
    ghost var echoed := diffRows.rows;
    // The rows before the header rows.
    var nChanges := CompareLeadingTrailingRows(diffRows, o.rows, 0, o.iHeaders, n.rows, 0, n.iHeaders, nDiffHeaders);
    var iDiffHeaders := |diffRows.rows|;
    ghost var led := diffRows.rows;
    var nColumnChanges := AppendHeaderZone(diffRows, Headers(o), oldHeaderIndex, Headers(n), newHeaderIndex, diffHeaders);
    var iDiffBody := |diffRows.rows|;
    nChanges := nChanges + nColumnChanges;
    ghost var zoned := diffRows.rows;
    // The body.
    var nBodyChanges := CompareBody(diffRows, diffHeaders, ignoreHeaders, o, n);
    AssembledOf(o, n, ignoreHeaders, command, diffHeaders);
    if nBodyChanges.Err? {
      return Err(nBodyChanges.error);
    }
    nChanges := nChanges + nBodyChanges.value;
    var iDiffTrailing := |diffRows.rows|;
    ghost var bodied := diffRows.rows;
    // The rows after the body.
    var nTrailingChanges := CompareLeadingTrailingRows(diffRows, o.rows, o.iTrailing, |o.rows|, n.rows, n.iTrailing, |n.rows|, nDiffHeaders);
    nChanges := nChanges + nTrailingChanges;
    AssembleOf(echo, leading, zone, nColumnChanges, body.1, body.0.value, trailing, nDiffHeaders,
               echoed, led, zoned, bodied, diffRows.rows, nChanges);
    r := Ok(Report(diffRows.rows, iDiffHeaders, iDiffBody, iDiffTrailing, nChanges));
  }

  /** The outcome is the body's error, or the table assembled from its parts. */
  lemma AssembledOf(o: Side, n: Side, ignoreHeaders: seq<string>, command: string, diffHeaders: seq<string>)
    requires WellShaped(o) && WellShaped(n) && 1 <= |diffHeaders|
    ensures var body := BodyOutcome(o, n, diffHeaders, ignoreHeaders);
      Assembled(o, n, ignoreHeaders, command, diffHeaders)
      == if body.0.Err? then Err(body.0.error)
         else Ok(Assemble(Echo(command, |diffHeaders|), Leading(o, n), HeaderZone(Headers(o), Headers(n), diffHeaders),
                          ColumnChanges(Headers(o), Headers(n), diffHeaders), body.1, body.0.value, Trailing(o, n), |diffHeaders|))
  {
  }

  /** A diff table put together part by part is the assembled one. */
  lemma AssembleOf(echo: seq<seq<string>>, lead: seq<(Mark, string)>, zone: seq<seq<string>>, columnChanges: nat,
                   bodyRows: seq<seq<string>>, bodyChanges: nat, trail: seq<(Mark, string)>, nDiffHeaders: nat,
                   echoed: seq<seq<string>>, led: seq<seq<string>>, zoned: seq<seq<string>>, bodied: seq<seq<string>>,
                   rows: seq<seq<string>>, nChanges: nat)
    requires echoed == [] + echo && led == echoed + LineRows(lead, nDiffHeaders) && zoned == led + zone
    requires bodied == zoned + bodyRows && rows == bodied + LineRows(trail, nDiffHeaders)
    requires nChanges == CountChanged(lead) + columnChanges + bodyChanges + CountChanged(trail)
    ensures Assemble(echo, lead, zone, columnChanges, bodyRows, bodyChanges, trail, nDiffHeaders)
         == Report(rows, |led|, |zoned|, |bodied|, nChanges)
  {
    assert echoed == echo;
  }

  // ---------------------------------------------------------------------
  // The header zone

  /** The number of merged columns that only one of the two header rows has. */
  function OneSided(olds: seq<string>, news: seq<string>, diffHeaders: seq<string>): nat
  {
    if diffHeaders == [] then 0
    else
      var h := diffHeaders[|diffHeaders| - 1];
      OneSided(olds, news, diffHeaders[..|diffHeaders| - 1]) + (if h in olds && h in news then 0 else 1)
  }

  lemma {:induction false} OneSidedNone(olds: seq<string>, news: seq<string>, diffHeaders: seq<string>)
    ensures OneSided(olds, news, diffHeaders) == 0 <==> forall h :: h in diffHeaders ==> h in olds && h in news
  {
    if diffHeaders != [] {
      var init := diffHeaders[..|diffHeaders| - 1];
      OneSidedNone(olds, news, init);
      assert diffHeaders == init + [diffHeaders[|diffHeaders| - 1]];
    }
  }

  lemma {:induction false} NamedCellsDiffer(olds: seq<string>, news: seq<string>, diffHeaders: seq<string>, k: nat)
    requires k <= |diffHeaders|
    requires forall p :: 0 <= p < k ==> diffHeaders[p] != "" && (diffHeaders[p] in olds || diffHeaders[p] in news)
    ensures Differing([Text(ChangedOld)] + NamedCells(olds, diffHeaders[..k]), [Text(ChangedNew)] + NamedCells(news, diffHeaders))
         == OneSided(olds, news, diffHeaders[..k])
  {
    if k > 0 {
      NamedCellsDiffer(olds, news, diffHeaders, k - 1);
      NamedPairSnoc(olds, news, diffHeaders, k);
    }
  }

  /** One more merged column adds the same to the count of differing header cells and to `OneSided`. */
  lemma NamedPairSnoc(olds: seq<string>, news: seq<string>, diffHeaders: seq<string>, k: nat)
    requires 0 < k <= |diffHeaders|
    requires diffHeaders[k - 1] != "" && (diffHeaders[k - 1] in olds || diffHeaders[k - 1] in news)
    ensures var b := [Text(ChangedNew)] + NamedCells(news, diffHeaders);
            var h := diffHeaders[k - 1];
            var step := if h in olds && h in news then 0 else 1;
            && Differing([Text(ChangedOld)] + NamedCells(olds, diffHeaders[..k]), b)
               == Differing([Text(ChangedOld)] + NamedCells(olds, diffHeaders[..k - 1]), b) + step
            && OneSided(olds, news, diffHeaders[..k]) == OneSided(olds, news, diffHeaders[..k - 1]) + step
  {
    var a := [Text(ChangedOld)] + NamedCells(olds, diffHeaders[..k]);
    var b := [Text(ChangedNew)] + NamedCells(news, diffHeaders);
    NamedCellsSnoc(olds, diffHeaders, k, Text(ChangedOld));
    DifferingSnoc(a, b);
    assert diffHeaders[..k][..k - 1] == diffHeaders[..k - 1];
  }

  /** The named cells of a longer prefix extend those of the shorter one by the cell of the next header. */
  lemma NamedCellsSnoc(headers: seq<string>, diffHeaders: seq<string>, k: nat, marker: string)
    requires 0 < k <= |diffHeaders|
    ensures ([marker] + NamedCells(headers, diffHeaders[..k]))[..k] == [marker] + NamedCells(headers, diffHeaders[..k - 1])
    ensures ([marker] + NamedCells(headers, diffHeaders[..k]))[k]
         == if diffHeaders[k - 1] in headers then diffHeaders[k - 1] else ""
  {
    var a := [marker] + NamedCells(headers, diffHeaders[..k]);
    assert a[..k] == [marker] + NamedCells(headers, diffHeaders[..k])[..k - 1];
  }

  /** Two header rows name the same columns, in whatever order. */
  predicate SameColumns(olds: seq<string>, news: seq<string>)
  {
    (forall h :: h in olds ==> h in news) && (forall h :: h in news ==> h in olds)
  }

  /** Sets as large as their union are equal. */
  lemma SameSizeUnion<T>(A: set<T>, B: set<T>)
    requires |A + B| == |A| && |A + B| == |B|
    ensures A == B
  {
    assert |A - B| + |B - A| + |A * B| == |A + B|;
    assert |A - B| == |A| - |A * B|;
    assert A - B == {} && B - A == {};
  }

  /** The merged row is as long as both header rows exactly when they name the same columns. */
  lemma SameWidthIffSameColumns(olds: seq<string>, news: seq<string>)
    requires HeaderUnion(olds, news).Ok?
    ensures SameWidth(olds, news, HeaderUnion(olds, news).value.1) <==> SameColumns(olds, news)
  {
    var diffHeaders := HeaderUnion(olds, news).value.1;
    HeaderUnionIsUnion(olds, news);
    DistinctCard(olds);
    DistinctCard(news);
    var A, B := Elements(olds), Elements(news);
    if SameColumns(olds, news) {
      assert forall h :: h in A ==> h in B;
      assert forall h :: h in B ==> h in A;
      assert A == B;
      assert A + B == A;
    }
    if SameWidth(olds, news, diffHeaders) {
      SameSizeUnion(A, B);
      forall h | h in olds ensures h in news {
        assert h in A;
      }
      forall h | h in news ensures h in olds {
        assert h in B;
      }
    }
  }

  /**
    The header zone is a single `=` row exactly when both header rows name
    the same columns (a reordering does not count); otherwise each column
    that only one row names counts as one change, and only those do.
  */
  lemma ColumnChangesCount(olds: seq<string>, news: seq<string>)
    requires HeaderUnion(olds, news).Ok?
    ensures var diffHeaders := HeaderUnion(olds, news).value.1;
      && (SameWidth(olds, news, diffHeaders) <==> SameColumns(olds, news))
      && ColumnChanges(olds, news, diffHeaders) == OneSided(olds, news, diffHeaders)
      && (ColumnChanges(olds, news, diffHeaders) == 0 <==> SameColumns(olds, news))
  {
    var diffHeaders := HeaderUnion(olds, news).value.1;
    HeaderUnionIsUnion(olds, news);
    SameWidthIffSameColumns(olds, news);
    OneSidedNone(olds, news, diffHeaders);
    NamedCellsDiffer(olds, news, diffHeaders, |diffHeaders|);
    assert diffHeaders[..|diffHeaders|] == diffHeaders;
  }

  // ---------------------------------------------------------------------
  // No change counted exactly when nothing is marked as changed

  /** Every row opens with `=` or, for the echoed command, `#`. */
  predicate Quiet(rows: seq<seq<string>>)
  {
    forall k :: 0 <= k < |rows| ==> |rows[k]| > 0 && rows[k][0] in {"=", "#"}
  }

  lemma QuietAppend(a: seq<seq<string>>, b: seq<seq<string>>)
    ensures Quiet(a + b) <==> Quiet(a) && Quiet(b)
  {
    if Quiet(a + b) {
      assert forall k :: 0 <= k < |a| ==> (a + b)[k] == a[k];
      assert forall k :: 0 <= k < |b| ==> (a + b)[|a| + k] == b[k];
    }
  }

  lemma EchoQuiet(command: string, nDiffHeaders: nat)
    requires 1 <= nDiffHeaders
    ensures Quiet(Echo(command, nDiffHeaders))
  {
  }

  /** The lines before or after the table count no change exactly when their rows are all `=` rows. */
  lemma ComparedQuiet(oldRows: seq<seq<string>>, iOldStart: nat, nOldRows: nat,
                      newRows: seq<seq<string>>, iNewStart: nat, nNewRows: nat, nDiffHeaders: nat)
    requires iOldStart <= nOldRows <= |oldRows| && iNewStart <= nNewRows <= |newRows|
    ensures var flat := Compared(oldRows, iOldStart, nOldRows, newRows, iNewStart, nNewRows);
      CountChanged(flat) == 0 <==> Quiet(LineRows(flat, nDiffHeaders))
  {
    var flat := Compared(oldRows, iOldStart, nOldRows, newRows, iNewStart, nNewRows);
    ComparedRowsShape(oldRows, iOldStart, nOldRows, newRows, iNewStart, nNewRows, nDiffHeaders);
    LineRowsUnchanged(flat, nDiffHeaders);
  }

  /**
    The header zone over the merged headers names the body's columns: it is a
    single `=` row, listing the merged headers in body order, exactly when both
    tables have the same columns; otherwise each of its two rows names a
    column exactly where that table has it.
  */
  lemma HeaderZoneNamesColumns(olds: seq<string>, news: seq<string>)
    requires HeaderUnion(olds, news).Ok?
    ensures var diffHeaders := HeaderUnion(olds, news).value.1;
      var zone := HeaderZone(olds, news, diffHeaders);
      && (|zone| == 1 <==> SameColumns(olds, news))
      && (|zone| == 1 ==> zone[0] == [Text(Same)] + diffHeaders)
      && (|zone| == 2 ==> forall p :: 0 <= p < |diffHeaders| ==>
            && (zone[0][p + 1] == diffHeaders[p] <==> diffHeaders[p] in olds)
            && (zone[1][p + 1] == diffHeaders[p] <==> diffHeaders[p] in news))
  {
    var diffHeaders := HeaderUnion(olds, news).value.1;
    HeaderUnionIsUnion(olds, news);
    SameWidthIffSameColumns(olds, news);
    ZoneNamesColumns(olds, news, diffHeaders);
  }

  lemma ZoneNamesColumns(olds: seq<string>, news: seq<string>, diffHeaders: seq<string>)
    requires "" !in olds && "" !in news
    requires forall h :: h in diffHeaders ==> h in olds || h in news
    requires SameWidth(olds, news, diffHeaders) <==> SameColumns(olds, news)
    ensures var zone := HeaderZone(olds, news, diffHeaders);
      && (|zone| == 1 <==> SameColumns(olds, news))
      && (|zone| == 1 ==> zone[0] == [Text(Same)] + diffHeaders)
      && (|zone| == 2 ==> forall p :: 0 <= p < |diffHeaders| ==>
            && (zone[0][p + 1] == diffHeaders[p] <==> diffHeaders[p] in olds)
            && (zone[1][p + 1] == diffHeaders[p] <==> diffHeaders[p] in news))
  {
    if !SameWidth(olds, news, diffHeaders) {
      forall p | 0 <= p < |diffHeaders|
        ensures diffHeaders[p] != ""
      {
        assert diffHeaders[p] in diffHeaders;
      }
    }
  }

  /** The header zone is quiet exactly when it is the single `=` row. */
  lemma ZoneQuiet(olds: seq<string>, news: seq<string>, diffHeaders: seq<string>)
    ensures Quiet(HeaderZone(olds, news, diffHeaders)) <==> SameWidth(olds, news, diffHeaders)
  {
    var zone := HeaderZone(olds, news, diffHeaders);
    if !SameWidth(olds, news, diffHeaders) {
      assert zone[0] == [Text(ChangedOld)] + NamedCells(olds, diffHeaders);
    }
  }

  /** The body counts no change exactly when its rows are all `=` rows. */
  lemma BodyQuiet(o: Side, n: Side, ignoreHeaders: seq<string>)
    requires WellShaped(o) && WellShaped(n) && HeaderUnion(Headers(o), Headers(n)).Ok?
    ensures var body := BodyOutcome(o, n, HeaderUnion(Headers(o), Headers(n)).value.1, ignoreHeaders);
      body.0.Ok? ==> (body.0.value == 0 <==> Quiet(body.1))
  {
    var diffHeaders := HeaderUnion(Headers(o), Headers(n)).value.1;
    UnionCovers(o, n);
    BodyUnchanged(o, n, diffHeaders, ignoreHeaders);
    LayoutRowsShape(o, n, diffHeaders, ignoreHeaders);
  }

  /** The count of an assembled table is zero exactly when every part is quiet. */
  lemma AssembleQuiet(echo: seq<seq<string>>, lead: seq<(Mark, string)>, zone: seq<seq<string>>, columnChanges: nat,
                      bodyRows: seq<seq<string>>, bodyChanges: nat, trail: seq<(Mark, string)>, nDiffHeaders: nat)
    requires Quiet(echo)
    requires CountChanged(lead) == 0 <==> Quiet(LineRows(lead, nDiffHeaders))
    requires columnChanges == 0 <==> Quiet(zone)
    requires bodyChanges == 0 <==> Quiet(bodyRows)
    requires CountChanged(trail) == 0 <==> Quiet(LineRows(trail, nDiffHeaders))
    ensures var r := Assemble(echo, lead, zone, columnChanges, bodyRows, bodyChanges, trail, nDiffHeaders);
      r.nChanges == 0 <==> Quiet(r.diffRows)
  {
    var leadRows, trailRows := LineRows(lead, nDiffHeaders), LineRows(trail, nDiffHeaders);
    QuietAppend(echo, leadRows);
    QuietAppend(echo + leadRows, zone);
    QuietAppend((echo + leadRows) + zone, bodyRows);
    QuietAppend(((echo + leadRows) + zone) + bodyRows, trailRows);
  }

  /**
    An accepted comparison counts no change exactly when every row of the
    diff table is an `=` row, apart from the echoed command.
  */
  lemma ReconciledUnchanged(o: Side, n: Side, ignoreHeaders: seq<string>, command: string)
    requires WellShaped(o) && WellShaped(n)
    ensures var r := Reconciled(o, n, ignoreHeaders, command);
      r.Ok? ==> (r.value.nChanges == 0 <==> Quiet(r.value.diffRows))
  {
    var olds, news := Headers(o), Headers(n);
    if HeaderUnion(olds, news).Ok? {
      var diffHeaders := HeaderUnion(olds, news).value.1;
      UnionNonEmpty(o, n);
      var body := BodyOutcome(o, n, diffHeaders, ignoreHeaders);
      if body.0.Ok? {
        EchoQuiet(command, |diffHeaders|);
        ComparedQuiet(o.rows, 0, o.iHeaders, n.rows, 0, n.iHeaders, |diffHeaders|);
        ZoneQuiet(olds, news, diffHeaders);
        ColumnChangesCount(olds, news);
        BodyQuiet(o, n, ignoreHeaders);
        ComparedQuiet(o.rows, o.iTrailing, |o.rows|, n.rows, n.iTrailing, |n.rows|, |diffHeaders|);
        AssembleQuiet(Echo(command, |diffHeaders|), Leading(o, n), HeaderZone(olds, news, diffHeaders),
                      ColumnChanges(olds, news, diffHeaders), body.1, body.0.value, Trailing(o, n), |diffHeaders|);
      }
    }
  }

  // ---------------------------------------------------------------------
  // A table compared with itself

  /** Under its own headers a row's cells are the row itself. */
  lemma CellsOwnHeaders(s: Side, row: seq<string>)
    requires s.iHeaders < |s.rows| && |row| == |Headers(s)| && Distinct(Headers(s))
    ensures Cells(s, row, Headers(s)) == row
  {
    forall p | 0 <= p < |row| ensures Cells(s, row, Headers(s))[p] == row[p] {
      LastIndexDistinct(Headers(s), p);
    }
  }

  /** An accepted comparison is the table assembled from its parts. */
  lemma ReconciledParts(o: Side, n: Side, ignoreHeaders: seq<string>, command: string, diffHeaders: seq<string>)
    requires WellShaped(o) && WellShaped(n)
    requires HeaderUnion(Headers(o), Headers(n)).Ok? && diffHeaders == HeaderUnion(Headers(o), Headers(n)).value.1
    requires BodyOutcome(o, n, diffHeaders, ignoreHeaders).0.Ok?
    ensures var body := BodyOutcome(o, n, diffHeaders, ignoreHeaders);
      Reconciled(o, n, ignoreHeaders, command)
      == Ok(Assemble(Echo(command, |diffHeaders|), Leading(o, n), HeaderZone(Headers(o), Headers(n), diffHeaders),
                     ColumnChanges(Headers(o), Headers(n), diffHeaders), body.1, body.0.value, Trailing(o, n), |diffHeaders|))
  {
    UnionNonEmpty(o, n);
  }

  /** Where the header zone and the body rows sit in an assembled table. */
  lemma AssembleRows(echo: seq<seq<string>>, lead: seq<(Mark, string)>, zone: seq<seq<string>>, columnChanges: nat,
                     bodyRows: seq<seq<string>>, bodyChanges: nat, trail: seq<(Mark, string)>, nDiffHeaders: nat)
    ensures var r := Assemble(echo, lead, zone, columnChanges, bodyRows, bodyChanges, trail, nDiffHeaders);
      && (forall k :: 0 <= k < |zone| ==> r.diffRows[r.iDiffHeaders + k] == zone[k])
      && (forall k :: 0 <= k < |bodyRows| ==> r.diffRows[r.iDiffBody + k] == bodyRows[k])
  {
    var head := echo + LineRows(lead, nDiffHeaders);
    var rows := ((head + zone) + bodyRows) + LineRows(trail, nDiffHeaders);
    assert forall k :: 0 <= k < |zone| ==> rows[|head| + k] == zone[k];
    assert forall k :: 0 <= k < |bodyRows| ==> rows[|head| + |zone| + k] == bodyRows[k];
  }

  /**
    A table compared with itself, when its headers and keys are accepted and
    every ignored column is one of its columns: no change; the header zone
    is the one `=` row of its own headers; and the body is one `=` row per
    body row, holding that row, in the table's own order.
  */
  lemma ReconciledIdentical(s: Side, ignoreHeaders: seq<string>, command: string)
    requires WellShaped(s) && "" !in Headers(s) && Distinct(Headers(s))
    requires "" !in Keys(s) && Distinct(Keys(s))
    requires forall h :: h in ignoreHeaders ==> h in Headers(s)
    ensures var r := Reconciled(s, s, ignoreHeaders, command);
      && r.Ok?
      && r.value.nChanges == 0
      && Quiet(r.value.diffRows)
      && r.value.iDiffBody == r.value.iDiffHeaders + 1
      && r.value.diffRows[r.value.iDiffHeaders] == [Text(Same)] + Headers(s)
      && r.value.iDiffTrailing == r.value.iDiffBody + Height(s)
      && forall t :: 0 <= t < Height(s) ==> r.value.diffRows[r.value.iDiffBody + t] == [Text(Same)] + BodyRow(s, t)
  {
    var headers := Headers(s);
    HeaderUnionIdentical(headers);
    UnionNonEmpty(s, s);
    var body := BodyOutcome(s, s, headers, ignoreHeaders);
    BodyIdentical(s, headers, ignoreHeaders);
    var zone := HeaderZone(headers, headers, headers);
    assert zone == [[Text(Same)] + headers];
    ReconciledParts(s, s, ignoreHeaders, command, headers);
    var echo, lead, trail := Echo(command, |headers|), Leading(s, s), Trailing(s, s);
    var report := Assemble(echo, lead, zone, ColumnChanges(headers, headers, headers), body.1, body.0.value, trail, |headers|);
    assert Reconciled(s, s, ignoreHeaders, command) == Ok(report);
    ComparedIdentical(s.rows, 0, s.iHeaders);
    ComparedIdentical(s.rows, s.iTrailing, |s.rows|);
    forall t | 0 <= t < Height(s) ensures body.1[t] == [Text(Same)] + BodyRow(s, t) {
      CellsOwnHeaders(s, BodyRow(s, t));
    }
    AssembleRows(echo, lead, zone, ColumnChanges(headers, headers, headers), body.1, body.0.value, trail, |headers|);
    ReconciledUnchanged(s, s, ignoreHeaders, command);
  }
}
