/**
  The header reconciler: the old and the new header row merged into one
  ordered, duplicate-free list of column names, each marked `=` (in both
  rows), `+` (new only) or `-` (old only). The order is the one of the
  `Interleave` module: new order, with each deleted column right after the
  column that preceded it in the old row.
*/
module HeaderMerge {
  import opened Common
  import opened Marks
  import opened Interleave

  /**
    What `CompareHeaders` returns: a failure for an empty header (old row
    checked first) or a repeated one, else the marks and the merged names.
  */
  function HeaderUnion(olds: seq<string>, news: seq<string>): Result<(seq<Mark>, seq<string>)>
  {
    if "" in olds then Err(EmptyHeader(OldTable, FirstIndex(olds, "")))
    else if "" in news then Err(EmptyHeader(NewTable, FirstIndex(news, "")))
    else if !Distinct(olds) then Err(DuplicateHeader(OldTable))
    else if !Distinct(news) then Err(DuplicateHeader(NewTable))
    else
      var L := Layout(olds, news);
      LayoutFits(olds, news);
      Ok((MarksOf(olds, news, L), Items(olds, news, L)))
  }

  /**
    The header reconciler as the source runs it: the validity checks, then
    the merge. The index maps are the `{name: position}` maps the caller built.
  */
  method CompareHeaders(oldHeaders: seq<string>, oldHeaderIndex: map<string, nat>,
                        newHeaders: seq<string>, newHeaderIndex: map<string, nat>)
    returns (r: Result<(seq<Mark>, seq<string>)>)
    requires oldHeaderIndex == PositionMap(oldHeaders) && newHeaderIndex == PositionMap(newHeaders)
    ensures r == HeaderUnion(oldHeaders, newHeaders)
  {
    if "" in oldHeaders {
      return Err(EmptyHeader(OldTable, FirstIndex(oldHeaders, "")));
    }
    if "" in newHeaders {
      return Err(EmptyHeader(NewTable, FirstIndex(newHeaders, "")));
    }
    if !Distinct(oldHeaders) {
      return Err(DuplicateHeader(OldTable));
    }
    if !Distinct(newHeaders) {
      return Err(DuplicateHeader(NewTable));
    }
    var diffHeaderMarks, diffHeaders := MergeHeaders(oldHeaders, oldHeaderIndex, newHeaders, newHeaderIndex);
    r := Ok((diffHeaderMarks, diffHeaders));
  }

  /**
    The merge: the leading deleted headers, then every new header followed by
    the deleted headers that came right after it in the old row.
  */
  method MergeHeaders(oldHeaders: seq<string>, oldHeaderIndex: map<string, nat>,
                      newHeaders: seq<string>, newHeaderIndex: map<string, nat>)
    returns (diffHeaderMarks: seq<Mark>, diffHeaders: seq<string>)
    requires oldHeaderIndex == PositionMap(oldHeaders) && newHeaderIndex == PositionMap(newHeaders)
    ensures AllFit(oldHeaders, newHeaders, Layout(oldHeaders, newHeaders))
    ensures diffHeaders == Items(oldHeaders, newHeaders, Layout(oldHeaders, newHeaders))
    ensures diffHeaderMarks == MarksOf(oldHeaders, newHeaders, Layout(oldHeaders, newHeaders))
  {
    ghost var olds, news := oldHeaders, newHeaders;
    // The deleted headers before the first surviving one.
    diffHeaderMarks, diffHeaders := DeletedRun(oldHeaders, newHeaders, newHeaderIndex, 0);
    ghost var total, totalMarks := diffHeaders + Names(olds, news, Blocks(olds, news, 0)), diffHeaderMarks + MarkList(olds, news, Blocks(olds, news, 0));
    // Every new header, each followed by the deleted headers after its old position.
    var j := 0;
    while j < |newHeaders|
      invariant 0 <= j <= |newHeaders|
      invariant diffHeaders + Names(olds, news, Blocks(olds, news, j)) == total
      invariant diffHeaderMarks + MarkList(olds, news, Blocks(olds, news, j)) == totalMarks
    {
      var h := newHeaders[j];
      BlocksStep(olds, news, j);
      ghost var rest, restMarks := Names(olds, news, Blocks(olds, news, j + 1)), MarkList(olds, news, Blocks(olds, news, j + 1));
      var runMarks, run := [], [];
      var mark := Added;
      if h in oldHeaderIndex {
        mark := Same;
        PositionMapIsLastIndex(oldHeaders, h);
        runMarks, run := DeletedRun(oldHeaders, newHeaders, newHeaderIndex, oldHeaderIndex[h] + 1);
      }
      AppendAssoc(diffHeaders, [h] + run, rest);
      AppendAssoc(diffHeaderMarks, [mark] + runMarks, restMarks);
      diffHeaders := diffHeaders + ([h] + run);
      diffHeaderMarks := diffHeaderMarks + ([mark] + runMarks);
      j := j + 1;
    }
    assert Blocks(olds, news, j) == [];
    LayoutNames(olds, news);
  }

  /** The old headers from position `k` on, up to the first one the new row keeps, all marked `-`. */
  method DeletedRun(oldHeaders: seq<string>, ghost newHeaders: seq<string>, newHeaderIndex: map<string, nat>, k: nat)
    returns (runMarks: seq<Mark>, run: seq<string>)
    requires newHeaderIndex == PositionMap(newHeaders)
    ensures run == Names(oldHeaders, newHeaders, RunFrom(oldHeaders, newHeaders, k))
    ensures runMarks == MarkList(oldHeaders, newHeaders, RunFrom(oldHeaders, newHeaders, k))
  {
    ghost var olds, news := oldHeaders, newHeaders;
    run, runMarks := [], [];
    var i := k;
    while i < |oldHeaders| && oldHeaders[i] !in newHeaderIndex
      invariant k <= i
      invariant run + Names(olds, news, RunFrom(olds, news, i)) == Names(olds, news, RunFrom(olds, news, k))
      invariant runMarks + MarkList(olds, news, RunFrom(olds, news, i)) == MarkList(olds, news, RunFrom(olds, news, k))
      decreases |oldHeaders| - i
    {
      RunFromStep(olds, news, i);
      ghost var tail, tailMarks := Names(olds, news, RunFrom(olds, news, i + 1)), MarkList(olds, news, RunFrom(olds, news, i + 1));
      AppendAssoc(run, [oldHeaders[i]], tail);
      AppendAssoc(runMarks, [Deleted], tailMarks);
      run := run + [oldHeaders[i]];
      runMarks := runMarks + [Deleted];
      i := i + 1;
    }
    assert RunFrom(olds, news, i) == [];
  }

  // ---------------------------------------------------------------------
  // What the merged header row promises

  /** `CompareHeaders` fails exactly on an empty or repeated header, and names the first empty column. */
  lemma HeaderUnionFails(olds: seq<string>, news: seq<string>)
    ensures HeaderUnion(olds, news).Err? <==> "" in olds || "" in news || !Distinct(olds) || !Distinct(news)
    ensures "" in olds ==>
      (&& HeaderUnion(olds, news).error.EmptyHeader?
       && HeaderUnion(olds, news).error.table == OldTable
       && olds[HeaderUnion(olds, news).error.column] == ""
       && forall c :: 0 <= c < HeaderUnion(olds, news).error.column ==> olds[c] != "")
  {
  }

  /**
    The merged row is the union of the two header rows: one entry per
    distinct name, none twice, as many marks as names.
  */
  lemma HeaderUnionIsUnion(olds: seq<string>, news: seq<string>)
    requires HeaderUnion(olds, news).Ok?
    ensures var (marks, names) := HeaderUnion(olds, news).value;
      && |marks| == |names| == |Elements(olds) + Elements(news)|
      && Distinct(names)
      && forall h :: h in names <==> h in olds || h in news
  {
    LayoutIsUnion(olds, news);
  }

  /** `=` marks a header in both rows, `+` one only in the new row, `-` one only in the old row. */
  lemma HeaderUnionMarks(olds: seq<string>, news: seq<string>)
    requires HeaderUnion(olds, news).Ok?
    ensures var (marks, names) := HeaderUnion(olds, news).value;
      && |marks| == |names|
      && forall p :: 0 <= p < |names| ==>
        && (marks[p] == Same <==> names[p] in olds && names[p] in news)
        && (marks[p] == Added <==> names[p] !in olds && names[p] in news)
        && (marks[p] == Deleted <==> names[p] in olds && names[p] !in news)
  {
    LayoutMarks(olds, news);
  }

  /** Leaving out the `-` columns gives back the new header row, in its order. */
  lemma HeaderUnionNewOrder(olds: seq<string>, news: seq<string>)
    requires HeaderUnion(olds, news).Ok?
    ensures var (marks, names) := HeaderUnion(olds, news).value;
      |marks| == |names| && Surviving(marks, names) == news
  {
    LayoutFits(olds, news);
    SurvivingIsNewItems(olds, news, Layout(olds, news));
    LayoutNewOrder(olds, news);
  }

  /**
    A deleted header sits right after the header that preceded it in the old
    row; only the old row's first header, when deleted, opens the merged row.
  */
  ghost predicate DeletedFollowPredecessors(olds: seq<string>, marks: seq<Mark>, names: seq<string>)
    requires |marks| == |names|
  {
    forall p :: 0 <= p < |names| && marks[p] == Deleted ==>
      names[p] in olds && DeletedAt(olds, names, p, LastIndex(olds, names[p]))
  }

  /** Old position `i` of the deleted header at merged position `p` is the first of both, or preceded in both by the same header. */
  predicate DeletedAt(olds: seq<string>, names: seq<string>, p: nat, i: nat)
    requires p < |names| && i < |olds|
  {
    (p == 0 && i == 0) || (0 < p && 0 < i && names[p - 1] == olds[i - 1])
  }

  lemma HeaderUnionPlacement(olds: seq<string>, news: seq<string>)
    requires HeaderUnion(olds, news).Ok?
    ensures |HeaderUnion(olds, news).value.0| == |HeaderUnion(olds, news).value.1|
    ensures DeletedFollowPredecessors(olds, HeaderUnion(olds, news).value.0, HeaderUnion(olds, news).value.1)
  {
    var L := Layout(olds, news);
    LayoutFits(olds, news);
    LayoutPlacement(olds, news);
    var marks, names := HeaderUnion(olds, news).value.0, HeaderUnion(olds, news).value.1;
    assert names == Items(olds, news, L) && marks == MarksOf(olds, news, L);
    forall p | 0 <= p < |names| && marks[p] == Deleted
      ensures names[p] in olds && DeletedAt(olds, names, p, LastIndex(olds, names[p]))
    {
      assert Fits(olds, news, L[p]);
      var i := L[p].i;
      assert names[p] == olds[i];
      LastIndexDistinct(olds, i);
      if 0 < p {
        assert names[p - 1] == ItemOf(olds, news, L[p - 1]);
      }
    }
  }

  /** A header row merged with itself comes back unchanged, every column marked `=`. */
  lemma HeaderUnionIdentical(headers: seq<string>)
    requires "" !in headers && Distinct(headers)
    ensures HeaderUnion(headers, headers).Ok?
    ensures HeaderUnion(headers, headers).value.1 == headers
    ensures forall p :: 0 <= p < |headers| ==> HeaderUnion(headers, headers).value.0[p] == Same
  {
    LayoutIdentical(headers);
    LayoutFits(headers, headers);
    var L := Layout(headers, headers);
    assert forall p :: 0 <= p < |L| ==> L[p] == FromNew(p);
    assert Items(headers, headers, L) == headers;
  }
}
