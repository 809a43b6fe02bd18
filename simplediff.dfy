/**
  The generic sequence differ ("simplediff"): find the longest run common to
  `a` and `b`, keep it as a `=` segment and recurse on what lies to its
  left and to its right. With no common element the result is one `-` segment
  holding all of `a` followed by one `+` segment holding all of `b`.
  Throughout, `a` is the old sequence and `b` the new one (the source's `old`
  and `new`, which are keywords in Dafny).
*/
module SimpleDiff {
  import opened Marks

  /** One `(mark, items)` pair of the result; the mark is Same, Deleted or Added. */
  datatype Segment<T> = Segment(mark: Mark, items: seq<T>)

  /** A candidate common run: `len` items starting at `startOld` in a and `startNew` in b. */
  datatype Run = Run(startOld: nat, startNew: nat, len: nat)

  ghost predicate IsCommon<T>(a: seq<T>, b: seq<T>, r: Run)
  {
    && r.startOld + r.len <= |a|
    && r.startNew + r.len <= |b|
    && a[r.startOld..r.startOld + r.len] == b[r.startNew..r.startNew + r.len]
  }

  /**
    The value `overlap[i]` holds while the scan is at `b[j]`: the length of the
    longest common suffix of `a[..i+1]` and `b[..j+1]`.
  */
  function Overlap<T(==)>(a: seq<T>, b: seq<T>, i: nat, j: nat): (n: nat)
    requires i < |a| && j < |b|
    ensures n <= i + 1 && n <= j + 1
    ensures n > 0 <==> a[i] == b[j]
  {
    if a[i] != b[j] then 0
    else if i == 0 || j == 0 then 1
    else Overlap(a, b, i - 1, j - 1) + 1
  }

  /** The overlap is a common suffix: `a[..i+1]` and `b[..j+1]` end in the same `Overlap` items. */
  lemma OverlapIsCommonSuffix<T>(a: seq<T>, b: seq<T>, i: nat, j: nat)
    requires i < |a| && j < |b|
    ensures var n := Overlap(a, b, i, j); a[i + 1 - n..i + 1] == b[j + 1 - n..j + 1]
  {
    OverlapAgrees(a, b, i, j);
    AgreeingSuffix(a, b, i, j, Overlap(a, b, i, j));
  }

  /** The last `Overlap(a, b, i, j)` items up to `a[i]` and `b[j]` agree one by one. */
  lemma {:induction false} OverlapAgrees<T>(a: seq<T>, b: seq<T>, i: nat, j: nat)
    requires i < |a| && j < |b|
    ensures forall k :: 0 <= k < Overlap(a, b, i, j) ==> AgreeBack(a, b, i, j, k)
  {
    if a[i] == b[j] && i > 0 && j > 0 {
      OverlapAgrees(a, b, i - 1, j - 1);
      forall k | 0 < k < Overlap(a, b, i, j) ensures AgreeBack(a, b, i, j, k) {
        assert AgreeBack(a, b, i - 1, j - 1, k - 1);
      }
    }
  }

  /** The items `k` places before `a[i]` and `b[j]` are equal. */
  predicate AgreeBack<T(==)>(a: seq<T>, b: seq<T>, i: nat, j: nat, k: nat)
    requires k <= i < |a| && k <= j < |b|
  {
    a[i - k] == b[j - k]
  }

  /** Items that agree one by one, backwards from `a[i]` and `b[j]`, make a common suffix. */
  lemma AgreeingSuffix<T>(a: seq<T>, b: seq<T>, i: nat, j: nat, n: nat)
    requires i < |a| && j < |b| && n <= i + 1 && n <= j + 1
    requires forall k :: 0 <= k < n ==> AgreeBack(a, b, i, j, k)
    ensures a[i + 1 - n..i + 1] == b[j + 1 - n..j + 1]
  {
    var sa, sb := a[i + 1 - n..i + 1], b[j + 1 - n..j + 1];
    forall p | 0 <= p < n ensures sa[p] == sb[p] {
      assert AgreeBack(a, b, i, j, n - 1 - p);
    }
  }

  /** Every common suffix ending at `(i, j)` is at most `Overlap(a, b, i, j)` long. */
  lemma {:induction false} OverlapIsLongest<T>(a: seq<T>, b: seq<T>, i: nat, j: nat, m: nat)
    requires i < |a| && j < |b|
    requires m <= i + 1 && m <= j + 1
    requires a[i + 1 - m..i + 1] == b[j + 1 - m..j + 1]
    ensures m <= Overlap(a, b, i, j)
    decreases m
  {
    if m > 0 {
      assert a[i] == a[i + 1 - m..i + 1][m - 1];
      assert b[j] == b[j + 1 - m..j + 1][m - 1];
      if m > 1 {
        assert a[i - (m - 1)..i] == a[i + 1 - m..i + 1][..m - 1];
        assert b[j - (m - 1)..j] == b[j + 1 - m..j + 1][..m - 1];
        OverlapIsLongest(a, b, i - 1, j - 1, m - 1);
      }
    }
  }

  /** `(i1, j1)` is visited before `(i2, j2)`: the scan runs over `b`, and within one `b` item over `a`. */
  predicate ScannedBefore(i1: int, j1: int, i2: int, j2: int)
  {
    j1 < j2 || (j1 == j2 && i1 < i2)
  }

  /** One visit: a strictly longer overlap ending at `(i, j)` replaces the best run so far. */
  function Step<T(==)>(a: seq<T>, b: seq<T>, i: nat, j: nat, best: Run): (r: Run)
    requires i < |a| && j < |b|
  {
    var n := Overlap(a, b, i, j);
    if n > best.len then Run(i + 1 - n, j + 1 - n, n) else best
  }

  /** The visits of `a[i..]` while the scan is at `b[j]`. */
  function ScanRow<T(==)>(a: seq<T>, b: seq<T>, j: nat, i: nat, best: Run): (r: Run)
    requires j < |b| && i <= |a|
    decreases |a| - i
  {
    if i == |a| then best else ScanRow(a, b, j, i + 1, Step(a, b, i, j, best))
  }

  /** The visits of `b[j..]`. */
  function ScanRows<T(==)>(a: seq<T>, b: seq<T>, j: nat, best: Run): (r: Run)
    requires j <= |b|
    decreases |b| - j
  {
    if j == |b| then best else ScanRows(a, b, j + 1, ScanRow(a, b, j, 0, best))
  }

  /** The longest common run, the first one found by the scan when several are equally long. */
  function LongestRun<T(==)>(a: seq<T>, b: seq<T>): (r: Run)
    ensures r.startOld + r.len <= |a| && r.startNew + r.len <= |b|
  {
    ScanRowsKeepsInvariant(a, b, 0, Run(0, 0, 0));
    ScanRows(a, b, 0, Run(0, 0, 0))
  }

  /** No pair scanned before `(i, j)` ends an overlap longer than `len`. */
  ghost predicate OverlapsAtMost<T>(a: seq<T>, b: seq<T>, i: int, j: int, len: nat)
  {
    forall i', j' :: 0 <= i' < |a| && 0 <= j' < |b| && ScannedBefore(i', j', i, j) ==>
      Overlap(a, b, i', j') <= len
  }

  /** Every pair scanned before `(i, j)` ends an overlap strictly shorter than `len`. */
  ghost predicate OverlapsBelow<T>(a: seq<T>, b: seq<T>, i: int, j: int, len: nat)
  {
    forall i', j' :: 0 <= i' < |a| && 0 <= j' < |b| && ScannedBefore(i', j', i, j) ==>
      Overlap(a, b, i', j') < len
  }

  /** What the scan has established once it has visited every pair before `(i, j)`. */
  ghost predicate ScanInvariant<T>(a: seq<T>, b: seq<T>, i: nat, j: nat, best: Run)
  {
    && IsCommon(a, b, best)
    && OverlapsAtMost(a, b, i, j, best.len)
    && (best.len > 0 ==>
          && ScannedBefore(best.startOld + best.len - 1, best.startNew + best.len - 1, i, j)
          && OverlapsBelow(a, b, best.startOld + best.len - 1, best.startNew + best.len - 1, best.len))
  }

  /** One visit keeps the invariant, whether or not it replaces the best run. */
  lemma StepKeepsInvariant<T>(a: seq<T>, b: seq<T>, i: nat, j: nat, best: Run)
    requires i < |a| && j < |b|
    requires ScanInvariant(a, b, i, j, best)
    ensures ScanInvariant(a, b, i + 1, j, Step(a, b, i, j, best))
  {
    var n := Overlap(a, b, i, j);
    if n > best.len {
      assert Step(a, b, i, j, best) == Run(i + 1 - n, j + 1 - n, n);
      LongerOverlapKeepsInvariant(a, b, i, j, best);
    } else {
      assert Step(a, b, i, j, best) == best;
      ShorterOverlapKeepsInvariant(a, b, i, j, best);
    }
  }

  /** A strictly longer overlap at `(i, j)` becomes the best run, and the invariant holds of it. */
  lemma LongerOverlapKeepsInvariant<T>(a: seq<T>, b: seq<T>, i: nat, j: nat, best: Run)
    requires i < |a| && j < |b|
    requires ScanInvariant(a, b, i, j, best) && Overlap(a, b, i, j) > best.len
    ensures var n := Overlap(a, b, i, j); ScanInvariant(a, b, i + 1, j, Run(i + 1 - n, j + 1 - n, n))
  {
    var n := Overlap(a, b, i, j);
    var next := Run(i + 1 - n, j + 1 - n, n);
    OverlapRunIsCommon(a, b, i, j, n);
    BoundExtends(a, b, i, j, best.len, n);
    BoundTightens(a, b, i, j, best.len, n);
  }

  /** The run of the overlap ending at `(i, j)` is common to both sequences. */
  lemma OverlapRunIsCommon<T>(a: seq<T>, b: seq<T>, i: nat, j: nat, n: nat)
    requires i < |a| && j < |b| && n == Overlap(a, b, i, j)
    ensures IsCommon(a, b, Run(i + 1 - n, j + 1 - n, n))
  {
    OverlapIsCommonSuffix(a, b, i, j);
    var r := Run(i + 1 - n, j + 1 - n, n);
    assert r.startOld + r.len == i + 1 && r.startNew + r.len == j + 1;
  }

  /** Visiting `(i, j)`, whose overlap is `n`, extends a bound of `len <= n` by one pair. */
  lemma BoundExtends<T>(a: seq<T>, b: seq<T>, i: nat, j: nat, len: nat, n: nat)
    requires i < |a| && j < |b| && OverlapsAtMost(a, b, i, j, len)
    requires n == Overlap(a, b, i, j) && len <= n
    ensures OverlapsAtMost(a, b, i + 1, j, n)
  {
    forall i', j' | 0 <= i' < |a| && 0 <= j' < |b| && ScannedBefore(i', j', i + 1, j)
      ensures Overlap(a, b, i', j') <= n
    {
      if ScannedBefore(i', j', i, j) {
        assert Overlap(a, b, i', j') <= len;
      }
    }
  }

  /** Every pair scanned before `(i, j)` overlaps by at most `len < n`. */
  lemma BoundTightens<T>(a: seq<T>, b: seq<T>, i: nat, j: nat, len: nat, n: nat)
    requires OverlapsAtMost(a, b, i, j, len) && len < n
    ensures OverlapsBelow(a, b, i, j, n)
  {
  }

  /** An overlap at `(i, j)` no longer than the best run leaves it, and the invariant, in place. */
  lemma ShorterOverlapKeepsInvariant<T>(a: seq<T>, b: seq<T>, i: nat, j: nat, best: Run)
    requires i < |a| && j < |b|
    requires ScanInvariant(a, b, i, j, best) && Overlap(a, b, i, j) <= best.len
    ensures ScanInvariant(a, b, i + 1, j, best)
  {
    forall i', j' | 0 <= i' < |a| && 0 <= j' < |b| && ScannedBefore(i', j', i + 1, j)
      ensures Overlap(a, b, i', j') <= best.len
    {
      if ScannedBefore(i', j', i, j) {
        assert Overlap(a, b, i', j') <= best.len;
      }
    }
  }

  lemma {:induction false} ScanRowKeepsInvariant<T>(a: seq<T>, b: seq<T>, j: nat, i: nat, best: Run)
    requires j < |b| && i <= |a|
    requires ScanInvariant(a, b, i, j, best)
    ensures ScanInvariant(a, b, 0, j + 1, ScanRow(a, b, j, i, best))
    decreases |a| - i
  {
    if i < |a| {
      StepKeepsInvariant(a, b, i, j, best);
      ScanRowKeepsInvariant(a, b, j, i + 1, Step(a, b, i, j, best));
    } else {
      assert ScanRow(a, b, j, i, best) == best;
      RowDoneKeepsInvariant(a, b, j, best);
    }
  }

  /** Finishing the visits of `b[j]` is the same as starting those of `b[j+1]`. */
  lemma RowDoneKeepsInvariant<T>(a: seq<T>, b: seq<T>, j: nat, best: Run)
    requires j < |b| && ScanInvariant(a, b, |a|, j, best)
    ensures ScanInvariant(a, b, 0, j + 1, best)
  {
    forall i', j' | 0 <= i' < |a| && 0 <= j' < |b| && ScannedBefore(i', j', 0, j + 1)
      ensures Overlap(a, b, i', j') <= best.len
    {
      assert ScannedBefore(i', j', |a|, j);
    }
  }

  lemma {:induction false} ScanRowsKeepsInvariant<T>(a: seq<T>, b: seq<T>, j: nat, best: Run)
    requires j <= |b|
    requires ScanInvariant(a, b, 0, j, best)
    ensures ScanInvariant(a, b, 0, |b|, ScanRows(a, b, j, best))
    decreases |b| - j
  {
    if j < |b| {
      ScanRowKeepsInvariant(a, b, j, 0, best);
      ScanRowsKeepsInvariant(a, b, j + 1, ScanRow(a, b, j, 0, best));
    }
  }

  /** A common run ends where the overlap is at least its length. */
  lemma RunOverlap<T>(a: seq<T>, b: seq<T>, r: Run)
    requires IsCommon(a, b, r) && r.len > 0
    ensures Overlap(a, b, r.startOld + r.len - 1, r.startNew + r.len - 1) >= r.len
  {
    var i, j := r.startOld + r.len - 1, r.startNew + r.len - 1;
    assert i + 1 - r.len == r.startOld && j + 1 - r.len == r.startNew;
    OverlapIsLongest(a, b, i, j, r.len);
  }

  /** The whole scan keeps the invariant, so it holds of `LongestRun`. */
  lemma LongestRunInvariant<T>(a: seq<T>, b: seq<T>)
    ensures ScanInvariant(a, b, 0, |b|, LongestRun(a, b))
  {
    ScanRowsKeepsInvariant(a, b, 0, Run(0, 0, 0));
  }

  /** The items of `LongestRun` are the same in both sequences. */
  lemma LongestRunIsCommon<T>(a: seq<T>, b: seq<T>)
    ensures IsCommon(a, b, LongestRun(a, b))
  {
    LongestRunInvariant(a, b);
  }

  /** What the final scan invariant says about the run it keeps. */
  lemma ScanResult<T>(a: seq<T>, b: seq<T>, r: Run)
    requires ScanInvariant(a, b, 0, |b|, r)
    ensures IsCommon(a, b, r)
    ensures forall i, j :: 0 <= i < |a| && 0 <= j < |b| ==> Overlap(a, b, i, j) <= r.len
    ensures r.len > 0 ==>
      && Overlap(a, b, r.startOld + r.len - 1, r.startNew + r.len - 1) == r.len
      && forall i, j ::
           (0 <= i < |a| && 0 <= j < |b|
            && ScannedBefore(i, j, r.startOld + r.len - 1, r.startNew + r.len - 1)) ==>
           Overlap(a, b, i, j) < r.len
  {
    forall i, j | 0 <= i < |a| && 0 <= j < |b| ensures Overlap(a, b, i, j) <= r.len {
      assert ScannedBefore(i, j, 0, |b|);
    }
    if r.len > 0 {
      var i, j := r.startOld + r.len - 1, r.startNew + r.len - 1;
      RunOverlap(a, b, r);
      assert Overlap(a, b, i, j) <= r.len;
    }
  }

  /**
    `LongestRun` is a common run; no common run is longer; and every pair
    visited before the run's last pair has a strictly shorter overlap: ties go
    to the first run found (the source's strict `>`).
  */
  lemma LongestRunIsFirstLongest<T>(a: seq<T>, b: seq<T>)
    ensures var r := LongestRun(a, b);
      && IsCommon(a, b, r)
      && (forall i, j :: 0 <= i < |a| && 0 <= j < |b| ==> Overlap(a, b, i, j) <= r.len)
      && (r.len > 0 ==>
            && Overlap(a, b, r.startOld + r.len - 1, r.startNew + r.len - 1) == r.len
            && forall i, j ::
                 (0 <= i < |a| && 0 <= j < |b|
                  && ScannedBefore(i, j, r.startOld + r.len - 1, r.startNew + r.len - 1)) ==>
                 Overlap(a, b, i, j) < r.len)
  {
    LongestRunInvariant(a, b);
    ScanResult(a, b, LongestRun(a, b));
  }

  /** No common run is longer than `LongestRun`, wherever it starts. */
  lemma LongestRunIsMaximal<T>(a: seq<T>, b: seq<T>, so: nat, sn: nat, n: nat)
    requires IsCommon(a, b, Run(so, sn, n))
    ensures n <= LongestRun(a, b).len
  {
    if n > 0 {
      LongestRunIsFirstLongest(a, b);
      RunOverlap(a, b, Run(so, sn, n));
    }
  }

  /** The run is empty exactly when a and b have no element in common. */
  lemma LongestRunEmptyIff<T>(a: seq<T>, b: seq<T>)
    ensures LongestRun(a, b).len == 0 <==> forall i, j :: 0 <= i < |a| && 0 <= j < |b| ==> a[i] != b[j]
  {
    var r := LongestRun(a, b);
    LongestRunIsFirstLongest(a, b);
    if r.len > 0 {
      assert a[r.startOld] == a[r.startOld..r.startOld + r.len][0];
      assert b[r.startNew] == b[r.startNew..r.startNew + r.len][0];
    } else {
      forall i, j | 0 <= i < |a| && 0 <= j < |b| ensures a[i] != b[j] {
        assert Overlap(a, b, i, j) == 0;
      }
    }
  }

  /** The differ: `=` for the longest common run, recursion on both sides of it. */
  function Diff<T(==)>(a: seq<T>, b: seq<T>): seq<Segment<T>>
    decreases |a| + |b|
  {
    var r := LongestRun(a, b);
    if r.len == 0 then
      Split(a, b)
    else
      Diff(a[..r.startOld], b[..r.startNew])
      + [Segment(Same, b[r.startNew..r.startNew + r.len])]
      + Diff(a[r.startOld + r.len..], b[r.startNew + r.len..])
  }

  /** `[-a] + [+b]`, leaving out an empty side. */
  function Split<T>(a: seq<T>, b: seq<T>): seq<Segment<T>>
  {
    (if a == [] then [] else [Segment(Deleted, a)]) + (if b == [] then [] else [Segment(Added, b)])
  }

  lemma SplitRoundTrip<T>(a: seq<T>, b: seq<T>)
    ensures OldSide(Split(a, b)) == a && NewSide(Split(a, b)) == b && WellFormed(Split(a, b))
  {
    var dl: seq<Segment<T>> := if a == [] then [] else [Segment(Deleted, a)];
    var al: seq<Segment<T>> := if b == [] then [] else [Segment(Added, b)];
    SidesAppend(dl, al);
  }

  /** The recursive case of `Diff`, as one equation. */
  lemma DiffUnfold<T>(a: seq<T>, b: seq<T>)
    ensures var r := LongestRun(a, b);
      r.len == 0 ==> Diff(a, b) == Split(a, b)
    ensures var r := LongestRun(a, b);
      r.len > 0 ==>
        Diff(a, b) == Diff(a[..r.startOld], b[..r.startNew])
                      + [Segment(Same, b[r.startNew..r.startNew + r.len])]
                      + Diff(a[r.startOld + r.len..], b[r.startNew + r.len..])
  {
  }

  /** The items of the `=` and `-` segments, in order. */
  function OldSide<T>(d: seq<Segment<T>>): seq<T>
  {
    if d == [] then [] else (if d[0].mark in {Same, Deleted} then d[0].items else []) + OldSide(d[1..])
  }

  /** The items of the `=` and `+` segments, in order. */
  function NewSide<T>(d: seq<Segment<T>>): seq<T>
  {
    if d == [] then [] else (if d[0].mark in {Same, Added} then d[0].items else []) + NewSide(d[1..])
  }

  /** The items of the `=` segments, in order. */
  function SameSide<T>(d: seq<Segment<T>>): seq<T>
  {
    if d == [] then [] else (if d[0].mark == Same then d[0].items else []) + SameSide(d[1..])
  }

  lemma {:induction false} OldSideAppend<T>(d: seq<Segment<T>>, e: seq<Segment<T>>)
    ensures OldSide(d + e) == OldSide(d) + OldSide(e)
  {
    if d != [] {
      assert (d + e)[0] == d[0] && (d + e)[1..] == d[1..] + e;
      OldSideAppend(d[1..], e);
    } else {
      assert d + e == e;
    }
  }

  lemma {:induction false} NewSideAppend<T>(d: seq<Segment<T>>, e: seq<Segment<T>>)
    ensures NewSide(d + e) == NewSide(d) + NewSide(e)
  {
    if d != [] {
      assert (d + e)[0] == d[0] && (d + e)[1..] == d[1..] + e;
      NewSideAppend(d[1..], e);
    } else {
      assert d + e == e;
    }
  }

  lemma {:induction false} SameSideAppend<T>(d: seq<Segment<T>>, e: seq<Segment<T>>)
    ensures SameSide(d + e) == SameSide(d) + SameSide(e)
  {
    if d != [] {
      assert (d + e)[0] == d[0] && (d + e)[1..] == d[1..] + e;
      SameSideAppend(d[1..], e);
    } else {
      assert d + e == e;
    }
  }

  /** Each side of a concatenation is the concatenation of the sides. */
  lemma SidesAppend<T>(d: seq<Segment<T>>, e: seq<Segment<T>>)
    ensures OldSide(d + e) == OldSide(d) + OldSide(e)
    ensures NewSide(d + e) == NewSide(d) + NewSide(e)
    ensures SameSide(d + e) == SameSide(d) + SameSide(e)
  {
    OldSideAppend(d, e);
    NewSideAppend(d, e);
    SameSideAppend(d, e);
  }

  /** Every segment of a diff is marked `=`, `-` or `+` and holds at least one item. */
  ghost predicate WellFormed<T>(d: seq<Segment<T>>)
  {
    forall k :: 0 <= k < |d| ==> d[k].mark in {Same, Deleted, Added} && d[k].items != []
  }

  /**
    The round trip: the `=` and `-` items of `Diff(a, b)` spell `a`, the
    `=` and `+` items spell `b`, and every segment is a non-empty `=`, `-` or `+`.
  */
  lemma {:induction false} DiffRoundTrip<T>(a: seq<T>, b: seq<T>)
    ensures OldSide(Diff(a, b)) == a
    ensures NewSide(Diff(a, b)) == b
    ensures WellFormed(Diff(a, b))
    decreases |a| + |b|
  {
    var r := LongestRun(a, b);
    if r.len == 0 {
      DiffUnfold(a, b);
      SplitRoundTrip(a, b);
    } else {
      var so, sn, n := r.startOld, r.startNew, r.len;
      var left, right := Diff(a[..so], b[..sn]), Diff(a[so + n..], b[sn + n..]);
      var same := b[sn..sn + n];
      DiffAround(a, b, r, left, same, right, left + [Segment(Same, same)] + right);
      LongestRunIsCommon(a, b);
      DiffRoundTrip(a[..so], b[..sn]);
      DiffRoundTrip(a[so + n..], b[sn + n..]);
      JoinRoundTrip(a, b, r, left, right);
    }
  }

  /** The step of the round trip: round-tripping diffs on both sides of a common run. */
  lemma JoinRoundTrip<T>(a: seq<T>, b: seq<T>, r: Run, left: seq<Segment<T>>, right: seq<Segment<T>>)
    requires IsCommon(a, b, r) && r.len > 0
    requires OldSide(left) == a[..r.startOld] && NewSide(left) == b[..r.startNew] && WellFormed(left)
    requires OldSide(right) == a[r.startOld + r.len..] && NewSide(right) == b[r.startNew + r.len..] && WellFormed(right)
    ensures var d := left + [Segment(Same, b[r.startNew..r.startNew + r.len])] + right;
      OldSide(d) == a && NewSide(d) == b && WellFormed(d)
  {
    var so, sn, n := r.startOld, r.startNew, r.len;
    var x := b[sn..sn + n];
    JoinSides(left, x, right);
    ThreeParts(a, so, n);
    ThreeParts(b, sn, n);
    JoinWellFormed(left, x, right);
  }

  /** A sequence is its prefix, a middle part and its suffix, put back together. */
  lemma ThreeParts<T>(s: seq<T>, i: nat, n: nat)
    requires i + n <= |s|
    ensures s == s[..i] + s[i..i + n] + s[i + n..]
  {
  }

  /** Well-formed sides around a non-empty `=` segment make a well-formed diff. */
  lemma JoinWellFormed<T>(left: seq<Segment<T>>, x: seq<T>, right: seq<Segment<T>>)
    requires WellFormed(left) && WellFormed(right) && x != []
    ensures WellFormed(left + [Segment(Same, x)] + right)
  {
    var d := left + [Segment(Same, x)] + right;
    forall k | 0 <= k < |d| ensures d[k].mark in {Same, Deleted, Added} && d[k].items != [] {
      if k > |left| {
        assert d[k] == right[k - |left| - 1];
      }
    }
  }

  /** The sides of `left`, an `=` segment holding `x`, then `right`. */
  lemma JoinSides<T>(left: seq<Segment<T>>, x: seq<T>, right: seq<Segment<T>>)
    ensures OldSide(left + [Segment(Same, x)] + right) == OldSide(left) + x + OldSide(right)
    ensures NewSide(left + [Segment(Same, x)] + right) == NewSide(left) + x + NewSide(right)
  {
    var mid := [Segment(Same, x)];
    OldSideAppend(left, mid);
    OldSideAppend(left + mid, right);
    NewSideAppend(left, mid);
    NewSideAppend(left + mid, right);
    SidesOfSame(x);
  }

  /** A single `=` segment is on both sides. */
  lemma SidesOfSame<T>(x: seq<T>)
    ensures OldSide([Segment(Same, x)]) == x && NewSide([Segment(Same, x)]) == x
  {
    assert [Segment(Same, x)][1..] == [];
  }

  /** With no common element: one `-` segment with all of a, then one `+` segment with all of b. */
  lemma DiffDisjoint<T>(a: seq<T>, b: seq<T>)
    requires forall i, j :: 0 <= i < |a| && 0 <= j < |b| ==> a[i] != b[j]
    ensures Diff(a, b) ==
      (if a == [] then [] else [Segment(Deleted, a)]) + (if b == [] then [] else [Segment(Added, b)])
  {
    LongestRunEmptyIff(a, b);
    DiffUnfold(a, b);
  }

  /** Both inputs empty: the diff is empty. */
  lemma DiffEmpty<T>()
    ensures Diff<T>([], []) == []
  {
    DiffDisjoint<T>([], []);
  }

  /** Diffing a non-empty sequence against itself gives the single segment `('=', s)`. */
  lemma DiffIdentical<T>(s: seq<T>)
    requires s != []
    ensures Diff(s, s) == [Segment(Same, s)]
  {
    var r := LongestRun(s, s);
    LongestRunIsMaximal(s, s, 0, 0, |s|);
    assert r.startOld == 0 && r.startNew == 0 && r.len == |s|;
    DiffUnfold(s, s);
    assert s[..0] == [] && s[|s|..] == [] && s[0..|s|] == s;
    DiffEmpty<T>();
  }

  /**
    The source's inner loop, visiting only the positions of `a` that hold
    `b[inew]` (the `old_index_map` entry), in increasing order.
  */
  ghost predicate IsIndexList<T>(a: seq<T>, n: nat, v: T, ps: seq<nat>)
    requires n <= |a|
  {
    && (forall t :: 0 <= t < |ps| ==> ps[t] < n && a[ps[t]] == v)
    && (forall t1, t2 :: 0 <= t1 < t2 < |ps| ==> ps[t1] < ps[t2])
    && (forall k {:trigger k in ps} :: 0 <= k < n && a[k] == v ==> k in ps)
  }

  /** Positions of a that do not hold `b[j]` leave the best run as it is. */
  lemma {:induction false} SkipUnmatched<T>(a: seq<T>, b: seq<T>, j: nat, lo: nat, hi: nat, best: Run)
    requires j < |b| && lo <= hi <= |a|
    requires forall k :: lo <= k < hi ==> a[k] != b[j]
    ensures ScanRow(a, b, j, lo, best) == ScanRow(a, b, j, hi, best)
    decreases hi - lo
  {
    if lo < hi {
      assert Step(a, b, lo, j, best) == best;
      SkipUnmatched(a, b, j, lo + 1, hi, best);
    }
  }

  /** `old_index_map`: every value of a, mapped to its positions in increasing order. */
  method IndexMap<T(==)>(a: seq<T>) returns (m: map<T, seq<nat>>)
    ensures forall v :: v in m ==> IsIndexList(a, |a|, v, m[v])
    ensures forall k :: 0 <= k < |a| ==> a[k] in m
  {
    m := map[];
    var i := 0;
    while i < |a|
      invariant 0 <= i <= |a|
      invariant forall v :: v in m ==> IsIndexList(a, i, v, m[v])
      invariant forall k :: 0 <= k < i ==> a[k] in m
    {
      var v := a[i];
      var ps := if v in m then m[v] else [];
      IndexListSnoc(a, i, v, ps);
      forall w | w in m && w != v ensures IsIndexList(a, i + 1, w, m[w]) {
        IndexListSkip(a, i, w, m[w]);
      }
      m := m[v := ps + [i]];
      i := i + 1;
    }
  }

  /** Position `i`, holding `v`, extends the index list of `v` by one. */
  lemma IndexListSnoc<T>(a: seq<T>, i: nat, v: T, ps: seq<nat>)
    requires i < |a| && a[i] == v && IsIndexList(a, i, v, ps)
    ensures IsIndexList(a, i + 1, v, ps + [i])
  {
  }

  /** Position `i`, not holding `w`, leaves the index list of `w` as it is. */
  lemma IndexListSkip<T>(a: seq<T>, i: nat, w: T, ps: seq<nat>)
    requires i < |a| && a[i] != w && IsIndexList(a, i, w, ps)
    ensures IsIndexList(a, i + 1, w, ps)
  {
  }

  /**
    The overlap map of column `j` (position of a, mapped to the length of
    the common suffix ending there) for every position of a that matches `b[j]`.
  */
  ghost predicate IsOverlapMap<T>(a: seq<T>, b: seq<T>, j: nat, overlap: map<nat, nat>)
    requires j < |b|
  {
    && (forall k: nat {:trigger k in overlap} :: k in overlap <==> k < |a| && a[k] == b[j])
    && (forall k: nat {:trigger k in overlap} :: k in overlap ==> k < |a| && overlap[k] == Overlap(a, b, k, j))
  }

  /** Every entry of `overlap` is a match of `b[j]` holding its overlap. */
  ghost predicate OverlapsAt<T>(a: seq<T>, b: seq<T>, j: nat, overlap: map<nat, nat>)
    requires j < |b|
  {
    forall k {:trigger k in overlap} :: k in overlap ==> k < |a| && a[k] == b[j] && overlap[k] == Overlap(a, b, k, j)
  }

  lemma OverlapsAtUpdate<T>(a: seq<T>, b: seq<T>, j: nat, overlap: map<nat, nat>, i: nat)
    requires j < |b| && i < |a| && a[i] == b[j]
    requires OverlapsAt(a, b, j, overlap)
    ensures OverlapsAt(a, b, j, overlap[i := Overlap(a, b, i, j)])
  {
  }

  /** The source's `(iold and overlap.get(iold - 1, 0)) + 1` is the overlap ending at `(iold, j)`. */
  lemma OverlapFromPrevious<T>(a: seq<T>, b: seq<T>, j: nat, overlap: map<nat, nat>, iold: nat)
    requires j < |b| && iold < |a| && a[iold] == b[j]
    requires j > 0 ==> IsOverlapMap(a, b, j - 1, overlap)
    requires j == 0 ==> overlap == map[]
    ensures (if iold == 0 then 0 else if iold - 1 in overlap then overlap[iold - 1] else 0) + 1 == Overlap(a, b, iold, j)
  {
    if iold > 0 && j > 0 && iold - 1 !in overlap {
      assert a[iold - 1] != b[j - 1];
    }
  }

  /** Between two consecutive entries of an index list no position holds the value. */
  lemma IndexListGap<T>(a: seq<T>, v: T, ps: seq<nat>, t: nat)
    requires IsIndexList(a, |a|, v, ps) && t <= |ps|
    ensures forall k :: (if t == 0 then 0 else ps[t - 1] + 1) <= k < (if t < |ps| then ps[t] else |a|) ==> a[k] != v
  {
    forall k | (if t == 0 then 0 else ps[t - 1] + 1) <= k < (if t < |ps| then ps[t] else |a|) ensures a[k] != v {
      forall s | 0 <= s < |ps| ensures ps[s] != k {
        if s < t - 1 {
          assert ps[s] < ps[t - 1];
        } else if t < s {
          assert ps[t] < ps[s];
        }
      }
      assert k !in ps;
    }
  }

  /**
    Visiting a match `i` of `b[j]` with overlap `o` (replacing the best run
    when `o` is longer) and skipping the positions up to the next match.
  */
  lemma VisitMatch<T>(a: seq<T>, b: seq<T>, j: nat, i: nat, upTo: nat, best: Run, o: nat)
    requires j < |b| && i < upTo <= |a| && o == Overlap(a, b, i, j)
    requires forall k :: i < k < upTo ==> a[k] != b[j]
    ensures o <= i + 1 && o <= j + 1
    ensures ScanRow(a, b, j, i, best)
      == ScanRow(a, b, j, upTo, if o > best.len then Run(i + 1 - o, j + 1 - o, o) else best)
  {
    StepAt(a, b, j, i, best, o);
    SkipUnmatched(a, b, j, i + 1, upTo, if o > best.len then Run(i + 1 - o, j + 1 - o, o) else best);
  }

  /** Visiting `(i, j)` when the overlap there is `o`. */
  lemma StepAt<T>(a: seq<T>, b: seq<T>, j: nat, i: nat, best: Run, o: nat)
    requires j < |b| && i < |a| && o == Overlap(a, b, i, j)
    ensures o <= i + 1 && o <= j + 1
    ensures ScanRow(a, b, j, i, best)
      == ScanRow(a, b, j, i + 1, if o > best.len then Run(i + 1 - o, j + 1 - o, o) else best)
  {
  }

  /**
    One pass of the outer loop: the overlaps of `b[j]` against its positions
    `ps` in a, built from those of `b[j - 1]`, and the best run updated in
    scan order.
  */
  method ScanNewItem<T(==)>(a: seq<T>, b: seq<T>, j: nat, ps: seq<nat>, overlap: map<nat, nat>, best: Run)
    returns (nextOverlap: map<nat, nat>, next: Run)
    requires j < |b| && IsIndexList(a, |a|, b[j], ps)
    requires j > 0 ==> IsOverlapMap(a, b, j - 1, overlap)
    requires j == 0 ==> overlap == map[]
    ensures IsOverlapMap(a, b, j, nextOverlap)
    ensures next == ScanRow(a, b, j, 0, best)
  {
    IndexListGap(a, b[j], ps, 0);
    SkipUnmatched(a, b, j, 0, if 0 < |ps| then ps[0] else |a|, best);
    nextOverlap := map[];
    next := best;
    var t := 0;
    while t < |ps|
      invariant 0 <= t <= |ps|
      invariant ScanRow(a, b, j, if t < |ps| then ps[t] else |a|, next) == ScanRow(a, b, j, 0, best)
      invariant forall s :: 0 <= s < t ==> ps[s] in nextOverlap
      invariant OverlapsAt(a, b, j, nextOverlap)
    {
      var iold := ps[t];
      var o := (if iold == 0 then 0 else if iold - 1 in overlap then overlap[iold - 1] else 0) + 1;
      OverlapFromPrevious(a, b, j, overlap, iold);
      var upTo := if t + 1 < |ps| then ps[t + 1] else |a|;
      IndexListGap(a, b[j], ps, t + 1);
      VisitMatch(a, b, j, iold, upTo, next, o);
      OverlapsAtUpdate(a, b, j, nextOverlap, iold);
      nextOverlap := nextOverlap[iold := o];
      if o > next.len {
        next := Run(iold + 1 - o, j + 1 - o, o);
      }
      t := t + 1;
    }
    forall k: nat | k < |a| && a[k] == b[j] ensures k in nextOverlap {
      assert k in ps;
    }
  }

  /**
    The longest-run search as the source writes it: an index from values of
    `a` to their positions, then one pass over `b` that keeps the previous
    item's `overlap` map and the best run seen so far.
  */
  method FindLongestRun<T(==)>(a: seq<T>, b: seq<T>) returns (subStartOld: nat, subStartNew: nat, subLength: nat)
    ensures Run(subStartOld, subStartNew, subLength) == LongestRun(a, b)
  {
    var oldIndexMap := IndexMap(a);
    var overlap: map<nat, nat> := map[];
    var best := Run(0, 0, 0);
    var inew := 0;
    while inew < |b|
      invariant 0 <= inew <= |b|
      invariant ScanRows(a, b, inew, best) == LongestRun(a, b)
      invariant inew > 0 ==> IsOverlapMap(a, b, inew - 1, overlap)
      invariant inew == 0 ==> overlap == map[]
    {
      var val := b[inew];
      var ps := if val in oldIndexMap then oldIndexMap[val] else [];
      assert IsIndexList(a, |a|, val, ps);
      ghost var before := best;
      overlap, best := ScanNewItem(a, b, inew, ps, overlap, best);
      assert ScanRows(a, b, inew, before) == ScanRows(a, b, inew + 1, best);
      inew := inew + 1;
    }
    subStartOld, subStartNew, subLength := best.startOld, best.startNew, best.len;
  }

  /** The differ as the source runs it: the loop above, then the two recursive calls. */
  method ComputeDiff<T(==)>(a: seq<T>, b: seq<T>) returns (d: seq<Segment<T>>)
    ensures d == Diff(a, b)
    decreases |a| + |b|
  {
    var subStartOld, subStartNew, subLength := FindLongestRun(a, b);
    if subLength == 0 {
      DiffUnfold(a, b);
      d := Split(a, b);
    } else {
      var left := ComputeDiff(a[..subStartOld], b[..subStartNew]);
      var right := ComputeDiff(a[subStartOld + subLength..], b[subStartNew + subLength..]);
      DiffAtLongest(a, b, Run(subStartOld, subStartNew, subLength), left, right);
      d := left + [Segment(Same, b[subStartNew..subStartNew + subLength])] + right;
    }
  }

  // ---------------------------------------------------------------------
  // The documented examples

  lemma DeletionExampleRun()
    ensures LongestRun([1, 2, 3, 4], [1, 3, 4]) == Run(2, 1, 2)
  {
    var a, b := [1, 2, 3, 4], [1, 3, 4];
    assert Overlap(a, b, 0, 0) == 1;
    assert ScanRow(a, b, 0, 0, Run(0, 0, 0)) == Run(0, 0, 1);
    assert ScanRow(a, b, 1, 0, Run(0, 0, 1)) == Run(0, 0, 1);
    assert Overlap(a, b, 3, 2) == 2;
  }

  lemma DeletionLeftExampleRun()
    ensures LongestRun([1, 2], [1]) == Run(0, 0, 1)
  {
    assert Overlap([1, 2], [1], 0, 0) == 1;
  }

  /** Diff with a known longest run and known diffs on both sides of it. */
  lemma DiffAround<T>(a: seq<T>, b: seq<T>, r: Run, left: seq<Segment<T>>, mid: seq<T>, right: seq<Segment<T>>, whole: seq<Segment<T>>)
    requires LongestRun(a, b) == r && r.len > 0
    requires Diff(a[..r.startOld], b[..r.startNew]) == left
    requires b[r.startNew..r.startNew + r.len] == mid
    requires Diff(a[r.startOld + r.len..], b[r.startNew + r.len..]) == right
    requires whole == left + [Segment(Same, mid)] + right
    ensures Diff(a, b) == whole
  {
  }

  /** `Diff` around its longest run, from the diffs of the two sides. */
  lemma DiffAtLongest<T>(a: seq<T>, b: seq<T>, r: Run, left: seq<Segment<T>>, right: seq<Segment<T>>)
    requires r == LongestRun(a, b) && r.len > 0
    requires left == Diff(a[..r.startOld], b[..r.startNew])
    requires right == Diff(a[r.startOld + r.len..], b[r.startNew + r.len..])
    ensures Diff(a, b) == left + [Segment(Same, b[r.startNew..r.startNew + r.len])] + right
  {
  }

  /** Against an empty new sequence everything is deleted. */
  lemma DiffAllDeleted<T>(a: seq<T>)
    ensures Diff(a, []) == if a == [] then [] else [Segment(Deleted, a)]
  {
    DiffDisjoint(a, []);
  }

  /** From an empty old sequence everything is added. */
  lemma DiffAllAdded<T>(b: seq<T>)
    ensures Diff([], b) == if b == [] then [] else [Segment(Added, b)]
  {
    DiffDisjoint([], b);
  }

  lemma DeletionLeftRun(a: seq<int>, b: seq<int>)
    requires a == [1, 2] && b == [1]
    ensures LongestRun(a, b) == Run(0, 0, 1) && b[0..1] == [1]
  {
    DeletionLeftExampleRun();
  }

  lemma DeletionLeftParts(a: seq<int>, b: seq<int>)
    requires a == [1, 2] && b == [1]
    ensures Diff(a[..0], b[..0]) == [] && Diff(a[1..], b[1..]) == [Segment(Deleted, [2])]
  {
    assert a[..0] == [] && b[..0] == [] && a[1..] == [2] && b[1..] == [];
    DiffAllDeleted(a[..0]);
    DiffAllDeleted(a[1..]);
  }

  lemma DeletionExampleLeft(a: seq<int>, b: seq<int>)
    requires a == [1, 2] && b == [1]
    ensures Diff(a, b) == [Segment(Same, [1]), Segment(Deleted, [2])]
  {
    DeletionLeftRun(a, b);
    DeletionLeftParts(a, b);
    DiffAround(a, b, Run(0, 0, 1), [], [1], [Segment(Deleted, [2])], [Segment(Same, [1]), Segment(Deleted, [2])]);
  }

  lemma DeletionRun(a: seq<int>, b: seq<int>)
    requires a == [1, 2, 3, 4] && b == [1, 3, 4]
    ensures LongestRun(a, b) == Run(2, 1, 2) && b[1..3] == [3, 4]
  {
    DeletionExampleRun();
  }

  lemma DeletionParts(a: seq<int>, b: seq<int>)
    requires a == [1, 2, 3, 4] && b == [1, 3, 4]
    ensures Diff(a[..2], b[..1]) == [Segment(Same, [1]), Segment(Deleted, [2])] && Diff(a[4..], b[3..]) == []
  {
    assert a[..2] == [1, 2] && b[..1] == [1] && a[4..] == [] && b[3..] == [];
    DeletionExampleLeft(a[..2], b[..1]);
    DiffAllDeleted(a[4..]);
  }

  /** `diff([1,2,3,4], [1,3,4])` keeps `[1]` and `[3,4]` and deletes `[2]`. */
  lemma DocExampleDeletion(a: seq<int>, b: seq<int>)
    requires a == [1, 2, 3, 4] && b == [1, 3, 4]
    ensures Diff(a, b) == [Segment(Same, [1]), Segment(Deleted, [2]), Segment(Same, [3, 4])]
  {
    DeletionRun(a, b);
    DeletionParts(a, b);
    DiffAround(a, b, Run(2, 1, 2), [Segment(Same, [1]), Segment(Deleted, [2])], [3, 4], [],
      [Segment(Same, [1]), Segment(Deleted, [2]), Segment(Same, [3, 4])]);
  }

  lemma RotationExampleRows()
    ensures ScanRow([1, 2, 3, 4], [2, 3, 4, 1], 0, 0, Run(0, 0, 0)) == Run(1, 0, 1)
    ensures ScanRow([1, 2, 3, 4], [2, 3, 4, 1], 1, 0, Run(1, 0, 1)) == Run(1, 0, 2)
  {
    assert Overlap([1, 2, 3, 4], [2, 3, 4, 1], 1, 0) == 1;
    assert Overlap([1, 2, 3, 4], [2, 3, 4, 1], 2, 1) == 2;
  }

  lemma RotationExampleRun()
    ensures LongestRun([1, 2, 3, 4], [2, 3, 4, 1]) == Run(1, 0, 3)
  {
    var a, b := [1, 2, 3, 4], [2, 3, 4, 1];
    RotationExampleRows();
    assert Overlap(a, b, 3, 2) == 3;
    assert ScanRow(a, b, 2, 0, Run(1, 0, 2)) == Run(1, 0, 3);
    assert Overlap(a, b, 0, 3) == 1;
  }

  lemma RotationParts(a: seq<int>, b: seq<int>)
    requires a == [1, 2, 3, 4] && b == [2, 3, 4, 1]
    ensures LongestRun(a, b) == Run(1, 0, 3) && b[0..3] == [2, 3, 4]
    ensures Diff(a[..1], b[..0]) == [Segment(Deleted, [1])] && Diff(a[4..], b[3..]) == [Segment(Added, [1])]
  {
    RotationExampleRun();
    assert a[..1] == [1] && b[..0] == [] && a[4..] == [] && b[3..] == [1];
    DiffAllDeleted(a[..1]);
    DiffAllAdded(b[3..]);
  }

  /** `diff([1,2,3,4], [2,3,4,1])` keeps the longest run `[2,3,4]`, so the `1` is deleted before it and added after it. */
  lemma DocExampleRotation(a: seq<int>, b: seq<int>)
    requires a == [1, 2, 3, 4] && b == [2, 3, 4, 1]
    ensures Diff(a, b) == [Segment(Deleted, [1]), Segment(Same, [2, 3, 4]), Segment(Added, [1])]
  {
    RotationParts(a, b);
    DiffAround(a, b, Run(1, 0, 3), [Segment(Deleted, [1])], [2, 3, 4], [Segment(Added, [1])],
      [Segment(Deleted, [1]), Segment(Same, [2, 3, 4]), Segment(Added, [1])]);
  }

  lemma TieExampleRun()
    ensures LongestRun([1, 2], [2, 1]) == Run(1, 0, 1)
  {
    var a, b := [1, 2], [2, 1];
    assert Overlap(a, b, 1, 0) == 1;
    assert ScanRow(a, b, 0, 0, Run(0, 0, 0)) == Run(1, 0, 1);
    assert Overlap(a, b, 0, 1) == 1;
    assert ScanRow(a, b, 1, 0, Run(1, 0, 1)) == Run(1, 0, 1);
  }

  lemma TieParts(a: seq<int>, b: seq<int>)
    requires a == [1, 2] && b == [2, 1]
    ensures LongestRun(a, b) == Run(1, 0, 1) && b[0..1] == [2]
    ensures Diff(a[..1], b[..0]) == [Segment(Deleted, [1])] && Diff(a[2..], b[1..]) == [Segment(Added, [1])]
  {
    TieExampleRun();
    assert a[..1] == [1] && b[..0] == [] && a[2..] == [] && b[1..] == [1];
    DiffAllDeleted(a[..1]);
    DiffAllAdded(b[1..]);
  }

  /**
    Of two equally long runs the one the scan of the new list meets first
    wins: `diff([1,2], [2,1])` keeps the `2`, which the new list has first,
    and not the `1`.
  */
  lemma TieGoesToFirstFound(a: seq<int>, b: seq<int>)
    requires a == [1, 2] && b == [2, 1]
    ensures Diff(a, b) == [Segment(Deleted, [1]), Segment(Same, [2]), Segment(Added, [1])]
  {
    TieParts(a, b);
    DiffAround(a, b, Run(1, 0, 1), [Segment(Deleted, [1])], [2], [Segment(Added, [1])],
      [Segment(Deleted, [1]), Segment(Same, [2]), Segment(Added, [1])]);
  }
}
