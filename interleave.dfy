/**
  The ordering rule shared by the header reconciler and the row reconciler.
  Given the old and the new list of identities (column names, or row keys),
  the reconciled order is the new order, with every old identity that is
  absent from the new list placed right after the nearest old identity before
  it that survives into the new list, or at the very front when none does.

  `Layout(olds, news)` is that order, as a sequence of slots pointing back
  into `olds` (deleted identities) and `news` (all new identities).
*/
module Interleave {
  import opened Common
  import opened Marks

  /** A place in the reconciled order: a deleted identity by its old position, or a new one by its new position. */
  datatype Slot = FromOld(i: nat) | FromNew(j: nat)

  /** The slot points into the lists, and an old slot only at an identity that the new list lacks. */
  predicate Fits<T(==)>(olds: seq<T>, news: seq<T>, s: Slot)
  {
    match s
    case FromOld(i) => i < |olds| && olds[i] !in news
    case FromNew(j) => j < |news|
  }

  ghost predicate AllFit<T>(olds: seq<T>, news: seq<T>, L: seq<Slot>)
  {
    forall p :: 0 <= p < |L| ==> Fits(olds, news, L[p])
  }

  /** The run of consecutive old identities, from old position `k` on, that the new list lacks. */
  function RunFrom<T(==)>(olds: seq<T>, news: seq<T>, k: nat): seq<Slot>
    decreases |olds| - k
  {
    if k < |olds| && olds[k] !in news then [FromOld(k)] + RunFrom(olds, news, k + 1) else []
  }

  /** A run is empty at the end of the old identities and at a surviving one. */
  lemma RunFromEnd<T>(olds: seq<T>, news: seq<T>, k: nat)
    requires k >= |olds| || olds[k] in news
    ensures RunFrom(olds, news, k) == []
  {
  }

  /** New identity `j`, followed by the deleted run right after its old position when it had one. */
  function Block<T(==,!new)>(olds: seq<T>, news: seq<T>, j: nat): seq<Slot>
    requires j < |news|
  {
    [FromNew(j)] + (if news[j] in olds then RunFrom(olds, news, LastIndex(olds, news[j]) + 1) else [])
  }

  /** The blocks of new identities `j`, `j + 1`, ..., in new order. */
  function Blocks<T(==,!new)>(olds: seq<T>, news: seq<T>, j: nat): seq<Slot>
    requires j <= |news|
    decreases |news| - j
  {
    if j == |news| then [] else Block(olds, news, j) + Blocks(olds, news, j + 1)
  }

  /** The reconciled order: the leading deleted run, then one block per new identity. */
  function Layout<T(==,!new)>(olds: seq<T>, news: seq<T>): seq<Slot>
  {
    RunFrom(olds, news, 0) + Blocks(olds, news, 0)
  }

  /** The identity a slot stands for. */
  function ItemOf<T(==)>(olds: seq<T>, news: seq<T>, s: Slot): T
    requires Fits(olds, news, s)
  {
    match s
    case FromOld(i) => olds[i]
    case FromNew(j) => news[j]
  }

  /** `-` for a deleted identity, `=` for one on both sides, `+` for one only in the new list. */
  function MarkOf<T(==)>(olds: seq<T>, news: seq<T>, s: Slot): Mark
    requires Fits(olds, news, s)
  {
    match s
    case FromOld(_) => Deleted
    case FromNew(j) => if news[j] in olds then Same else Added
  }

  function Items<T(==)>(olds: seq<T>, news: seq<T>, L: seq<Slot>): (r: seq<T>)
    requires AllFit(olds, news, L)
    ensures |r| == |L|
  {
    seq(|L|, p requires 0 <= p < |L| => ItemOf(olds, news, L[p]))
  }

  function MarksOf<T(==)>(olds: seq<T>, news: seq<T>, L: seq<Slot>): (r: seq<Mark>)
    requires AllFit(olds, news, L)
    ensures |r| == |L|
  {
    seq(|L|, p requires 0 <= p < |L| => MarkOf(olds, news, L[p]))
  }

  lemma ItemsAppend<T(!new)>(olds: seq<T>, news: seq<T>, A: seq<Slot>, B: seq<Slot>)
    requires AllFit(olds, news, A) && AllFit(olds, news, B)
    ensures AllFit(olds, news, A + B)
    ensures Items(olds, news, A + B) == Items(olds, news, A) + Items(olds, news, B)
    ensures MarksOf(olds, news, A + B) == MarksOf(olds, news, A) + MarksOf(olds, news, B)
  {
    assert forall p :: 0 <= p < |A + B| ==> (A + B)[p] == if p < |A| then A[p] else B[p - |A|];
  }

  lemma RunFromFits<T(!new)>(olds: seq<T>, news: seq<T>, k: nat)
    ensures AllFit(olds, news, RunFrom(olds, news, k))
  {
    RunFromShape(olds, news, k);
  }

  /** The deleted run that follows new identity `j` in its block. */
  function After<T(==,!new)>(olds: seq<T>, news: seq<T>, j: nat): seq<Slot>
    requires j < |news|
  {
    if news[j] in olds then RunFrom(olds, news, LastIndex(olds, news[j]) + 1) else []
  }

  /**
    `Items` and `MarksOf` as a walk over the slots, one slot at a time: the
    form in which the reconcilers' loops build their output.
  */
  function Names<T(==)>(olds: seq<T>, news: seq<T>, L: seq<Slot>): seq<T>
  {
    if L == [] then []
    else (if Fits(olds, news, L[0]) then [ItemOf(olds, news, L[0])] else []) + Names(olds, news, L[1..])
  }

  function MarkList<T(==)>(olds: seq<T>, news: seq<T>, L: seq<Slot>): seq<Mark>
  {
    if L == [] then []
    else (if Fits(olds, news, L[0]) then [MarkOf(olds, news, L[0])] else []) + MarkList(olds, news, L[1..])
  }

  lemma {:induction false} NamesAppend<T>(olds: seq<T>, news: seq<T>, A: seq<Slot>, B: seq<Slot>)
    ensures Names(olds, news, A + B) == Names(olds, news, A) + Names(olds, news, B)
    ensures MarkList(olds, news, A + B) == MarkList(olds, news, A) + MarkList(olds, news, B)
  {
    if A != [] {
      assert (A + B)[1..] == A[1..] + B;
      NamesAppend(olds, news, A[1..], B);
    } else {
      assert A + B == B;
    }
  }

  lemma {:induction false} NamesAreItems<T>(olds: seq<T>, news: seq<T>, L: seq<Slot>)
    requires AllFit(olds, news, L)
    ensures Names(olds, news, L) == Items(olds, news, L)
    ensures MarkList(olds, news, L) == MarksOf(olds, news, L)
  {
    if L != [] {
      ItemsCons(olds, news, L);
      NamesAreItems(olds, news, L[1..]);
    }
  }

  /** The items and marks of a non-empty list: those of its first slot, then those of the rest. */
  lemma ItemsCons<T>(olds: seq<T>, news: seq<T>, L: seq<Slot>)
    requires AllFit(olds, news, L) && L != []
    ensures Fits(olds, news, L[0]) && AllFit(olds, news, L[1..])
    ensures Items(olds, news, L) == [ItemOf(olds, news, L[0])] + Items(olds, news, L[1..])
    ensures MarksOf(olds, news, L) == [MarkOf(olds, news, L[0])] + MarksOf(olds, news, L[1..])
  {
    assert Fits(olds, news, L[0]);
    forall p | 0 <= p < |L[1..]| ensures Fits(olds, news, L[1..][p]) {
      assert L[1..][p] == L[p + 1];
    }
  }

  /** The layout rendered piece by piece: the leading run's part, then the blocks' part. */
  lemma LayoutNames<T(!new)>(olds: seq<T>, news: seq<T>)
    ensures AllFit(olds, news, Layout(olds, news))
    ensures Items(olds, news, Layout(olds, news))
         == Names(olds, news, RunFrom(olds, news, 0)) + Names(olds, news, Blocks(olds, news, 0))
    ensures MarksOf(olds, news, Layout(olds, news))
         == MarkList(olds, news, RunFrom(olds, news, 0)) + MarkList(olds, news, Blocks(olds, news, 0))
  {
    NamesAppend(olds, news, RunFrom(olds, news, 0), Blocks(olds, news, 0));
    LayoutFits(olds, news);
    NamesAreItems(olds, news, Layout(olds, news));
  }

  /** One step along a run: old identity `k`, then the run from `k + 1`. */
  lemma RunFromStep<T(!new)>(olds: seq<T>, news: seq<T>, k: nat)
    requires k < |olds| && olds[k] !in news
    ensures Names(olds, news, RunFrom(olds, news, k)) == [olds[k]] + Names(olds, news, RunFrom(olds, news, k + 1))
    ensures MarkList(olds, news, RunFrom(olds, news, k)) == [Deleted] + MarkList(olds, news, RunFrom(olds, news, k + 1))
  {
    assert RunFrom(olds, news, k)[1..] == RunFrom(olds, news, k + 1);
  }

  /** One step along the blocks: new identity `j`, its deleted run, then the blocks from `j + 1`. */
  lemma BlocksStep<T(!new)>(olds: seq<T>, news: seq<T>, j: nat)
    requires j < |news|
    ensures Names(olds, news, Blocks(olds, news, j))
         == ([news[j]] + Names(olds, news, After(olds, news, j))) + Names(olds, news, Blocks(olds, news, j + 1))
    ensures MarkList(olds, news, Blocks(olds, news, j))
         == ([if news[j] in olds then Same else Added] + MarkList(olds, news, After(olds, news, j)))
            + MarkList(olds, news, Blocks(olds, news, j + 1))
  {
    var A := After(olds, news, j);
    assert Block(olds, news, j) == [FromNew(j)] + A;
    NamesAppend(olds, news, [FromNew(j)], A);
    NamesAppend(olds, news, Block(olds, news, j), Blocks(olds, news, j + 1));
  }

  lemma BlocksFitAll<T(!new)>(olds: seq<T>, news: seq<T>, j: nat)
    requires j <= |news|
    ensures AllFit(olds, news, Blocks(olds, news, j))
  {
    BlocksFit(olds, news, j);
    var B := Blocks(olds, news, j);
    assert forall p :: 0 <= p < |B| ==> B[p] in B;
  }

  /** The new identities in the order their slots appear. */
  function NewItems<T>(news: seq<T>, L: seq<Slot>): seq<T>
  {
    if L == [] then []
    else (if L[0].FromNew? && L[0].j < |news| then [news[L[0].j]] else []) + NewItems(news, L[1..])
  }

  // ---------------------------------------------------------------------
  // Shape of the pieces

  /** A run is the consecutive old positions `k, k + 1, ...` up to the first identity that survives. */
  lemma {:induction false} RunFromShape<T(!new)>(olds: seq<T>, news: seq<T>, k: nat)
    ensures var R := RunFrom(olds, news, k);
      && (forall q :: 0 <= q < |R| ==> R[q] == FromOld(k + q) && k + q < |olds| && olds[k + q] !in news)
      && (k + |R| >= |olds| || olds[k + |R|] in news)
    decreases |olds| - k
  {
    var R := RunFrom(olds, news, k);
    if k < |olds| && olds[k] !in news {
      RunFromShape(olds, news, k + 1);
      var R' := RunFrom(olds, news, k + 1);
      assert R == [FromOld(k)] + R';
      assert k + |R| == (k + 1) + |R'|;
      forall q | 0 <= q < |R| ensures R[q] == FromOld(k + q) && k + q < |olds| && olds[k + q] !in news {
        if q > 0 { assert R[q] == R'[q - 1]; }
      }
    } else {
      assert R == [];
    }
  }

  /** Membership in a run: exactly the old positions from `k` up to `i` all missing from the new list. */
  lemma RunFromMember<T(!new)>(olds: seq<T>, news: seq<T>, k: nat, i: nat)
    ensures FromOld(i) in RunFrom(olds, news, k) <==>
              k <= i < |olds| && forall t :: k <= t <= i ==> olds[t] !in news
    ensures forall s :: s in RunFrom(olds, news, k) ==> s.FromOld?
  {
    var R := RunFrom(olds, news, k);
    RunFromShape(olds, news, k);
    if FromOld(i) in R {
      var q :| 0 <= q < |R| && R[q] == FromOld(i);
      forall t | k <= t <= i ensures olds[t] !in news {
        assert R[t - k] == FromOld(t);
      }
    }
    if k <= i < |olds| && forall t :: k <= t <= i ==> olds[t] !in news {
      assert R[i - k] == FromOld(i);
    }
  }

  lemma {:induction false} BlocksFit<T(!new)>(olds: seq<T>, news: seq<T>, j: nat)
    requires j <= |news|
    ensures forall s :: s in Blocks(olds, news, j) ==>
      Fits(olds, news, s) && (s.FromNew? ==> j <= s.j)
    decreases |news| - j
  {
    if j < |news| {
      BlocksFit(olds, news, j + 1);
      BlockFits(olds, news, j);
      var B, rest := Block(olds, news, j), Blocks(olds, news, j + 1);
      assert Blocks(olds, news, j) == B + rest;
      forall s | s in B + rest ensures Fits(olds, news, s) && (s.FromNew? ==> j <= s.j) {
        if s !in B {
          assert s in rest;
        }
      }
    }
  }

  /** Every slot of block `j` fits, and its one new slot is `FromNew(j)`. */
  lemma BlockFits<T(!new)>(olds: seq<T>, news: seq<T>, j: nat)
    requires j < |news|
    ensures forall s :: s in Block(olds, news, j) ==> Fits(olds, news, s) && (s.FromNew? ==> s.j == j)
  {
    var R := After(olds, news, j);
    assert Block(olds, news, j) == [FromNew(j)] + R;
    if news[j] in olds {
      RunFromShape(olds, news, LastIndex(olds, news[j]) + 1);
    }
    forall s | s in R ensures Fits(olds, news, s) && s.FromOld? {
      var q :| 0 <= q < |R| && R[q] == s;
    }
  }

  lemma LayoutFits<T(!new)>(olds: seq<T>, news: seq<T>)
    ensures AllFit(olds, news, Layout(olds, news))
  {
    RunFromShape(olds, news, 0);
    BlocksFit(olds, news, 0);
    var L := Layout(olds, news);
    forall p | 0 <= p < |L| ensures Fits(olds, news, L[p]) {
      if p >= |RunFrom(olds, news, 0)| {
        assert L[p] in Blocks(olds, news, 0);
      }
    }
  }

  // ---------------------------------------------------------------------
  // Every identity is placed exactly once

  /** The nearest old position before `i` whose identity survives into the new list. */
  function Anchor<T(==)>(olds: seq<T>, news: seq<T>, i: nat): Option<nat>
    requires i <= |olds|
  {
    if i == 0 then None
    else if olds[i - 1] in news then Some(i - 1)
    else Anchor(olds, news, i - 1)
  }

  lemma {:induction false} AnchorIsNearest<T(!new)>(olds: seq<T>, news: seq<T>, i: nat)
    requires i <= |olds|
    ensures Anchor(olds, news, i).None? ==> forall t :: 0 <= t < i ==> olds[t] !in news
    ensures Anchor(olds, news, i).Some? ==>
      var a := Anchor(olds, news, i).value;
      a < i && olds[a] in news && forall t :: a < t < i ==> olds[t] !in news
  {
    if i > 0 && olds[i - 1] !in news {
      AnchorIsNearest(olds, news, i - 1);
    }
  }

  lemma {:induction false} BlockInBlocks<T(!new)>(olds: seq<T>, news: seq<T>, m: nat, j: nat)
    requires m <= j < |news|
    ensures forall s :: s in Block(olds, news, j) ==> s in Blocks(olds, news, m)
    decreases j - m
  {
    if m < j {
      BlockInBlocks(olds, news, m + 1, j);
    }
  }

  /** Every new identity has a slot. */
  lemma LayoutHasNew<T(!new)>(olds: seq<T>, news: seq<T>, j: nat)
    requires j < |news|
    ensures FromNew(j) in Layout(olds, news)
  {
    BlockInBlocks(olds, news, 0, j);
  }

  /** A deleted identity after a survivor `a`, with only deleted ones between, sits in the survivor's block. */
  lemma AnchoredDeletedInBlock<T(!new)>(olds: seq<T>, news: seq<T>, i: nat, a: nat) returns (j: nat)
    requires Distinct(olds)
    requires a < i < |olds| && olds[a] in news
    requires forall t :: a < t <= i ==> olds[t] !in news
    ensures j < |news| && news[j] == olds[a] && FromOld(i) in Block(olds, news, j)
  {
    j := LastIndex(news, olds[a]);
    LastIndexDistinct(olds, a);
    RunFromMember(olds, news, a + 1, i);
  }

  /** Every old identity that the new list lacks has a slot. */
  lemma LayoutHasDeleted<T(!new)>(olds: seq<T>, news: seq<T>, i: nat)
    requires Distinct(olds)
    requires i < |olds| && olds[i] !in news
    ensures FromOld(i) in Layout(olds, news)
  {
    AnchorIsNearest(olds, news, i);
    var anchor := Anchor(olds, news, i);
    if anchor.None? {
      RunFromMember(olds, news, 0, i);
    } else {
      var j := AnchoredDeletedInBlock(olds, news, i, anchor.value);
      BlockInBlocks(olds, news, 0, j);
    }
  }

  lemma LayoutComplete<T(!new)>(olds: seq<T>, news: seq<T>)
    requires Distinct(olds)
    ensures forall j :: 0 <= j < |news| ==> FromNew(j) in Layout(olds, news)
    ensures forall i :: 0 <= i < |olds| && olds[i] !in news ==> FromOld(i) in Layout(olds, news)
  {
    forall j | 0 <= j < |news| ensures FromNew(j) in Layout(olds, news) {
      LayoutHasNew(olds, news, j);
    }
    forall i | 0 <= i < |olds| && olds[i] !in news ensures FromOld(i) in Layout(olds, news) {
      LayoutHasDeleted(olds, news, i);
    }
  }

  /** Two blocks never hold the same deleted identity: the later survivor would cut the earlier run short. */
  lemma RunsDisjoint<T(!new)>(olds: seq<T>, news: seq<T>, j1: nat, j2: nat, i: nat)
    requires j1 < |news| && j2 < |news| && news[j1] != news[j2]
    requires FromOld(i) in Block(olds, news, j1)
    ensures FromOld(i) !in Block(olds, news, j2)
  {
    InBlockMissing(olds, news, j1, i);
    InBlockMissing(olds, news, j2, i);
    if news[j2] in olds {
      MissingApart(olds, news, LastIndex(olds, news[j1]), LastIndex(olds, news[j2]), i);
    }
  }

  /** An old slot is in block `j` exactly when it is missing from the new list from just after `news[j]`'s old position. */
  lemma InBlockMissing<T(!new)>(olds: seq<T>, news: seq<T>, j: nat, i: nat)
    requires j < |news|
    ensures FromOld(i) in Block(olds, news, j) <==>
      news[j] in olds && MissingFrom(olds, news, LastIndex(olds, news[j]) + 1, i)
  {
    if news[j] in olds {
      var a := LastIndex(olds, news[j]);
      OldInBlock(olds, news, j, i);
      RunHolds(olds, news, a + 1, i);
    } else {
      OldInBlock(olds, news, j, i);
    }
  }

  /** The old positions from `k` up to `i` are all missing from the new list. */
  ghost predicate MissingFrom<T>(olds: seq<T>, news: seq<T>, k: nat, i: nat)
  {
    k <= i < |olds| && forall t :: k <= t <= i ==> olds[t] !in news
  }

  /** `RunFromMember`, stated with `MissingFrom`. */
  lemma RunHolds<T(!new)>(olds: seq<T>, news: seq<T>, k: nat, i: nat)
    ensures FromOld(i) in RunFrom(olds, news, k) <==> MissingFrom(olds, news, k, i)
  {
    RunFromMember(olds, news, k, i);
  }

  /** No position `i` lies in the missing stretches after two different surviving positions. */
  lemma MissingApart<T>(olds: seq<T>, news: seq<T>, a1: nat, a2: nat, i: nat)
    requires a1 < |olds| && a2 < |olds| && a1 != a2
    requires olds[a1] in news && olds[a2] in news
    ensures !(MissingFrom(olds, news, a1 + 1, i) && MissingFrom(olds, news, a2 + 1, i))
  {
    if MissingFrom(olds, news, a1 + 1, i) && a2 < a1 {
      assert !MissingFrom(olds, news, a2 + 1, i) by { assert olds[a1] in news; }
    }
    if MissingFrom(olds, news, a2 + 1, i) && a1 < a2 {
      assert !MissingFrom(olds, news, a1 + 1, i) by { assert olds[a2] in news; }
    }
  }

  /** An old slot is in block `j` exactly when it is in the run after the old position of `news[j]`. */
  lemma OldInBlock<T(!new)>(olds: seq<T>, news: seq<T>, j: nat, i: nat)
    requires j < |news|
    ensures FromOld(i) in Block(olds, news, j) <==>
      news[j] in olds && FromOld(i) in RunFrom(olds, news, LastIndex(olds, news[j]) + 1)
  {
    var A := if news[j] in olds then RunFrom(olds, news, LastIndex(olds, news[j]) + 1) else [];
    assert Block(olds, news, j) == [FromNew(j)] + A;
    assert FromOld(i) in [FromNew(j)] + A <==> FromOld(i) in A;
  }

  /** The only new slot of block `j` is `FromNew(j)`. */
  lemma BlockNewSlot<T(!new)>(olds: seq<T>, news: seq<T>, j: nat)
    requires j < |news|
    ensures forall s :: s in Block(olds, news, j) && s.FromNew? ==> s == FromNew(j)
  {
    if news[j] in olds {
      RunFromMember(olds, news, LastIndex(olds, news[j]) + 1, 0);
    }
  }

  /** A block and a different block share no slot. */
  lemma BlocksDisjoint<T(!new)>(olds: seq<T>, news: seq<T>, j: nat, jj: nat, s: Slot)
    requires Distinct(olds) && Distinct(news)
    requires j < |news| && jj < |news| && j != jj
    requires s in Block(olds, news, j)
    ensures s !in Block(olds, news, jj)
  {
    if s.FromOld? {
      RunsDisjoint(olds, news, j, jj, s.i);
    } else {
      BlockNewSlot(olds, news, j);
      BlockNewSlot(olds, news, jj);
    }
  }

  lemma {:induction false} NotInLaterBlocks<T(!new)>(olds: seq<T>, news: seq<T>, j: nat, m: nat, s: Slot)
    requires Distinct(olds) && Distinct(news)
    requires j < m <= |news|
    requires s in Block(olds, news, j)
    ensures s !in Blocks(olds, news, m)
    decreases |news| - m
  {
    if m < |news| {
      BlocksDisjoint(olds, news, j, m, s);
      NotInLaterBlocks(olds, news, j, m + 1, s);
    }
  }

  /** A leading deleted identity has no survivor before it, so no block holds it. */
  lemma {:induction false} LeadingNotInBlocks<T(!new)>(olds: seq<T>, news: seq<T>, m: nat, i: nat)
    requires m <= |news|
    requires FromOld(i) in RunFrom(olds, news, 0)
    ensures FromOld(i) !in Blocks(olds, news, m)
    decreases |news| - m
  {
    if m < |news| {
      RunFromMember(olds, news, 0, i);
      if news[m] in olds {
        RunFromMember(olds, news, LastIndex(olds, news[m]) + 1, i);
      }
      LeadingNotInBlocks(olds, news, m + 1, i);
    }
  }

  lemma DistinctAppend<T(!new)>(A: seq<T>, B: seq<T>)
    requires Distinct(A) && Distinct(B)
    requires forall x :: x in A ==> x !in B
    ensures Distinct(A + B)
  {
    forall p, q | 0 <= p < q < |A + B| ensures (A + B)[p] != (A + B)[q] {
      if p < |A| && q >= |A| {
        assert (A + B)[p] in A && (A + B)[q] in B;
      }
    }
  }

  lemma RunFromDistinct<T(!new)>(olds: seq<T>, news: seq<T>, k: nat)
    ensures Distinct(RunFrom(olds, news, k))
  {
    RunFromShape(olds, news, k);
  }

  lemma {:induction false} BlocksDistinct<T(!new)>(olds: seq<T>, news: seq<T>, j: nat)
    requires Distinct(olds) && Distinct(news)
    requires j <= |news|
    ensures Distinct(Blocks(olds, news, j))
    decreases |news| - j
  {
    if j < |news| {
      var B := Block(olds, news, j);
      BlocksDistinct(olds, news, j + 1);
      if news[j] in olds {
        var k := LastIndex(olds, news[j]) + 1;
        RunFromDistinct(olds, news, k);
        RunFromMember(olds, news, k, 0);
        DistinctAppend([FromNew(j)], RunFrom(olds, news, k));
      }
      forall s | s in B ensures s !in Blocks(olds, news, j + 1) {
        NotInLaterBlocks(olds, news, j, j + 1, s);
      }
      DistinctAppend(B, Blocks(olds, news, j + 1));
    }
  }

  /** No slot occurs twice in the layout. */
  lemma LayoutDistinct<T(!new)>(olds: seq<T>, news: seq<T>)
    requires Distinct(olds) && Distinct(news)
    ensures Distinct(Layout(olds, news))
  {
    var R := RunFrom(olds, news, 0);
    RunFromDistinct(olds, news, 0);
    BlocksDistinct(olds, news, 0);
    RunFromMember(olds, news, 0, 0);
    forall s | s in R ensures s !in Blocks(olds, news, 0) {
      LeadingNotInBlocks(olds, news, 0, s.i);
    }
    DistinctAppend(R, Blocks(olds, news, 0));
  }

  // ---------------------------------------------------------------------
  // The headline properties

  /**
    For duplicate-free lists, the reconciled order lists every identity of
    either side exactly once: its identities are duplicate-free, they are the
    union of both sides, and so there are `|set(olds) + set(news)|` of them.
  */
  lemma LayoutIsUnion<T(!new)>(olds: seq<T>, news: seq<T>)
    requires Distinct(olds) && Distinct(news)
    ensures AllFit(olds, news, Layout(olds, news))
    ensures Distinct(Items(olds, news, Layout(olds, news)))
    ensures forall x :: x in Items(olds, news, Layout(olds, news)) <==> x in olds || x in news
    ensures |Layout(olds, news)| == |Elements(olds) + Elements(news)|
  {
    var L := Layout(olds, news);
    LayoutFits(olds, news);
    LayoutDistinct(olds, news);
    LayoutComplete(olds, news);
    var I := Items(olds, news, L);
    forall p, q | 0 <= p < q < |I| ensures I[p] != I[q] {
      assert L[p] != L[q];
      match (L[p], L[q])
      case (FromOld(i1), FromOld(i2)) =>
        if i1 < i2 { assert olds[i1] != olds[i2]; } else { assert olds[i2] != olds[i1]; }
      case (FromNew(j1), FromNew(j2)) =>
        if j1 < j2 { assert news[j1] != news[j2]; } else { assert news[j2] != news[j1]; }
      case (FromOld(i), FromNew(j)) =>
        assert olds[i] !in news;
      case (FromNew(j), FromOld(i)) =>
        assert olds[i] !in news;
    }
    forall x ensures x in I <==> x in olds || x in news {
      if x in news {
        var j :| 0 <= j < |news| && news[j] == x;
        var p :| 0 <= p < |L| && L[p] == FromNew(j);
        assert I[p] == x;
      } else if x in olds {
        var i :| 0 <= i < |olds| && olds[i] == x;
        var p :| 0 <= p < |L| && L[p] == FromOld(i);
        assert I[p] == x;
      }
    }
    DistinctCard(I);
    assert Elements(I) == Elements(olds) + Elements(news);
  }

  /** Each mark says on which sides its identity occurs. */
  lemma LayoutMarks<T(!new)>(olds: seq<T>, news: seq<T>)
    ensures AllFit(olds, news, Layout(olds, news))
    ensures var L := Layout(olds, news);
      var I := Items(olds, news, L);
      var M := MarksOf(olds, news, L);
      forall p :: 0 <= p < |L| ==>
        && (M[p] == Same <==> I[p] in olds && I[p] in news)
        && (M[p] == Added <==> I[p] !in olds && I[p] in news)
        && (M[p] == Deleted <==> I[p] in olds && I[p] !in news)
  {
    LayoutFits(olds, news);
  }

  lemma {:induction false} NewItemsAppend<T(!new)>(news: seq<T>, A: seq<Slot>, B: seq<Slot>)
    ensures NewItems(news, A + B) == NewItems(news, A) + NewItems(news, B)
  {
    if A != [] {
      var h := if A[0].FromNew? && A[0].j < |news| then [news[A[0].j]] else [];
      assert (A + B)[0] == A[0] && (A + B)[1..] == A[1..] + B;
      assert NewItems(news, A + B) == h + NewItems(news, A[1..] + B);
      NewItemsAppend(news, A[1..], B);
      assert h + (NewItems(news, A[1..]) + NewItems(news, B)) == (h + NewItems(news, A[1..])) + NewItems(news, B);
    } else {
      assert A + B == B;
    }
  }

  lemma {:induction false} NewItemsOfRun<T(!new)>(olds: seq<T>, news: seq<T>, k: nat)
    ensures NewItems(news, RunFrom(olds, news, k)) == []
    decreases |olds| - k
  {
    if k < |olds| && olds[k] !in news {
      var R := RunFrom(olds, news, k);
      assert R[1..] == RunFrom(olds, news, k + 1);
      NewItemsOfRun(olds, news, k + 1);
    }
  }

  lemma {:induction false} NewItemsOfBlocks<T(!new)>(olds: seq<T>, news: seq<T>, j: nat)
    requires j <= |news|
    ensures NewItems(news, Blocks(olds, news, j)) == news[j..]
    decreases |news| - j
  {
    if j < |news| {
      NewItemsOfBlock(olds, news, j);
      NewItemsOfBlocks(olds, news, j + 1);
      NewItemsAppend(news, Block(olds, news, j), Blocks(olds, news, j + 1));
      assert news[j..] == [news[j]] + news[j + 1..];
    }
  }

  /** The only new identity of block `j` is `news[j]`. */
  lemma NewItemsOfBlock<T(!new)>(olds: seq<T>, news: seq<T>, j: nat)
    requires j < |news|
    ensures NewItems(news, Block(olds, news, j)) == [news[j]]
  {
    var R := if news[j] in olds then RunFrom(olds, news, LastIndex(olds, news[j]) + 1) else [];
    if news[j] in olds {
      NewItemsOfRun(olds, news, LastIndex(olds, news[j]) + 1);
    }
    assert ([FromNew(j)] + R)[1..] == R;
  }

  /** The identities whose mark is not `-`, in order. */
  function Surviving<T>(marks: seq<Mark>, items: seq<T>): seq<T>
    requires |marks| == |items|
  {
    if marks == [] then []
    else (if marks[0] != Deleted then [items[0]] else []) + Surviving(marks[1..], items[1..])
  }

  /** Keeping the slots not marked `-` is keeping the new slots. */
  lemma {:induction false} SurvivingIsNewItems<T>(olds: seq<T>, news: seq<T>, L: seq<Slot>)
    requires AllFit(olds, news, L)
    ensures Surviving(MarksOf(olds, news, L), Items(olds, news, L)) == NewItems(news, L)
  {
    if L != [] {
      var L' := L[1..];
      assert AllFit(olds, news, L') by {
        forall p | 0 <= p < |L'| ensures Fits(olds, news, L'[p]) {
          assert L'[p] == L[p + 1];
        }
      }
      assert Fits(olds, news, L[0]);
      assert MarksOf(olds, news, L)[1..] == MarksOf(olds, news, L');
      assert Items(olds, news, L)[1..] == Items(olds, news, L');
      SurvivingIsNewItems(olds, news, L');
    }
  }

  lemma LayoutNewOrder<T(!new)>(olds: seq<T>, news: seq<T>)
    ensures NewItems(news, Layout(olds, news)) == news
  {
    NewItemsOfRun(olds, news, 0);
    NewItemsOfBlocks(olds, news, 0);
    NewItemsAppend(news, RunFrom(olds, news, 0), Blocks(olds, news, 0));
  }

  /**
    Where a deleted identity goes: the one at old position 0 opens the layout;
    every other one comes immediately after the identity that preceded it in
    the old list, whether that one survived or was deleted too.
  */
  ghost predicate PlacedAfterOldPredecessor<T>(olds: seq<T>, news: seq<T>, L: seq<Slot>)
    requires AllFit(olds, news, L)
  {
    forall p :: 0 <= p < |L| && L[p].FromOld? ==>
      var i := L[p].i;
      (p == 0 && i == 0) || (0 < p && 0 < i && ItemOf(olds, news, L[p - 1]) == olds[i - 1])
  }

  /** Inside the blocks no deleted slot opens, and each follows its old predecessor. */
  ghost predicate AnchoredWithin<T>(olds: seq<T>, news: seq<T>, L: seq<Slot>)
    requires AllFit(olds, news, L)
  {
    forall p :: 0 <= p < |L| && L[p].FromOld? ==>
      0 < p && 0 < L[p].i && ItemOf(olds, news, L[p - 1]) == olds[L[p].i - 1]
  }

  /** Past its first slot, `L` holds the old positions right after `a`, none of them in the new list. */
  ghost predicate RunAfter<T>(olds: seq<T>, news: seq<T>, L: seq<Slot>, a: nat)
  {
    forall p :: 0 < p < |L| ==> L[p] == FromOld(a + p) && a + p < |olds| && olds[a + p] !in news
  }

  /** A block of a surviving identity: its new slot, then the old positions right after its old one. */
  lemma BlockShape<T(!new)>(olds: seq<T>, news: seq<T>, j: nat)
    requires j < |news| && news[j] in olds
    ensures var B, a := Block(olds, news, j), LastIndex(olds, news[j]);
      |B| > 0 && B[0] == FromNew(j) && olds[a] == news[j] && RunAfter(olds, news, B, a)
  {
    var B, a := Block(olds, news, j), LastIndex(olds, news[j]);
    var R := RunFrom(olds, news, a + 1);
    RunFromShape(olds, news, a + 1);
    assert B == [FromNew(j)] + R;
    forall p | 0 < p < |B| ensures B[p] == FromOld(a + p) && a + p < |olds| && olds[a + p] !in news {
      var q := p - 1;
      assert B[p] == R[q];
      assert R[q] == FromOld(a + 1 + q) && a + 1 + q < |olds| && olds[a + 1 + q] !in news;
    }
    assert RunAfter(olds, news, B, a);
  }

  lemma BlockAnchored<T(!new)>(olds: seq<T>, news: seq<T>, j: nat)
    requires j < |news|
    ensures AllFit(olds, news, Block(olds, news, j))
    ensures AnchoredWithin(olds, news, Block(olds, news, j))
  {
    var B := Block(olds, news, j);
    if news[j] in olds {
      var a := LastIndex(olds, news[j]);
      BlockShape(olds, news, j);
      ShapeAnchored(olds, news, B, j, a);
    } else {
      assert B == [FromNew(j)];
    }
  }

  /** A new slot followed by the old positions right after a matching old one is anchored. */
  lemma ShapeAnchored<T(!new)>(olds: seq<T>, news: seq<T>, L: seq<Slot>, j: nat, a: nat)
    requires j < |news| && a < |olds| && olds[a] == news[j]
    requires |L| > 0 && L[0] == FromNew(j)
    requires RunAfter(olds, news, L, a)
    ensures AllFit(olds, news, L) && AnchoredWithin(olds, news, L)
  {
    forall p | 0 <= p < |L| && L[p].FromOld?
      ensures 0 < p && 0 < L[p].i && ItemOf(olds, news, L[p - 1]) == olds[L[p].i - 1]
    {
      if p > 1 { assert L[p - 1] == FromOld(a + p - 1); }
    }
  }

  lemma AnchoredAppend<T(!new)>(olds: seq<T>, news: seq<T>, A: seq<Slot>, B: seq<Slot>)
    requires AllFit(olds, news, A) && AnchoredWithin(olds, news, A)
    requires AllFit(olds, news, B) && AnchoredWithin(olds, news, B)
    ensures AllFit(olds, news, A + B) && AnchoredWithin(olds, news, A + B)
  {
    var L := A + B;
    forall p | 0 <= p < |L| ensures Fits(olds, news, L[p]) {
      if p < |A| { assert L[p] == A[p]; } else { assert L[p] == B[p - |A|]; }
    }
    forall p | 0 <= p < |L| && L[p].FromOld?
      ensures 0 < p && 0 < L[p].i && ItemOf(olds, news, L[p - 1]) == olds[L[p].i - 1]
    {
      if p < |A| {
        assert L[p] == A[p] && L[p - 1] == A[p - 1];
      } else {
        assert L[p] == B[p - |A|];
        if p - |A| > 0 { assert L[p - 1] == B[p - |A| - 1]; }
      }
    }
  }

  lemma {:induction false} BlocksAnchored<T(!new)>(olds: seq<T>, news: seq<T>, j: nat)
    requires Distinct(olds)
    requires j <= |news|
    ensures AllFit(olds, news, Blocks(olds, news, j))
    ensures AnchoredWithin(olds, news, Blocks(olds, news, j))
    decreases |news| - j
  {
    if j < |news| {
      BlockAnchored(olds, news, j);
      BlocksAnchored(olds, news, j + 1);
      AnchoredAppend(olds, news, Block(olds, news, j), Blocks(olds, news, j + 1));
    }
  }

  /** The placement rule holds of the whole layout. */
  lemma LayoutPlacement<T(!new)>(olds: seq<T>, news: seq<T>)
    requires Distinct(olds)
    ensures AllFit(olds, news, Layout(olds, news))
    ensures PlacedAfterOldPredecessor(olds, news, Layout(olds, news))
  {
    LayoutFits(olds, news);
    var R := RunFrom(olds, news, 0);
    var rest := Blocks(olds, news, 0);
    var L := Layout(olds, news);
    RunFromShape(olds, news, 0);
    BlocksAnchored(olds, news, 0);
    forall p | 0 <= p < |L| && L[p].FromOld?
      ensures (p == 0 && L[p].i == 0) || (0 < p && 0 < L[p].i && ItemOf(olds, news, L[p - 1]) == olds[L[p].i - 1])
    {
      if p < |R| {
        assert L[p] == R[p] == FromOld(p);
        if p > 0 { assert L[p - 1] == R[p - 1]; }
      } else {
        assert L[p] == rest[p - |R|];
        if p - |R| > 0 {
          assert L[p - 1] == rest[p - |R| - 1];
        }
      }
    }
  }

  /** Reconciling a list with itself keeps it as it is, every identity in place. */
  lemma LayoutIdentical<T(!new)>(s: seq<T>)
    requires Distinct(s)
    ensures Layout(s, s) == seq(|s|, j requires 0 <= j => FromNew(j))
  {
    assert RunFrom(s, s, 0) == [] by {
      if s != [] { assert s[0] in s; }
    }
    BlocksIdentical(s, 0);
  }

  lemma {:induction false} BlocksIdentical<T(!new)>(s: seq<T>, j: nat)
    requires Distinct(s) && j <= |s|
    ensures Blocks(s, s, j) == seq(|s| - j, q requires 0 <= q => FromNew(j + q))
    decreases |s| - j
  {
    if j < |s| {
      LastIndexDistinct(s, j);
      var k := LastIndex(s, s[j]) + 1;
      assert RunFrom(s, s, k) == [] by {
        assert k < |s| ==> s[k] in s;
      }
      assert Block(s, s, j) == [FromNew(j)];
      BlocksIdentical(s, j + 1);
      assert seq(|s| - j, q requires 0 <= q => FromNew(j + q))
        == [FromNew(j)] + seq(|s| - (j + 1), q requires 0 <= q => FromNew(j + 1 + q));
    }
  }
}
