/** The diff table under construction: a list of rows of cells, each row led by its marker cell. */
module Output {

  /** The `diffRows` list the reconcilers append to. */
  class DiffRows {
    var rows: seq<seq<string>>

    constructor()
      ensures rows == []
    {
      rows := [];
    }

    /** `diffRows.append(row)`. */
    method Append(row: seq<string>)
      modifies this
      ensures rows == old(rows) + [row]
    {
      rows := rows + [row];
    }
  }

  /** The number of cells after the marker at which row `a` and row `b` differ. */
  function Differing(a: seq<string>, b: seq<string>): (n: nat)
    requires |a| <= |b|
    ensures n + 1 <= |a| || n == 0
    ensures n == 0 <==> forall j :: 1 <= j < |a| ==> a[j] == b[j]
  {
    if |a| <= 1 then 0
    else
      var n' := Differing(a[..|a| - 1], b);
      assert forall j :: 1 <= j < |a| - 1 ==> a[..|a| - 1][j] == a[j];
      n' + (if a[|a| - 1] != b[|a| - 1] then 1 else 0)
  }

  /** One more cell counts once more when it differs from the cell below it. */
  lemma DifferingSnoc(a: seq<string>, b: seq<string>)
    requires 2 <= |a| <= |b|
    ensures Differing(a, b) == Differing(a[..|a| - 1], b) + (if a[|a| - 1] != b[|a| - 1] then 1 else 0)
  {
  }

  /**
    From row `from` on, every row has a marker cell, and every `c-` row is
    followed by a row at least as wide (its `c+` partner) to compare against.
  */
  predicate WellPaired(rows: seq<seq<string>>, from: nat)
  {
    forall i :: from <= i < |rows| ==>
      |rows[i]| > 0 && (rows[i][0] == "c-" ==> i + 1 < |rows| && |rows[i]| <= |rows[i + 1]|)
  }

  /**
    The change count of rows `from` on: one per `+` or `-` row, and for each
    `c-` row the number of cells in which it differs from the row after it.
  */
  function ChangesFrom(rows: seq<seq<string>>, from: nat): nat
    requires WellPaired(rows, from)
    decreases |rows| - from
  {
    if from >= |rows| then 0
    else
      (if rows[from][0] in {"+", "-"} then 1
       else if rows[from][0] == "c-" then
         assert from + 1 < |rows| && |rows[from]| <= |rows[from + 1]|;
         Differing(rows[from], rows[from + 1])
       else 0)
      + ChangesFrom(rows, from + 1)
  }

  /** The counting loop at the end of `CompareBody`, over the rows from `iFirstBodyRow` on. */
  method CountChanges(diffRows: seq<seq<string>>, iFirstBodyRow: nat) returns (nBodyChanges: nat)
    requires WellPaired(diffRows, iFirstBodyRow)
    ensures nBodyChanges == ChangesFrom(diffRows, iFirstBodyRow)
  {
    nBodyChanges := 0;
    var i := iFirstBodyRow;
    while i < |diffRows|
      invariant iFirstBodyRow <= i
      invariant i > |diffRows| ==> i == iFirstBodyRow
      invariant nBodyChanges + ChangesFrom(diffRows, i) == ChangesFrom(diffRows, iFirstBodyRow)
    {
      if diffRows[i][0] in {"+", "-"} {
        nBodyChanges := nBodyChanges + 1;
      } else if diffRows[i][0] == "c-" {
        var j := 1;
        var n := 0;
        while j < |diffRows[i]|
          invariant 1 <= j <= |diffRows[i]|
          invariant n == Differing(diffRows[i][..j], diffRows[i + 1])
        {
          assert diffRows[i][..j + 1][..j] == diffRows[i][..j];
          if diffRows[i][j] != diffRows[i + 1][j] {
            n := n + 1;
          }
          j := j + 1;
        }
        assert diffRows[i][..j] == diffRows[i];
        nBodyChanges := nBodyChanges + n;
      }
      i := i + 1;
    }
  }

  /** Counting the rows appended after `prefix` is counting them on their own. */
  lemma {:induction false} ChangesAfter(prefix: seq<seq<string>>, rows: seq<seq<string>>, k: nat)
    requires k <= |rows| && WellPaired(rows, k)
    ensures WellPaired(prefix + rows, |prefix| + k)
    ensures ChangesFrom(prefix + rows, |prefix| + k) == ChangesFrom(rows, k)
    decreases |rows| - k
  {
    var all := prefix + rows;
    assert forall i :: |prefix| + k <= i < |all| ==> all[i] == rows[i - |prefix|];
    if k < |rows| {
      ChangesAfter(prefix, rows, k + 1);
    }
  }

  /** What `WellPaired` says about one row. */
  lemma PairedAt(rows: seq<seq<string>>, from: nat, i: nat)
    requires WellPaired(rows, from) && from <= i < |rows|
    ensures |rows[i]| > 0 && (rows[i][0] == "c-" ==> i + 1 < |rows| && |rows[i]| <= |rows[i + 1]|)
  {
    // instantiating the quantifier at `i` needs the whole body as a term
    assert |rows[i]| > 0 && (rows[i][0] == "c-" ==> i + 1 < |rows| && |rows[i]| <= |rows[i + 1]|);
  }

  /** The count over `a + b` splits into the counts over `a` and over `b`, when no `c-` row of `a` is its last. */
  lemma {:induction false} ChangesSplit(a: seq<seq<string>>, b: seq<seq<string>>, k: nat)
    requires k <= |a| && WellPaired(a, k) && WellPaired(b, 0)
    ensures WellPaired(a + b, k)
    ensures ChangesFrom(a + b, k) == ChangesFrom(a, k) + ChangesFrom(b, 0)
    decreases |a| - k
  {
    var all := a + b;
    assert forall i :: 0 <= i < |a| ==> all[i] == a[i];
    assert forall i :: |a| <= i < |all| ==> all[i] == b[i - |a|];
    if k < |a| {
      ChangesSplit(a, b, k + 1);
      assert all[k] == a[k];
      PairedAt(a, k, k);
      if a[k][0] == "c-" {
        assert all[k + 1] == a[k + 1];
      }
    } else {
      ChangesAfter(a, b, 0);
    }
  }
}
