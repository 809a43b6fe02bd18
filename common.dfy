/** Small shared vocabulary: optional values, duplicate-freedom and the value-to-position maps. */
module Common {

  datatype Option<T> = None | Some(value: T)

  /** Which of the two tables an error is about. */
  datatype Which = OldTable | NewTable

  /**
    The validation failures of the reconciler. Positions are 0-based: a
    column index into the header row, a row index into the table's rows.
    `BlankSheet` is the `IndexError` of reading the first row of a sheet
    that has none.
  */
  datatype Error =
    | EmptyHeader(table: Which, column: nat)
    | DuplicateHeader(table: Which)
    | EmptyKey(table: Which, row: nat)
    | DuplicateKey(table: Which, row: nat, key: string)
    | BadIgnore(names: set<string>)
    | BlankSheet

  datatype Result<T> = Ok(value: T) | Err(error: Error)

  lemma AppendAssoc<T>(a: seq<T>, b: seq<T>, c: seq<T>)
    ensures (a + b) + c == a + (b + c)
  {
  }

  /** The first position of `x` in `s`. */
  function FirstIndex<T(==)>(s: seq<T>, x: T): (r: nat)
    requires x in s
    ensures r < |s| && s[r] == x
    ensures forall t :: 0 <= t < r ==> s[t] != x
  {
    if s[0] == x then 0 else 1 + FirstIndex(s[1..], x)
  }

  /** No value occurs twice in `s`. */
  predicate Distinct<T(==)>(s: seq<T>)
  {
    forall i, j :: 0 <= i < j < |s| ==> s[i] != s[j]
  }

  /** The set of values of `s`. */
  ghost function Elements<T>(s: seq<T>): set<T>
  {
    set x | x in s
  }

  /**
    A comprehension `{ v: i for i, v in enumerate(s) }`: every value of `s`
    mapped to its position, the last one when a value repeats.
  */
  function PositionMap<T(==,!new)>(s: seq<T>): (m: map<T, nat>)
    ensures forall v :: v in m <==> v in s
    ensures forall v :: v in m ==> m[v] < |s| && s[m[v]] == v
  {
    if s == [] then map[] else PositionMap(s[..|s| - 1])[s[|s| - 1] := |s| - 1]
  }

  /** The last position of `x` in `s`: the position a `PositionMap` of `s` gives for `x`. */
  function LastIndex<T(==)>(s: seq<T>, x: T): (r: nat)
    requires x in s
    ensures r < |s| && s[r] == x
  {
    if s[|s| - 1] == x then |s| - 1 else LastIndex(s[..|s| - 1], x)
  }

  lemma {:induction false} PositionMapIsLastIndex<T(!new)>(s: seq<T>, x: T)
    requires x in s
    ensures x in PositionMap(s) && PositionMap(s)[x] == LastIndex(s, x)
  {
    if s[|s| - 1] != x {
      assert x in s[..|s| - 1] by {
        var k :| 0 <= k < |s| && s[k] == x;
        assert s[..|s| - 1][k] == x;
      }
      PositionMapIsLastIndex(s[..|s| - 1], x);
    }
  }

  /** Without repeats a value has one position. */
  lemma LastIndexDistinct<T>(s: seq<T>, i: nat)
    requires Distinct(s) && i < |s|
    ensures LastIndex(s, s[i]) == i
  {
    var r := LastIndex(s, s[i]);
    assert s[r] == s[i];
  }

  /** Without repeats the map takes every value back to the one position holding it. */
  lemma PositionMapDistinct<T(!new)>(s: seq<T>)
    requires Distinct(s)
    ensures forall i :: 0 <= i < |s| ==> PositionMap(s)[s[i]] == i
  {
    forall i | 0 <= i < |s| ensures PositionMap(s)[s[i]] == i {
      var k := PositionMap(s)[s[i]];
      assert s[k] == s[i];
    }
  }

  /** A sequence without repeats has as many elements as values. */
  lemma {:induction false} DistinctCard<T>(s: seq<T>)
    requires Distinct(s)
    ensures |Elements(s)| == |s|
  {
    if s != [] {
      var t := s[..|s| - 1];
      assert Distinct(t);
      DistinctCard(t);
      assert Elements(s) == Elements(t) + {s[|s| - 1]};
      assert s[|s| - 1] !in Elements(t);
    }
  }

  /** A sequence has fewer distinct values than positions when a value repeats. */
  lemma {:induction false} ElementsBound<T>(s: seq<T>)
    ensures |Elements(s)| <= |s|
    ensures !Distinct(s) ==> |Elements(s)| < |s|
  {
    if s != [] {
      var t := s[..|s| - 1];
      var x := s[|s| - 1];
      ElementsBound(t);
      assert Elements(s) == Elements(t) + {x};
      if !Distinct(s) {
        if Distinct(t) {
          var i, j :| 0 <= i < j < |s| && s[i] == s[j];
          assert j == |s| - 1;
          assert x in Elements(t) by {
            assert t[i] == x;
          }
          assert Elements(s) == Elements(t);
        }
      }
    }
  }
}
