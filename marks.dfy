/** The markers that label diff segments, diff header columns and diff rows. */
module Marks {

  /** `=` same, `-` deleted, `+` added, `c-`/`c+` changed (old / new content), `#` echoed command. */
  datatype Mark = Same | Deleted | Added | ChangedOld | ChangedNew | Comment

  /** The literal marker written in the first cell of a diff row. */
  function Text(m: Mark): (s: string)
    ensures 1 <= |s| <= 2
    ensures '\t' !in s
  {
    match m
    case Same => "="
    case Deleted => "-"
    case Added => "+"
    case ChangedOld => "c-"
    case ChangedNew => "c+"
    case Comment => "#"
  }

  /** Distinct marks are written differently, so a row's marker cell identifies its mark. */
  lemma TextInjective(a: Mark, b: Mark)
    ensures Text(a) == Text(b) ==> a == b
  {
  }
}
