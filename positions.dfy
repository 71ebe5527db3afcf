/** A tiny Option type, used for "a diagnostic or null" and "a last position or null". */
module Wrappers {
  datatype Option<+T> = None | Some(value: T)
}

/**
 * Positions in a text document, compared the way the editor host compares them:
 * lexicographically by line, then by character.
 */
module Positions {

  datatype Position = Position(line: nat, character: nat)

  /** `a.isBefore(b)` */
  predicate IsBefore(a: Position, b: Position) {
    a.line < b.line || (a.line == b.line && a.character < b.character)
  }

  /** `a.isAfter(b)` */
  predicate IsAfter(a: Position, b: Position) {
    IsBefore(b, a)
  }

  /** `a.isBeforeOrEqual(b)` */
  predicate IsBeforeOrEqual(a: Position, b: Position) {
    IsBefore(a, b) || a == b
  }

  /** `a.isAfterOrEqual(b)` */
  predicate IsAfterOrEqual(a: Position, b: Position) {
    IsAfter(a, b) || a == b
  }

  /**
   * The comparator handed to the host's sort: negative when `a` comes first,
   * zero when the positions are equal, positive when `b` comes first.
   */
  function Compare(a: Position, b: Position): (r: int)
    ensures r == -1 || r == 0 || r == 1
    ensures r < 0 <==> IsBefore(a, b)
    ensures r == 0 <==> a == b
    ensures r > 0 <==> IsBefore(b, a)
  {
    if IsBefore(a, b) then -1
    else if a == b then 0
    else 1
  }

  /** The comparator is antisymmetric, as the host's sort requires of it. */
  lemma CompareAntisymmetric(a: Position, b: Position)
    ensures Compare(a, b) == -Compare(b, a)
  {
  }

  /** The comparator is transitive, as the host's sort requires of it. */
  lemma CompareTransitive(a: Position, b: Position, c: Position)
    requires Compare(a, b) <= 0 && Compare(b, c) <= 0
    ensures Compare(a, c) <= 0
  {
  }
}
