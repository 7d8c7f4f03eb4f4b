/** Definitions shared by every component. */
module Prelude {

  datatype Option<+T> = None | Some(value: T)

  type RuleId = nat

  /** Instants and durations, in microseconds. */
  type Time = int

  const SECOND: Time := 1_000_000
  const MINUTE: Time := 60 * SECOND
  const DAY: Time := 86_400 * SECOND

  ghost predicate Distinct<T(!new)>(s: seq<T>)
  {
    forall i, j :: 0 <= i < j < |s| ==> s[i] != s[j]
  }
}
