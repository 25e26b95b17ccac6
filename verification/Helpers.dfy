/** What several modules need: an optional value, and facts about sequences. */
module Helpers {

  datatype Option<T> = None | Some(value: T)

  function ElementAt(s: seq<nat>, i: nat): Option<nat> {
    if i < |s| then Some(s[i]) else None
  }

  ghost predicate Distinct<T>(s: seq<T>) {
    forall i, j :: 0 <= i < j < |s| ==> s[i] != s[j]
  }

  lemma Reassociate<T>(a: seq<T>, b: seq<T>, c: seq<T>)
    ensures a + (b + c) == (a + b) + c
  {
  }

  /** How many of the flags of a schedule are set. */
  function Failures(flags: seq<bool>): nat {
    if flags == [] then 0 else (if flags[0] then 1 else 0) + Failures(flags[1..])
  }
}
