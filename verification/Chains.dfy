/** Logs of transitions in which each entry continues the one before it. */
module Chains {
  /** Each entry starts where the one before it ended. */
  predicate Chain<T(==)>(start: T, trail: seq<(T, T)>, end: T)
    decreases |trail|
  {
    if trail == [] then start == end else trail[0].0 == start && Chain(trail[0].1, trail[1..], end)
  }

  lemma {:induction false} ChainSnoc<T>(start: T, trail: seq<(T, T)>, mid: T, end: T)
    requires Chain(start, trail, mid)
    ensures Chain(start, trail + [(mid, end)], end)
    decreases |trail|
  {
    if trail != [] {
      ChainSnoc(trail[0].1, trail[1..], mid, end);
      assert (trail + [(mid, end)])[1..] == trail[1..] + [(mid, end)];
    }
  }

  /** A chain starts at `start`, ends at `end`, and each entry begins where the one before it ended. */
  lemma {:induction false} ChainExactly<T(!new)>(start: T, trail: seq<(T, T)>, end: T)
    ensures Chain(start, trail, end) <==>
              if trail == [] then start == end
              else trail[0].0 == start && trail[|trail| - 1].1 == end
                   && forall i :: 0 <= i < |trail| - 1 ==> trail[i].1 == trail[i + 1].0
    decreases |trail|
  {
    if trail != [] {
      var rest := trail[1..];
      ChainExactly(trail[0].1, rest, end);
      assert forall i :: 0 <= i < |rest| ==> rest[i] == trail[i + 1];
      if |trail| > 1 && (forall i :: 0 <= i < |rest| - 1 ==> rest[i].1 == rest[i + 1].0) && trail[0].1 == trail[1].0 {
        forall i | 0 <= i < |trail| - 1 ensures trail[i].1 == trail[i + 1].0 {
          if i > 0 { assert rest[i - 1].1 == rest[i].0; }
        }
      }
    }
  }
}
