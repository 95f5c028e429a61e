/** Whole runs of a transition system. */
module Histories {
  /** The states a run passed through, and the steps between them. */
  datatype History<S, T> = History(states: seq<S>, steps: seq<T>)

  function Last<S, T>(h: History<S, T>): S
    requires h.states != []
  {
    h.states[|h.states| - 1]
  }

  function Then<S, T>(h: History<S, T>, step: T, next: S): History<S, T> {
    History(h.states + [next], h.steps + [step])
  }

  /** The longer run begins with the other one. */
  predicate Continues<S(==), T(==)>(longer: History<S, T>, h: History<S, T>) {
    h.states <= longer.states && h.steps <= longer.steps
  }

  /** A number above all of these: a fresh identifier. */
  lemma Bound(ids: set<nat>) returns (bound: nat)
    ensures forall id :: id in ids ==> id < bound
  {
    bound := 0;
    var rest := ids;
    while rest != {}
      invariant rest <= ids
      invariant forall id :: id in ids ==> id in rest || id < bound
    {
      var id :| id in rest;
      rest := rest - {id};
      bound := if id < bound then bound else id + 1;
    }
  }
}
