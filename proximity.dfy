/**
 The proximity resolver: a three-tier weight from a source state to a
 destination state, read from the directed adjacency table.
 */
module Proximity {
  import opened Tables

  const SAME_STATE: real := 1.0
  const NEIGHBOR_STATE: real := 0.7
  const DISTANT_STATE: real := 0.4

  /** 1.0 for the same state, 0.7 for a state the source lists as a
      neighbour, 0.4 otherwise. Never fails: an unknown source state has no
      neighbours. */
  function ProximityWeight(sourceState: string, destState: string): (w: real)
    ensures w == SAME_STATE || w == NEIGHBOR_STATE || w == DISTANT_STATE
    ensures w == SAME_STATE <==> sourceState == destState
    ensures w == NEIGHBOR_STATE <==> sourceState != destState && destState in NeighborsOf(sourceState)
    ensures w == DISTANT_STATE <==> sourceState != destState && destState !in NeighborsOf(sourceState)
  {
    if sourceState == destState then SAME_STATE
    else if destState in NeighborsOf(sourceState) then NEIGHBOR_STATE
    else DISTANT_STATE
  }

  /** A source state without a table entry is never a neighbour of anything:
      its weight is 1.0 towards itself and 0.4 towards every other state. */
  lemma UnknownSourceIsDistant(sourceState: string, destState: string)
    requires sourceState !in STATE_NEIGHBORS
    ensures ProximityWeight(sourceState, destState) == if sourceState == destState then SAME_STATE else DISTANT_STATE
  {
  }

  /** The weight lies in [0.4, 1.0] and the nearer tier never weighs less. */
  lemma ProximityRange(sourceState: string, destState: string)
    ensures DISTANT_STATE <= ProximityWeight(sourceState, destState) <= SAME_STATE
    ensures 0.0 <= ProximityWeight(sourceState, destState) <= 1.0
  {
  }

  /** The lookup is directed: Delhi lists Haryana as a neighbour, but Haryana
      has no entry of its own, so the reverse direction is distant. */
  lemma ProximityIsDirected()
    ensures ProximityWeight("Delhi", "Haryana") == NEIGHBOR_STATE
    ensures ProximityWeight("Haryana", "Delhi") == DISTANT_STATE
    ensures exists a: string, b: string :: ProximityWeight(a, b) != ProximityWeight(b, a)
  {
  }

  /** Where both states have entries listing each other the weight is
      symmetric: Delhi and Rajasthan are mutual neighbours. */
  lemma ProximityMutualNeighbors()
    ensures ProximityWeight("Delhi", "Rajasthan") == NEIGHBOR_STATE
    ensures ProximityWeight("Rajasthan", "Delhi") == NEIGHBOR_STATE
  {
  }
}
