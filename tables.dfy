/**
 The two static knowledge tables of the ranker: the directed state adjacency
 list used for proximity and the weekend-suitability weight of each
 destination category. Both are read-only for the life of the program.
 */
module Tables {

  /** Neighbouring states, keyed by the SOURCE state. The relation is directed:
      a state may list a neighbour that does not list it back, and many states
      have no entry at all. */
  const STATE_NEIGHBORS: map<string, seq<string>> := map[
    "Delhi" := ["Haryana", "Uttar Pradesh", "Rajasthan", "Punjab"],
    "Maharashtra" := ["Gujarat", "Madhya Pradesh", "Karnataka", "Goa", "Telangana"],
    "Karnataka" := ["Maharashtra", "Goa", "Tamil Nadu", "Andhra Pradesh", "Telangana", "Kerala"],
    "Tamil Nadu" := ["Karnataka", "Kerala", "Andhra Pradesh"],
    "West Bengal" := ["Bihar", "Jharkhand", "Odisha", "Assam"],
    "Rajasthan" := ["Gujarat", "Madhya Pradesh", "Uttar Pradesh", "Haryana", "Punjab", "Delhi"],
    "Uttar Pradesh" := ["Delhi", "Haryana", "Rajasthan", "Madhya Pradesh", "Bihar", "Uttarakhand"],
    "Gujarat" := ["Rajasthan", "Madhya Pradesh", "Maharashtra"],
    "Kerala" := ["Tamil Nadu", "Karnataka"],
    "Goa" := ["Maharashtra", "Karnataka"]
  ]

  /** Weekend-suitability coefficient of each known category label. */
  const WEEKEND_CATEGORIES: map<string, real> := map[
    "Hill Station" := 1.0,
    "Beach" := 1.0,
    "Wildlife" := 0.8,
    "Historical" := 0.9,
    "Religious" := 0.9,
    "Adventure" := 0.85,
    "Nature" := 0.95,
    "Lake" := 0.95,
    "Fort" := 0.9,
    "Temple" := 0.85,
    "Palace" := 0.9
  ]

  /** The neighbour list of a source state; a state without an entry has none. */
  function NeighborsOf(state: string): (ns: seq<string>)
    ensures state in STATE_NEIGHBORS ==> ns == STATE_NEIGHBORS[state]
    ensures state !in STATE_NEIGHBORS ==> ns == []
  {
    if state in STATE_NEIGHBORS then STATE_NEIGHBORS[state] else []
  }

  /** The weight of one category label, 0.5 for a category the table does not know. */
  function CategoryWeight(category: string): (w: real)
    ensures 0.5 <= w <= 1.0
    ensures category !in WEEKEND_CATEGORIES ==> w == 0.5
    ensures category in WEEKEND_CATEGORIES ==> w == WEEKEND_CATEGORIES[category] && 0.8 <= w
  {
    if category in WEEKEND_CATEGORIES then
      WEEKEND_CATEGORIES[category]
    else
      0.5
  }
}
