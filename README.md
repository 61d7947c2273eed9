# Weekend Getaway Ranker — a Dafny model of the scoring pipeline

The Weekend Getaway Ranker ranks the destinations of a tabular dataset by how
suitable they are for a weekend trip from a chosen source city. Each
destination other than the source city's own gets four scores:

- a rating score: the rating column rescaled to [0, 1], or 0.5 for every row
  when the column is missing or not numeric;
- a proximity score: 1.0 for the source state, 0.7 for a state the source
  lists as a neighbour, 0.4 otherwise;
- a category score: the best weekend weight among the comma-separated pieces
  of the `Type` field, 0.5 for unknown pieces or a missing column;
- the weekend score 0.5·rating + 0.3·proximity + 0.2·category.

The N rows with the highest weekend score are kept, best first.

The model has six modules, one per component of `ranker.py`:

- `Tables` (tables.dfy): the directed state adjacency list `STATE_NEIGHBORS` and
  the category weights `WEEKEND_CATEGORIES`, as constant maps.
- `Text` (text.dfy): ASCII lower-casing for the case-insensitive city match.
  Also the comma split of a category field, with its inverse `Join`.
- `Proximity` (proximity.dfy): the three-tier proximity weight.
- `Normalizer` (normalize.dfy): min–max normalisation of a column.
- `Scoring` (scoring.dfy): the dataset as a sequence of `Record` values, with
  flags for "rating column present and numeric" and "Type column present".
  Holds the source-state lookup, the self-exclusion filter, the score
  functions, and `CalculateWeekendScore`. That method fills a fresh array of
  enriched rows one by one and is proved equal to the specification function
  `ScoredRows`.
- `Ranking` (ranking.dfy): `TopN` picks positions one at a time. Each pick is
  the remaining position ranked first by "higher weekend score, or equal
  score and earlier position". So `TopN` keeps the same rows, in the same
  order, as `nlargest` with `keep='first'`: the highest scores, and among
  equal scores the earlier rows. `GetTopDestinations` chains scoring and
  selection.

Scores are `real`. A missing source city, or one whose first matching row has
an empty state, is the error `CityNotFound`, returned through a `Result`.

Two behaviours of the code are easy to miss:

- Category pieces are not trimmed of white space: the field is split on `','`
  only. A piece after `", "` keeps its leading space and matches no category,
  so `"Fort, Beach"` scores 0.9, while `"Fort,Beach"` scores 1.0
  (`Scoring.CategoryScoreUntrimmed`, `Scoring.FortBeachExample`).
- Equal states are checked before the neighbour list. So a source state with
  no neighbour entry still gives 1.0 towards itself, and 0.4 towards every
  other state (`Proximity.UnknownSourceIsDistant`).

## Model

| member | source | states |
|---|---|---|
| `Tables.NeighborsOf` | ranker.py:66 | the neighbour list of a state is its table entry, or empty when the state has no entry |
| `Tables.CategoryWeight` | ranker.py:25-37 | a category's weight is its table value (at least 0.8), 0.5 for unknown labels, always in [0.5, 1.0] |
| `Text.Lower` | ranker.py:48 | lower-casing keeps the length and maps each character to its lower-case form; no upper-case letter remains |
| `Text.LowerIdempotent` | ranker.py:48 | lower-casing twice equals lower-casing once |
| `Text.LowerEqualIffSameIgnoringCase` | ranker.py:48 | two strings have equal lower-cased forms iff they have the same length and differ at each position at most by ASCII letter case (`Text.SameIgnoringCase`) |
| `Text.Split` | ranker.py:112 | a comma split yields at least one piece and no piece contains a comma |
| `Text.JoinSplit` | ranker.py:112 | joining the split pieces with commas gives back the original string |
| `Text.SplitJoin` | ranker.py:112 | splitting the comma-join of comma-free pieces gives back the pieces |
| `Proximity.ProximityWeight` | ranker.py:53-70 | the weight is one of 1.0, 0.7, 0.4: 1.0 iff the states are equal, 0.7 iff they differ and the destination is in the source's neighbour list, 0.4 iff they differ and it is not |
| `Proximity.UnknownSourceIsDistant` | ranker.py:66-70 | a source state with no entry gives 1.0 towards itself and 0.4 towards every other state |
| `Proximity.ProximityRange` | ranker.py:59-61 | the weight lies between 0.4 and 1.0 |
| `Proximity.ProximityIsDirected` | ranker.py:11-22 | Delhi to Haryana weighs 0.7 but Haryana to Delhi weighs 0.4, so the weight is not symmetric |
| `Proximity.ProximityMutualNeighbors` | ranker.py:12-17 | Delhi and Rajasthan list each other, so both directions weigh 0.7 |
| `Normalizer.MinOf` | ranker.py:75 | the minimum is an element of the column and no element is smaller |
| `Normalizer.MaxOf` | ranker.py:76 | the maximum is an element of the column and no element is larger |
| `Normalizer.NormalizeColumn` | ranker.py:73-79 | same length as the input; a constant column maps to 0.5 everywhere, otherwise each element maps to its scaled value between min and max (`Normalizer.Scale`) |
| `Normalizer.Scale` | ranker.py:79 | for lo < hi, a value in [lo, hi] scales into [0, 1]; lo scales to 0 and hi to 1 |
| `Normalizer.NormalizeAt` | ranker.py:75-79 | in a non-constant column, min < max, every element lies between them, and its normalised value is its scaled value |
| `Normalizer.NormalizeBounds` | ranker.py:77-79 | every normalised value is in [0, 1]; in a non-constant column the minimum maps to 0 and the maximum to 1 |
| `Normalizer.NormalizeMonotone` | ranker.py:79 | in a non-constant column x <= y iff norm(x) <= norm(y), and x < y iff norm(x) < norm(y) |
| `Normalizer.ScaleOrder` | ranker.py:79 | for lo < hi, scaling keeps both the order and the strict order of two values |
| `Normalizer.NormalizeConstant` | ranker.py:77-78 | a constant column of any positive length normalises to all 0.5 |
| `Scoring.GetStateFromCity` | ranker.py:46-51 | None iff no row is in the city (`Scoring.InCity`: lower-cased cities equal); otherwise the state of the first row in the city |
| `Scoring.Filtered` | ranker.py:95 | every kept row is an input row not in the source city (`Scoring.InCity`), and every input row not in the source city is kept |
| `Scoring.FilteredAppend` | ranker.py:95 | filtering a concatenation is the concatenation of the filtered parts, so kept rows stay in input order |
| `Scoring.FilteredCount` | ranker.py:95 | each row outside the source city is kept as many times as it occurs; rows in the source city never |
| `Scoring.ResolvedDropsRow` | ranker.py:90-95 | when the source city resolves, the filter drops at least one row |
| `Scoring.Ratings` | ranker.py:100 | the rating column has one entry per row, equal to that row's rating |
| `Scoring.RatingScores` | ranker.py:97-102 | one rating score per filtered row, each in [0, 1]: the normalised rating column when it is numeric, 0.5 otherwise |
| `Scoring.MaxOrDefault` | ranker.py:112 | the default for an empty list; otherwise an element of the list that no element exceeds |
| `Scoring.PieceWeights` | ranker.py:112 | one weight per comma piece, each the table weight of that piece |
| `Scoring.CategoryScore` | ranker.py:109-115 | in [0.5, 1.0]; 0.5 without a Type column; otherwise the weight of some piece, and no piece weighs more |
| `Scoring.TwoPieceScore` | ranker.py:112 | a field of two comma-free pieces scores the larger of their two weights |
| `Scoring.CategoryScoreUntrimmed` | ranker.py:112 | pieces are not trimmed: for comma-free p and q, the field p + ", " + q scores the weight of p alone |
| `Scoring.FortBeachExample` | ranker.py:109-115 | "Fort, Beach" scores 0.9 while "Fort,Beach" scores 1.0 |
| `Scoring.WeekendScore` | ranker.py:117-122 | the weekend score lies between the smallest and the largest of its three components |
| `Scoring.WeekendScoreInUnitRange` | ranker.py:117-122 | components in [0, 1] give a weekend score in [0, 1]; 0.8, 0.7, 0.9 give 0.79 |
| `Scoring.WeekendScoreMonotone` | ranker.py:117-122 | raising any component never lowers the weekend score |
| `Scoring.ScoreRow` | ranker.py:104-122 | an enriched row keeps its record and rating score, has the proximity weight of its state, the category score of its type and the weekend score of those three, which is in [0, 1] when its rating score is |
| `Scoring.ScoredRows` | ranker.py:94-124 | one scored row per filtered row, in order: row i holds filtered row i, rating score i, the proximity weight from the source state, the category score of its type and the weekend score of the three; none in the source city; ratings in [0, 1], proximity a tier weight, category in [0.5, 1], weekend score in [0, 1]; 0.5 ratings without a numeric rating column, 0.5 categories without a Type column |
| `Scoring.CalculateWeekendScore` | ranker.py:81-124 | fails with CityNotFound exactly when the city's state cannot be resolved (`Scoring.Unresolved`: no row in the city, or the first one has an empty state); otherwise returns the scored rows |
| `Ranking.BeforeIsStrictTotal` | ranker.py:129 | the ranking order (higher score, then earlier position) is irreflexive, transitive, and decides every pair of distinct positions one way |
| `Ranking.PickDistinct` | ranker.py:129 | rows picked at distinct positions form a sub-multiset of the input: no row is kept more often than it occurs |
| `Ranking.TopCount` | ranker.py:129 | the number of rows kept is N or the row count, whichever is smaller |
| `Ranking.TopN` | ranker.py:129 | keeps min(N, rows) distinct positions, best first with ties in input order; every row left out scores no higher than every row kept; all rows are kept when N covers them |
| `Ranking.TopPositionsSelect` | ranker.py:129 | the rows at the chosen positions form a top-N selection: the right count, a sub-multiset of the input, in descending score, no omitted row outscoring a kept one, and every row kept when N covers them |
| `Ranking.TopPositionsUnique` | ranker.py:129 | any two position lists that meet the top-N conditions are equal, so the conditions fix the result |
| `Ranking.GetTopDestinations` | ranker.py:126-130 | fails with CityNotFound exactly when scoring does; otherwise returns a top-N selection of the scored rows, namely the rows at the unique top-N positions (ties in input order) |

## Left out

- Loading the CSV, writing the output files, console printing and the driver
  (`load_dataset`, `save_output`, `main`). These are I/O. The driver also picks
  source cities by random sampling, which is nondeterministic.
- `format_output`: cosmetic text layout with float rounding.
- `inspect_dataset.py`: a console report over the dataset, with no behaviour to model.
- Column-type inference. Whether the rating column is numeric and whether the
  `Type` column exists are inputs (`Dataset.ratingNumeric`, `Dataset.hasType`).
  A missing `City` or `State` column, which raises a key error in the
  original, is not modelled.
- Missing values (NaN). NaN is skipped by min and max and spreads through the
  arithmetic. `str(NaN)` becomes `"nan"`. A NaN city never matches. None of
  this is modelled: every field is a string or a real.
- Floating-point rounding: scores are exact reals.
- Text.Lower: lower-cases only ASCII letters. Python's `str.lower` also
  lower-cases other Unicode letters.
- Ranking.TopN: N is a natural number. The original is only ever called with 5.
- Index labels: the original keeps the input row labels in its result frame.
  The model returns the rows themselves, and `TopN` also returns their
  positions in the scored list.
