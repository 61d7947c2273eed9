/**
 The scoring engine: resolves the source city's state, drops the source
 city's own rows and enriches every other row with a rating score, a
 proximity score, a category score and the weighted weekend score.
 */
module Scoring {
  import opened Tables
  import opened Text
  import opened Proximity
  import opened Normalizer

  /** One destination row of the dataset. */
  datatype Record = Record(name: string, city: string, state: string, types: string, rating: real)

  /** The dataset: its rows in order, whether the rating column is present
      and numeric, and whether the `Type` column is present. */
  datatype Dataset = Dataset(rows: seq<Record>, ratingNumeric: bool, hasType: bool)

  /** A row enriched with its four derived scores. */
  datatype Scored = Scored(rec: Record, ratingScore: real, proximityScore: real, categoryScore: real, weekendScore: real)

  datatype Option<T> = None | Some(value: T)

  datatype ScoreError = CityNotFound(city: string)

  datatype Result<T> = Ok(value: T) | Err(error: ScoreError)

  const RATING_WEIGHT: real := 0.5
  const PROXIMITY_WEIGHT: real := 0.3
  const CATEGORY_WEIGHT: real := 0.2

  /** Whether a row lies in the given city, ignoring letter case. */
  predicate InCity(r: Record, city: string)
  {
    Lower(r.city) == Lower(city)
  }

  /** The state of the first row whose city matches `city` case-insensitively,
      or None when no row matches. */
  function GetStateFromCity(rows: seq<Record>, city: string): (st: Option<string>)
    ensures st.None? <==> forall i :: 0 <= i < |rows| ==> !InCity(rows[i], city)
    ensures st.Some? ==>
      exists i :: 0 <= i < |rows| && InCity(rows[i], city) && st.value == rows[i].state &&
        forall j :: 0 <= j < i ==> !InCity(rows[j], city)
    decreases |rows|
  {
    if rows == [] then None
    else if InCity(rows[0], city) then Some(rows[0].state)
    else
      var st := GetStateFromCity(rows[1..], city);
      assert forall i :: 1 <= i < |rows| ==> rows[i] == rows[1..][i - 1];
      st
  }

  /** Whether scoring from `city` fails: the city is absent, or the first
      matching row has an empty state. */
  predicate Unresolved(rows: seq<Record>, city: string)
  {
    var st := GetStateFromCity(rows, city);
    st.None? || st.value == ""
  }

  /** The rows not in the source city, in their original order. */
  function Filtered(rows: seq<Record>, city: string): (f: seq<Record>)
    ensures |f| <= |rows|
    ensures forall r :: r in f ==> r in rows && !InCity(r, city)
    ensures forall r :: r in rows && !InCity(r, city) ==> r in f
    decreases |rows|
  {
    if rows == [] then []
    else
      var rest := Filtered(rows[1..], city);
      if InCity(rows[0], city) then rest else [rows[0]] + rest
  }

  /** Filtering one block of rows after another is filtering each block:
      the kept rows stay in their original order. */
  lemma {:induction false} FilteredAppend(a: seq<Record>, b: seq<Record>, city: string)
    ensures Filtered(a + b, city) == Filtered(a, city) + Filtered(b, city)
    decreases |a|
  {
    if a == [] {
      assert a + b == b;
    } else {
      assert (a + b)[1..] == a[1..] + b;
      FilteredAppend(a[1..], b, city);
    }
  }

  /** Each record occurs in the filtered rows exactly as often as in the
      input when it is outside the source city, and never otherwise. */
  lemma {:induction false} FilteredCount(rows: seq<Record>, city: string, r: Record)
    ensures multiset(Filtered(rows, city))[r] == if InCity(r, city) then 0 else multiset(rows)[r]
    decreases |rows|
  {
    if rows != [] {
      FilteredCount(rows[1..], city, r);
      assert rows == [rows[0]] + rows[1..];
    }
  }

  /** When the source city resolves, at least one row is dropped. */
  lemma {:induction false} ResolvedDropsRow(rows: seq<Record>, city: string)
    requires GetStateFromCity(rows, city).Some?
    ensures |Filtered(rows, city)| < |rows|
    decreases |rows|
  {
    if !InCity(rows[0], city) {
      assert forall i :: 1 <= i < |rows| ==> rows[i] == rows[1..][i - 1];
      ResolvedDropsRow(rows[1..], city);
    }
  }

  /** The rating column of the given rows. */
  function Ratings(rows: seq<Record>): (rs: seq<real>)
    ensures |rs| == |rows|
    ensures forall i :: 0 <= i < |rows| ==> rs[i] == rows[i].rating
  {
    seq(|rows|, i requires 0 <= i < |rows| => rows[i].rating)
  }

  /** Rating scores of the filtered rows: the normalised rating column when it
      is present and numeric, otherwise 0.5 for every row. */
  function RatingScores(ratingNumeric: bool, filtered: seq<Record>): (rs: seq<real>)
    ensures |rs| == |filtered|
    ensures forall i :: 0 <= i < |rs| ==> 0.0 <= rs[i] <= 1.0
    ensures !ratingNumeric ==> forall i :: 0 <= i < |rs| ==> rs[i] == NEUTRAL
    ensures ratingNumeric ==> rs == NormalizeColumn(Ratings(filtered))
  {
    if ratingNumeric then
      NormalizeBounds(Ratings(filtered));
      NormalizeColumn(Ratings(filtered))
    else seq(|filtered|, _ => NEUTRAL)
  }

  /** The largest of a list of weights, or `default` for an empty list. */
  function MaxOrDefault(ws: seq<real>, default: real): (m: real)
    ensures ws == [] ==> m == default
    ensures ws != [] ==> m in ws && forall i :: 0 <= i < |ws| ==> ws[i] <= m
    decreases |ws|
  {
    if ws == [] then default
    else if |ws| == 1 then ws[0]
    else
      var rest := MaxOrDefault(ws[1..], default);
      if ws[0] >= rest then ws[0] else rest
  }

  /** The weight of each comma-separated piece of a category field. */
  function PieceWeights(types: string): (ws: seq<real>)
    ensures |ws| == |Split(types)| && |ws| >= 1
    ensures forall i :: 0 <= i < |ws| ==> ws[i] == CategoryWeight(Split(types)[i])
  {
    var pieces := Split(types);
    seq(|pieces|, i requires 0 <= i < |pieces| => CategoryWeight(pieces[i]))
  }

  /** Category score of one row: the best weight among the untrimmed pieces of
      its `Type` field, or 0.5 when the dataset has no `Type` column. */
  function CategoryScore(hasType: bool, types: string): (c: real)
    ensures 0.5 <= c <= 1.0
    ensures !hasType ==> c == NEUTRAL
    ensures hasType ==>
      (exists i :: 0 <= i < |Split(types)| && c == CategoryWeight(Split(types)[i])) &&
      (forall i :: 0 <= i < |Split(types)| ==> CategoryWeight(Split(types)[i]) <= c)
  {
    if hasType then
      var ws := PieceWeights(types);
      var m := MaxOrDefault(ws, NEUTRAL);
      assert exists i :: 0 <= i < |ws| && m == ws[i];
      m
    else NEUTRAL
  }

  /** Pieces are not trimmed: a piece that follows ", " keeps its leading
      space, no category in the table starts with a space, so the field
      scores as its first piece alone. */
  lemma CategoryScoreUntrimmed(p: string, q: string)
    requires ',' !in p && ',' !in q
    ensures CategoryScore(true, p + ", " + q) == CategoryWeight(p)
  {
    assert ',' !in " " + q by {
      forall k | 0 <= k < |" " + q| ensures (" " + q)[k] != ',' {
        if k > 0 {
          assert (" " + q)[k] == q[k - 1];
        }
      }
    }
    assert (" " + q)[0] == ' ';
    assert " " + q !in WEEKEND_CATEGORIES;
    TwoPieceScore(p, " " + q);
    assert p + "," + (" " + q) == p + ", " + q;
  }

  /** "Fort, Beach" scores Fort's 0.9 and not Beach's 1.0, while
      "Fort,Beach" scores 1.0. */
  lemma FortBeachExample()
    ensures CategoryScore(true, "Fort" + ", " + "Beach") == 0.9
    ensures CategoryScore(true, "Fort" + "," + "Beach") == 1.0
  {
    CategoryScoreUntrimmed("Fort", "Beach");
    TwoPieceScore("Fort", "Beach");
  }

  /** A field made of two comma-free pieces scores the better of their weights. */
  lemma TwoPieceScore(p: string, q: string)
    requires ',' !in p && ',' !in q
    ensures var a, b := CategoryWeight(p), CategoryWeight(q);
      CategoryScore(true, p + "," + q) == if a >= b then a else b
  {
    SplitJoin([p, q]);
    assert Join([p, q]) == p + "," + q;
    var ws := PieceWeights(p + "," + q);
    assert ws == [CategoryWeight(p), CategoryWeight(q)];
  }

  /** 0.5 * rating + 0.3 * proximity + 0.2 * category. */
  function WeekendScore(rating: real, proximity: real, category: real): (w: real)
    ensures
      var lo := if rating <= proximity && rating <= category then rating
                else if proximity <= category then proximity else category;
      var hi := if rating >= proximity && rating >= category then rating
                else if proximity >= category then proximity else category;
      lo <= w <= hi
  {
    RATING_WEIGHT * rating + PROXIMITY_WEIGHT * proximity + CATEGORY_WEIGHT * category
  }

  /** The weights sum to one, so component scores in [0, 1] give a weekend
      score in [0, 1]; for instance 0.8, 0.7 and 0.9 give 0.79. */
  lemma WeekendScoreInUnitRange(rating: real, proximity: real, category: real)
    requires 0.0 <= rating <= 1.0 && 0.0 <= proximity <= 1.0 && 0.0 <= category <= 1.0
    ensures 0.0 <= WeekendScore(rating, proximity, category) <= 1.0
    ensures WeekendScore(0.8, 0.7, 0.9) == 0.79
  {
  }

  /** Raising any one component never lowers the weekend score. */
  lemma WeekendScoreMonotone(r1: real, p1: real, c1: real, r2: real, p2: real, c2: real)
    requires r1 <= r2 && p1 <= p2 && c1 <= c2
    ensures WeekendScore(r1, p1, c1) <= WeekendScore(r2, p2, c2)
  {
  }

  /** One filtered row enriched with its scores, given its rating score. */
  function ScoreRow(sourceState: string, hasType: bool, r: Record, ratingScore: real): (s: Scored)
    ensures s.rec == r && s.ratingScore == ratingScore
    ensures s.proximityScore == ProximityWeight(sourceState, r.state)
    ensures s.categoryScore == CategoryScore(hasType, r.types)
    ensures s.weekendScore == WeekendScore(ratingScore, s.proximityScore, s.categoryScore)
    ensures 0.0 <= ratingScore <= 1.0 ==> 0.0 <= s.weekendScore <= 1.0
  {
    var proximity := ProximityWeight(sourceState, r.state);
    var category := CategoryScore(hasType, r.types);
    WeekendScoreInUnitRange(if 0.0 <= ratingScore <= 1.0 then ratingScore else 0.0, proximity, category);
    Scored(r, ratingScore, proximity, category, WeekendScore(ratingScore, proximity, category))
  }

  /** The scored rows for a source city whose state resolves: the rows of
      other cities, in order, each with scores in range. */
  function ScoredRows(ds: Dataset, sourceCity: string): (scored: seq<Scored>)
    requires !Unresolved(ds.rows, sourceCity)
    ensures |scored| == |Filtered(ds.rows, sourceCity)| < |ds.rows|
    ensures forall i :: 0 <= i < |scored| ==>
      && scored[i].rec == Filtered(ds.rows, sourceCity)[i]
      && scored[i].ratingScore == RatingScores(ds.ratingNumeric, Filtered(ds.rows, sourceCity))[i]
      && scored[i].proximityScore == ProximityWeight(GetStateFromCity(ds.rows, sourceCity).value, scored[i].rec.state)
      && scored[i].categoryScore == CategoryScore(ds.hasType, scored[i].rec.types)
      && scored[i].weekendScore == WeekendScore(scored[i].ratingScore, scored[i].proximityScore, scored[i].categoryScore)
    ensures forall i :: 0 <= i < |scored| ==>
      && !InCity(scored[i].rec, sourceCity) && scored[i].rec in ds.rows
      && 0.0 <= scored[i].ratingScore <= 1.0
      && scored[i].proximityScore in {SAME_STATE, NEIGHBOR_STATE, DISTANT_STATE}
      && 0.5 <= scored[i].categoryScore <= 1.0
      && 0.0 <= scored[i].weekendScore <= 1.0
    ensures !ds.ratingNumeric ==> forall i :: 0 <= i < |scored| ==> scored[i].ratingScore == NEUTRAL
    ensures !ds.hasType ==> forall i :: 0 <= i < |scored| ==> scored[i].categoryScore == NEUTRAL
  {
    var sourceState := GetStateFromCity(ds.rows, sourceCity).value;
    var filtered := Filtered(ds.rows, sourceCity);
    var ratingScores := RatingScores(ds.ratingNumeric, filtered);
    ResolvedDropsRow(ds.rows, sourceCity);
    var scored := seq(|filtered|, i requires 0 <= i < |filtered| =>
      ScoreRow(sourceState, ds.hasType, filtered[i], ratingScores[i]));
    forall i | 0 <= i < |scored|
      ensures !InCity(scored[i].rec, sourceCity) && scored[i].rec in ds.rows
    {
      assert filtered[i] in filtered;
    }
    scored
  }

  /** The source city's rows removed and every other row enriched with its
      rating, proximity, category and weekend scores; fails with
      CityNotFound when the source state cannot be resolved. */
  method CalculateWeekendScore(ds: Dataset, sourceCity: string) returns (res: Result<seq<Scored>>)
    ensures Unresolved(ds.rows, sourceCity) ==> res == Err(CityNotFound(sourceCity))
    ensures !Unresolved(ds.rows, sourceCity) ==> res == Ok(ScoredRows(ds, sourceCity))
  {
    var st := GetStateFromCity(ds.rows, sourceCity);
    if st.None? || st.value == "" {
      return Err(CityNotFound(sourceCity));
    }
    var sourceState := st.value;
    var filtered := Filtered(ds.rows, sourceCity);
    var ratingScores := RatingScores(ds.ratingNumeric, filtered);
    var out := new Scored[|filtered|];
    for i := 0 to |filtered|
      invariant forall k :: 0 <= k < i ==> out[k] == ScoreRow(sourceState, ds.hasType, filtered[k], ratingScores[k])
    {
      var proximity := ProximityWeight(sourceState, filtered[i].state);
      var category := CategoryScore(ds.hasType, filtered[i].types);
      var weekend := WeekendScore(ratingScores[i], proximity, category);
      out[i] := Scored(filtered[i], ratingScores[i], proximity, category, weekend);
    }
    assert out[..] == ScoredRows(ds, sourceCity);
    res := Ok(out[..]);
  }
}
