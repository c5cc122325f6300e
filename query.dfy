/**
 * The recommendation query: attribute filters, the distance column and its
 * filter, the per-name best row, the global order and the top-5 projection.
 *
 * The great-circle distance is not computed here: the query receives it as a
 * function `dist(userLat, userLon, lat, lon)` and every property is stated
 * relative to whatever that function returns.
 */
module Query {
  import opened Catalog
  import opened Ranking

  /** Distance from (userLat, userLon) to (lat, lon), in the unit of `maxDistance`. */
  type DistanceFn = (real, real, real, real) -> real

  /** The search radius when the caller gives none. */
  const DefaultMaxDistance: real := 60.0

  /** How many rows a recommendation holds at most. */
  const ResultLimit: nat := 5

  /** One user query. */
  datatype Request = Request(
    userLat: real,
    userLon: real,
    minRating: real,
    needParking: bool,
    needWifi: bool,
    cuisineType: string,
    maxDistance: real)

  /** One output row: the six projected columns. */
  datatype Recommendation = Recommendation(
    businessId: string,
    busName: string,
    address: string,
    rating: real,
    distance: real,
    cuisineType: string)

  // ---------------------------------------------------------------------------
  // What each stage asks of a row
  // ---------------------------------------------------------------------------

  /** The first filter: rating at least the minimum (inclusive) and the exact cuisine. */
  predicate MatchesRatingAndCuisine(c: Restaurant, q: Request) {
    c.rating >= q.minRating && c.cuisineType == q.cuisineType
  }

  /** The optional filters: an amenity constrains the row only when it is asked for. */
  predicate MeetsAmenities(c: Restaurant, q: Request) {
    (q.needParking ==> c.hasParking) && (q.needWifi ==> c.hasWifi)
  }

  predicate PassesAttributeFilters(c: Restaurant, q: Request) {
    MatchesRatingAndCuisine(c, q) && MeetsAmenities(c, q)
  }

  /** The `distance` column of row c for request q. */
  function DistanceTo(q: Request, c: Restaurant, dist: DistanceFn): real {
    dist(q.userLat, q.userLon, c.latitude, c.longitude)
  }

  /** A catalog row that survives every filter of the query. */
  predicate Eligible(c: Restaurant, q: Request, dist: DistanceFn) {
    PassesAttributeFilters(c, q) && DistanceTo(q, c, dist) <= q.maxDistance
  }

  /** The names of the catalog rows that survive every filter. */
  function SurvivingNames(catalog: seq<Restaurant>, q: Request, dist: DistanceFn): set<string> {
    set c | c in catalog && Eligible(c, q, dist) :: c.busName
  }

  // ---------------------------------------------------------------------------
  // DataFrame.filter
  // ---------------------------------------------------------------------------

  /** The rows of s that satisfy p, in their order. */
  function Filter<T>(s: seq<T>, p: T -> bool): seq<T> {
    if s == [] then [] else (if p(s[0]) then [s[0]] else []) + Filter(s[1..], p)
  }

  /** A filter keeps exactly the rows that pass its test, and never more rows than it got. */
  lemma {:induction false} FilterMembers<T(!new)>(s: seq<T>, p: T -> bool)
    ensures |Filter(s, p)| <= |s|
    ensures forall x :: x in Filter(s, p) <==> x in s && p(x)
    decreases |s|
  {
    if s != [] {
      FilterMembers(s[1..], p);
      assert s == [s[0]] + s[1..];
    }
  }

  function RatingAndCuisineTest(q: Request): Restaurant -> bool {
    (c: Restaurant) => MatchesRatingAndCuisine(c, q)
  }

  predicate HasParking(c: Restaurant) {
    c.hasParking
  }

  predicate HasWifi(c: Restaurant) {
    c.hasWifi
  }

  function AttributeTest(q: Request): Restaurant -> bool {
    (c: Restaurant) => PassesAttributeFilters(c, q)
  }

  function NearbyTest(q: Request): Located -> bool {
    (x: Located) => x.distance <= q.maxDistance
  }

  // ---------------------------------------------------------------------------
  // The stages
  // ---------------------------------------------------------------------------

  /**
   * The rating-and-cuisine filter, then the parking filter when parking is
   * required, then the WiFi filter when WiFi is required.
   */
  function AttributeFilter(catalog: seq<Restaurant>, q: Request): seq<Restaurant> {
    var base := Filter(catalog, RatingAndCuisineTest(q));
    var parked := if q.needParking then Filter(base, HasParking) else base;
    if q.needWifi then Filter(parked, HasWifi) else parked
  }

  /**
   * A row survives the attribute filters iff it is a catalog row with at least
   * the minimum rating, the exact cuisine, and every amenity the request requires.
   */
  lemma AttributeFilterMembers(catalog: seq<Restaurant>, q: Request)
    ensures forall c :: c in AttributeFilter(catalog, q) <==> c in catalog && PassesAttributeFilters(c, q)
  {
    var base := Filter(catalog, RatingAndCuisineTest(q));
    FilterMembers(catalog, RatingAndCuisineTest(q));
    var parked := if q.needParking then Filter(base, HasParking) else base;
    FilterMembers(base, HasParking);
    assert forall c :: c in parked <==> c in catalog && MatchesRatingAndCuisine(c, q) && (q.needParking ==> c.hasParking);
    FilterMembers(parked, HasWifi);
  }

  /** `withColumn("distance", ...)`: every row gets the distance to the user. */
  function WithDistance(s: seq<Restaurant>, q: Request, dist: DistanceFn): seq<Located> {
    seq(|s|, i requires 0 <= i < |s| => Located(s[i], DistanceTo(q, s[i], dist)))
  }

  /** Rows at most `maxDistance` away (inclusive). */
  function NearbyFilter(s: seq<Located>, q: Request): seq<Located> {
    Filter(s, NearbyTest(q))
  }

  /** The rows that reach the ranking step, each with its distance column. */
  function Candidates(catalog: seq<Restaurant>, q: Request, dist: DistanceFn): seq<Located> {
    NearbyFilter(WithDistance(AttributeFilter(catalog, q), q, dist), q)
  }

  /** The rank-1 row of each name, in global rating order. */
  function Ranked(catalog: seq<Restaurant>, q: Request, dist: DistanceFn): seq<Located> {
    SortByRating(BestPerName(Candidates(catalog, q, dist)))
  }

  /** `select("business_id", "bus_name", "address", "rating", "distance", "cuisine_type")` */
  function Project(x: Located): Recommendation {
    Recommendation(x.rec.businessId, x.rec.busName, x.rec.address, x.rec.rating, x.distance, x.rec.cuisineType)
  }

  /** The whole query: rank, project, and keep the first `ResultLimit` rows. */
  function Recommend(catalog: seq<Restaurant>, q: Request, dist: DistanceFn): (r: seq<Recommendation>)
    ensures |r| <= ResultLimit
  {
    var ranked := Ranked(catalog, q, dist);
    var projected := seq(|ranked|, i requires 0 <= i < |ranked| => Project(ranked[i]));
    if |projected| <= ResultLimit then projected else projected[..ResultLimit]
  }

  /** The query as called without a `max_distance` argument. */
  function RecommendWithDefaultDistance(
    catalog: seq<Restaurant>, userLat: real, userLon: real, minRating: real,
    needParking: bool, needWifi: bool, cuisineType: string, dist: DistanceFn): seq<Recommendation>
  {
    Recommend(catalog, Request(userLat, userLon, minRating, needParking, needWifi, cuisineType, DefaultMaxDistance), dist)
  }

  // ---------------------------------------------------------------------------
  // Filters compose
  // ---------------------------------------------------------------------------

  lemma {:induction false} FilterExtensional<T(!new)>(s: seq<T>, p: T -> bool, p': T -> bool)
    requires forall x :: p(x) == p'(x)
    ensures Filter(s, p) == Filter(s, p')
    decreases |s|
  {
    if s != [] {
      FilterExtensional(s[1..], p, p');
    }
  }

  /** Filtering by p and then by p2 is filtering once by their conjunction. */
  lemma {:induction false} FilterTwice<T(!new)>(s: seq<T>, p: T -> bool, p2: T -> bool, both: T -> bool)
    requires forall x :: both(x) == (p(x) && p2(x))
    ensures Filter(Filter(s, p), p2) == Filter(s, both)
    decreases |s|
  {
    if s != [] {
      FilterTwice(s[1..], p, p2, both);
      var rest := Filter(s[1..], p);
      if p(s[0]) {
        var once := [s[0]] + rest;
        assert Filter(s, p) == once;
        assert once != [] && once[0] == s[0] && once[1..] == rest;
        assert Filter(once, p2) == (if p2(s[0]) then [s[0]] else []) + Filter(rest, p2);
        assert both(s[0]) == p2(s[0]);
      } else {
        assert Filter(s, p) == [] + rest == rest;
        assert !both(s[0]);
        assert Filter(s, both) == [] + Filter(s[1..], both);
      }
    }
  }

  /** A stronger test keeps no more rows than a weaker one. */
  lemma {:induction false} FilterStrongerIsShorter<T(!new)>(s: seq<T>, p: T -> bool, p': T -> bool)
    requires forall x :: p(x) ==> p'(x)
    ensures |Filter(s, p)| <= |Filter(s, p')|
    decreases |s|
  {
    if s != [] {
      FilterStrongerIsShorter(s[1..], p, p');
    }
  }

  /**
   * The chain of attribute filters is one filter by their conjunction, so the
   * order in which they are applied does not matter.
   */
  lemma AttributeFilterIsOneFilter(catalog: seq<Restaurant>, q: Request)
    ensures AttributeFilter(catalog, q) == Filter(catalog, AttributeTest(q))
  {
    var base := RatingAndCuisineTest(q);
    if q.needParking && q.needWifi {
      var parked := (c: Restaurant) => MatchesRatingAndCuisine(c, q) && c.hasParking;
      FilterTwice(catalog, base, HasParking, parked);
      FilterTwice(catalog, parked, HasWifi, AttributeTest(q));
    } else if q.needParking {
      FilterTwice(catalog, base, HasParking, AttributeTest(q));
    } else if q.needWifi {
      FilterTwice(catalog, base, HasWifi, AttributeTest(q));
    } else {
      FilterExtensional(catalog, base, AttributeTest(q));
    }
  }

  // ---------------------------------------------------------------------------
  // What the stages hand on
  // ---------------------------------------------------------------------------

  /** The ranking step sees exactly the eligible catalog rows, each with its own distance. */
  lemma CandidatesExactlyEligible(catalog: seq<Restaurant>, q: Request, dist: DistanceFn)
    ensures forall x :: x in Candidates(catalog, q, dist) ==>
      x.rec in catalog && Eligible(x.rec, q, dist) && x.distance == DistanceTo(q, x.rec, dist)
    ensures forall c :: c in catalog && Eligible(c, q, dist) ==>
      Located(c, DistanceTo(q, c, dist)) in Candidates(catalog, q, dist)
  {
    var filtered := AttributeFilter(catalog, q);
    var annotated := WithDistance(filtered, q, dist);
    AttributeFilterMembers(catalog, q);
    FilterMembers(annotated, NearbyTest(q));
    forall x | x in Candidates(catalog, q, dist)
      ensures x.rec in catalog && Eligible(x.rec, q, dist) && x.distance == DistanceTo(q, x.rec, dist)
    {
      assert x in annotated && NearbyTest(q)(x);
      var i :| 0 <= i < |annotated| && annotated[i] == x;
      assert filtered[i] in filtered;
    }
    forall c | c in catalog && Eligible(c, q, dist)
      ensures Located(c, DistanceTo(q, c, dist)) in Candidates(catalog, q, dist)
    {
      assert c in filtered;
      var i :| 0 <= i < |filtered| && filtered[i] == c;
      assert annotated[i] == Located(c, DistanceTo(q, c, dist));
      assert annotated[i] in annotated;
    }
  }

  /** The names that reach the output are the names that survive the filters. */
  lemma CandidateNames(catalog: seq<Restaurant>, q: Request, dist: DistanceFn)
    ensures Names(Candidates(catalog, q, dist)) == SurvivingNames(catalog, q, dist)
  {
    var cands := Candidates(catalog, q, dist);
    CandidatesExactlyEligible(catalog, q, dist);
    forall name | name in SurvivingNames(catalog, q, dist) ensures name in Names(cands) {
      var c :| c in catalog && Eligible(c, q, dist) && c.busName == name;
      assert Located(c, DistanceTo(q, c, dist)) in cands;
    }
    forall name | name in Names(cands) ensures name in SurvivingNames(catalog, q, dist) {
      var x :| x in cands && x.rec.busName == name;
      assert x.rec in catalog && Eligible(x.rec, q, dist);
    }
  }
}
