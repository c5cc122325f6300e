/**
 * What a recommendation promises, stated against the catalog and the request
 * and proved for every catalog, every request and every distance function.
 */
module RecommendationProperties {
  import opened Catalog
  import opened Ranking
  import opened Query

  /** Output row `row` is catalog row c projected, with distance d. */
  predicate ProjectionOf(row: Recommendation, c: Restaurant, d: real) {
    && row.businessId == c.businessId
    && row.busName == c.busName
    && row.address == c.address
    && row.rating == c.rating
    && row.cuisineType == c.cuisineType
    && row.distance == d
  }

  /** What the ranked table (before the limit) holds. */
  lemma RankedFacts(catalog: seq<Restaurant>, q: Request, dist: DistanceFn)
    ensures SortedByRating(Ranked(catalog, q, dist))
    ensures DistinctNames(Ranked(catalog, q, dist))
    ensures Names(Ranked(catalog, q, dist)) == SurvivingNames(catalog, q, dist)
    ensures forall x :: x in Ranked(catalog, q, dist) ==>
      x.rec in catalog && Eligible(x.rec, q, dist) && x.distance == DistanceTo(q, x.rec, dist)
    ensures forall x, c ::
      (x in Ranked(catalog, q, dist) && c in catalog && Eligible(c, q, dist) && c.busName == x.rec.busName) ==>
        c.rating <= x.rec.rating
  {
    var cands := Candidates(catalog, q, dist);
    var best := BestPerName(cands);
    var ranked := SortByRating(best);
    BestPerNameSpec(cands);
    SortByRatingPermutes(best);
    SortByRatingSorted(best);
    SortByRatingDistinct(best);
    SameRowsSameNames(ranked, best);
    CandidateNames(catalog, q, dist);
    CandidatesExactlyEligible(catalog, q, dist);
    forall x | x in ranked ensures x in best {
      assert x in multiset(ranked);
    }
    forall x, c | x in ranked && c in catalog && Eligible(c, q, dist) && c.busName == x.rec.busName
      ensures c.rating <= x.rec.rating
    {
      assert x in multiset(ranked);
      assert Located(c, DistanceTo(q, c, dist)) in cands;
    }
  }

  /**
   * An unfolding aid, not a property: the output is the ranked table projected
   * and cut after `ResultLimit` rows, as `Recommend` computes it. The lemmas
   * below use it to reach the ranked table.
   */
  lemma RecommendIsRankedPrefix(catalog: seq<Restaurant>, q: Request, dist: DistanceFn)
    ensures var r := Recommend(catalog, q, dist);
      var ranked := Ranked(catalog, q, dist);
      && |r| == (if |ranked| <= ResultLimit then |ranked| else ResultLimit)
      && forall i :: 0 <= i < |r| ==> r[i] == Project(ranked[i])
  {
  }

  /**
   * Every output row is the projection of a catalog row that passes every
   * filter (rating, cuisine, the amenities asked for, the distance bound),
   * carrying the distance computed for that row's own coordinates.
   */
  lemma RecommendRowsPassFilters(catalog: seq<Restaurant>, q: Request, dist: DistanceFn)
    ensures var r := Recommend(catalog, q, dist);
      forall i :: 0 <= i < |r| ==>
        exists c :: c in catalog && Eligible(c, q, dist) && ProjectionOf(r[i], c, DistanceTo(q, c, dist))
    ensures forall row :: row in Recommend(catalog, q, dist) ==>
      && row.rating >= q.minRating
      && row.cuisineType == q.cuisineType
      && row.distance <= q.maxDistance
  {
    var r := Recommend(catalog, q, dist);
    var ranked := Ranked(catalog, q, dist);
    RankedFacts(catalog, q, dist);
    RecommendIsRankedPrefix(catalog, q, dist);
    forall i | 0 <= i < |r|
      ensures exists c :: c in catalog && Eligible(c, q, dist) && ProjectionOf(r[i], c, DistanceTo(q, c, dist))
    {
      assert ranked[i] in ranked;
      var c := ranked[i].rec;
      assert ProjectionOf(r[i], c, DistanceTo(q, c, dist));
    }
    forall row | row in r
      ensures row.rating >= q.minRating && row.cuisineType == q.cuisineType && row.distance <= q.maxDistance
    {
      var i :| 0 <= i < |r| && r[i] == row;
      assert ranked[i] in ranked;
    }
  }

  /** No two output rows share a business name. */
  lemma RecommendNamesDistinct(catalog: seq<Restaurant>, q: Request, dist: DistanceFn)
    ensures var r := Recommend(catalog, q, dist);
      forall a, b :: 0 <= a < b < |r| ==> r[a].busName != r[b].busName
  {
    RankedFacts(catalog, q, dist);
    RecommendIsRankedPrefix(catalog, q, dist);
  }

  /** Each output row is rated at least as high as every eligible row with its name. */
  lemma RecommendKeepsBestPerName(catalog: seq<Restaurant>, q: Request, dist: DistanceFn)
    ensures var r := Recommend(catalog, q, dist);
      forall i, c :: 0 <= i < |r| && c in catalog && Eligible(c, q, dist) && c.busName == r[i].busName ==>
        c.rating <= r[i].rating
  {
    var r := Recommend(catalog, q, dist);
    var ranked := Ranked(catalog, q, dist);
    RankedFacts(catalog, q, dist);
    RecommendIsRankedPrefix(catalog, q, dist);
    forall i, c | 0 <= i < |r| && c in catalog && Eligible(c, q, dist) && c.busName == r[i].busName
      ensures c.rating <= r[i].rating
    {
      assert ranked[i] in ranked;
    }
  }

  /** At most `ResultLimit` rows, ratings never increasing. */
  lemma RecommendSortedByRating(catalog: seq<Restaurant>, q: Request, dist: DistanceFn)
    ensures var r := Recommend(catalog, q, dist);
      && |r| <= ResultLimit
      && forall a, b :: 0 <= a < b < |r| ==> r[a].rating >= r[b].rating
  {
    RankedFacts(catalog, q, dist);
    RecommendIsRankedPrefix(catalog, q, dist);
  }

  /** One row per surviving name, up to `ResultLimit`. */
  lemma RecommendLength(catalog: seq<Restaurant>, q: Request, dist: DistanceFn)
    ensures var names := SurvivingNames(catalog, q, dist);
      |Recommend(catalog, q, dist)| == if |names| <= ResultLimit then |names| else ResultLimit
  {
    RankedFacts(catalog, q, dist);
    RecommendIsRankedPrefix(catalog, q, dist);
    DistinctNamesCount(Ranked(catalog, q, dist));
  }

  /**
   * Top-N: an eligible row whose name is missing from the output can only be
   * missing because the output is full, and it is rated no higher than the
   * last output row.
   */
  lemma RecommendIsTopN(catalog: seq<Restaurant>, q: Request, dist: DistanceFn)
    ensures var r := Recommend(catalog, q, dist);
      forall c :: c in catalog && Eligible(c, q, dist) && (forall i :: 0 <= i < |r| ==> r[i].busName != c.busName) ==>
        |r| == ResultLimit && c.rating <= r[ResultLimit - 1].rating
  {
    var r := Recommend(catalog, q, dist);
    var ranked := Ranked(catalog, q, dist);
    RankedFacts(catalog, q, dist);
    RecommendIsRankedPrefix(catalog, q, dist);
    forall c | c in catalog && Eligible(c, q, dist) && (forall i :: 0 <= i < |r| ==> r[i].busName != c.busName)
      ensures |r| == ResultLimit && c.rating <= r[ResultLimit - 1].rating
    {
      assert c.busName in Names(ranked);
      var x :| x in ranked && x.rec.busName == c.busName;
      var p :| 0 <= p < |ranked| && ranked[p] == x;
      assert ranked[ResultLimit - 1].rec.rating >= ranked[p].rec.rating;
    }
  }

  /** An empty result is an ordinary outcome: it happens exactly when no catalog row is eligible. */
  lemma RecommendEmptyIffNothingEligible(catalog: seq<Restaurant>, q: Request, dist: DistanceFn)
    ensures Recommend(catalog, q, dist) == [] <==> forall c :: c in catalog ==> !Eligible(c, q, dist)
  {
    RecommendLength(catalog, q, dist);
    var names := SurvivingNames(catalog, q, dist);
    if exists c :: c in catalog && Eligible(c, q, dist) {
      var c :| c in catalog && Eligible(c, q, dist);
      assert c.busName in names;
    }
  }

  /** A cuisine no catalog row has gives the empty result. */
  lemma UnknownCuisineGivesEmpty(catalog: seq<Restaurant>, q: Request, dist: DistanceFn)
    requires forall c :: c in catalog ==> c.cuisineType != q.cuisineType
    ensures Recommend(catalog, q, dist) == []
  {
    RecommendEmptyIffNothingEligible(catalog, q, dist);
  }

  /**
   * A catalog row that lacks an amenity the request requires never shows up,
   * given that business ids identify catalog rows.
   */
  lemma MissingRequiredAmenityExcludes(catalog: seq<Restaurant>, q: Request, dist: DistanceFn, c: Restaurant)
    requires c in catalog
    requires (q.needParking && !c.hasParking) || (q.needWifi && !c.hasWifi)
    requires forall d :: d in catalog && d.businessId == c.businessId ==> d == c
    ensures forall row :: row in Recommend(catalog, q, dist) ==> row.businessId != c.businessId
  {
    var r := Recommend(catalog, q, dist);
    RecommendRowsPassFilters(catalog, q, dist);
    forall row | row in r ensures row.businessId != c.businessId {
      var i :| 0 <= i < |r| && r[i] == row;
      var d :| d in catalog && Eligible(d, q, dist) && ProjectionOf(r[i], d, DistanceTo(q, d, dist));
      assert d != c;
    }
  }

  /** Called without a radius, the query keeps rows at most 60 away. */
  lemma DefaultDistanceIsSixty(
    catalog: seq<Restaurant>, userLat: real, userLon: real, minRating: real,
    needParking: bool, needWifi: bool, cuisineType: string, dist: DistanceFn)
    ensures forall row :: row in RecommendWithDefaultDistance(catalog, userLat, userLon, minRating, needParking, needWifi, cuisineType, dist) ==>
      row.distance <= 60.0
  {
    RecommendRowsPassFilters(catalog, Request(userLat, userLon, minRating, needParking, needWifi, cuisineType, DefaultMaxDistance), dist);
  }

  /**
   * Asking more of the attribute filters (a higher minimum rating, parking or
   * WiFi newly required) never keeps more rows.
   */
  lemma StricterRequestKeepsFewerRows(catalog: seq<Restaurant>, q: Request, q': Request)
    requires q'.minRating >= q.minRating && q'.cuisineType == q.cuisineType
    requires q.needParking ==> q'.needParking
    requires q.needWifi ==> q'.needWifi
    ensures |AttributeFilter(catalog, q')| <= |AttributeFilter(catalog, q)|
  {
    AttributeFilterIsOneFilter(catalog, q);
    AttributeFilterIsOneFilter(catalog, q');
    FilterStrongerIsShorter(catalog, AttributeTest(q'), AttributeTest(q));
  }

  /**
   * Two branches of one name, rated 3.5 and 4.2, both matching and in range:
   * the result holds that name once, with the 4.2 branch.
   */
  lemma TwoBranchesOneRow(catalog: seq<Restaurant>, q: Request, dist: DistanceFn)
    requires catalog == [
      Restaurant("b1", "Joe's Diner", "1 Main St", 40.1, -75.1, 3.5, "American", true, false),
      Restaurant("b2", "Joe's Diner", "9 Elm St", 40.2, -75.2, 4.2, "American", false, true)]
    requires q == Request(40.0, -75.0, 3.0, false, false, "American", 60.0)
    requires dist(40.0, -75.0, 40.1, -75.1) <= 60.0
    requires dist(40.0, -75.0, 40.2, -75.2) <= 60.0
    ensures var r := Recommend(catalog, q, dist);
      |r| == 1 && r[0].busName == "Joe's Diner" && r[0].rating == 4.2 && r[0].businessId == "b2"
  {
    var low, high := catalog[0], catalog[1];
    var r := Recommend(catalog, q, dist);
    assert low in catalog && high in catalog;
    assert Eligible(low, q, dist) && Eligible(high, q, dist);
    assert SurvivingNames(catalog, q, dist) == {"Joe's Diner"} by {
      assert low.busName in SurvivingNames(catalog, q, dist);
    }
    RecommendLength(catalog, q, dist);
    RecommendRowsPassFilters(catalog, q, dist);
    RecommendKeepsBestPerName(catalog, q, dist);
    var c :| c in catalog && Eligible(c, q, dist) && ProjectionOf(r[0], c, DistanceTo(q, c, dist));
    assert high.rating <= r[0].rating;
  }
}
