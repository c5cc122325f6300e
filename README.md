# Restaurant recommendation query, modelled in Dafny

This project models the recommendation query of the restaurant recommender
(`RestaurantRecommenderPredictor.recommend_restaurants`). It also models the
loader step that turns the textual `parking` and `WiFi` columns into the
boolean flags `has_parking` and `has_wifi`.

Given a catalog of restaurant rows and a request, the query works in stages:

1. It keeps rows with `rating >= min_rating` whose `cuisine_type` equals the
   requested one exactly.
2. It drops rows without parking or WiFi when the request requires them.
3. It attaches a `distance` column and keeps rows with `distance <= max_distance`.
   The radius defaults to 60.
4. It keeps, for each `bus_name`, the row numbered 1 by `row_number()` over a
   window partitioned by name and ordered by rating, highest first.
5. It orders the survivors by rating, highest first, projects six columns and
   keeps the first 5.

The model is pure: functions over `seq` and lemmas about them. The files are:

- `catalog.dfy` (module `Catalog`): the catalog row and the amenity-flag derivation.
- `ranking.dfy` (module `Ranking`): the row with its distance column, the
  window row number, the per-name best row, and the ordering by rating.
- `query.dfy` (module `Query`): the request, the filter stages, the distance
  column, the projection and the whole query `Recommend`.
- `properties.dfy` (module `RecommendationProperties`): the end-to-end
  properties of `Recommend`.

The great-circle distance is a parameter `dist(userLat, userLon, lat, lon)`.
Every property holds for every such function.

Neither the window nor the global sort has a secondary key, so ties between
equal ratings are up to the engine. The model fixes one choice. Within a name,
the earlier catalog row of two equally rated rows ranks first. The global sort
is stable. The properties of `Recommend` proved in `RecommendationProperties` do
not depend on that choice.

Other modelling choices:

- The query orders by rating only, with no secondary key, both in the window
  (`using_km_recsys_predictions_.py:135`) and in the final ordering
  (`using_km_recsys_predictions_.py:141`). Ties are broken as above.
- The loader also adds a `cuisine_type_encoded` column
  (`using_km_recsys_predictions_.py:45-49`). The query never reads it, so the
  record omits it.
- The query does no validation of its own
  (`using_km_recsys_predictions_.py:95-146`). Typed fields stand for the
  cleaned table.

## Model

| member | source | states |
|---|---|---|
| `Catalog.AmenityFlag` | using_km_recsys_predictions_.py:39-42 | the CASE WHEN test of one amenity column; its contract is carried by `Catalog.DeriveAmenityFlags` and `Catalog.AmenityFlagIsCaseSensitive` |
| `Catalog.WithAmenityFlags` | using_km_recsys_predictions_.py:39-42 | both `withColumn` steps applied to one row; its contract is carried by `Catalog.DeriveAmenityFlags` |
| `Catalog.DeriveAmenityFlags` | using_km_recsys_predictions_.py:39-42 | row for row, `has_parking`/`has_wifi` are true exactly when the text is "Yes"; the seven other modelled columns are carried over unchanged |
| `Catalog.AmenityFlagIsCaseSensitive` | using_km_recsys_predictions_.py:39-42 | "Yes" sets a flag; "yes", "YES", "No" and the empty text do not |
| `Query.FilterMembers` | using_km_recsys_predictions_.py:110-113 | a DataFrame filter keeps exactly the rows that satisfy the test, and never more rows than it got |
| `Query.AttributeFilter` | using_km_recsys_predictions_.py:109-121 | the rating-and-cuisine filter, then the optional parking and WiFi filters; its contract is carried by `Query.AttributeFilterMembers` and `Query.AttributeFilterIsOneFilter` |
| `Query.AttributeFilterMembers` | using_km_recsys_predictions_.py:109-121 | a row survives iff it is in the catalog, its rating is at least the minimum, its cuisine matches exactly, and it has parking/WiFi whenever those are required; an amenity not asked for does not constrain the row |
| `Query.AttributeFilterIsOneFilter` | using_km_recsys_predictions_.py:109-121 | the chain of filters equals one filter by the conjunction, so their order does not matter |
| `Query.FilterStrongerIsShorter` | using_km_recsys_predictions_.py:110-121 | a stronger test keeps no more rows than a weaker one |
| `Query.WithDistance` | using_km_recsys_predictions_.py:123-127 | the `withColumn("distance", ...)` step; its contract is carried by `Query.CandidatesExactlyEligible` |
| `Query.NearbyFilter` | using_km_recsys_predictions_.py:129-132 | the inclusive `distance <= max_distance` filter; its contract is carried by `Query.CandidatesExactlyEligible` |
| `Query.Candidates` | using_km_recsys_predictions_.py:109-132 | the table that reaches the window; its contract is carried by `Query.CandidatesExactlyEligible` and `Query.CandidateNames` |
| `Query.CandidatesExactlyEligible` | using_km_recsys_predictions_.py:123-132 | the rows reaching the ranking are exactly the catalog rows passing every filter, each carrying the distance of its own coordinates, which is at most the radius |
| `Query.CandidateNames` | using_km_recsys_predictions_.py:123-135 | the names reaching the ranking are exactly the names of the eligible catalog rows |
| `Query.Ranked` | using_km_recsys_predictions_.py:137-141 | rank-1 rows ordered by rating, before the projection and limit; its contract is carried by `RecommendationProperties.RankedFacts` |
| `Query.Project` | using_km_recsys_predictions_.py:142 | the six-column `select`; its contract is carried by `RecommendationProperties.RecommendRowsPassFilters` |
| `Query.RecommendWithDefaultDistance` | using_km_recsys_predictions_.py:102 | the query called without `max_distance`; its contract is carried by `RecommendationProperties.DefaultDistanceIsSixty` |
| `Query.Recommend` | using_km_recsys_predictions_.py:95-146 | the result never has more than 5 rows |
| `Ranking.CountPreceding` | using_km_recsys_predictions_.py:135-139 | the count of same-name rows ordered before row i is zero iff no such row exists |
| `Ranking.RowNumber` | using_km_recsys_predictions_.py:135-139 | the row number lies between 1 and the table length, and it is 1 iff no row of the same name is rated higher or, equally rated, comes earlier |
| `Ranking.KeepFirstRanked` | using_km_recsys_predictions_.py:139-140 | the rank filter keeps exactly the rows whose row number is 1 |
| `Ranking.KeepFirstRankedDistinct` | using_km_recsys_predictions_.py:135-140 | no two rows with row number 1 share a name |
| `Ranking.PartitionHasFirst` | using_km_recsys_predictions_.py:135-140 | every name partition has a row numbered 1 |
| `Ranking.BestPerName` | using_km_recsys_predictions_.py:135-140 | the window row number followed by the `rank == 1` filter; its contract is carried by `Ranking.BestPerNameSpec` |
| `Ranking.BestPerNameSpec` | using_km_recsys_predictions_.py:135-140 | one row per name, the same set of names as its input, rows taken from the input, each rated at least as high as every input row with its name |
| `Ranking.InsertByRating` | using_km_recsys_predictions_.py:141 | one step of the ordering by rating; its contract is carried by `Ranking.InsertByRatingPermutes` and `Ranking.InsertByRatingSorted` |
| `Ranking.SortByRating` | using_km_recsys_predictions_.py:141 | the `orderBy(rating desc)`; its contract is carried by `Ranking.SortByRatingPermutes` and `Ranking.SortByRatingSorted` |
| `Ranking.InsertByRatingPermutes` | using_km_recsys_predictions_.py:141 | inserting adds exactly that row: the result is a permutation of the old table plus the row |
| `Ranking.SortByRatingPermutes` | using_km_recsys_predictions_.py:141 | the global ordering is a permutation of its input |
| `Ranking.InsertByRatingSorted` | using_km_recsys_predictions_.py:141 | inserting into a table ordered by rating (highest first) keeps it ordered |
| `Ranking.SortByRatingSorted` | using_km_recsys_predictions_.py:141 | the global ordering is by rating, highest first |
| `Ranking.SortByRatingDistinct` | using_km_recsys_predictions_.py:140-141 | ordering keeps names distinct |
| `Ranking.SameRowsSameNames` | using_km_recsys_predictions_.py:141 | a permutation holds the same names |
| `Ranking.DistinctNamesCount` | using_km_recsys_predictions_.py:137-143 | a table without repeated names has as many names as rows |
| `RecommendationProperties.RankedFacts` | using_km_recsys_predictions_.py:134-141 | before the limit, the ranked table is ordered by rating, has distinct names, holds exactly the surviving names, and keeps each name's best eligible row |
| `RecommendationProperties.RecommendRowsPassFilters` | using_km_recsys_predictions_.py:109-146 | each output row projects an eligible catalog row (business id, name, address, rating, cuisine) with that row's own distance; its rating is at least the minimum, its cuisine is the requested one, its distance is at most the radius |
| `RecommendationProperties.RecommendNamesDistinct` | using_km_recsys_predictions_.py:135-140 | no two output rows share a business name |
| `RecommendationProperties.RecommendKeepsBestPerName` | using_km_recsys_predictions_.py:135-140 | each output row's rating is at least that of every eligible catalog row with the same name |
| `RecommendationProperties.RecommendSortedByRating` | using_km_recsys_predictions_.py:141-143 | at most 5 rows, ratings never increasing |
| `RecommendationProperties.RecommendLength` | using_km_recsys_predictions_.py:137-143 | the output length is min(5, number of distinct surviving names) |
| `RecommendationProperties.RecommendIsTopN` | using_km_recsys_predictions_.py:137-143 | an eligible row whose name is absent from the output implies the output has 5 rows, and that row is rated no higher than the last of them |
| `RecommendationProperties.RecommendEmptyIffNothingEligible` | using_km_recsys_predictions_.py:109-146 | the output is empty exactly when no catalog row passes every filter; an empty result is a normal value |
| `RecommendationProperties.UnknownCuisineGivesEmpty` | using_km_recsys_predictions_.py:110-113 | a cuisine no catalog row has gives the empty result |
| `RecommendationProperties.MissingRequiredAmenityExcludes` | using_km_recsys_predictions_.py:115-121 | if business ids identify rows, a row lacking a required amenity never appears in the output |
| `RecommendationProperties.DefaultDistanceIsSixty` | using_km_recsys_predictions_.py:95-103 | called without a radius, every output row is at most 60 away |
| `RecommendationProperties.StricterRequestKeepsFewerRows` | using_km_recsys_predictions_.py:109-121 | a higher minimum rating, or newly requiring parking or WiFi, never keeps more rows after the attribute filters |
| `RecommendationProperties.TwoBranchesOneRow` | using_km_recsys_predictions_.py:134-143 | two branches of one name rated 3.5 and 4.2, both matching and in range, give one output row: the 4.2 branch |

## Left out

- The body of `haversine_distance` (floating-point trigonometry). Distance is a
  parameter of the query, and nothing is claimed about symmetry or zero distance.
- Floating point in general: ratings, coordinates and distances are exact
  reals, so NaN and rounding are not modelled.
- CSV reading, `na.drop` and the Spark session. The record type has no
  optional fields, which stands for "no nulls, fields typed".
- Columns the query never reads: the raw `parking`/`WiFi` text the loader
  keeps beside the flags (`using_km_recsys_predictions_.py:39-42`) and any
  other CSV column. The record holds only the columns the query reads.
- The `StringIndexer` step and its `cuisine_type_encoded` column. The query
  never reads that column.
- `load_saved_model`: it loads a library artefact and its exception printing
  is plumbing. The query never uses the loaded model.
- `interactive_recommendation` and `main`: console input, printing and the
  Spark lifecycle.
- Lazy, distributed evaluation and partitioning: a DataFrame is one sequence.
- The order of output rows with equal ratings is fixed by the choice described
  above. Spark leaves it open. The properties of `Recommend` proved in
  `RecommendationProperties` do not depend on it.
- The instance fields of the predictor object (`df`, `kmeans_model`, ...):
  the catalog is passed to the query as a value.
