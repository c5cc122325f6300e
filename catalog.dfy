/**
 * Rows of the restaurant catalog: the cleaned table the recommendation query
 * reads, and the loader step that turns the textual amenity columns into flags.
 */
module Catalog {

  /** One catalog row after cleaning: no field is null, the amenities are booleans. */
  datatype Restaurant = Restaurant(
    businessId: string,
    busName: string,
    address: string,
    latitude: real,
    longitude: real,
    rating: real,
    cuisineType: string,
    hasParking: bool,
    hasWifi: bool)

  /** A row as the CSV provides it, with the amenities still as text. */
  datatype RawRestaurant = RawRestaurant(
    businessId: string,
    busName: string,
    address: string,
    latitude: real,
    longitude: real,
    rating: real,
    cuisineType: string,
    parking: string,
    wifi: string)

  /** `CASE WHEN col = 'Yes' THEN true ELSE false END`: a case-sensitive test. */
  predicate AmenityFlag(raw: string) {
    raw == "Yes"
  }

  /** One row of the two `withColumn` steps that derive `has_parking` and `has_wifi`. */
  function WithAmenityFlags(raw: RawRestaurant): Restaurant {
    Restaurant(raw.businessId, raw.busName, raw.address, raw.latitude, raw.longitude,
               raw.rating, raw.cuisineType, AmenityFlag(raw.parking), AmenityFlag(raw.wifi))
  }

  /**
   * The amenity derivation over the whole table: row for row, the flags are
   * set exactly when the text is "Yes", and the seven other modelled columns
   * are carried over unchanged.
   */
  function DeriveAmenityFlags(rows: seq<RawRestaurant>): (table: seq<Restaurant>)
    ensures |table| == |rows|
    ensures forall i :: 0 <= i < |rows| ==>
      && (table[i].hasParking <==> rows[i].parking == "Yes")
      && (table[i].hasWifi <==> rows[i].wifi == "Yes")
      && table[i].businessId == rows[i].businessId
      && table[i].busName == rows[i].busName
      && table[i].address == rows[i].address
      && table[i].latitude == rows[i].latitude
      && table[i].longitude == rows[i].longitude
      && table[i].rating == rows[i].rating
      && table[i].cuisineType == rows[i].cuisineType
  {
    if rows == [] then [] else [WithAmenityFlags(rows[0])] + DeriveAmenityFlags(rows[1..])
  }

  /** Only the exact text "Yes" turns a flag on; other spellings leave it off. */
  lemma AmenityFlagIsCaseSensitive()
    ensures AmenityFlag("Yes")
    ensures !AmenityFlag("yes") && !AmenityFlag("YES") && !AmenityFlag("No") && !AmenityFlag("")
  {
  }
}
