/**
 * The GeoJSON shapes that the map code builds: a position is the `[lng, lat]`
 * pair of a Point geometry; a place is the feature handed to the geocoder control.
 */
module GeoJson {

  /** A GeoJSON position `[lng, lat]`; JavaScript numbers are modelled as reals. */
  datatype Position = Position(lng: real, lat: real)

  /**
   * A geocoder result feature: its Point geometry's coordinates, its
   * `place_name` and its `center`.
   */
  datatype Place = Place(coordinates: Position, placeName: string, center: Position)
}
