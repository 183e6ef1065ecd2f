/**
 * The geocoder callbacks of src/main.ts: `forwardGeocode` turns a search
 * text into shelter places, `reverseGeocode` turns a pair of numbers of
 * unknown order into one or two coordinate places.
 */
module Geocoder {
  import opened GeoJson
  import opened Shelters
  import SearchText

  // ---------------------------------------------------------------------------
  // forwardGeocode

  /** The place for a shelter hit: its point, its `center`, and "name,address" as its label. */
  function ShelterPlace(s: Shelter): (p: Place)
    ensures p.coordinates == s.coordinates && p.center == s.coordinates
  {
    Place(s.coordinates, s.name + "," + s.address, s.coordinates)
  }

  /** The text before the first comma (all of it when there is none). */
  function BeforeComma(s: string): string {
    if s == [] || s[0] == ',' then [] else [s[0]] + BeforeComma(s[1..])
  }

  /** The text after the first comma (empty when there is none). */
  function AfterComma(s: string): string {
    if s == [] then [] else if s[0] == ',' then s[1..] else AfterComma(s[1..])
  }

  /**
   * A shelter's label gives back its name and its address, split at the
   * first comma, when the name itself holds no comma.
   */
  lemma {:induction false} PlaceNameSplits(name: string, address: string)
    requires ',' !in name
    ensures BeforeComma(name + "," + address) == name
    ensures AfterComma(name + "," + address) == address
  {
    if name != [] {
      assert (name + "," + address)[1..] == name[1..] + "," + address;
      PlaceNameSplits(name[1..], address);
    } else {
      assert name + "," + address == [','] + address;
    }
  }

  /**
   * `forwardGeocode`: the query is encoded, handed to the fuzzy index
   * (`search`, best hit first), and every hit becomes its place, in rank order.
   */
  function ForwardGeocode(hkToZk: string -> string, search: string -> seq<Shelter>, query: string): (r: seq<Place>)
    ensures var hits := search(SearchText.Encode(hkToZk, query));
            |r| == |hits| && forall i :: 0 <= i < |r| ==>
              r[i].coordinates == r[i].center == hits[i].coordinates
              && r[i].placeName == hits[i].name + "," + hits[i].address
  {
    var hits := search(SearchText.Encode(hkToZk, query));
    seq(|hits|, i requires 0 <= i < |hits| => ShelterPlace(hits[i]))
  }

  /**
   * Every place `forwardGeocode` returns names its hit: the label splits at
   * its first comma back into the hit's name and address, for a name
   * without a comma, and the place sits at the hit's point.
   */
  lemma ForwardGeocodeNamesHits(hkToZk: string -> string, search: string -> seq<Shelter>, query: string)
    ensures var hits := search(SearchText.Encode(hkToZk, query));
            var r := ForwardGeocode(hkToZk, search, query);
            |r| == |hits| && forall i :: 0 <= i < |r| ==>
              r[i].coordinates == hits[i].coordinates
              && (',' !in hits[i].name ==>
                    BeforeComma(r[i].placeName) == hits[i].name && AfterComma(r[i].placeName) == hits[i].address)
  {
    var hits := search(SearchText.Encode(hkToZk, query));
    var r := ForwardGeocode(hkToZk, search, query);
    forall i | 0 <= i < |r| && ',' !in hits[i].name
      ensures BeforeComma(r[i].placeName) == hits[i].name && AfterComma(r[i].placeName) == hits[i].address
    {
      PlaceNameSplits(hits[i].name, hits[i].address);
    }
  }

  /**
   * Searching an already encoded text finds what searching the raw text
   * does: the index sees one canonical query either way.
   */
  lemma ForwardGeocodeCanonical(hkToZk: string -> string, hk: char -> bool, search: string -> seq<Shelter>, query: string)
    requires SearchText.HalfToFullWidth(hkToZk, hk)
    ensures ForwardGeocode(hkToZk, search, SearchText.Encode(hkToZk, query)) == ForwardGeocode(hkToZk, search, query)
  {
    SearchText.EncodeIdempotent(hkToZk, hk, query);
  }

  // ---------------------------------------------------------------------------
  // reverseGeocode

  const LatitudeTag := "緯度: "
  const LongitudeTag := " 経度: "

  /** A value that can be a latitude: one in [-90, 90]. */
  predicate CanBeLatitude(v: real) {
    -90.0 <= v <= 90.0
  }

  /**
   * `coordinateFeature(lng, lat)`: a point at `[lng, lat]`, centred there,
   * labelled with the latitude first; `show` is JavaScript's number-to-text conversion.
   */
  function CoordinateFeature(show: real -> string, lng: real, lat: real): (p: Place)
    ensures p.coordinates == Position(lng, lat) && p.center == Position(lng, lat)
  {
    Place(Position(lng, lat), LatitudeTag + show(lat) + LongitudeTag + show(lng), Position(lng, lat))
  }

  /**
   * The readings of the pair `(a, b)` as `[lng, lat]` whose latitude is one,
   * `(a, b)` before `(b, a)`.
   */
  function PlausibleReadings(a: real, b: real): seq<Position> {
    (if CanBeLatitude(b) then [Position(a, b)] else []) + (if CanBeLatitude(a) then [Position(b, a)] else [])
  }

  /**
   * The readings the geocoder offers: the plausible ones, or both orders
   * when neither is plausible.
   */
  function Readings(a: real, b: real): seq<Position> {
    var p := PlausibleReadings(a, b);
    if p != [] then p else [Position(a, b), Position(b, a)]
  }

  /**
   * `reverseGeocode`: one feature per reading, in order. Exactly one
   * feature when exactly one number lies outside [-90, 90], and then that
   * number is its longitude; two otherwise, `(first, second)` first.
   */
  method ReverseGeocode(show: real -> string, first: real, second: real) returns (features: seq<Place>)
    ensures |features| == |Readings(first, second)|
    ensures forall i :: 0 <= i < |features| ==>
              features[i] == CoordinateFeature(show, Readings(first, second)[i].lng, Readings(first, second)[i].lat)
    ensures 1 <= |features| <= 2
    ensures |features| == 1 <==> CanBeLatitude(first) != CanBeLatitude(second)
    ensures |features| == 1 && !CanBeLatitude(first) ==> features[0].center == Position(first, second)
    ensures |features| == 1 && !CanBeLatitude(second) ==> features[0].center == Position(second, first)
    ensures |features| == 2 ==> features[0].center == Position(first, second) && features[1].center == Position(second, first)
  {
    features := [];
    if first < -90.0 || first > 90.0 {
      features := features + [CoordinateFeature(show, first, second)];
    }
    if second < -90.0 || second > 90.0 {
      features := features + [CoordinateFeature(show, second, first)];
    }
    if |features| == 0 {
      features := features + [CoordinateFeature(show, first, second)];
      features := features + [CoordinateFeature(show, second, first)];
    }
  }

  /**
   * Whenever either number can be a latitude, every reading offered has
   * a latitude in [-90, 90]; only when neither can is an impossible one offered.
   */
  lemma ReadingsHaveLatitudes(a: real, b: real)
    ensures CanBeLatitude(a) || CanBeLatitude(b) <==>
            forall i :: 0 <= i < |Readings(a, b)| ==> CanBeLatitude(Readings(a, b)[i].lat)
  {
    if !CanBeLatitude(a) && !CanBeLatitude(b) {
      assert !CanBeLatitude(Readings(a, b)[0].lat);
    }
  }

  /**
   * `(35, 139)`: only the second number can be the longitude, so one place
   * at lng 139, lat 35; `(35, 40)`: both orders are possible, so both are offered.
   */
  lemma ReadingsExamples()
    ensures Readings(35.0, 139.0) == [Position(139.0, 35.0)]
    ensures Readings(35.0, 40.0) == [Position(35.0, 40.0), Position(40.0, 35.0)]
  {
  }
}
