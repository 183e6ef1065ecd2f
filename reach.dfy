/**
 * `setBuffer(val)` of src/main.ts: the reach area around the shelters for
 * a walking distance of `val` metres, drawn on the map's buffer source.
 *
 * The shelters in view (`querySourceFeatures`) are the argument
 * `shelters`; `turfBuffer` (a disc of a radius in kilometres around a point)
 * and `turfDissolve` (the union of overlapping polygons) are the
 * parameters `buffer` and `dissolve`.
 */
module Reach {

  /** What `setBuffer` does to the buffer source: nothing, or `setData` with a collection of polygons. */
  datatype Update<G> = Unchanged | SetData(polygons: seq<G>)

  /** The disc of every shelter for the radius, in shelter order. */
  function Discs<P, G>(shelters: seq<P>, radiusKm: real, buffer: (P, real) -> G): (ds: seq<G>)
    ensures |ds| == |shelters|
    ensures forall i :: 0 <= i < |shelters| ==> ds[i] == buffer(shelters[i], radiusKm)
  {
    seq(|shelters|, i requires 0 <= i < |shelters| => buffer(shelters[i], radiusKm))
  }

  /**
   * A distance of 0 clears the reach area; with no shelter in view the
   * area is left as it was; otherwise it becomes the union of one disc per
   * shelter, of radius `val / 1000` kilometres.
   */
  method SetBuffer<P, G>(val: real, shelters: seq<P>, buffer: (P, real) -> G, dissolve: seq<G> -> seq<G>)
    returns (u: Update<G>)
    ensures val == 0.0 ==> u == SetData([])
    ensures val != 0.0 && shelters == [] ==> u == Unchanged
    ensures val != 0.0 && shelters != [] ==> u == SetData(dissolve(Discs(shelters, val / 1000.0, buffer)))
  {
    var bufferPolygon: seq<G> := [];
    if val == 0.0 {
      return SetData(bufferPolygon);
    }
    if |shelters| == 0 {
      return Unchanged;
    }
    var i := 0;
    while i < |shelters|
      invariant 0 <= i <= |shelters|
      invariant bufferPolygon == Discs(shelters[..i], val / 1000.0, buffer)
    {
      bufferPolygon := bufferPolygon + [buffer(shelters[i], val / 1000.0)];
      i := i + 1;
    }
    assert shelters[..i] == shelters;
    u := SetData(dissolve(bufferPolygon));
  }
}
