/**
 * Distance measurement on the map (the `contextmenu` and `click` handlers
 * of src/main.ts). The module-level collection `distanceGeojson` is a
 * `Measurer` object: its `features` hold the measured points in the order
 * they were placed and, once there are two or more, the shared line
 * feature as the last entry. The line's coordinates are the field
 * `lineCoords`, since the handler reassigns them on that one shared object.
 *
 * The path length in kilometres (`turfLength`) is the Measurer's parameter
 * `pathLen`; hit-testing (`queryRenderedFeatures`) and `crypto.randomUUID`
 * are the arguments `hit` and `freshId` of a right-click.
 */
module Distance {
  import opened Options
  import opened GeoJson
  import JsText

  /** A feature of the measurement collection: a placed point with its label, or the line through the points. */
  datatype Feature =
    | DistancePoint(id: string, coord: Position, distance: string)
    | DistanceLine

  /** The label of a point: the length in kilometres with two decimals and the unit, `${length.toFixed(2)}km`. */
  function Label(km: real): string {
    JsText.ToFixed2(km) + "km"
  }

  /** A label ends in "km", and the number before it is within half a hundredth of the length. */
  lemma LabelShowsLength(km: real)
    ensures var s := Label(km);
            && |s| > 2 && s[|s| - 2..] == "km"
            && JsText.IsFixed2Text(s[..|s| - 2])
            && -0.005 <= JsText.Fixed2Value(s[..|s| - 2]) - km <= 0.005
  {
    var text := JsText.ToFixed2(km);
    JsText.ToFixed2Accurate(km);
    var s := text + "km";
    assert s[..|s| - 2] == text;
  }

  predicate AllPoints(fs: seq<Feature>) {
    forall i :: 0 <= i < |fs| ==> fs[i].DistancePoint?
  }

  /** The coordinates of a list of points, in order. */
  function Coords(ps: seq<Feature>): (cs: seq<Position>)
    requires AllPoints(ps)
    ensures |cs| == |ps| && forall i :: 0 <= i < |ps| ==> cs[i] == ps[i].coord
  {
    seq(|ps|, i requires 0 <= i < |ps| => ps[i].coord)
  }

  /** The label of the point at index `i`: none for the first, the length of the path up to it for the others. */
  function PointLabel(pathLen: seq<Position> -> real, ps: seq<Feature>, i: nat): string
    requires AllPoints(ps) && i < |ps|
  {
    if i == 0 then "" else Label(pathLen(Coords(ps)[..i + 1]))
  }

  /** The points with every label recomputed, as the `map` callback writes them. */
  function Relabelled(pathLen: seq<Position> -> real, ps: seq<Feature>): (r: seq<Feature>)
    requires AllPoints(ps)
    ensures |r| == |ps| && AllPoints(r)
  {
    seq(|ps|, i requires 0 <= i < |ps| => ps[i].(distance := PointLabel(pathLen, ps, i)))
  }

  /** The points that are not the one with the given id (`filter(point => point.properties.id !== id)`). */
  function RemoveId(ps: seq<Feature>, id: string): (r: seq<Feature>)
    requires AllPoints(ps)
    ensures AllPoints(r)
  {
    if ps == [] then []
    else (if ps[0].id == id then [] else [ps[0]]) + RemoveId(ps[1..], id)
  }

  /** The point features of a collection (`filter(point => point.geometry.type === 'Point')`). */
  function OnlyPoints(fs: seq<Feature>): seq<Feature> {
    if fs == [] then []
    else (if fs[0].DistancePoint? then [fs[0]] else []) + OnlyPoints(fs[1..])
  }

  /** The id of a point is in use in `ps`. */
  predicate HasId(ps: seq<Feature>, id: string)
    requires AllPoints(ps)
  {
    exists i :: 0 <= i < |ps| && ps[i].id == id
  }

  predicate DistinctIds(ps: seq<Feature>)
    requires AllPoints(ps)
  {
    forall i, j :: 0 <= i < j < |ps| ==> ps[i].id != ps[j].id
  }

  /**
   * The points a right-click leaves before any relabelling: without the
   * ones with the hit id, or with a new unlabelled point at the end.
   */
  function Kept(ps: seq<Feature>, hit: Option<string>, at: Position, freshId: string): (r: seq<Feature>)
    requires AllPoints(ps)
    ensures AllPoints(r)
  {
    match hit
    case Some(id) => RemoveId(ps, id)
    case None => ps + [DistancePoint(freshId, at, "")]
  }

  // ---------------------------------------------------------------------------
  // Properties of the specification functions

  /** Removing an id keeps exactly the points with other ids, each with its label, in their order. */
  lemma {:induction false} RemoveIdKeepsOthers(ps: seq<Feature>, id: string)
    requires AllPoints(ps)
    ensures AllPoints(RemoveId(ps, id))
    ensures forall q :: q in RemoveId(ps, id) <==> q in ps && q.id != id
    ensures |RemoveId(ps, id)| <= |ps|
  {
    if ps != [] {
      RemoveIdKeepsOthers(ps[1..], id);
      assert ps == [ps[0]] + ps[1..];
    }
  }

  lemma {:induction false} RemoveIdAppend(a: seq<Feature>, b: seq<Feature>, id: string)
    requires AllPoints(a) && AllPoints(b)
    ensures AllPoints(a + b)
    ensures RemoveId(a + b, id) == RemoveId(a, id) + RemoveId(b, id)
  {
    if a == [] {
      assert a + b == b;
    } else {
      assert (a + b)[1..] == a[1..] + b;
      RemoveIdAppend(a[1..], b, id);
    }
  }

  /** A list without the id is left as it is. */
  lemma {:induction false} RemoveIdAbsent(ps: seq<Feature>, id: string)
    requires AllPoints(ps) && !HasId(ps, id)
    ensures RemoveId(ps, id) == ps
  {
    if ps != [] {
      NoIdInSlice(ps, id, 1, |ps|);
      RemoveIdAbsent(ps[1..], id);
      assert ps == [ps[0]] + ps[1..];
    }
  }

  /** A slice of a list that never uses an id does not use it either. */
  lemma NoIdInSlice(ps: seq<Feature>, id: string, lo: nat, hi: nat)
    requires AllPoints(ps) && lo <= hi <= |ps|
    requires forall i :: lo <= i < hi ==> ps[i].id != id
    ensures AllPoints(ps[lo..hi]) && !HasId(ps[lo..hi], id)
  {
    forall i | 0 <= i < hi - lo
      ensures ps[lo..hi][i].id != id
    {
      assert ps[lo..hi][i] == ps[lo + i];
    }
  }

  /**
   * With distinct ids, removing the id of the point at index `k` removes
   * exactly that point and keeps the others in order.
   */
  lemma RemoveIdUnique(ps: seq<Feature>, k: nat)
    requires AllPoints(ps) && DistinctIds(ps) && k < |ps|
    ensures RemoveId(ps, ps[k].id) == ps[..k] + ps[k + 1..]
  {
    var id := ps[k].id;
    forall i | 0 <= i < |ps| && i != k
      ensures ps[i].id != id
    {
      if i < k { assert ps[i].id != ps[k].id; } else { assert ps[k].id != ps[i].id; }
    }
    NoIdInSlice(ps, id, 0, k);
    NoIdInSlice(ps, id, k + 1, |ps|);
    SplitAt(ps, k);
    RemoveIdSplit(ps[0..k], ps[k], ps[k + 1..|ps|]);
  }

  lemma SplitAt(ps: seq<Feature>, k: nat)
    requires k < |ps|
    ensures ps == ps[0..k] + ([ps[k]] + ps[k + 1..|ps|])
    ensures ps[..k] == ps[0..k] && ps[k + 1..] == ps[k + 1..|ps|]
  {
  }

  lemma RemoveIdSplit(before: seq<Feature>, p: Feature, after: seq<Feature>)
    requires AllPoints(before) && AllPoints(after) && p.DistancePoint?
    requires !HasId(before, p.id) && !HasId(after, p.id)
    ensures AllPoints(before + ([p] + after))
    ensures RemoveId(before + ([p] + after), p.id) == before + after
  {
    var single := [p];
    assert single[1..] == [];
    assert RemoveId(single, p.id) == [];
    RemoveIdAppend(single, after, p.id);
    RemoveIdAbsent(after, p.id);
    assert RemoveId(single + after, p.id) == after;
    RemoveIdAppend(before, single + after, p.id);
    RemoveIdAbsent(before, p.id);
  }

  /** A collection made of points only passes through the point filter unchanged. */
  lemma {:induction false} OnlyPointsOfPoints(fs: seq<Feature>)
    requires AllPoints(fs)
    ensures OnlyPoints(fs) == fs
  {
    if fs != [] {
      OnlyPointsOfPoints(fs[1..]);
      assert fs == [fs[0]] + fs[1..];
    }
  }

  lemma {:induction false} OnlyPointsAppend(a: seq<Feature>, b: seq<Feature>)
    ensures OnlyPoints(a + b) == OnlyPoints(a) + OnlyPoints(b)
  {
    if a == [] {
      assert a + b == b;
    } else {
      var h, t := a[0], a[1..] + b;
      assert a + b == [h] + t && ([h] + t)[1..] == t;
      OnlyPointsAppend(a[1..], b);
      var keep := if h.DistancePoint? then [h] else [];
      assert OnlyPoints(a + b) == keep + OnlyPoints(t);
      assert OnlyPoints(a) == keep + OnlyPoints(a[1..]);
    }
  }

  /**
   * Relabelling keeps every point's id and coordinate; the first point has
   * no label and every later point the label of the path up to it, so the
   * last one shows the length of the whole path.
   */
  lemma RelabelledLabels(pathLen: seq<Position> -> real, ps: seq<Feature>)
    requires AllPoints(ps) && |ps| >= 2
    ensures var r := Relabelled(pathLen, ps);
            && Coords(r) == Coords(ps)
            && (forall i :: 0 <= i < |ps| ==> r[i].id == ps[i].id)
            && r[0].distance == ""
            && (forall i :: 0 < i < |ps| ==> r[i].distance == Label(pathLen(Coords(ps)[..i + 1])))
            && r[|ps| - 1].distance == Label(pathLen(Coords(ps)))
  {
    var cs := Coords(ps);
    assert cs[..|ps|] == cs;
  }

  /** Labels depend only on the coordinates, so relabelling twice is relabelling once. */
  lemma RelabelledIdempotent(pathLen: seq<Position> -> real, ps: seq<Feature>)
    requires AllPoints(ps)
    ensures Relabelled(pathLen, Relabelled(pathLen, ps)) == Relabelled(pathLen, ps)
  {
    var r := Relabelled(pathLen, ps);
    assert Coords(r) == Coords(ps);
  }

  /**
   * Before relabelling, placing a point with a fresh id and then removing
   * that id gives back the points as they were. The handler relabels in
   * between; `PlaceThenRemoveRestores` states the round trip with that step.
   */
  lemma AddThenRemove(ps: seq<Feature>, at: Position, freshId: string)
    requires AllPoints(ps) && !HasId(ps, freshId)
    ensures Kept(Kept(ps, None, at, freshId), Some(freshId), at, freshId) == ps
  {
    var p := DistancePoint(freshId, at, "");
    RemoveIdAppend(ps, [p], freshId);
    RemoveIdAbsent(ps, freshId);
    assert [p][1..] == [];
  }

  /** Appending a point leaves the labels of the points before it as they were. */
  lemma RelabelledPrefix(pathLen: seq<Position> -> real, ps: seq<Feature>, p: Feature)
    requires AllPoints(ps) && p.DistancePoint?
    ensures AllPoints(ps + [p])
    ensures Relabelled(pathLen, ps + [p])[..|ps|] == Relabelled(pathLen, ps)
  {
    var qs := ps + [p];
    forall i | 0 <= i < |ps|
      ensures Relabelled(pathLen, qs)[i] == Relabelled(pathLen, ps)[i]
    {
      assert Coords(qs)[..i + 1] == Coords(ps)[..i + 1];
    }
  }

  /**
   * The points after a right-click: the kept points, relabelled when two
   * or more remain. Of the collection, the line follows them exactly then.
   */
  function ClickedPoints(pathLen: seq<Position> -> real, ps: seq<Feature>, hit: Option<string>, at: Position, freshId: string): (r: seq<Feature>)
    requires AllPoints(ps)
    ensures AllPoints(r)
  {
    var kept := Kept(ps, hit, at, freshId);
    if |kept| > 1 then Relabelled(pathLen, kept) else kept
  }

  /**
   * With any number of points but one, all labelled up to date, placing a
   * point with a fresh id and then right-clicking it gives back the points
   * as they were. With exactly one point, the round trip clears its label
   * instead (its stale label is relabelled to "").
   */
  lemma PlaceThenRemoveRestores(pathLen: seq<Position> -> real, ps: seq<Feature>, at: Position, freshId: string)
    requires AllPoints(ps) && |ps| != 1 && !HasId(ps, freshId)
    requires |ps| > 1 ==> ps == Relabelled(pathLen, ps)
    ensures var placed := ClickedPoints(pathLen, ps, None, at, freshId);
            ClickedPoints(pathLen, placed, Some(freshId), at, freshId) == ps
  {
    var p := DistancePoint(freshId, at, "");
    if ps == [] {
      assert Kept(ps, None, at, freshId) == [p];
      assert RemoveId([p], freshId) == [];
    } else {
      var placed := Relabelled(pathLen, ps + [p]);
      assert ClickedPoints(pathLen, ps, None, at, freshId) == placed;
      RelabelledPrefix(pathLen, ps, p);
      var last := placed[|ps|];
      assert placed == ps + [last];
      RemoveLast(ps, last, freshId);
    }
  }

  /**
   * With exactly one point, placing a point with a fresh id and then
   * right-clicking it leaves that one point with its label cleared: the
   * two points were relabelled in between, the first to "".
   */
  lemma LonePointRoundTrip(pathLen: seq<Position> -> real, ps: seq<Feature>, at: Position, freshId: string)
    requires AllPoints(ps) && |ps| == 1 && !HasId(ps, freshId)
    ensures var placed := ClickedPoints(pathLen, ps, None, at, freshId);
            ClickedPoints(pathLen, placed, Some(freshId), at, freshId) == [ps[0].(distance := "")]
  {
    var p := DistancePoint(freshId, at, "");
    var placed := Relabelled(pathLen, ps + [p]);
    assert ClickedPoints(pathLen, ps, None, at, freshId) == placed;
    assert placed[0] == ps[0].(distance := "");
    assert placed == [ps[0].(distance := "")] + [placed[1]];
    assert !HasId([ps[0].(distance := "")], freshId);
    RemoveLast([ps[0].(distance := "")], placed[1], freshId);
  }

  /** Removing the id of a point appended to points without it gives back those points. */
  lemma RemoveLast(ps: seq<Feature>, last: Feature, id: string)
    requires AllPoints(ps) && last.DistancePoint? && last.id == id && !HasId(ps, id)
    ensures AllPoints(ps + [last])
    ensures RemoveId(ps + [last], id) == ps
  {
    RemoveIdAppend(ps, [last], id);
    RemoveIdAbsent(ps, id);
    assert [last][1..] == [];
  }

  /** Ids stay distinct when the id of a placed point is new. */
  lemma KeptDistinct(ps: seq<Feature>, hit: Option<string>, at: Position, freshId: string)
    requires AllPoints(ps) && DistinctIds(ps)
    requires hit.None? ==> !HasId(ps, freshId)
    ensures AllPoints(Kept(ps, hit, at, freshId)) && DistinctIds(Kept(ps, hit, at, freshId))
  {
    if hit.Some? {
      RemoveIdDistinct(ps, hit.value);
    }
  }

  lemma {:induction false} RemoveIdDistinct(ps: seq<Feature>, id: string)
    requires AllPoints(ps) && DistinctIds(ps)
    ensures AllPoints(RemoveId(ps, id)) && DistinctIds(RemoveId(ps, id))
  {
    if ps != [] {
      var tail := ps[1..];
      RemoveIdDistinct(tail, id);
      RemoveIdKeepsOthers(tail, id);
      var rest := RemoveId(tail, id);
      forall j | 0 <= j < |rest|
        ensures rest[j].id != ps[0].id
      {
        assert rest[j] in tail;
        IndexOf(tail, rest[j]);
      }
      if ps[0].id != id {
        ConsDistinct(ps[0], rest);
        assert RemoveId(ps, id) == [ps[0]] + rest;
      }
    }
  }

  /** A member of `tail` sits at some index of it. */
  lemma IndexOf(tail: seq<Feature>, q: Feature)
    requires q in tail
    ensures exists m :: 0 <= m < |tail| && tail[m] == q
  {
  }

  lemma ConsDistinct(h: Feature, r: seq<Feature>)
    requires h.DistancePoint? && AllPoints(r) && DistinctIds(r)
    requires forall k :: 0 <= k < |r| ==> r[k].id != h.id
    ensures AllPoints([h] + r) && DistinctIds([h] + r)
  {
    var s := [h] + r;
    forall i, j | 0 <= i < j < |s|
      ensures s[i].id != s[j].id
    {
      assert s[j] == r[j - 1];
      if i > 0 {
        assert s[i] == r[i - 1];
      }
    }
  }

  /** Relabelling keeps the ids, so it keeps them distinct. */
  lemma RelabelledDistinct(pathLen: seq<Position> -> real, ps: seq<Feature>)
    requires AllPoints(ps) && DistinctIds(ps)
    ensures DistinctIds(Relabelled(pathLen, ps))
  {
  }

  /** A right-click that leaves a single point leaves it with the label it had before. */
  lemma LonePointKeepsLabel(ps: seq<Feature>, id: string)
    requires AllPoints(ps) && |RemoveId(ps, id)| == 1
    ensures RemoveId(ps, id)[0] in ps
  {
    RemoveIdKeepsOthers(ps, id);
  }

  // ---------------------------------------------------------------------------
  // The measurement state

  class Measurer {
    /** `turfLength` in kilometres of the path through the given coordinates. */
    const pathLen: seq<Position> -> real

    /** `distanceGeojson.features`. */
    var features: seq<Feature>

    /** `distanceLine.geometry.coordinates`. */
    var lineCoords: seq<Position>

    /** The points of the collection: all but the trailing line, when there is one. */
    function Points(): seq<Feature>
      reads this
    {
      if |features| > 1 then features[..|features| - 1] else features
    }

    /**
     * The collection holds the points and, exactly when there are two or
     * more, the line as the last entry, following the points with every
     * label up to date.
     */
    ghost predicate Valid()
      reads this
    {
      && AllPoints(Points())
      && (|features| > 1 ==>
            && |features| >= 3
            && features[|features| - 1] == DistanceLine
            && lineCoords == Coords(Points())
            && Points() == Relabelled(pathLen, Points()))
    }

    /**
     * In a valid state the collection is its points followed by the line,
     * and the line is there exactly when there are two or more points.
     */
    lemma ValidShape()
      requires Valid()
      ensures OnlyPoints(features) == Points()
      ensures DistanceLine in features <==> |Points()| >= 2
      ensures features == if |Points()| >= 2 then Points() + [DistanceLine] else Points()
    {
      OnlyPointsOfPoints(Points());
      if |features| > 1 {
        assert features == Points() + [DistanceLine];
        OnlyPointsAppend(Points(), [DistanceLine]);
        assert OnlyPoints([DistanceLine]) == [] by {
          assert [DistanceLine][1..] == [];
        }
      } else {
        assert DistanceLine !in features by {
          assert forall f :: f in features ==> f.DistancePoint?;
        }
      }
    }

    /** The initial state: no feature and a line without coordinates. */
    constructor (pathLen: seq<Position> -> real)
      ensures this.pathLen == pathLen
      ensures features == [] && lineCoords == []
      ensures Valid()
    {
      this.pathLen := pathLen;
      features := [];
      lineCoords := [];
    }

    /**
     * A right-click: removes the line, then drops the points with the id
     * of the point under the cursor or places a new point; with two or
     * more points remaining, relabels them all and puts the line through
     * them back at the end. With fewer, nothing is relabelled.
     */
    method RightClick(hit: Option<string>, at: Position, freshId: string)
      requires Valid()
      modifies this
      ensures Valid()
      ensures var kept := Kept(old(Points()), hit, at, freshId);
              if |kept| > 1 then
                features == Relabelled(pathLen, kept) + [DistanceLine] && lineCoords == Coords(kept)
              else
                features == kept && lineCoords == old(lineCoords)
      ensures Points() == ClickedPoints(pathLen, old(Points()), hit, at, freshId)
      ensures DistinctIds(old(Points())) && (hit.None? ==> !HasId(old(Points()), freshId))
              ==> DistinctIds(Points())
    {
      ghost var before := Points();
      if |features| > 1 {
        features := features[..|features| - 1];
      }
      assert features == before;
      if hit.Some? {
        var points := OnlyPoints(features);
        OnlyPointsOfPoints(features);
        features := RemoveId(points, hit.value);
        RemoveIdKeepsOthers(points, hit.value);
      } else {
        features := features + [DistancePoint(freshId, at, "")];
      }
      ghost var kept := features;
      assert kept == Kept(before, hit, at, freshId);
      if |features| > 1 {
        DrawLine();
        assert Points() == Relabelled(pathLen, kept);
        RelabelledIdempotent(pathLen, kept);
      }
      if DistinctIds(before) && (hit.None? ==> !HasId(before, freshId)) {
        KeptDistinct(before, hit, at, freshId);
        if |kept| > 1 {
          RelabelledDistinct(pathLen, kept);
        }
      }
    }

    /**
     * The relabelling `map` over two or more points: every point gets its
     * label, the line gets the points' coordinates and goes at the end.
     */
    method DrawLine()
      requires AllPoints(features) && |features| > 1
      modifies this
      ensures features == Relabelled(pathLen, old(features)) + [DistanceLine]
      ensures lineCoords == Coords(old(features))
    {
      ghost var kept := features;
      // The callback writes each label into the point object it visits.
      var points := features;
      var coords: seq<Position> := [];
      var i := 0;
      while i < |points|
        invariant 0 <= i <= |points| == |kept|
        invariant points == Relabelled(pathLen, kept)[..i] + kept[i..]
        invariant coords == Coords(kept)[..i]
      {
        Relabelling(pathLen, kept, points, i);
        var text: string;
        if i == 0 {
          text := "";
        } else {
          text := Label(pathLen(Coords(points[..i + 1])));
        }
        RelabelStep(pathLen, kept, points, coords, i, text);
        coords := coords + [points[i].coord];
        points := points[i := points[i].(distance := text)];
        i := i + 1;
      }
      RelabelDone(pathLen, kept, points, coords);
      lineCoords := coords;
      features := points + [DistanceLine];
    }

    /** A left click on the map ends the measurement: the collection is emptied, the line's coordinates stay. */
    method Reset()
      requires Valid()
      modifies this
      ensures features == [] && lineCoords == old(lineCoords)
      ensures Valid()
    {
      features := [];
    }
  }

  /**
   * One step of the relabelling loop: with the points before index `i`
   * relabelled and the rest as kept, labelling point `i` as the loop does
   * extends the relabelled prefix by one, and its coordinate extends the
   * line's prefix by one.
   */
  lemma RelabelStep(pathLen: seq<Position> -> real, kept: seq<Feature>, fs: seq<Feature>, coords: seq<Position>, i: nat, text: string)
    requires AllPoints(kept) && i < |kept|
    requires fs == Relabelled(pathLen, kept)[..i] + kept[i..]
    requires coords == Coords(kept)[..i]
    requires AllPoints(fs) && |fs| == |kept|
    requires text == if i == 0 then "" else Label(pathLen(Coords(fs[..i + 1])))
    ensures coords + [fs[i].coord] == Coords(kept)[..i + 1]
    ensures fs[i := fs[i].(distance := text)] == Relabelled(pathLen, kept)[..i + 1] + kept[i + 1..]
  {
    Relabelling(pathLen, kept, fs, i);
    assert Coords(kept)[..i + 1] == Coords(kept)[..i] + [kept[i].coord];
    RelabelUpdate(pathLen, kept, fs, i);
  }

  /** When the loop has visited every point, all are relabelled and the line has all coordinates. */
  lemma RelabelDone(pathLen: seq<Position> -> real, kept: seq<Feature>, fs: seq<Feature>, coords: seq<Position>)
    requires AllPoints(kept)
    requires |fs| == |kept| && fs == Relabelled(pathLen, kept)[..|fs|] + kept[|fs|..]
    requires coords == Coords(kept)[..|fs|]
    ensures fs == Relabelled(pathLen, kept) && coords == Coords(kept)
  {
    assert kept[|fs|..] == [];
  }

  lemma RelabelUpdate(pathLen: seq<Position> -> real, kept: seq<Feature>, fs: seq<Feature>, i: nat)
    requires AllPoints(kept) && i < |kept|
    requires fs == Relabelled(pathLen, kept)[..i] + kept[i..]
    ensures |fs| == |kept|
    ensures fs[i := kept[i].(distance := PointLabel(pathLen, kept, i))] == Relabelled(pathLen, kept)[..i + 1] + kept[i + 1..]
  {
    var r := Relabelled(pathLen, kept);
    var u := fs[i := kept[i].(distance := PointLabel(pathLen, kept, i))];
    var w := r[..i + 1] + kept[i + 1..];
    assert |u| == |w|;
    forall j | 0 <= j < |u|
      ensures u[j] == w[j]
    {
      if j < i {
        assert fs[j] == r[j];
      } else if j > i {
        assert fs[j] == kept[j];
      }
    }
  }

  /**
   * While the loop is at index `i`, the points before it carry their new
   * labels and the rest are as kept, so the prefix up to `i` has the kept
   * coordinates.
   */
  lemma Relabelling(pathLen: seq<Position> -> real, kept: seq<Feature>, fs: seq<Feature>, i: nat)
    requires AllPoints(kept) && i < |kept|
    requires fs == Relabelled(pathLen, kept)[..i] + kept[i..]
    ensures AllPoints(fs) && |fs| == |kept|
    ensures fs[i] == kept[i] && fs[i].DistancePoint?
    ensures AllPoints(fs[..i + 1]) && Coords(fs[..i + 1]) == Coords(kept)[..i + 1]
  {
    var r := Relabelled(pathLen, kept);
    assert forall j :: 0 <= j < |fs| ==> fs[j] == (if j < i then r[j] else kept[j]);
  }
}
