/**
 * The hazard-raster click of src/main.ts: the tile to sample (`rasterClick`)
 * and the legend entry nearest to the sampled colour (`getGuide`).
 *
 * Foreign computations are parameters: `pointToTile` (tilebelt), `pixelAt`
 * (`getPixelColor`: fetch and decode the tile image, read the pixel under
 * the click) and `dist` (`chroma.distance` of the sampled colour to a legend colour).
 */
module HazardLegend {
  import opened Options
  import JsText

  /** A legend entry, and also the guide `getGuide` returns: a reference colour and its label. */
  datatype GuideColor = GuideColor(color: string, labelText: string)

  /** An entry of the intermediate array `getGuide` sorts: `{ distance, color, label }`. */
  datatype Ranked = Ranked(distance: real, color: string, labelText: string)

  // ---------------------------------------------------------------------------
  // getGuide

  /** The `map` step: every legend entry with its distance to the target colour. */
  function Rank<C>(target: C, legend: seq<GuideColor>, dist: (C, string) -> real): (r: seq<Ranked>)
    ensures |r| == |legend|
    ensures forall i :: 0 <= i < |r| ==> r[i] == Ranked(dist(target, legend[i].color), legend[i].color, legend[i].labelText)
  {
    seq(|legend|, i requires 0 <= i < |legend| => Ranked(dist(target, legend[i].color), legend[i].color, legend[i].labelText))
  }

  /** Inserts `x` before the first entry that is not nearer than it. */
  function Insert(x: Ranked, t: seq<Ranked>): seq<Ranked> {
    if t == [] || x.distance <= t[0].distance then [x] + t else [t[0]] + Insert(x, t[1..])
  }

  /**
   * `sort((a, b) => a.distance - b.distance)`: a stable sort by ascending
   * distance. A stable sort has only one possible result, so insertion sort
   * stands for the engine's algorithm.
   */
  function SortByDistance(s: seq<Ranked>): seq<Ranked> {
    if s == [] then [] else Insert(s[0], SortByDistance(s[1..]))
  }

  predicate SortedByDistance(s: seq<Ranked>) {
    forall i, j :: 0 <= i < j < |s| ==> s[i].distance <= s[j].distance
  }

  lemma {:induction false} InsertSorted(x: Ranked, t: seq<Ranked>)
    requires SortedByDistance(t)
    ensures SortedByDistance(Insert(x, t))
    ensures multiset(Insert(x, t)) == multiset(t) + multiset{x}
  {
    InsertPermutes(x, t);
    if t != [] && x.distance > t[0].distance {
      InsertSorted(x, t[1..]);
      var r := Insert(x, t[1..]);
      InsertBound(x, t[1..], t[0].distance);
      ConsSorted(t[0], r);
    }
  }

  /** An element no farther than every element of a sorted list can go in front of it. */
  lemma ConsSorted(h: Ranked, r: seq<Ranked>)
    requires SortedByDistance(r)
    requires forall k :: 0 <= k < |r| ==> h.distance <= r[k].distance
    ensures SortedByDistance([h] + r)
  {
    var s := [h] + r;
    forall i, j | 0 <= i < j < |s|
      ensures s[i].distance <= s[j].distance
    {
      assert s[j] == r[j - 1];
      if i > 0 {
        assert s[i] == r[i - 1];
      }
    }
  }

  /** Inserting adds exactly the one element. */
  lemma {:induction false} InsertPermutes(x: Ranked, t: seq<Ranked>)
    ensures multiset(Insert(x, t)) == multiset(t) + multiset{x}
  {
    if t != [] && x.distance > t[0].distance {
      InsertPermutes(x, t[1..]);
      assert t == [t[0]] + t[1..];
    }
  }

  /** A lower bound of the distances of `x` and of `t` bounds those of the result. */
  lemma {:induction false} InsertBound(x: Ranked, t: seq<Ranked>, lb: real)
    requires x.distance >= lb
    requires forall k :: 0 <= k < |t| ==> t[k].distance >= lb
    ensures forall k :: 0 <= k < |Insert(x, t)| ==> Insert(x, t)[k].distance >= lb
  {
    if t != [] && x.distance > t[0].distance {
      InsertBound(x, t[1..], lb);
    }
  }

  /** The sort returns its input reordered by ascending distance. */
  lemma {:induction false} SortSorted(s: seq<Ranked>)
    ensures SortedByDistance(SortByDistance(s))
    ensures multiset(SortByDistance(s)) == multiset(s)
  {
    if s != [] {
      SortSorted(s[1..]);
      InsertSorted(s[0], SortByDistance(s[1..]));
      assert s == [s[0]] + s[1..];
    }
  }

  /**
   * The first entry at the least distance: every entry is at least as far,
   * and every earlier entry is strictly farther.
   */
  function NearestIndex(s: seq<Ranked>): (k: nat)
    requires |s| > 0
    ensures k < |s|
    ensures forall j :: 0 <= j < |s| ==> s[k].distance <= s[j].distance
    ensures forall j :: 0 <= j < k ==> s[j].distance > s[k].distance
  {
    if |s| == 1 then 0
    else
      var k := NearestIndex(s[1..]);
      if s[0].distance <= s[1 + k].distance then 0 else 1 + k
  }

  /** Inserting `x` puts it first exactly when it is not farther than the head. */
  lemma InsertHead(x: Ranked, t: seq<Ranked>)
    requires t != []
    ensures Insert(x, t)[0] == if x.distance <= t[0].distance then x else t[0]
  {
  }

  /**
   * Because the sort is stable, its first entry is the first entry at the
   * least distance.
   */
  lemma {:induction false} SortHeadIsNearest(s: seq<Ranked>)
    requires |s| > 0
    ensures SortByDistance(s) != [] && SortByDistance(s)[0] == s[NearestIndex(s)]
  {
    if |s| == 1 {
      assert s[1..] == [];
    } else {
      SortHeadIsNearest(s[1..]);
      InsertHead(s[0], SortByDistance(s[1..]));
      assert s[1..][NearestIndex(s[1..])] == s[1 + NearestIndex(s[1..])];
    }
  }

  /**
   * `getGuide(target, legend)`: the colour and label of the legend entry
   * nearest to the target, the earliest listed one among equally near
   * entries. An empty legend leaves nothing at index 0, and reading its
   * colour throws; that outcome is `None`.
   */
  function GetGuide<C>(target: C, legend: seq<GuideColor>, dist: (C, string) -> real): (r: Option<GuideColor>)
    ensures r.None? <==> legend == []
    ensures r.Some? ==> exists k :: 0 <= k < |legend| && legend[k] == r.value
                          && (forall j :: 0 <= j < |legend| ==> dist(target, r.value.color) <= dist(target, legend[j].color))
                          && (forall j :: 0 <= j < k ==> dist(target, legend[j].color) > dist(target, r.value.color))
  {
    var ranked := Rank(target, legend, dist);
    var sorted := SortByDistance(ranked);
    if sorted == [] then None
    else
      SortHeadIsNearest(ranked);
      var closest := sorted[0];
      assert closest == ranked[NearestIndex(ranked)];
      Some(GuideColor(closest.color, closest.labelText))
  }

  // ---------------------------------------------------------------------------
  // rasterClick

  /** A slippy-map tile address as tilebelt returns it, `[x, y, z]`. */
  datatype Tile = Tile(x: int, y: int, z: int)

  /** A decoded RGBA pixel `[r, g, b, a]` as `getPixelColor` reads it. */
  datatype Pixel = Pixel(r: int, g: int, b: int, a: int)

  /** The highest zoom the hazard tiles exist at. */
  const MaxTileZoom := 17

  /**
   * `Math.min(Math.round(zoom), 17)`: the map zoom rounded to the nearest
   * integer, halves upward, and capped at the highest tile zoom.
   */
  function TileZoom(mapZoom: real): (z: int)
    ensures z <= MaxTileZoom
    ensures z < MaxTileZoom ==> z as real - 0.5 <= mapZoom < z as real + 0.5
    ensures z == MaxTileZoom ==> mapZoom >= MaxTileZoom as real - 0.5
  {
    var rounded := (mapZoom + 0.5).Floor;
    if rounded < MaxTileZoom then rounded else MaxTileZoom
  }

  /** The template with its first `{z}`, `{x}` and `{y}` replaced, in that order, by the tile numbers. */
  function TileUrl(template: string, t: Tile): string {
    var withZ := JsText.ReplaceFirst(template, "{z}", JsText.IntToDec(t.z));
    var withX := JsText.ReplaceFirst(withZ, "{x}", JsText.IntToDec(t.x));
    JsText.ReplaceFirst(withX, "{y}", JsText.IntToDec(t.y))
  }

  /**
   * For a template of the form `a{z}b{x}c{y}d` whose fixed parts hold no
   * `{`, the URL is the template with the three tile numbers in place.
   */
  lemma TileUrlFillsTemplate(a: string, b: string, c: string, d: string, t: Tile)
    requires JsText.NoBrace(a) && JsText.NoBrace(b) && JsText.NoBrace(c)
    ensures TileUrl(a + "{z}" + b + "{x}" + c + "{y}" + d, t)
         == a + JsText.IntToDec(t.z) + b + JsText.IntToDec(t.x) + c + JsText.IntToDec(t.y) + d
  {
    JsText.IntToDecRoundTrip(t.z);
    JsText.IntToDecRoundTrip(t.x);
    FillThree(a, b, c, d, JsText.IntToDec(t.z), JsText.IntToDec(t.x), JsText.IntToDec(t.y), "{z}", "{x}", "{y}");
  }

  /** The three placeholder replacements, for numbers whose text holds no `{`. */
  lemma FillThree(a: string, b: string, c: string, d: string, z: string, x: string, y: string,
                  pz: string, px: string, py: string)
    requires JsText.NoBrace(a) && JsText.NoBrace(b) && JsText.NoBrace(c)
    requires JsText.NoBrace(z) && JsText.NoBrace(x)
    requires |pz| > 0 && pz[0] == '{' && |px| > 0 && px[0] == '{' && |py| > 0 && py[0] == '{'
    ensures JsText.ReplaceFirst(JsText.ReplaceFirst(JsText.ReplaceFirst(
              a + pz + b + px + c + py + d, pz, z), px, x), py, y)
         == a + z + b + x + c + y + d
  {
    FillFirst(a, b, c + py + d, z, pz, px);
    assert a + pz + b + px + c + py + d == a + pz + b + px + (c + py + d);
    NoBraceJoin(a, z, b);
    FillFirst(a + z + b, c, d, x, px, py);
    assert (a + z + b) + px + (c + py + d) == (a + z + b) + px + c + py + d;
    NoBraceJoin(a + z + b, x, c);
    JsText.ReplaceFirstAfter(a + z + b + x + c, py, d, y);
  }

  /** Replacing the first of two placeholders `p` and `q` in `a p b q rest`. */
  lemma FillFirst(a: string, b: string, rest: string, r: string, p: string, q: string)
    requires JsText.NoBrace(a) && |p| > 0 && p[0] == '{'
    ensures JsText.ReplaceFirst(a + p + b + q + rest, p, r) == (a + r + b) + q + rest
  {
    assert a + p + b + q + rest == a + p + (b + q + rest);
    JsText.ReplaceFirstAfter(a, p, b + q + rest, r);
    assert a + r + (b + q + rest) == (a + r + b) + q + rest;
  }

  /** Zoom 13.5 rounds up to 14, zoom 13.49 down to 13; zoom 18.2 is capped at 17. */
  lemma TileZoomExamples()
    ensures TileZoom(13.5) == 14 && TileZoom(13.49) == 13 && TileZoom(18.2) == 17
  {
  }

  lemma NoBraceJoin(a: string, b: string, c: string)
    requires JsText.NoBrace(a) && JsText.NoBrace(b) && JsText.NoBrace(c)
    ensures JsText.NoBrace(a + b + c)
  {
  }

  /** The outcomes of a click on the hazard layer. */
  datatype ClickOutcome =
    | NoTileSource                       // the layer's source is missing or has no tile list
    | Failed                             // a TypeError: an empty tile list or an empty legend
    | NeverResolves                      // the tile image gave no pixel, so the promise never settles
    | Transparent                        // the pixel is fully transparent: no popup
    | Popup(url: string, guide: GuideColor)

  /** The tile under the click at the capped zoom (`tilebelt.pointToTile`). */
  function ClickedTile(lng: real, lat: real, mapZoom: real, pointToTile: (real, real, int) -> Tile): (t: Tile)
    ensures exists z :: z <= MaxTileZoom && t == pointToTile(lng, lat, z)
  {
    pointToTile(lng, lat, TileZoom(mapZoom))
  }

  /**
   * `rasterClick(lng, lat)`: the tile at the capped zoom, its URL from the
   * source's first template, the pixel `pixelAt` reads there (`getPixelColor`,
   * which also turns the tile into its bounding box), and the nearest
   * legend entry for a pixel that is not fully transparent. `tiles` is the
   * source's tile list, None when the source or its list is missing.
   */
  function RasterClick(
    lng: real, lat: real, mapZoom: real,
    pointToTile: (real, real, int) -> Tile,
    tiles: Option<seq<string>>,
    pixelAt: (real, real, Tile, string) -> Option<Pixel>,
    legend: seq<GuideColor>,
    dist: (Pixel, string) -> real): (r: ClickOutcome)
    ensures r == NoTileSource <==> tiles.None?
    ensures tiles.Some? && tiles.value == [] ==> r == Failed
    ensures tiles.Some? && tiles.value != [] ==>
              var tile := ClickedTile(lng, lat, mapZoom, pointToTile);
              var url := TileUrl(tiles.value[0], tile);
              match pixelAt(lng, lat, tile, url)
              case None => r == NeverResolves
              case Some(p) =>
                && (r == Transparent <==> p.a == 0)
                && (r == Failed <==> p.a != 0 && legend == [])
                && (r.Popup? <==> p.a != 0 && legend != [])
                && (r.Popup? ==>
                      r.url == url && r.guide in legend
                      && (forall e :: e in legend ==> dist(p, r.guide.color) <= dist(p, e.color))
                      && exists k :: 0 <= k < |legend| && legend[k] == r.guide
                           && forall j :: 0 <= j < k ==> dist(p, legend[j].color) > dist(p, r.guide.color))
  {
    var tile := ClickedTile(lng, lat, mapZoom, pointToTile);
    if tiles.None? then NoTileSource
    else if tiles.value == [] then Failed
    else
      var url := TileUrl(tiles.value[0], tile);
      match pixelAt(lng, lat, tile, url)
      case None => NeverResolves
      case Some(p) =>
        if p.a as real / 255.0 == 0.0 then Transparent
        else
          match GetGuide(p, legend, dist)
          case None => Failed
          case Some(g) => Popup(url, g)
  }
}
