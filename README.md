# Shelter map: a Dafny model of its map logic

The map application (src/main.ts) shows evacuation shelters and hazard layers on a web map. This project models the logic behind those layers and proves properties of that model:

- the shelter search: `encode`, `forwardGeocode` and `reverseGeocode`;
- the barrier-free list in the shelter popup;
- the hazard-layer click: `rasterClick` and `getGuide`;
- right-click distance measurement, with its reset on a left click;
- the reach area built by `setBuffer`.

Modules, one per component, plus shared data and JavaScript built-ins:

- `Options` (`options.dfy`): the `Option` type.
- `GeoJson` (`geojson.dfy`): positions `[lng, lat]` and geocoder places.
- `JsText` (`jstext.dfy`): three JavaScript built-ins:
  - `Number.prototype.toString` on integers;
  - `Number.prototype.toFixed(2)`;
  - `String.prototype.replace` with a string pattern, which replaces only the first occurrence.
- `SearchText` (`searchtext.dfy`): `encode`, the canonical form that both the shelter index and the query go through.
- `Shelters` (`shelters.dfy`): shelter records and the barrier-free list. The method builds the list with `+=`, as the handler does.
- `Geocoder` (`geocoder.dfy`): `forwardGeocode` and `reverseGeocode`. `reverseGeocode` is a method that pushes onto a local list.
- `HazardLegend` (`hazardlegend.dfy`):
  - `getGuide` is a stable sort by colour distance, then its head. This is proved to be the first legend entry at the least distance.
  - `rasterClick` covers the tile zoom, the URL template and the outcome of the click.
- `Distance` (`distance.dfy`): the class `Measurer` holds the measurement collection. Its methods are the right-click handler and the reset, and it changes its fields in place as the handlers do.
- `Reach` (`reach.dfy`): `setBuffer`, as a method whose loop pushes one disc per shelter.

Where code calls into a library, the library becomes a function parameter of the model:

| library call | parameter |
|---|---|
| moji's half-width to full-width katakana | `hkToZk` |
| Fuse.js search | `search` |
| `Number` to text | `show` |
| `tilebelt.pointToTile` | `pointToTile` |
| `getPixelColor` | `pixelAt` |
| `chroma.distance` | `dist` |
| `turfLength` | `pathLen` |
| `turfBuffer` | `buffer` |
| `turfDissolve` | `dissolve` |

The facts about `hkToZk` that the proofs rely on are stated as the predicate `SearchText.HalfToFullWidth`.

Behaviour of the code that the model keeps:

- Some inputs make the click handler throw a `TypeError`:
  - the layer's tile list is empty (src/main.ts:708);
  - the legend is empty, so `getGuide` reads `closest.color` of nothing (src/main.ts:663, called at 720).

  The model makes this the explicit outcome `Failed`.
- Sometimes the tile image gives no pixel, or never loads. The code's promise (src/main.ts:677-692) then never settles. The model makes this the outcome `NeverResolves`.
- Once right-clicks leave a single point, the labels are not recomputed. That point keeps the distance label it had before (`Distance.LonePointKeepsLabel`). When a point is then placed and right-clicked away again, the lone point comes back with its label cleared (`Distance.LonePointRoundTrip`).
- The free-text "other" attribute of a shelter is listed only when it is exactly "○". Its list item then shows "○" (`Shelters.OtherItemShowsMark`).

The definitions that carry the modelled behaviour, with the code they follow:

- `SearchText.Encode` (src/main.ts:436-445): the four moji conversions, whitespace removal and lowering, in order.
- `SearchText.FullToHalfSpace`, `SearchText.FullToHalfAscii` and `SearchText.HiraganaToKatakana` (src/main.ts:439-441): the moji conversions ZS to HS, ZE to HE and HG to KK.
- `SearchText.StripSpaces` (src/main.ts:443): `replace(/\s+/g, '')`.
- `JsText.IntToDec` (src/main.ts:708): the `toString()` of the tile numbers.
- `Distance.ClickedPoints` (src/main.ts:811-850): the points after a right-click, relabelled when two or more remain.
- `JsText.ReplaceFirst` (src/main.ts:708): `String.prototype.replace` with a string pattern.
- `JsText.ToFixed2` (src/main.ts:846): `Number.prototype.toFixed(2)`.
- `Shelters.ListedItems` (src/main.ts:774-779): the items of the marked attributes, in the fixed order.
- `Geocoder.ForwardGeocode` (src/main.ts:469-488): one place per search hit, in rank order.
- `Geocoder.Readings` (src/main.ts:509-521): the readings `reverseGeocode` offers for a pair of numbers.
- `HazardLegend.Rank` (src/main.ts:656-661): the `map` step of `getGuide`, one ranked entry per legend entry.
- `HazardLegend.Insert` and `HazardLegend.SortByDistance` (src/main.ts:662): the stable sort by distance, as insertion sort.
- `HazardLegend.TileUrl` (src/main.ts:708): the three placeholder replacements.
- `Distance.Label` (src/main.ts:846-847): `${length.toFixed(2)}km`.
- `Distance.RemoveId`, `Distance.OnlyPoints` and `Distance.Kept` (src/main.ts:811-830): the collection after a right-click, before relabelling.
- `Distance.Relabelled` and `Distance.Coords` (src/main.ts:834-850): the cumulative labels and the line's coordinates.
- `Reach.Discs` (src/main.ts:880-884): one disc per shelter, of the given radius.

## Model

| member | source | states |
|---|---|---|
| JsText.NatToDec | src/main.ts:708 | the decimal text of a tile number has at least one digit, digits only, and no leading zero except for 0 |
| JsText.NatToDecValue | src/main.ts:708 | reading the decimal text back gives the number |
| JsText.IntToDecRoundTrip | src/main.ts:708 | an integer's text reads back as that integer and holds no `{`, so it cannot create a placeholder |
| JsText.ToFixed2Accurate | src/main.ts:846 | `toFixed(2)` writes an optional minus sign, digits, a point and two digits. The value lies within 0.005 of the number and has its sign |
| JsText.IndexFrom | src/main.ts:708 | the index found is an occurrence, with no occurrence before it; None means there is no occurrence at all |
| JsText.ReplaceFirstAfter | src/main.ts:708 | `replace` substitutes the first placeholder, the one after a prefix with no `{`, and leaves all later text, later occurrences included, alone |
| JsText.ReplaceFirstAbsent | src/main.ts:708 | `replace` with a pattern that does not occur returns the text unchanged |
| SearchText.StripSpacesKeeps | src/main.ts:442 | removing `\s+` keeps only characters of the input, and no whitespace |
| SearchText.StripSpacesNone | src/main.ts:442 | removing whitespace from text that has none changes nothing |
| SearchText.EncodeCanonical | src/main.ts:436-445 | the output of `encode` has no whitespace, no upper-case ASCII, no full-width ASCII, no hiragana and no half-width katakana that the HK to ZK step rewrites |
| SearchText.EncodeFixesCanonical | src/main.ts:436-445 | `encode` leaves canonical text unchanged |
| SearchText.EncodeIdempotent | src/main.ts:436-445 | encoding twice gives the same text as encoding once |
| SearchText.EncodeCaseInsensitive | src/main.ts:436-445 | for every text without half-width katakana, upper-casing its ASCII letters leaves its encoding unchanged |
| SearchText.EncodeKanaInsensitive | src/main.ts:436-445 | for every text without half-width katakana, turning its hiragana into katakana leaves its encoding unchanged |
| SearchText.EncodeWidthInsensitive | src/main.ts:436-445 | for every text without half-width katakana, writing its printable ASCII characters in their full-width forms leaves its encoding unchanged |
| SearchText.EncodeIgnoresWidth | src/main.ts:440 | instance: full-width "ＡＢＣ" and "ABC" encode alike |
| SearchText.EncodeIgnoresCase | src/main.ts:438-443 | instance: "ABC" and an ideographic space followed by "abc" both encode to "abc" |
| SearchText.EncodeIgnoresKana | src/main.ts:440 | instance: "あいう" and "アイウ" both encode to "アイウ" |
| Shelters.BarrierFreeList | src/main.ts:774-780 | the list is the items of the marked attributes in their fixed order, or the single "なし" item when none is marked |
| Shelters.ListedConcat | src/main.ts:774-779 | the whole list is the five attributes' parts one after the other, in the fixed order; a part is the item when the attribute is marked and nothing otherwise |
| Shelters.ConcatEmpty | src/main.ts:780 | the concatenated list is empty exactly when no item is listed, which is what the `!barrierFree` test checks |
| Shelters.NothingListed | src/main.ts:775-780 | nothing is listed exactly when no attribute carries "○" |
| Shelters.ListedExactly | src/main.ts:775-779 | every marked attribute has its item listed, and every listed item comes from a marked attribute |
| Shelters.OtherItemShowsMark | src/main.ts:779 | the item of the "other" attribute, when listed, is always `<li>○</li>` |
| Geocoder.ShelterPlace | src/main.ts:476-483 | a hit's place has the shelter's point as both its geometry and its center |
| Geocoder.PlaceNameSplits | src/main.ts:481 | if the name has no comma, splitting the "name,address" label at the first comma gives back the name and the address |
| Geocoder.ForwardGeocodeNamesHits | src/main.ts:469-488 | one place per search hit of the encoded query, in rank order; each sits at its hit's point, and its label splits at the first comma back into the hit's name and address when the name has no comma |
| Geocoder.ForwardGeocodeCanonical | src/main.ts:471 | searching an encoded query finds the same places as searching the raw query |
| Geocoder.CoordinateFeature | src/main.ts:492-502 | the place's geometry and its center are both `[lng, lat]` |
| Geocoder.ReverseGeocode | src/main.ts:490-525 | one feature per reading, and always 1 or 2 features. There is exactly one when exactly one number lies outside [-90, 90], and that number is its longitude. With 2 features, `(first, second)` comes first and `(second, first)` second |
| Geocoder.ReadingsHaveLatitudes | src/main.ts:509-521 | every offered reading has a latitude in [-90, 90] if and only if at least one of the numbers lies in that range |
| Geocoder.ReadingsExamples | src/main.ts:509-521 | (35, 139) gives one place at longitude 139; (35, 40) gives both orders |
| HazardLegend.InsertSorted | src/main.ts:662 | inserting into a sorted list keeps it sorted and adds exactly one element |
| HazardLegend.SortSorted | src/main.ts:662 | the sort's output is sorted by ascending distance and is a permutation of its input |
| HazardLegend.NearestIndex | src/main.ts:662 | an index at the least distance, with every earlier entry strictly farther |
| HazardLegend.SortHeadIsNearest | src/main.ts:662 | the head of the stable sort is the first entry at the least distance |
| HazardLegend.GetGuide | src/main.ts:655-664 | None exactly for an empty legend. Otherwise the result is a legend entry no farther than any other, and every earlier entry is strictly farther |
| HazardLegend.TileZoom | src/main.ts:698 | the zoom is at most 17. Below 17 it is the nearest integer to the map zoom, halves rounding up; it is 17 exactly when the map zoom is at least 16.5 |
| HazardLegend.TileZoomExamples | src/main.ts:698 | 13.5 gives 14, 13.49 gives 13, 18.2 gives 17 |
| HazardLegend.ClickedTile | src/main.ts:698-699 | the tile is the one under the click at a zoom of at most 17 |
| HazardLegend.TileUrlFillsTemplate | src/main.ts:708 | for a template `a{z}b{x}c{y}d` whose fixed parts before `{y}` have no `{`, the URL is the template with the zoom, x and y numbers in place |
| HazardLegend.RasterClick | src/main.ts:696-721 | each outcome of a click, and when it occurs:<br>• a missing source or tile list gives no update;<br>• an empty tile list or an empty legend fails;<br>• no pixel means the click never resolves;<br>• alpha 0 gives no popup;<br>• otherwise a popup at the filled-in template URL, with the earliest legend entry at the least distance from the sampled pixel |
| Distance.LabelShowsLength | src/main.ts:846-847 | the label ends in "km" and, before that, is two-decimal text within 0.005 of the length |
| Distance.RemoveIdKeepsOthers | src/main.ts:815 | exactly the points with another id remain, with their labels, and the list never grows |
| Distance.RemoveIdAbsent | src/main.ts:815 | clicking an id that no point has leaves the points as they are |
| Distance.RemoveIdUnique | src/main.ts:815 | with distinct ids, removing the id of point k removes exactly that point and keeps the order of the others |
| Distance.OnlyPointsOfPoints | src/main.ts:814 | the point filter leaves a list of points unchanged |
| Distance.RelabelledLabels | src/main.ts:834-850 | relabelling keeps ids and coordinates. The first point gets "" and point i > 0 the label of the path through points 0..i, so the last point shows the whole path |
| Distance.RelabelledIdempotent | src/main.ts:834-850 | labels depend only on coordinates, so relabelling twice equals relabelling once |
| Distance.AddThenRemove | src/main.ts:811-830 | before any relabelling, placing a point with a fresh id and then removing that id gives back the points as they were |
| Distance.PlaceThenRemoveRestores | src/main.ts:798-858 | with the relabelling in between: for any number of points other than one, all labelled up to date, placing a point with a fresh id and then right-clicking it gives back the points as they were |
| Distance.LonePointRoundTrip | src/main.ts:798-858 | with exactly one point, placing a point and then right-clicking it leaves that point with its label cleared to "" |
| Distance.KeptDistinct | src/main.ts:811-830 | the ids stay distinct when the placed point's id is fresh |
| Distance.RemoveIdDistinct | src/main.ts:815 | removing an id keeps the ids distinct |
| Distance.RelabelledDistinct | src/main.ts:834-850 | relabelling keeps the ids distinct |
| Distance.LonePointKeepsLabel | src/main.ts:810-831 | a point that is left alone is one of the old points, carrying its old label |
| Distance.Measurer.ValidShape | src/main.ts:810 | in a valid state the collection is its points, followed by the line exactly when there are two or more points |
| Distance.Measurer.constructor | src/main.ts:103-118 | the collection starts empty and the line has no coordinates |
| Distance.Measurer.RightClick | src/main.ts:798-858 | the line is taken off, then the hit id is removed or a new point appended. With two or more points left, all are relabelled and the line through them goes last; otherwise the points stay as they are and the line keeps its old coordinates. The points are `ClickedPoints` of the old points. The state invariant holds afterwards, and the ids stay distinct |
| Distance.Measurer.DrawLine | src/main.ts:831-854 | every point gets its cumulative label and the line gets the points' coordinates in order, as the last entry |
| Distance.Measurer.Reset | src/main.ts:743 | the collection is emptied, the line's coordinates stay, and the invariant holds |
| Reach.SetBuffer | src/main.ts:865-890 | a distance of 0 sets an empty collection; no shelter in view leaves the area unchanged; otherwise the area is the union of one disc of radius val/1000 km per shelter |

## Left out

- Map style, layers and controls, the DOM, popups, markers and cursor styles. This is configuration and rendering with no logic to prove.
- The slider and `moveend` handlers. The reach area is drawn only at zoom 13 or more; that gate is not modelled.
- `setData` and the map's rendering of the collections. The model stops at the data the handlers produce.
- Library internals stay abstract, because they are foreign code:
  - Fuse.js fuzzy scoring, and the encoding of the index entries;
  - moji's half-width to full-width katakana conversion;
  - chroma's colour distance;
  - turf's geodesic length, buffer and dissolve;
  - tilebelt's tile and bounding-box arithmetic;
  - the image loading and canvas read in `getPixelColor`.
- SearchText.AsciiLower: `toLowerCase` lowers only the ASCII letters here, because full Unicode case mapping is not modelled. Lowering of other letters is not captured, for example Latin-1, Greek and Cyrillic capitals, or the Roman numeral Ⅱ (U+2161) becoming ⅱ.
- SearchText.EncodeCaseInsensitive, SearchText.EncodeKanaInsensitive and SearchText.EncodeWidthInsensitive: stated for text without the half-width katakana that the HK to ZK step rewrites, because that step is the abstract parameter `hkToZk`.
- `JsText.ToFixed2`: does not model the exponent form that `toFixed` uses for magnitudes of 1e21 and above, or NaN and infinities. Numbers are exact reals here, not binary floating point.
- JsText.ReplaceFirst: does not model `$` patterns in the replacement string. Integer text never contains `$`.
- Geocoder: the number-to-text conversion in the reverse-geocode label is the parameter `show`. NaN inputs are not modelled.
- HazardLegend.RasterClick: the layer and legend lookups (src/main.ts:702-703, 717) are assumed to succeed. If they fail the code throws; here `tiles` and `legend` are given directly.
- Asynchrony: `rasterClick` and the geocoder callbacks are async. Each is modelled as a synchronous function of the values it awaits.
- Distance.Measurer:
  - the `if (!map)` and `if (!distanceGeojson)` guards never fire, so they are not modelled;
  - point objects are modelled as values, because nothing other than the collection refers to them.
- `crypto.randomUUID` becomes the argument `freshId`. That it differs from existing ids appears as a hypothesis of the distinct-ids property.
- JsText.IntToDec: the number-to-text conversion is modelled for integers only. Tile numbers are integers.
