# Greengap ranking and Hospitales neighbour detection, in Dafny

This project models the two pieces of logic in the web application's pages that
are more than map plumbing, and proves properties of them.

- **Greengap** (`greengap.dfy`, `greengap_samples.dfy`). The green-space priority
  list is the block groups whose vegetation index and park access fall below two
  slider thresholds. They are sorted stably by green deficit index (gdi), highest
  first, and cut to ten. Each site's action is looked up in the fixed intervention
  table. The four-point coverage/cost projection folds the looked-up impacts into
  totals. The page's ten sample block groups serve as test vectors.
- **Hospitales** (`hospitales.dfy`, with `js_string.dfy`, `number_format.dfy`,
  `geo_json.dfy`, `lat_lng_bounds.dfy`).
  - The vertex keys of a country's polygons: `toFixed(6)` of latitude, then of
    longitude.
  - The shared-vertex test.
  - The case-insensitive first-match country search.
  - The three-stage lookup of the selected country's layer: by code, by name, then
    by geometry.
  - The neighbour selection: another layer whose bounding box meets the target's
    and that shares a vertex key with it.
  - The filter that keeps the hospital elements with usable coordinates.

The forms follow the source.
- Filter, sort and take are pure functions. The sort is a stable insertion sort.
- The projection's reduce-and-push is a method with a loop. It is proved equal to
  the function `Projection`.
- The Hospitales helpers are methods with the source's loops, early returns and
  `break`s. Each is proved equal to a specification function or predicate.

The model makes these choices:
- `ndvi_pct` is held as integer hundredths.
- Coordinates and the projection use `real`.
- `toFixed(6)` is modelled exactly on the number's real value. The result keeps a
  sign flag that is set whenever the number is negative, even when the magnitude
  rounds to zero. The magnitude is the nearest millionth, ties going up.
- A vertex key is the pair of those two values. `CoordKeyText` proves that equal
  pairs are exactly equal `` `${lat},${lon}` `` texts.
- A layer is identified by its index in `eachLayer` order.
- `JSON.stringify` equality of geometries is structural equality of the
  `Geometry` datatype.

## Model

| member | source | states |
|---|---|---|
| Greengap.FilteredPriorities | app/Greengap/page.js:23-27 | the `filter`, `sort` and `slice(0, 10)` chain; its meaning is given by PrioritiesAreSelection, PrioritiesOrdered and PrioritiesComplete |
| Greengap.Filter | app/Greengap/page.js:24-25 | never longer than the data; FilterCounts, FilterMonotone and FilterGrows say which records it keeps |
| Greengap.FilterCounts | app/Greengap/page.js:24-25 | the filter keeps each record that passes both thresholds exactly as often as the data holds it, and nothing else |
| Greengap.SortByGdi | app/Greengap/page.js:26 | `sort((a, b) => b.gdi - a.gdi)`, keeping the length; SortByGdiSorted, SortByGdiStable and SortByGdiUnique make it the stable descending sort |
| Greengap.InsertByGdi | app/Greengap/page.js:26 | one insertion step of that sort, adding one record; InsertByGdiSorted says where it goes |
| Greengap.SortByGdiSorted | app/Greengap/page.js:26 | the sort output has non-increasing gdi and is a permutation of its input |
| Greengap.InsertByGdiSorted | app/Greengap/page.js:26 | inserting into a sorted list keeps it sorted and adds exactly the new record |
| Greengap.SortByGdiStable | app/Greengap/page.js:26 | stability: the records of each gdi come out in input order |
| Greengap.SortByGdiUnique | app/Greengap/page.js:26 | any sorted list with the input's tie classes in input order is the sort's output: the stable descending sort is unique |
| Greengap.FilterWithGdi | app/Greengap/page.js:24-26 | filtering commutes with taking one gdi's records |
| Greengap.Take | app/Greengap/page.js:26 | `slice(0, n)` gives the prefix of exactly `n` records, or the whole list when it is shorter |
| Greengap.PrioritiesAreSelection | app/Greengap/page.js:23-27 | at most ten records, each from the data, unaltered, passing both thresholds; no record occurs more often than in the data |
| Greengap.PrioritiesOrdered | app/Greengap/page.js:23-27 | the list has non-increasing gdi; the records of one gdi are a prefix of that gdi's qualifying records in data order |
| Greengap.PrioritiesComplete | app/Greengap/page.js:23-27 | a qualifying record is left out only when ten records are listed, all with a gdi at least its own |
| Greengap.FilterMonotone | app/Greengap/page.js:25 | with lower thresholds the filter result is the higher thresholds' result filtered again |
| Greengap.FilterGrows | app/Greengap/page.js:25 | raising either threshold never removes a record from the filtered set |
| Greengap.SimulateIntervention | app/Greengap/page.js:381-390 | every impact has a non-negative boost, cost and return |
| Greengap.InterventionKnown | app/Greengap/page.js:381-390 | an action has a non-zero impact exactly when it is in the table; table entries are positive; "Schoolyard sharing" gives 9, 95000, 88 |
| Greengap.TotalBoost | app/Greengap/page.js:34-39 | the reduce's `totalBoost`, never negative; TotalsAppend, TotalsRemove and TotalsPermutation say it sums the sites' boosts in any order |
| Greengap.TotalCost | app/Greengap/page.js:34-39 | the reduce's `totalCost`, never negative; the same three lemmas state its sums |
| Greengap.Projection | app/Greengap/page.js:30-60 | the projection series in closed form; ProjectionData proves the loop computes it and ProjectionShape states its shape |
| Greengap.ProjectionData | app/Greengap/page.js:30-60 | the reduce and the pushes build exactly the series `Projection` of the site list |
| Greengap.ProjectionShape | app/Greengap/page.js:30-60 | the series starts at (2025, 58, 0); an empty list gives that point alone; any other list gives four points with increasing years and non-decreasing costs, the last cost the total cost and the last coverage between 58 and 100 |
| Greengap.TotalsAppend | app/Greengap/page.js:34-39 | the totals of a concatenation are the sums of the parts' totals |
| Greengap.TotalsRemove | app/Greengap/page.js:34-39 | removing one site removes exactly its boost and cost from the totals |
| Greengap.TotalsPermutation | app/Greengap/page.js:34-39 | the totals depend only on which sites are listed, not on their order |
| GreengapSamples.DefaultFilter | app/Greengap/page.js:368-379 | with the sliders at 30 and 60, six sample block groups pass, in data order; Riverside, Downtown Core, Block Group 088 and East Suburbs fail |
| GreengapSamples.DefaultPriorities | app/Greengap/page.js:12 | the default list is Industrial Park, District North, Block Group 101, Block Group 045, Block Group 132, Block Group 067 |
| GreengapSamples.SampleBoost | app/Greengap/page.js:368-389 | the sample block groups' boosts add up to 99 |
| GreengapSamples.ListsAll | app/Greengap/page.js:23-39 | when every record passes and there are at most ten, all of them are listed, sorted, with the data's total boost |
| GreengapSamples.AllSamplesListed | app/Greengap/page.js:199-205 | with both sliders at their maxima (60, 90) all ten samples are listed, for a total boost of 99 |
| GreengapSamples.ProjectionOvershoot | app/Greengap/page.js:41-56 | with all samples the 2028 coverage (127.3) exceeds the capped 2030 coverage (100) |
| NumberFormat.ToFixed6 | app/Hospitales/page.js:201 | `toFixed(6)` keeps the sign of any negative number and prints the magnitude within half a millionth, ties going up |
| NumberFormat.ToFixed6Unique | app/Hospitales/page.js:201 | exactly one magnitude satisfies that bound |
| NumberFormat.SameFixedNear | app/Hospitales/page.js:200-201 | numbers that print alike lie less than a millionth apart |
| NumberFormat.TinyNegativeKeepsSign | app/Hospitales/page.js:201 | -1e-7 prints with a minus sign and differs from 1e-7, which prints as zero does |
| NumberFormat.RenderZeros | app/Hospitales/page.js:201 | the two zeros print as "0.000000" and "-0.000000" |
| NumberFormat.Decimal | app/Hospitales/page.js:201 | the integer part is printed as decimal digits whose value is the number |
| NumberFormat.PaddedDigits | app/Hospitales/page.js:201 | the six fraction digits are decimal digits whose value is the fraction |
| NumberFormat.Render | app/Hospitales/page.js:201 | a printed number has no comma and at least eight characters |
| NumberFormat.RenderRoundTrip | app/Hospitales/page.js:201 | the printed text reads back to the printed value |
| NumberFormat.RenderInjective | app/Hospitales/page.js:201 | different values never print alike |
| NumberFormat.KeyText | app/Hospitales/page.js:201 | the `` `${lat},${lon}` `` key text; KeyTextInjective states when two are equal |
| NumberFormat.KeyTextInjective | app/Hospitales/page.js:201 | two key texts are equal exactly when their latitudes and their longitudes print alike |
| JsString.Trim | app/Hospitales/page.js:237 | `trim`; TrimIsSlice, TrimEmptyIff and TrimIdempotent state what it returns |
| JsString.ToLower | app/Hospitales/page.js:237 | `toLowerCase`, keeping the length; ToLowerProperties states what it changes |
| JsString.Contains | app/Hospitales/page.js:251 | `indexOf(q) !== -1`; ContainsIff states it holds exactly when `q` occurs |
| JsString.TrimIsSlice | app/Hospitales/page.js:237 | `trim` returns a slice of the query, cut only at white space, starting and ending with non-white characters |
| JsString.TrimEmptyIff | app/Hospitales/page.js:237-238 | the trimmed query is empty exactly when the query is all white space |
| JsString.TrimIdempotent | app/Hospitales/page.js:237 | trimming twice is trimming once |
| JsString.ToLowerProperties | app/Hospitales/page.js:237 | lowercasing leaves no upper-case letter, changes nothing else and is idempotent |
| JsString.ContainsIff | app/Hospitales/page.js:251 | `indexOf(q) !== -1` holds exactly when `q` occurs at some index |
| GeoJson.FirstTruthy | app/Hospitales/page.js:282-283 | an `a \|\| b \|\| c` chain of property reads, also at lines 292-300 and 347-353; FirstTruthyIff states which value it yields |
| GeoJson.FirstTruthyIff | app/Hospitales/page.js:282-283 | an `a \|\| b \|\| c` chain yields nothing exactly when no field is truthy, and otherwise the value of the first truthy field |
| GeoJson.Vertices | app/Hospitales/page.js:205-218 | the positions the ring loops visit, in order; VerticesMember states which positions they are |
| GeoJson.VerticesMember | app/Hospitales/page.js:205-218 | a position is a vertex exactly when it lies on a ring of the polygon or of one of the multipolygon's polygons |
| LatLngBounds.BoundsOf | app/Hospitales/page.js:330 | a layer has a box exactly when it has a vertex |
| LatLngBounds.BoundsContain | app/Hospitales/page.js:330-334 | the box of the vertices is valid and holds every vertex |
| LatLngBounds.BoundsTight | app/Hospitales/page.js:330-334 | each edge of the box lies on a vertex |
| LatLngBounds.Intersects | app/Hospitales/page.js:335 | `intersects` on two boxes; IntersectsIff states it holds exactly when they share a point |
| LatLngBounds.IntersectsIff | app/Hospitales/page.js:335 | two valid boxes intersect exactly when they share a point, so the test is symmetric |
| Hospitales.CoordKey | app/Hospitales/page.js:199-201 | the key of one position, its two `toFixed(6)` values; CoordKeyText states it stands for the key text |
| Hospitales.GeometryKeys | app/Hospitales/page.js:199-221 | the keys `collectCoordsPairs` pushes; GeometryKeysCover states them and CollectCoordsPairs proves the loops compute them |
| Hospitales.CoordKeyText | app/Hospitales/page.js:199-201 | two positions have equal key texts exactly when their keys are equal; equal keys lie within a millionth on both axes |
| Hospitales.KeysOfMember | app/Hospitales/page.js:199-202 | a key is among a list's keys exactly when some position of the list has it |
| Hospitales.GeometryKeysCover | app/Hospitales/page.js:194-221 | the keys are those of the rings' positions; a missing or non-polygon geometry has none |
| Hospitales.PushRing | app/Hospitales/page.js:207-209 | the innermost loop appends one key per position of the ring, in order, to what was there |
| Hospitales.CollectCoordsPairs | app/Hospitales/page.js:194-221 | the nested loops push one key per position, in document order, duplicates kept |
| Hospitales.HasSharedVertex | app/Hospitales/page.js:224-232 | the set-and-scan returns true exactly when the two key lists have a key in common |
| Hospitales.SharesVertexIff | app/Hospitales/page.js:224-232 | sharing a vertex means two positions, one on each geometry, with equal rounded latitude and longitude |
| Hospitales.SharesVertexSymmetric | app/Hospitales/page.js:224-232 | the test is symmetric and false when either geometry is missing or not a polygon |
| Hospitales.MatchesAnyField | app/Hospitales/page.js:242-254 | the field loop finds a match exactly when some truthy search field contains the query, ignoring case |
| Hospitales.FindCountryFeature | app/Hospitales/page.js:235-257 | nothing without a collection or with a blank query; otherwise the first matching feature, and nothing only when none matches |
| Hospitales.FirstMatchingFeature | app/Hospitales/page.js:241-256 | the feature loop returns the first feature that matches, or nothing when none does |
| Hospitales.FirstMatch | app/Hospitales/page.js:279-317 | one stage's loop: the first layer recognised at that stage, or none when no layer is |
| Hospitales.ResolveTarget | app/Hospitales/page.js:278-317 | the staged search for the target layer; ResolveTargetPrecedence and ListedFeatureHasTarget state its result and ResolveTargetLayer proves the loops compute it |
| Hospitales.ResolveTargetPrecedence | app/Hospitales/page.js:278-322 | the target is the first layer of the first stage that recognises any layer; there is none exactly when no stage recognises a layer |
| Hospitales.ListedFeatureHasTarget | app/Hospitales/page.js:309-317 | a feature that is one of the layers' features always finds a target |
| Hospitales.ResolveTargetLayer | app/Hospitales/page.js:278-317 | the three loops with `break` compute the staged target |
| Hospitales.LayerBounds | app/Hospitales/page.js:330-334 | `getBounds` of a layer, the box of its vertices; BoundsOf, BoundsContain and BoundsTight state it |
| Hospitales.Neighbours | app/Hospitales/page.js:329-341 | the neighbour list; NeighboursMember and NeighboursSymmetric state it and SelectNeighbours proves the loop computes it |
| Hospitales.IndicesMember | app/Hospitales/page.js:329-341 | the selected indices are exactly those below the bound that pass the test |
| Hospitales.IndicesIncreasing | app/Hospitales/page.js:329-341 | the selected indices come out in increasing order |
| Hospitales.NeighboursMember | app/Hospitales/page.js:329-341 | the neighbours are exactly the other layers whose box meets the target's and that share a vertex with it, each once, in layer order |
| Hospitales.SelectNeighbours | app/Hospitales/page.js:329-341 | the neighbour loop computes exactly that list |
| Hospitales.HighlightCountryAndNeighbors | app/Hospitales/page.js:260-354 | without a target nothing is selected and the id stays null; with one, the neighbours are computed and the id is the first truthy of ISO_A3, ISO3, ADM0_A3, ADMIN, NAME |
| Hospitales.NeighboursSymmetric | app/Hospitales/page.js:329-341 | being neighbours is symmetric, and no layer is its own neighbour |
| Hospitales.PrefilterKeepsCommonVertex | app/Hospitales/page.js:330-338 | the box pre-filter never drops a layer with an exact common position |
| Hospitales.PrefilterDropsOnlyNearMisses | app/Hospitales/page.js:330-338 | a layer that shares a key but is dropped has two different positions less than a millionth apart that round to the same key |
| Hospitales.NearMissIsNotNeighbour | app/Hospitales/page.js:199-201 | such a near miss exists: two closed squares, one up to latitude 1e-7 and one from latitude 2e-7, share a key at corners 1e-7 apart, but their boxes are disjoint, so they are not neighbours |
| Hospitales.HospitalMarkers | app/Hospitales/page.js:422-426 | no more markers than elements |
| Hospitales.HospitalMarkersAppend | app/Hospitales/page.js:422-426 | elements are filtered one by one, keeping order |
| Hospitales.HospitalMarkersMember | app/Hospitales/page.js:422-426 | a marker is placed exactly for an element whose two coordinates are present and non-zero |
| Hospitales.ZeroCoordinateDropped | app/Hospitales/page.js:424 | an element with latitude exactly 0 gets no marker |

## Left out

- Floating point in the Greengap filter: the source compares `ndvi_pct * 100`, a double, with the threshold. `0.29 * 100` is 28.999999999999996, so at a threshold of 29 the source keeps Block Group 067 and the model, comparing the integer 29, does not. At the default thresholds both agree.
- Floating point in the projection: the 0.3, 0.7, 0.4 and 0.8 multipliers and the sums are exact `real` arithmetic, not doubles.
- `toFixed(6)` is modelled only below 1e21 in magnitude, where it prints positional digits; NaN and the infinities cannot occur among `real` values.
- `ToLower` lowercases the ASCII letters only; the full Unicode case mapping of `toLowerCase` is not modelled.
- Property values are strings; `String(val)` of a number or boolean, and a `properties` that is null (which the code-stage `try`/`catch` swallows and the other stages would not), are not modelled.
- `getBounds` and `intersects` belong to the map library, whose code is not part of this model; they are modelled as the closed box of all vertices. A layer without vertices, or with a geometry that is not a polygon, has no box here and is skipped, where the library may throw.
- The early return when the map or the countries layer is missing, `setBusquedaActiva`, `resetStyle`, `setStyle`, `fitBounds` and the warning on a missing target are rendering and React state, not logic.
- The layers without a `feature` are assumed already filtered out: the model's layer list is the `allLayers` array.
- `JSON.stringify` equality is modelled as structural equality of `Geometry`, which ignores three things the JSON text compares: key order (two geometries equal up to key order would differ in the source), a third position element such as an altitude (which `Coord` drops), and any other geometry member such as `bbox`.
- SimulateIntervention: an action named after an inherited object property (such as `toString`) would yield that property in the source, not the zero impact.
- HospitalMarkers: a NaN coordinate, also falsy, is not modelled; `L.marker` and `addTo` are left out, the model keeps the coordinates of each marker.
- The country GeoJSON fetch, the Overpass queries, the debounce, `exportGeoJSON`, the display formatting and the header's `isActive` helper are I/O, timers or markup.
