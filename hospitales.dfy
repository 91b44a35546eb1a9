/**
  The country search of the Hospitales page and its neighbour detection: vertex
  keys of a country's polygons, the shared-vertex test, the first-match search
  over a feature's name fields, the three-stage lookup of the selected country's
  layer and the selection of its neighbours; and the filter that keeps the
  hospital elements with usable coordinates.

  Layers are the GeoJSON layer's sub-layers that carry a feature, in `eachLayer`
  order; a layer is identified by its index in that list.
 */
module Hospitales {
  import opened Wrappers
  import opened JsString
  import opened NumberFormat
  import opened GeoJson
  import opened LatLngBounds

  // ---------------------------------------------------------------------------
  // Vertex keys
  // ---------------------------------------------------------------------------

  /** A vertex key: the two values `toFixed(6)` prints, latitude first. Its text
      is `KeyText(lat, lon)`, and equal keys are exactly equal texts
      (`CoordKeyText`), so sets and comparisons of keys behave as those of the
      strings the page builds. */
  datatype VertexKey = VertexKey(lat: Fixed, lon: Fixed)

  /** The key of a `[lon, lat]` position: latitude first. */
  function CoordKey(c: Coord): VertexKey {
    VertexKey(ToFixed6(c.lat), ToFixed6(c.lon))
  }

  /** The key of every position, in order. */
  function KeysOf(vs: seq<Coord>): (r: seq<VertexKey>)
    ensures |r| == |vs|
  {
    seq(|vs|, i requires 0 <= i < |vs| => CoordKey(vs[i]))
  }

  /** What `collectCoordsPairs` returns: one key per vertex, in document order,
      duplicates kept. */
  function GeometryKeys(g: Geometry): seq<VertexKey> {
    KeysOf(Vertices(g))
  }

  /** Two positions have equal key texts exactly when their latitudes print alike
      and their longitudes print alike, which is when their keys are equal; keys
      that are equal lie within a millionth of a degree on both axes. */
  lemma CoordKeyText(c: Coord, d: Coord)
    ensures KeyText(ToFixed6(c.lat), ToFixed6(c.lon)) == KeyText(ToFixed6(d.lat), ToFixed6(d.lon)) <==>
      CoordKey(c) == CoordKey(d)
    ensures CoordKey(c) == CoordKey(d) ==>
      -0.000001 < c.lat - d.lat < 0.000001 && -0.000001 < c.lon - d.lon < 0.000001
  {
    KeyTextInjective(ToFixed6(c.lat), ToFixed6(c.lon), ToFixed6(d.lat), ToFixed6(d.lon));
    if CoordKey(c) == CoordKey(d) {
      SameFixedNear(c.lat, d.lat);
      SameFixedNear(c.lon, d.lon);
    }
  }

  /** A key is among a list's keys exactly when some position of the list has it. */
  lemma KeysOfMember(vs: seq<Coord>, k: VertexKey)
    ensures k in KeysOf(vs) <==> exists c :: c in vs && CoordKey(c) == k
  {
    if k in KeysOf(vs) {
      var i :| 0 <= i < |vs| && KeysOf(vs)[i] == k;
      assert vs[i] in vs;
    }
    if exists c :: c in vs && CoordKey(c) == k {
      var c :| c in vs && CoordKey(c) == k;
      var i :| 0 <= i < |vs| && vs[i] == c;
      assert KeysOf(vs)[i] == k;
    }
  }

  /** The keys of a geometry are those of its rings' positions: every ring of a
      polygon, every ring of every polygon of a multipolygon, and nothing for any
      other geometry or a missing one. */
  lemma GeometryKeysCover(g: Geometry, k: VertexKey)
    ensures k in GeometryKeys(g) <==> exists c :: c in Vertices(g) && CoordKey(c) == k
    ensures !g.Polygon? && !g.MultiPolygon? ==> GeometryKeys(g) == []
  {
    KeysOfMember(Vertices(g), k);
  }

  lemma KeysOfAppend(a: seq<Coord>, b: seq<Coord>)
    ensures KeysOf(a + b) == KeysOf(a) + KeysOf(b)
  {
  }

  /** The innermost loop of `collectCoordsPairs`: one `pushPair` per position of a ring. */
  method PushRing(pairs: seq<VertexKey>, ring: seq<Coord>) returns (out: seq<VertexKey>)
    ensures out == pairs + KeysOf(ring)
  {
    out := pairs;
    for k := 0 to |ring|
      invariant out == pairs + KeysOf(ring[..k])
    {
      assert ring[..k + 1] == ring[..k] + [ring[k]];
      KeysOfAppend(ring[..k], [ring[k]]);
      out := out + [CoordKey(ring[k])];
    }
    assert ring[..|ring|] == ring;
  }

  /** `collectCoordsPairs`: walks the rings and pushes one key per position. */
  method CollectCoordsPairs(feature: Feature) returns (pairs: seq<VertexKey>)
    ensures pairs == GeometryKeys(feature.geometry)
  {
    pairs := [];
    var geom := feature.geometry;
    if geom.Missing? {
      return;
    }
    if geom.Polygon? {
      var rings := geom.rings;
      for r := 0 to |rings|
        invariant pairs == KeysOf(Flatten(rings[..r]))
      {
        assert rings[..r + 1][..r] == rings[..r];
        KeysOfAppend(Flatten(rings[..r]), rings[r]);
        pairs := PushRing(pairs, rings[r]);
      }
      assert rings[..|rings|] == rings;
    } else if geom.MultiPolygon? {
      var polygons := geom.polygons;
      for p := 0 to |polygons|
        invariant pairs == KeysOf(PolygonsVertices(polygons[..p]))
      {
        var polygon := polygons[p];
        var done := PolygonsVertices(polygons[..p]);
        for r := 0 to |polygon|
          invariant pairs == KeysOf(done + Flatten(polygon[..r]))
        {
          assert polygon[..r + 1][..r] == polygon[..r];
          assert done + Flatten(polygon[..r + 1]) == (done + Flatten(polygon[..r])) + polygon[r];
          KeysOfAppend(done + Flatten(polygon[..r]), polygon[r]);
          pairs := PushRing(pairs, polygon[r]);
        }
        assert polygon[..|polygon|] == polygon;
        assert polygons[..p + 1][..p] == polygons[..p];
      }
      assert polygons[..|polygons|] == polygons;
    }
  }

  // ---------------------------------------------------------------------------
  // Shared vertices
  // ---------------------------------------------------------------------------

  /** The key lists of the two geometries have a key in common. */
  ghost predicate SharesVertex(g: Geometry, h: Geometry) {
    exists k :: k in GeometryKeys(g) && k in GeometryKeys(h)
  }

  /** `hasSharedVertex`: a set of A's keys, then a scan of B's keys that stops at
      the first one in the set. */
  method HasSharedVertex(featA: Feature, featB: Feature) returns (shared: bool)
    ensures shared <==> SharesVertex(featA.geometry, featB.geometry)
  {
    var aPairs := CollectCoordsPairs(featA);
    var setA := set p | p in aPairs;
    var bPairs := CollectCoordsPairs(featB);
    for i := 0 to |bPairs|
      invariant forall j :: 0 <= j < i ==> bPairs[j] !in setA
    {
      if bPairs[i] in setA {
        return true;
      }
    }
    return false;
  }

  /** Sharing a vertex means having two positions, one on each geometry, that round
      to the same six-decimal latitude and longitude. */
  lemma SharesVertexIff(g: Geometry, h: Geometry)
    ensures SharesVertex(g, h) <==> exists v, w ::
      && v in Vertices(g) && w in Vertices(h)
      && ToFixed6(v.lat) == ToFixed6(w.lat) && ToFixed6(v.lon) == ToFixed6(w.lon)
  {
    if SharesVertex(g, h) {
      var k :| k in GeometryKeys(g) && k in GeometryKeys(h);
      var v, w := SharedKeyWitness(g, h, k);
      assert ToFixed6(v.lat) == ToFixed6(w.lat) && ToFixed6(v.lon) == ToFixed6(w.lon);
    }
    if exists v, w :: (v in Vertices(g) && w in Vertices(h)
      && ToFixed6(v.lat) == ToFixed6(w.lat) && ToFixed6(v.lon) == ToFixed6(w.lon)) {
      var v, w :| (v in Vertices(g) && w in Vertices(h)
        && ToFixed6(v.lat) == ToFixed6(w.lat) && ToFixed6(v.lon) == ToFixed6(w.lon));
      assert CoordKey(v) == CoordKey(w);
      KeysOfMember(Vertices(g), CoordKey(v));
      KeysOfMember(Vertices(h), CoordKey(v));
      assert CoordKey(v) in GeometryKeys(g) && CoordKey(v) in GeometryKeys(h);
    }
  }

  /** The two positions behind a key both geometries have. */
  lemma SharedKeyWitness(g: Geometry, h: Geometry, k: VertexKey) returns (v: Coord, w: Coord)
    requires k in GeometryKeys(g) && k in GeometryKeys(h)
    ensures v in Vertices(g) && w in Vertices(h) && CoordKey(v) == k && CoordKey(w) == k
  {
    KeysOfMember(Vertices(g), k);
    KeysOfMember(Vertices(h), k);
    v :| v in Vertices(g) && CoordKey(v) == k;
    w :| w in Vertices(h) && CoordKey(w) == k;
  }

  /** Sharing a vertex is symmetric, and a missing or non-polygon geometry shares
      nothing. */
  lemma SharesVertexSymmetric(g: Geometry, h: Geometry)
    ensures SharesVertex(g, h) <==> SharesVertex(h, g)
    ensures (!g.Polygon? && !g.MultiPolygon?) || (!h.Polygon? && !h.MultiPolygon?) ==> !SharesVertex(g, h)
  {
    if SharesVertex(g, h) {
      var k :| k in GeometryKeys(g) && k in GeometryKeys(h);
      assert k in GeometryKeys(h) && k in GeometryKeys(g);
    }
    if SharesVertex(h, g) {
      var k :| k in GeometryKeys(h) && k in GeometryKeys(g);
      assert k in GeometryKeys(g) && k in GeometryKeys(h);
    }
  }

  // ---------------------------------------------------------------------------
  // Country search
  // ---------------------------------------------------------------------------

  /** The fields the search looks in, in the order it tries them. */
  const SearchFields: seq<string> := ["ADMIN", "NAME", "name", "SOVEREIGNT", "ADMIN_A3"]

  /** The query as the search compares it: trimmed, then lowercased. */
  function NormalizeQuery(query: string): string {
    ToLower(Trim(query))
  }

  /** The field is truthy and its lowercased value contains the query. */
  predicate FieldMatches(p: Properties, key: string, q: string) {
    Truthy(p, key) && Contains(ToLower(p[key]), q)
  }

  predicate MatchesQuery(f: Feature, q: string) {
    exists i :: 0 <= i < |SearchFields| && FieldMatches(f.properties, SearchFields[i], q)
  }

  /** The inner loop of `findCountryFeature`: the candidate fields in order,
      skipping falsy ones, until one contains the query. */
  method MatchesAnyField(feature: Feature, q: string) returns (matched: bool)
    ensures matched <==> MatchesQuery(feature, q)
  {
    for c := 0 to |SearchFields|
      invariant forall d :: 0 <= d < c ==> !FieldMatches(feature.properties, SearchFields[d], q)
    {
      var key := SearchFields[c];
      if !Truthy(feature.properties, key) {
        continue;
      }
      if Contains(ToLower(feature.properties[key]), q) {
        assert FieldMatches(feature.properties, SearchFields[c], q);
        return true;
      }
    }
    return false;
  }

  /** `findCountryFeature`: nothing without a loaded collection or with a blank
      query; otherwise the first feature, in collection order, one of whose search
      fields contains the query, ignoring case; nothing if none does. */
  method FindCountryFeature(countries: Option<seq<Feature>>, query: string) returns (found: Option<Feature>)
    ensures countries.None? || NormalizeQuery(query) == [] ==> found.None?
    ensures (forall k :: 0 <= k < |query| ==> IsWhite(query[k])) ==> found.None?
    ensures countries.Some? && NormalizeQuery(query) != [] ==>
      (found.None? <==> forall i :: 0 <= i < |countries.value| ==> !MatchesQuery(countries.value[i], NormalizeQuery(query)))
    ensures found.Some? ==> countries.Some? && exists i ::
      && 0 <= i < |countries.value| && countries.value[i] == found.value
      && MatchesQuery(found.value, NormalizeQuery(query))
      && forall j :: 0 <= j < i ==> !MatchesQuery(countries.value[j], NormalizeQuery(query))
  {
    TrimEmptyIff(query);
    if countries.None? {
      return None;
    }
    var q := ToLower(Trim(query));
    if q == [] {
      return None;
    }
    found := FirstMatchingFeature(countries.value, q);
  }

  /** The outer loop of `findCountryFeature`: the features in collection order,
      until one of them matches. */
  method FirstMatchingFeature(features: seq<Feature>, q: string) returns (found: Option<Feature>)
    ensures found.None? <==> forall i :: 0 <= i < |features| ==> !MatchesQuery(features[i], q)
    ensures found.Some? ==> exists i ::
      && 0 <= i < |features| && features[i] == found.value
      && MatchesQuery(found.value, q)
      && forall j :: 0 <= j < i ==> !MatchesQuery(features[j], q)
  {
    for i := 0 to |features|
      invariant forall j :: 0 <= j < i ==> !MatchesQuery(features[j], q)
    {
      var matched := MatchesAnyField(features[i], q);
      if matched {
        return Some(features[i]);
      }
    }
    return None;
  }

  // ---------------------------------------------------------------------------
  // Finding the selected country's layer
  // ---------------------------------------------------------------------------

  const CodeFields: seq<string> := ["ISO_A3", "ISO3", "ADM0_A3"]
  const NameFields: seq<string> := ["ADMIN", "NAME", "name"]

  /** The fields read, in order, for the id remembered after a selection. */
  const IdFields: seq<string> := ["ISO_A3", "ISO3", "ADM0_A3", "ADMIN", "NAME"]

  /** The three ways a layer can be recognised as the selected feature's, tried in this order. */
  datatype Stage = ByCode | ByName | ByGeometry

  function Rank(s: Stage): nat {
    match s
    case ByCode => 0
    case ByName => 1
    case ByGeometry => 2
  }

  /** Both features have a truthy first value among `keys`, and the two are equal. */
  predicate SameTruthy(p: Properties, q: Properties, keys: seq<string>) {
    var a := FirstTruthy(p, keys);
    var b := FirstTruthy(q, keys);
    a.Some? && b.Some? && a.value == b.value
  }

  /** The layer's feature is recognised as `feature` at this stage: same code, same
      name, or the same geometry (equal JSON text). */
  predicate StageMatch(stage: Stage, layer: Feature, feature: Feature) {
    match stage
    case ByCode => SameTruthy(layer.properties, feature.properties, CodeFields)
    case ByName => SameTruthy(layer.properties, feature.properties, NameFields)
    case ByGeometry => layer.geometry == feature.geometry
  }

  /** The index of the first layer recognised at `stage`, if any. */
  function FirstMatch(stage: Stage, layers: seq<Feature>, feature: Feature): (r: Option<nat>)
    ensures r.Some? ==> r.value < |layers| && StageMatch(stage, layers[r.value], feature)
    ensures r.Some? ==> forall j :: 0 <= j < r.value ==> !StageMatch(stage, layers[j], feature)
    ensures r.None? ==> forall j :: 0 <= j < |layers| ==> !StageMatch(stage, layers[j], feature)
  {
    if layers == [] then None
    else if StageMatch(stage, layers[0], feature) then Some(0)
    else
      assert forall j :: 1 <= j < |layers| ==> layers[1..][j - 1] == layers[j];
      match FirstMatch(stage, layers[1..], feature)
      case None => None
      case Some(i) => Some(i + 1)
  }

  /** The target layer: the first with the same code, else the first with the same
      name, else the first with the same geometry. */
  function ResolveTarget(layers: seq<Feature>, feature: Feature): Option<nat> {
    var byCode := FirstMatch(ByCode, layers, feature);
    if byCode.Some? then byCode
    else
      var byName := FirstMatch(ByName, layers, feature);
      if byName.Some? then byName else FirstMatch(ByGeometry, layers, feature)
  }

  /** The stages have a fixed precedence: the target is recognised at some stage, no
      layer is recognised at an earlier stage, and no earlier layer at the same
      one; there is no target exactly when no layer is recognised at any stage. */
  lemma ResolveTargetPrecedence(layers: seq<Feature>, feature: Feature)
    ensures ResolveTarget(layers, feature).None? <==>
      forall s: Stage, j :: 0 <= j < |layers| ==> !StageMatch(s, layers[j], feature)
    ensures ResolveTarget(layers, feature).Some? ==>
      var t := ResolveTarget(layers, feature).value;
      t < |layers| && exists s: Stage ::
        && StageMatch(s, layers[t], feature)
        && (forall j :: 0 <= j < t ==> !StageMatch(s, layers[j], feature))
        && (forall e: Stage, j :: Rank(e) < Rank(s) && 0 <= j < |layers| ==> !StageMatch(e, layers[j], feature))
  {
    var r := ResolveTarget(layers, feature);
    if r.None? {
      forall s: Stage, j | 0 <= j < |layers| ensures !StageMatch(s, layers[j], feature) {
        match s
        case ByCode =>
        case ByName =>
        case ByGeometry =>
      }
    } else {
      var t := r.value;
      var s := if FirstMatch(ByCode, layers, feature).Some? then ByCode
        else if FirstMatch(ByName, layers, feature).Some? then ByName else ByGeometry;
      forall e: Stage, j | Rank(e) < Rank(s) && 0 <= j < |layers| ensures !StageMatch(e, layers[j], feature) {
        match e
        case ByCode =>
        case ByName =>
        case ByGeometry =>
      }
      assert StageMatch(s, layers[t], feature);
    }
  }

  /** A feature that is itself one of the layers' features always finds a target,
      if only by its geometry. */
  lemma ListedFeatureHasTarget(layers: seq<Feature>, feature: Feature)
    requires feature in layers
    ensures ResolveTarget(layers, feature).Some?
  {
    var i :| 0 <= i < |layers| && layers[i] == feature;
    assert StageMatch(ByGeometry, layers[i], feature);
  }

  /** The target-finding part of `highlightCountryAndNeighbors`: three loops, each
      stopping at its first match, each run only when the ones before found nothing. */
  method ResolveTargetLayer(layers: seq<Feature>, feature: Feature) returns (target: Option<nat>)
    ensures target == ResolveTarget(layers, feature)
  {
    target := None;
    var b := FirstTruthy(feature.properties, CodeFields);
    for i := 0 to |layers|
      invariant target.None? ==> forall j :: 0 <= j < i ==> !StageMatch(ByCode, layers[j], feature)
      invariant target.Some? ==> target == FirstMatch(ByCode, layers, feature)
    {
      var a := FirstTruthy(layers[i].properties, CodeFields);
      if a.Some? && b.Some? && a.value == b.value {
        target := Some(i);
        break;
      }
    }
    if target.None? {
      var nameToFind := FirstTruthy(feature.properties, NameFields);
      for i := 0 to |layers|
        invariant target.None? ==> forall j :: 0 <= j < i ==> !StageMatch(ByName, layers[j], feature)
        invariant target.Some? ==> target == FirstMatch(ByName, layers, feature)
      {
        var n := FirstTruthy(layers[i].properties, NameFields);
        if n.Some? && nameToFind.Some? && n.value == nameToFind.value {
          target := Some(i);
          break;
        }
      }
    }
    if target.None? {
      for i := 0 to |layers|
        invariant target.None? ==> forall j :: 0 <= j < i ==> !StageMatch(ByGeometry, layers[j], feature)
        invariant target.Some? ==> target == FirstMatch(ByGeometry, layers, feature)
      {
        if layers[i].geometry == feature.geometry {
          target := Some(i);
          break;
        }
      }
    }
  }

  // ---------------------------------------------------------------------------
  // Neighbours
  // ---------------------------------------------------------------------------

  /** A layer's `getBounds()`: the box of its vertices. */
  function LayerBounds(g: Geometry): Option<Box> {
    BoundsOf(Vertices(g))
  }

  /** Both layers have a box and the boxes intersect. */
  predicate BoxesMeet(g: Geometry, h: Geometry) {
    var a := LayerBounds(g);
    var b := LayerBounds(h);
    a.Some? && b.Some? && Intersects(a.value, b.value)
  }

  /** Layer `i` is a neighbour of the target layer `t`: another layer, whose box meets
      the target's, sharing a vertex key with it. */
  ghost predicate IsNeighbour(layers: seq<Feature>, t: nat, i: nat)
    requires t < |layers| && i < |layers|
  {
    i != t && BoxesMeet(layers[t].geometry, layers[i].geometry) && SharesVertex(layers[t].geometry, layers[i].geometry)
  }

  /** The indices below `n` at which `p` holds, in increasing order. */
  function Indices(n: nat, p: nat -> bool): seq<nat> {
    if n == 0 then [] else Indices(n - 1, p) + (if p(n - 1) then [n - 1] else [])
  }

  /** An index is listed exactly when it is below `n` and `p` holds at it. */
  lemma {:induction false} IndicesMember(n: nat, p: nat -> bool)
    ensures forall i: nat :: i in Indices(n, p) <==> i < n && p(i)
  {
    if n > 0 {
      IndicesMember(n - 1, p);
      var r := Indices(n - 1, p);
      var last: seq<nat> := if p(n - 1) then [n - 1] else [];
      assert Indices(n, p) == r + last;
      forall i: nat ensures i in r + last <==> i < n && p(i) {
        assert i in r + last <==> i in r || i in last;
      }
    }
  }

  /** The indices are listed in increasing order, so each appears once. */
  lemma {:induction false} IndicesIncreasing(n: nat, p: nat -> bool)
    ensures forall j, k :: 0 <= j < k < |Indices(n, p)| ==> Indices(n, p)[j] < Indices(n, p)[k]
  {
    if n > 0 {
      IndicesIncreasing(n - 1, p);
      IndicesMember(n - 1, p);
      var r := Indices(n - 1, p);
      forall j | 0 <= j < |r| ensures r[j] < n - 1 {
        assert r[j] in r;
      }
    }
  }

  /** Whether layer `i` is a neighbour of `t`, for any index. */
  ghost predicate NeighbourAt(layers: seq<Feature>, t: nat, i: nat) {
    t < |layers| && i < |layers| && IsNeighbour(layers, t, i)
  }

  /** The neighbours of `t` among the first `n` layers, in layer order. */
  ghost function Neighbours(layers: seq<Feature>, t: nat, n: nat): seq<nat> {
    Indices(n, (i: nat) => NeighbourAt(layers, t, i))
  }

  /** The neighbour list holds exactly the neighbours among the first `n` layers,
      each once, in increasing layer order. */
  lemma NeighboursMember(layers: seq<Feature>, t: nat, n: nat)
    requires t < |layers| && n <= |layers|
    ensures forall i: nat :: i in Neighbours(layers, t, n) <==> i < n && IsNeighbour(layers, t, i)
    ensures forall j, k :: 0 <= j < k < |Neighbours(layers, t, n)| ==>
      Neighbours(layers, t, n)[j] < Neighbours(layers, t, n)[k]
  {
    IndicesMember(n, (i: nat) => NeighbourAt(layers, t, i));
    IndicesIncreasing(n, (i: nat) => NeighbourAt(layers, t, i));
  }

  lemma NeighboursStep(layers: seq<Feature>, t: nat, n: nat)
    requires t < |layers| && n < |layers|
    ensures Neighbours(layers, t, n + 1) == Neighbours(layers, t, n) + (if IsNeighbour(layers, t, n) then [n] else [])
  {
  }

  /** The neighbour loop of `highlightCountryAndNeighbors`: skip the target itself,
      skip layers whose box misses the target's, keep those sharing a vertex. */
  method SelectNeighbours(layers: seq<Feature>, t: nat) returns (neighbors: seq<nat>)
    requires t < |layers|
    ensures neighbors == Neighbours(layers, t, |layers|)
  {
    neighbors := [];
    var selBounds := LayerBounds(layers[t].geometry);
    for i := 0 to |layers|
      invariant neighbors == Neighbours(layers, t, i)
    {
      NeighboursStep(layers, t, i);
      if i == t {
        assert !IsNeighbour(layers, t, i);
        continue;
      }
      var b := LayerBounds(layers[i].geometry);
      if !(selBounds.Some? && b.Some? && Intersects(selBounds.value, b.value)) {
        assert !BoxesMeet(layers[t].geometry, layers[i].geometry);
        continue;
      }
      assert BoxesMeet(layers[t].geometry, layers[i].geometry);
      var shared := HasSharedVertex(layers[t], layers[i]);
      assert shared <==> SharesVertex(layers[t].geometry, layers[i].geometry);
      assert shared <==> IsNeighbour(layers, t, i);
      if shared {
        neighbors := neighbors + [i];
      }
    }
  }

  /** What a selection leaves behind: the target layer, if one was found, its
      neighbours in layer order, and the remembered id of the selected country. */
  datatype Highlight = Highlight(target: Option<nat>, neighbors: seq<nat>, selectedId: Option<string>)

  /** The decision logic of `highlightCountryAndNeighbors`: find the target layer;
      without one nothing is selected; with one, keep each other layer whose box
      meets the target's and which shares a vertex with it, and remember the
      feature's first truthy id field. */
  method HighlightCountryAndNeighbors(layers: seq<Feature>, feature: Feature) returns (h: Highlight)
    ensures h.target == ResolveTarget(layers, feature)
    ensures h.target.None? ==> h.neighbors == [] && h.selectedId.None?
    ensures h.target.Some? ==>
      && h.target.value < |layers|
      && h.neighbors == Neighbours(layers, h.target.value, |layers|)
      && h.selectedId == FirstTruthy(feature.properties, IdFields)
  {
    var target := ResolveTargetLayer(layers, feature);
    if target.None? {
      return Highlight(None, [], None);
    }
    var neighbors := SelectNeighbours(layers, target.value);
    return Highlight(target, neighbors, FirstTruthy(feature.properties, IdFields));
  }

  /** Being neighbours is symmetric, and no layer is its own neighbour. */
  lemma NeighboursSymmetric(layers: seq<Feature>, t: nat, i: nat)
    requires t < |layers| && i < |layers|
    ensures i in Neighbours(layers, t, |layers|) <==> t in Neighbours(layers, i, |layers|)
    ensures t !in Neighbours(layers, t, |layers|)
  {
    var g, h := layers[t].geometry, layers[i].geometry;
    NeighboursMember(layers, t, |layers|);
    NeighboursMember(layers, i, |layers|);
    SharesVertexSymmetric(g, h);
    if LayerBounds(g).Some? && LayerBounds(h).Some? {
      IntersectsIff(LayerBounds(g).value, LayerBounds(h).value);
    }
  }

  /** The box pre-filter never drops a layer that touches the target at an exact
      common position: such a layer is always a neighbour. */
  lemma PrefilterKeepsCommonVertex(layers: seq<Feature>, t: nat, i: nat, c: Coord)
    requires t < |layers| && i < |layers| && i != t
    requires c in Vertices(layers[t].geometry) && c in Vertices(layers[i].geometry)
    ensures i in Neighbours(layers, t, |layers|)
  {
    var g, h := layers[t].geometry, layers[i].geometry;
    var a, b := LayerBounds(g).value, LayerBounds(h).value;
    BoundsContain(Vertices(g));
    BoundsContain(Vertices(h));
    IntersectsIff(a, b);
    assert Inside(a, c) && Inside(b, c);
    KeysOfMember(Vertices(g), CoordKey(c));
    KeysOfMember(Vertices(h), CoordKey(c));
    assert CoordKey(c) in GeometryKeys(g) && CoordKey(c) in GeometryKeys(h);
    assert IsNeighbour(layers, t, i);
    NeighboursMember(layers, t, |layers|);
  }

  /** The only layers that share a key with the target but are dropped by the box
      pre-filter are near misses: two different positions, one on each, closer than
      a millionth of a degree on both axes, that round to the same key. */
  lemma PrefilterDropsOnlyNearMisses(layers: seq<Feature>, t: nat, i: nat)
    requires t < |layers| && i < |layers| && i != t
    requires SharesVertex(layers[t].geometry, layers[i].geometry)
    requires i !in Neighbours(layers, t, |layers|)
    ensures exists v, w ::
      && v in Vertices(layers[t].geometry) && w in Vertices(layers[i].geometry)
      && v != w && CoordKey(v) == CoordKey(w)
      && -0.000001 < v.lat - w.lat < 0.000001 && -0.000001 < v.lon - w.lon < 0.000001
  {
    var g, h := layers[t].geometry, layers[i].geometry;
    NeighboursMember(layers, t, |layers|);
    var k :| k in GeometryKeys(g) && k in GeometryKeys(h);
    KeysOfMember(Vertices(g), k);
    KeysOfMember(Vertices(h), k);
    var v :| v in Vertices(g) && CoordKey(v) == k;
    var w :| w in Vertices(h) && CoordKey(w) == k;
    if v == w {
      PrefilterKeepsCommonVertex(layers, t, i, v);
      assert false;
    }
    CoordKeyText(v, w);
  }

  /** Two geometries whose vertices lie on either side of a band of latitudes have
      boxes that do not meet. */
  lemma BoxesApart(g: Geometry, h: Geometry, x: real, y: real)
    requires x < y
    requires forall c :: c in Vertices(g) ==> c.lat <= x
    requires forall c :: c in Vertices(h) ==> c.lat >= y
    ensures !BoxesMeet(g, h)
  {
    if LayerBounds(g).Some? && LayerBounds(h).Some? {
      BoundsTight(Vertices(g));
      BoundsTight(Vertices(h));
    }
  }

  /** A polygon with a single ring has that ring's positions as its vertices. */
  lemma OneRingVertices(ring: seq<Coord>)
    ensures Vertices(Polygon([ring])) == ring
  {
    var rings: seq<seq<Coord>> := [ring];
    assert rings[..0] == [];
    assert Flatten(rings) == Flatten(rings[..0]) + ring;
  }

  /** Such near misses exist: two closed squares, one with latitudes from -1 to 1e-7
      and one with latitudes from 2e-7 to 1, have corners a tenth of a millionth of
      a degree apart that share their key, yet their boxes are disjoint, so they are
      not neighbours. */
  lemma NearMissIsNotNeighbour()
    ensures var below := [Coord(0.0, -1.0), Coord(1.0, -1.0), Coord(1.0, 0.0000001), Coord(0.0, 0.0000001), Coord(0.0, -1.0)];
      var above := [Coord(0.0, 0.0000002), Coord(1.0, 0.0000002), Coord(1.0, 1.0), Coord(0.0, 1.0), Coord(0.0, 0.0000002)];
      var layers := [Feature(map[], Polygon([below])), Feature(map[], Polygon([above]))];
      SharesVertex(layers[0].geometry, layers[1].geometry) && Neighbours(layers, 0, 2) == []
  {
    var below := [Coord(0.0, -1.0), Coord(1.0, -1.0), Coord(1.0, 0.0000001), Coord(0.0, 0.0000001), Coord(0.0, -1.0)];
    var above := [Coord(0.0, 0.0000002), Coord(1.0, 0.0000002), Coord(1.0, 1.0), Coord(0.0, 1.0), Coord(0.0, 0.0000002)];
    var g, h := Polygon([below]), Polygon([above]);
    var layers := [Feature(map[], g), Feature(map[], h)];
    OneRingVertices(below);
    OneRingVertices(above);
    NearKeys();
    assert KeysOf(below)[3] == CoordKey(below[3]) && KeysOf(above)[0] == CoordKey(above[0]);
    assert CoordKey(below[3]) in GeometryKeys(g) && CoordKey(below[3]) in GeometryKeys(h);
    BoxesApart(g, h, 0.0000001, 0.0000002);
    assert !IsNeighbour(layers, 0, 0) && !IsNeighbour(layers, 0, 1);
    NeighboursStep(layers, 0, 0);
    NeighboursStep(layers, 0, 1);
  }

  /** The corners (lon 0, lat 1e-7) and (lon 0, lat 2e-7) have the same key. */
  lemma NearKeys()
    ensures CoordKey(Coord(0.0, 0.0000001)) == CoordKey(Coord(0.0, 0.0000002))
  {
  }

  // ---------------------------------------------------------------------------
  // Hospital markers
  // ---------------------------------------------------------------------------

  /** An element of the hospital query's answer: each coordinate a number or absent. */
  datatype Element = Element(lat: Option<real>, lon: Option<real>)

  /** A number is truthy when present and not zero. */
  predicate TruthyNumber(x: Option<real>) {
    x.Some? && x.value != 0.0
  }

  datatype Marker = Marker(lat: real, lon: real)

  /** The markers placed for the elements: one per element whose latitude and
      longitude are both truthy, in element order. */
  function HospitalMarkers(elements: seq<Element>): (r: seq<Marker>)
    ensures |r| <= |elements|
  {
    if elements == [] then []
    else
      var e := elements[|elements| - 1];
      HospitalMarkers(elements[..|elements| - 1]) +
      (if TruthyNumber(e.lat) && TruthyNumber(e.lon) then [Marker(e.lat.value, e.lon.value)] else [])
  }

  /** Filtering is done element by element: the markers of a concatenation are the
      markers of each part, in order. */
  lemma {:induction false} HospitalMarkersAppend(a: seq<Element>, b: seq<Element>)
    ensures HospitalMarkers(a + b) == HospitalMarkers(a) + HospitalMarkers(b)
    decreases |b|
  {
    if b == [] {
      assert a + b == a;
    } else {
      var n := |b| - 1;
      assert (a + b)[..|a + b| - 1] == a + b[..n];
      HospitalMarkersAppend(a, b[..n]);
    }
  }

  /** A marker is placed exactly for an element with both coordinates present and
      non-zero. */
  lemma {:induction false} HospitalMarkersMember(elements: seq<Element>, m: Marker)
    ensures m in HospitalMarkers(elements) <==>
      m.lat != 0.0 && m.lon != 0.0 && Element(Some(m.lat), Some(m.lon)) in elements
  {
    if elements != [] {
      var n := |elements| - 1;
      HospitalMarkersMember(elements[..n], m);
      assert elements == elements[..n] + [elements[n]];
    }
  }

  /** An element on the equator or the prime meridian (a coordinate exactly 0) gets
      no marker. */
  lemma ZeroCoordinateDropped(lon: real)
    ensures HospitalMarkers([Element(Some(0.0), Some(lon))]) == []
  {
    assert [Element(Some(0.0), Some(lon))][..0] == [];
  }
}
