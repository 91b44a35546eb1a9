/**
  The part of a GeoJSON country feature that the search and the neighbour test read:
  its string properties and its polygon rings.
 */
module GeoJson {
  import opened Wrappers

  /** One GeoJSON position, written `[lon, lat]`. */
  datatype Coord = Coord(lon: real, lat: real)

  /** A feature's `geometry`. `Other` stands for every other geometry type, identified
      by its JSON text; `Missing` for a null or absent geometry. */
  datatype Geometry =
    | Polygon(rings: seq<seq<Coord>>)
    | MultiPolygon(polygons: seq<seq<seq<Coord>>>)
    | Other(json: string)
    | Missing

  /** A feature's `properties`: an absent key has no entry. */
  type Properties = map<string, string>

  datatype Feature = Feature(properties: Properties, geometry: Geometry)

  /** A property is truthy when it is present and not the empty string. */
  predicate Truthy(p: Properties, key: string) {
    key in p && p[key] != ""
  }

  /** `p[k0] || p[k1] || ...` read for truthiness: the first truthy value, if any. */
  function FirstTruthy(p: Properties, keys: seq<string>): Option<string> {
    if keys == [] then None
    else if Truthy(p, keys[0]) then Some(p[keys[0]])
    else FirstTruthy(p, keys[1..])
  }

  /** The chain yields nothing exactly when no key is truthy, and otherwise the value
      of the first truthy key. */
  lemma {:induction false} FirstTruthyIff(p: Properties, keys: seq<string>)
    ensures FirstTruthy(p, keys).None? <==> forall i :: 0 <= i < |keys| ==> !Truthy(p, keys[i])
    ensures FirstTruthy(p, keys).Some? ==> exists i ::
      && 0 <= i < |keys| && Truthy(p, keys[i]) && p[keys[i]] == FirstTruthy(p, keys).value
      && forall j :: 0 <= j < i ==> !Truthy(p, keys[j])
  {
    if keys != [] && !Truthy(p, keys[0]) {
      FirstTruthyIff(p, keys[1..]);
      assert forall i :: 1 <= i < |keys| ==> keys[1..][i - 1] == keys[i];
      if FirstTruthy(p, keys).Some? {
        var i :| && 0 <= i < |keys[1..]| && Truthy(p, keys[1..][i]) && p[keys[1..][i]] == FirstTruthy(p, keys).value
          && forall j :: 0 <= j < i ==> !Truthy(p, keys[1..][j]);
        assert Truthy(p, keys[i + 1]);
      }
    }
  }

  /** Concatenation of the inner sequences, in order. */
  function Flatten<T>(ss: seq<seq<T>>): seq<T> {
    if ss == [] then [] else Flatten(ss[..|ss| - 1]) + ss[|ss| - 1]
  }

  lemma {:induction false} FlattenMember<T>(ss: seq<seq<T>>, x: T)
    ensures x in Flatten(ss) <==> exists i :: 0 <= i < |ss| && x in ss[i]
  {
    if ss != [] {
      var n := |ss| - 1;
      var init := ss[..n];
      FlattenMember(init, x);
      assert Flatten(ss) == Flatten(init) + ss[n];
      if x in Flatten(init) {
        var i :| 0 <= i < n && x in init[i];
        assert init[i] == ss[i];
      }
      if exists i :: 0 <= i < |ss| && x in ss[i] {
        var i :| 0 <= i < |ss| && x in ss[i];
        if i < n {
          assert init[i] == ss[i];
        }
      }
    }
  }

  /** The positions of a list of polygons, polygon by polygon, ring by ring. */
  function PolygonsVertices(polygons: seq<seq<seq<Coord>>>): seq<Coord> {
    if polygons == [] then []
    else PolygonsVertices(polygons[..|polygons| - 1]) + Flatten(polygons[|polygons| - 1])
  }

  /** Every position of a polygon or multipolygon, in document order; other
      geometries have none. */
  function Vertices(g: Geometry): seq<Coord> {
    match g
    case Polygon(rings) => Flatten(rings)
    case MultiPolygon(polygons) => PolygonsVertices(polygons)
    case Other(_) => []
    case Missing => []
  }

  lemma {:induction false} PolygonsVerticesMember(polygons: seq<seq<seq<Coord>>>, c: Coord)
    ensures c in PolygonsVertices(polygons) <==> exists i :: 0 <= i < |polygons| && c in Flatten(polygons[i])
  {
    if polygons != [] {
      var n := |polygons| - 1;
      var init := polygons[..n];
      PolygonsVerticesMember(init, c);
      assert PolygonsVertices(polygons) == PolygonsVertices(init) + Flatten(polygons[n]);
      if c in PolygonsVertices(init) {
        var i :| 0 <= i < n && c in Flatten(init[i]);
        assert init[i] == polygons[i];
      }
      if exists i :: 0 <= i < |polygons| && c in Flatten(polygons[i]) {
        var i :| 0 <= i < |polygons| && c in Flatten(polygons[i]);
        if i < n {
          assert init[i] == polygons[i];
        }
      }
    }
  }

  /** A position is a vertex exactly when it lies on one of the rings: of the
      polygon, or of one of the multipolygon's polygons. */
  lemma VerticesMember(g: Geometry, c: Coord)
    ensures c in Vertices(g) <==>
      || (g.Polygon? && exists j :: 0 <= j < |g.rings| && c in g.rings[j])
      || (g.MultiPolygon? && exists i, j :: 0 <= i < |g.polygons| && 0 <= j < |g.polygons[i]| && c in g.polygons[i][j])
  {
    match g
    case Polygon(rings) => FlattenMember(rings, c);
    case MultiPolygon(polygons) =>
      PolygonsVerticesMember(polygons, c);
      forall i | 0 <= i < |polygons| ensures c in Flatten(polygons[i]) <==> exists j :: 0 <= j < |polygons[i]| && c in polygons[i][j] {
        FlattenMember(polygons[i], c);
      }
    case Other(_) =>
    case Missing =>
  }
}
