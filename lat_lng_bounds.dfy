/**
  The map library's `LatLngBounds` as the neighbour test uses it: the closed
  south-west/north-east box of a layer's vertices (`getBounds`) and the
  `intersects` test between two such boxes. The library itself is not part of
  this model; this is its documented behaviour, stated here as an assumption.
 */
module LatLngBounds {
  import opened Wrappers
  import opened GeoJson

  datatype Box = Box(south: real, west: real, north: real, east: real)

  predicate Valid(b: Box) {
    b.south <= b.north && b.west <= b.east
  }

  /** The box contains the position, edges included. */
  predicate Inside(b: Box, c: Coord) {
    b.south <= c.lat <= b.north && b.west <= c.lon <= b.east
  }

  function Min(a: real, b: real): real { if a <= b then a else b }
  function Max(a: real, b: real): real { if a <= b then b else a }

  /** `extend`: the smallest box holding `b` and `c`. */
  function Extend(b: Box, c: Coord): Box {
    Box(Min(b.south, c.lat), Min(b.west, c.lon), Max(b.north, c.lat), Max(b.east, c.lon))
  }

  /** The box of a list of positions, extended one position at a time; none for an
      empty list. */
  function BoundsOf(vs: seq<Coord>): (r: Option<Box>)
    ensures r.Some? <==> vs != []
  {
    if vs == [] then None
    else
      var last := vs[|vs| - 1];
      match BoundsOf(vs[..|vs| - 1])
      case None => Some(Box(last.lat, last.lon, last.lat, last.lon))
      case Some(b) => Some(Extend(b, last))
  }

  /** The box of a non-empty list is valid and holds every position of the list. */
  lemma {:induction false} BoundsContain(vs: seq<Coord>)
    requires vs != []
    ensures Valid(BoundsOf(vs).value) && forall c :: c in vs ==> Inside(BoundsOf(vs).value, c)
  {
    var n := |vs| - 1;
    if n > 0 {
      BoundsContain(vs[..n]);
    }
    assert forall c :: c in vs ==> c in vs[..n] || c == vs[n];
  }

  /** Each edge of the box lies on some position: the box is no larger than it needs to be. */
  lemma {:induction false} BoundsTight(vs: seq<Coord>)
    requires vs != []
    ensures var b := BoundsOf(vs).value;
      && (exists c :: c in vs && c.lat == b.south)
      && (exists c :: c in vs && c.lat == b.north)
      && (exists c :: c in vs && c.lon == b.west)
      && (exists c :: c in vs && c.lon == b.east)
  {
    var n := |vs| - 1;
    var last := vs[n];
    if n > 0 {
      BoundsTight(vs[..n]);
      assert forall c :: c in vs[..n] ==> c in vs;
    }
    assert last in vs;
  }

  /** `a.intersects(b)`: the boxes overlap on both axes, touching edges included. */
  predicate Intersects(a: Box, b: Box) {
    b.north >= a.south && b.south <= a.north && b.east >= a.west && b.west <= a.east
  }

  /** Two valid boxes intersect exactly when some position lies in both; in
      particular the test is symmetric. */
  lemma IntersectsIff(a: Box, b: Box)
    requires Valid(a) && Valid(b)
    ensures Intersects(a, b) <==> exists c :: Inside(a, c) && Inside(b, c)
    ensures Intersects(a, b) <==> Intersects(b, a)
  {
    if Intersects(a, b) {
      var c := Coord(Max(a.west, b.west), Max(a.south, b.south));
      assert Inside(a, c) && Inside(b, c);
    }
  }
}
