/**
  The green-space priority engine of the Greengap page: the block groups whose
  vegetation index and park access fall below two user thresholds, ranked by
  their green deficit index (gdi) and cut to the top ten; the fixed table of
  intervention impacts; and the coverage/cost projection built from them.
 */
module Greengap {

  /** One row of the priority table. `ndviHundredths` holds `ndvi_pct` in
      hundredths (0.22 is held as 22), so `ndvi_pct * 100` is that integer. */
  datatype Record = Record(
    id: string,
    name: string,
    ndviHundredths: int,
    parkAccessPct: int,
    gdi: int,
    topAction: string)

  /** The two slider values: a vegetation cut-off and a park-access cut-off, both in percent. */
  datatype Thresholds = Thresholds(ndviPct: int, accessPct: int)

  const DefaultThresholds: Thresholds := Thresholds(30, 60)

  /** How many ranked records the page keeps. */
  const TopN: nat := 10

  // ---------------------------------------------------------------------------
  // Filter
  // ---------------------------------------------------------------------------

  predicate Qualifies(r: Record, t: Thresholds) {
    r.ndviHundredths < t.ndviPct && r.parkAccessPct < t.accessPct
  }

  /** The records that pass both thresholds, in data order. */
  function Filter(data: seq<Record>, t: Thresholds): (r: seq<Record>)
    ensures |r| <= |data|
  {
    if data == [] then []
    else (if Qualifies(data[0], t) then [data[0]] else []) + Filter(data[1..], t)
  }

  // ---------------------------------------------------------------------------
  // Stable descending sort on gdi (the comparator `b.gdi - a.gdi`)
  // ---------------------------------------------------------------------------

  predicate SortedByGdi(s: seq<Record>) {
    forall i, j :: 0 <= i < j < |s| ==> s[i].gdi >= s[j].gdi
  }

  /** The records of `s` whose gdi is `g`, in the order of `s`: the tie class of `g`. */
  function WithGdi(s: seq<Record>, g: int): (r: seq<Record>)
    ensures |r| <= |s|
  {
    if s == [] then []
    else (if s[0].gdi == g then [s[0]] else []) + WithGdi(s[1..], g)
  }

  /** Puts `x` in front of the first element whose gdi is not greater than its own,
      so that `x` stays ahead of the records it tied with that came after it. */
  function InsertByGdi(x: Record, s: seq<Record>): (r: seq<Record>)
    ensures |r| == |s| + 1
  {
    if s == [] || s[0].gdi <= x.gdi then [x] + s
    else [s[0]] + InsertByGdi(x, s[1..])
  }

  /** Insertion sort, non-increasing on gdi. */
  function SortByGdi(s: seq<Record>): (r: seq<Record>)
    ensures |r| == |s|
  {
    if s == [] then [] else InsertByGdi(s[0], SortByGdi(s[1..]))
  }

  /** `slice(0, n)`. */
  function Take(s: seq<Record>, n: nat): (r: seq<Record>)
    ensures |r| == if |s| <= n then |s| else n
    ensures s == r + s[|r|..]
  {
    if |s| <= n then s else s[..n]
  }

  /** The priority list: the qualifying records, highest gdi first, at most `TopN` of them. */
  function FilteredPriorities(data: seq<Record>, t: Thresholds): seq<Record> {
    Take(SortByGdi(Filter(data, t)), TopN)
  }

  // ---------------------------------------------------------------------------
  // Lemmas: the tie classes and the sort
  // ---------------------------------------------------------------------------

  lemma FilterCons(x: Record, s: seq<Record>, t: Thresholds)
    ensures Filter([x] + s, t) == (if Qualifies(x, t) then [x] else []) + Filter(s, t)
  {
    assert ([x] + s)[1..] == s;
  }

  lemma WithGdiCons(x: Record, s: seq<Record>, g: int)
    ensures WithGdi([x] + s, g) == (if x.gdi == g then [x] else []) + WithGdi(s, g)
  {
    assert ([x] + s)[1..] == s;
  }

  lemma {:induction false} WithGdiAppend(a: seq<Record>, b: seq<Record>, g: int)
    ensures WithGdi(a + b, g) == WithGdi(a, g) + WithGdi(b, g)
  {
    if a == [] {
      assert a + b == b;
    } else {
      var h := if a[0].gdi == g then [a[0]] else [];
      assert a + b == [a[0]] + (a[1..] + b);
      WithGdiCons(a[0], a[1..] + b, g);
      WithGdiAppend(a[1..], b, g);
      calc {
        WithGdi(a + b, g);
        h + WithGdi(a[1..] + b, g);
        h + (WithGdi(a[1..], g) + WithGdi(b, g));
        (h + WithGdi(a[1..], g)) + WithGdi(b, g);
        WithGdi(a, g) + WithGdi(b, g);
      }
    }
  }

  lemma {:induction false} WithGdiMembers(s: seq<Record>, g: int, x: Record)
    ensures x in WithGdi(s, g) <==> x in s && x.gdi == g
  {
    if s != [] {
      WithGdiMembers(s[1..], g, x);
      assert s == [s[0]] + s[1..];
    }
  }

  /** The filter keeps every qualifying record exactly as often as the data holds it, and nothing else. */
  lemma {:induction false} FilterCounts(data: seq<Record>, t: Thresholds, x: Record)
    ensures multiset(Filter(data, t))[x] == if Qualifies(x, t) then multiset(data)[x] else 0
  {
    if data != [] {
      FilterCounts(data[1..], t, x);
      assert data == [data[0]] + data[1..];
    }
  }

  lemma FilterSubMultiset(data: seq<Record>, t: Thresholds)
    ensures multiset(Filter(data, t)) <= multiset(data)
  {
    forall x ensures multiset(Filter(data, t))[x] <= multiset(data)[x] {
      FilterCounts(data, t, x);
    }
  }

  /** Inserting into a sorted sequence keeps it sorted and adds exactly `x`. */
  lemma {:induction false} InsertByGdiSorted(x: Record, s: seq<Record>)
    requires SortedByGdi(s)
    ensures SortedByGdi(InsertByGdi(x, s))
    ensures multiset(InsertByGdi(x, s)) == multiset(s) + multiset{x}
    ensures InsertByGdi(x, s)[0] == x || (s != [] && InsertByGdi(x, s)[0] == s[0])
  {
    if s == [] || s[0].gdi <= x.gdi {
      SortedCons(x, s);
    } else {
      var t := s[1..];
      var rest := InsertByGdi(x, t);
      InsertByGdiSorted(x, t);
      assert InsertByGdi(x, s) == [s[0]] + rest;
      SortedCons(s[0], rest);
      assert s == [s[0]] + t;
      assert multiset(s) == multiset{s[0]} + multiset(t);
    }
  }

  lemma SortedCons(y: Record, s: seq<Record>)
    requires SortedByGdi(s)
    requires s == [] || y.gdi >= s[0].gdi
    ensures SortedByGdi([y] + s)
  {
    var r := [y] + s;
    forall i, j | 0 <= i < j < |r| ensures r[i].gdi >= r[j].gdi {
      if i == 0 {
        assert r[j] == s[j - 1];
        assert s[0].gdi >= s[j - 1].gdi;
      } else {
        assert r[i] == s[i - 1] && r[j] == s[j - 1];
      }
    }
  }

  /** The sort puts the records in non-increasing gdi order and neither loses nor adds any. */
  lemma {:induction false} SortByGdiSorted(s: seq<Record>)
    ensures SortedByGdi(SortByGdi(s))
    ensures multiset(SortByGdi(s)) == multiset(s)
  {
    if s != [] {
      SortByGdiSorted(s[1..]);
      InsertByGdiSorted(s[0], SortByGdi(s[1..]));
      assert s == [s[0]] + s[1..];
    }
  }

  /** Inserting `x` adds it at the FRONT of its own tie class and leaves every other class alone. */
  lemma {:induction false} InsertByGdiTies(x: Record, s: seq<Record>, g: int)
    requires SortedByGdi(s)
    ensures WithGdi(InsertByGdi(x, s), g) == if x.gdi == g then [x] + WithGdi(s, g) else WithGdi(s, g)
  {
    if s == [] || s[0].gdi <= x.gdi {
      WithGdiCons(x, s, g);
    } else {
      InsertByGdiTies(x, s[1..], g);
      WithGdiCons(s[0], InsertByGdi(x, s[1..]), g);
      WithGdiCons(s[0], s[1..], g);
      assert s == [s[0]] + s[1..];
    }
  }

  /** Where InsertByGdi puts `x`: right after the records with a strictly greater gdi. */
  lemma {:induction false} InsertAt(x: Record, s: seq<Record>, k: nat)
    requires k <= |s|
    requires forall i :: 0 <= i < k ==> s[i].gdi > x.gdi
    requires k == |s| || s[k].gdi <= x.gdi
    ensures InsertByGdi(x, s) == s[..k] + [x] + s[k..]
  {
    if k == 0 {
      assert s[..0] == [] && s[0..] == s;
    } else {
      var t := s[1..];
      assert s[0].gdi > x.gdi;
      assert InsertByGdi(x, s) == [s[0]] + InsertByGdi(x, t);
      forall i | 0 <= i < k - 1 ensures t[i].gdi > x.gdi {
        assert t[i] == s[i + 1];
      }
      assert k - 1 == |t| || t[k - 1] == s[k];
      InsertAt(x, t, k - 1);
      assert s[..k] == [s[0]] + t[..k - 1];
      assert s[k..] == t[k - 1..];
    }
  }


  /** The sort is stable: each tie class comes out in input order. */
  lemma {:induction false} SortByGdiStable(s: seq<Record>, g: int)
    ensures WithGdi(SortByGdi(s), g) == WithGdi(s, g)
  {
    if s != [] {
      SortByGdiStable(s[1..], g);
      SortByGdiSorted(s[1..]);
      InsertByGdiTies(s[0], SortByGdi(s[1..]), g);
      WithGdiCons(s[0], s[1..], g);
      assert s == [s[0]] + s[1..];
    }
  }

  /** `a` and `b` hold the same tie classes, each in the same order. */
  ghost predicate SameTies(a: seq<Record>, b: seq<Record>) {
    forall g :: WithGdi(a, g) == WithGdi(b, g)
  }

  /** Sequences with the same tie classes hold the same records. */
  lemma SameTiesMember(a: seq<Record>, b: seq<Record>, x: Record)
    requires SameTies(a, b)
    ensures x in a <==> x in b
  {
    WithGdiMembers(a, x.gdi, x);
    WithGdiMembers(b, x.gdi, x);
    assert WithGdi(a, x.gdi) == WithGdi(b, x.gdi);
  }

  /** The first record of a sorted sequence has the largest gdi. */
  lemma SortedHeadMax(s: seq<Record>, x: Record)
    requires SortedByGdi(s) && x in s
    ensures s[0].gdi >= x.gdi
  {
    var i :| 0 <= i < |s| && s[i] == x;
    assert i == 0 || s[0].gdi >= s[i].gdi;
  }

  /** Two sorted sequences with the same tie classes start with the same record. */
  lemma SameTiesHeads(a: seq<Record>, b: seq<Record>)
    requires SortedByGdi(a) && SortedByGdi(b) && SameTies(a, b)
    requires a != []
    ensures b != [] && a[0] == b[0]
  {
    var x := a[0];
    SameTiesMember(a, b, x);
    var y := b[0];
    SameTiesMember(a, b, y);
    SortedHeadMax(b, x);
    SortedHeadMax(a, y);
    var g := x.gdi;
    assert a == [x] + a[1..] && b == [y] + b[1..];
    WithGdiCons(x, a[1..], g);
    WithGdiCons(y, b[1..], g);
    assert x == WithGdi(a, g)[0] == WithGdi(b, g)[0] == y;
  }

  /** Dropping a common first record keeps the tie classes equal. */
  lemma SameTiesTails(a: seq<Record>, b: seq<Record>)
    requires a != [] && b != [] && a[0] == b[0] && SameTies(a, b)
    ensures SameTies(a[1..], b[1..])
  {
    var x := a[0];
    assert a == [x] + a[1..] && b == [x] + b[1..];
    forall g
      ensures WithGdi(a[1..], g) == WithGdi(b[1..], g)
    {
      WithGdiCons(x, a[1..], g);
      WithGdiCons(x, b[1..], g);
      var h := if x.gdi == g then [x] else [];
      assert h + WithGdi(a[1..], g) == h + WithGdi(b[1..], g);
      assert WithGdi(a[1..], g) == (h + WithGdi(a[1..], g))[|h|..];
      assert WithGdi(b[1..], g) == (h + WithGdi(b[1..], g))[|h|..];
    }
  }

  /** Sortedness and the order inside every tie class determine a sequence: any
      stable descending sort of the same records gives exactly SortByGdi's result. */
  lemma {:induction false} TiesDetermineOrder(a: seq<Record>, b: seq<Record>)
    requires SortedByGdi(a) && SortedByGdi(b) && SameTies(a, b)
    ensures a == b
    decreases |a|
  {
    if a == [] {
      if b != [] {
        SameTiesHeads(b, a);
        assert false;
      }
    } else {
      SameTiesHeads(a, b);
      SameTiesTails(a, b);
      TiesDetermineOrder(a[1..], b[1..]);
      assert a == [a[0]] + a[1..] && b == [b[0]] + b[1..];
    }
  }

  /** SortByGdi is THE stable descending sort: any sequence that is sorted on gdi
      and keeps every tie class of `s` in order is SortByGdi(s). */
  lemma SortByGdiUnique(s: seq<Record>, r: seq<Record>)
    requires SortedByGdi(r) && SameTies(r, s)
    ensures r == SortByGdi(s)
  {
    SortByGdiSorted(s);
    forall g ensures WithGdi(r, g) == WithGdi(SortByGdi(s), g) {
      SortByGdiStable(s, g);
    }
    TiesDetermineOrder(r, SortByGdi(s));
  }

  /** Filtering by threshold and splitting into tie classes commute. */
  lemma {:induction false} FilterWithGdi(s: seq<Record>, t: Thresholds, g: int)
    ensures WithGdi(Filter(s, t), g) == Filter(WithGdi(s, g), t)
  {
    if s != [] {
      assert s == [s[0]] + s[1..];
      FilterWithGdi(s[1..], t, g);
      FilterCons(s[0], s[1..], t);
      WithGdiCons(s[0], s[1..], g);
      var head := if Qualifies(s[0], t) then [s[0]] else [];
      WithGdiAppend(head, Filter(s[1..], t), g);
      WithGdiCons(s[0], [], g);
      assert [s[0]] + [] == [s[0]];
      var rest := Filter(WithGdi(s[1..], g), t);
      assert WithGdi(Filter(s[1..], t), g) == rest;
      if s[0].gdi == g {
        FilterCons(s[0], WithGdi(s[1..], g), t);
        assert WithGdi(s, g) == [s[0]] + WithGdi(s[1..], g);
        assert WithGdi(head, g) == head;
      } else {
        assert WithGdi(s, g) == [] + WithGdi(s[1..], g) == WithGdi(s[1..], g);
        assert WithGdi(head, g) == [];
        assert [] + rest == rest;
      }
    }
  }

  // ---------------------------------------------------------------------------
  // Lemmas: what the page's priority list promises
  // ---------------------------------------------------------------------------

  /** At most ten records, each passing both thresholds, each taken unaltered from
      the data and no record more often than the data holds it. */
  lemma PrioritiesAreSelection(data: seq<Record>, t: Thresholds)
    ensures |FilteredPriorities(data, t)| <= TopN
    ensures forall x :: x in FilteredPriorities(data, t) ==> x in data && Qualifies(x, t)
    ensures multiset(FilteredPriorities(data, t)) <= multiset(data)
  {
    var f := Filter(data, t);
    var s := SortByGdi(f);
    var r := Take(s, TopN);
    SortByGdiSorted(f);
    assert multiset(s) == multiset(r) + multiset(s[|r|..]);
    FilterSubMultiset(data, t);
    forall x | x in r ensures x in data && Qualifies(x, t) {
      assert x in multiset(r);
      FilterCounts(data, t, x);
    }
  }

  /** Non-increasing gdi; within each gdi the records keep the data order: the
      tie class in the result is a prefix of the data's tie class (after filtering). */
  lemma PrioritiesOrdered(data: seq<Record>, t: Thresholds, g: int)
    ensures SortedByGdi(FilteredPriorities(data, t))
    ensures WithGdi(FilteredPriorities(data, t), g) <= Filter(WithGdi(data, g), t)
  {
    var f := Filter(data, t);
    var s := SortByGdi(f);
    var r := Take(s, TopN);
    SortByGdiSorted(f);
    WithGdiAppend(r, s[|r|..], g);
    SortByGdiStable(f, g);
    FilterWithGdi(data, t, g);
  }

  /** A qualifying record is missing from the list only because ten records with
      at least its gdi fill it. */
  lemma PrioritiesComplete(data: seq<Record>, t: Thresholds, x: Record)
    requires x in data && Qualifies(x, t)
    requires x !in FilteredPriorities(data, t)
    ensures |FilteredPriorities(data, t)| == TopN
    ensures forall y :: y in FilteredPriorities(data, t) ==> y.gdi >= x.gdi
  {
    var f := Filter(data, t);
    var s := SortByGdi(f);
    var r := Take(s, TopN);
    SortByGdiSorted(f);
    FilterCounts(data, t, x);
    assert x in multiset(s);
    var k :| 0 <= k < |s| && s[k] == x;
    forall j | 0 <= j < |r| ensures s[j] == r[j] && s[j] != x {
      assert r[j] in r;
    }
    assert |r| <= k < |s|;
    forall y | y in r ensures y.gdi >= x.gdi {
      var j :| 0 <= j < |r| && r[j] == y;
      assert s[j] == y && j < k;
    }
  }

  /** Raising either threshold never drops a record from the filtered set: the
      stricter result is a re-filtering of the looser one. */
  lemma {:induction false} FilterMonotone(data: seq<Record>, t1: Thresholds, t2: Thresholds)
    requires t1.ndviPct <= t2.ndviPct && t1.accessPct <= t2.accessPct
    ensures Filter(data, t1) == Filter(Filter(data, t2), t1)
  {
    if data != [] {
      FilterMonotone(data[1..], t1, t2);
      assert data == [data[0]] + data[1..];
      FilterCons(data[0], data[1..], t1);
      FilterCons(data[0], data[1..], t2);
      if Qualifies(data[0], t2) {
        FilterCons(data[0], Filter(data[1..], t2), t1);
      } else {
        assert Filter(data, t2) == [] + Filter(data[1..], t2) == Filter(data[1..], t2);
        assert Filter(data, t1) == [] + Filter(data[1..], t1) == Filter(data[1..], t1);
      }
    }
  }

  /** Every record of the stricter set is in the looser one. */
  lemma FilterGrows(data: seq<Record>, t1: Thresholds, t2: Thresholds)
    requires t1.ndviPct <= t2.ndviPct && t1.accessPct <= t2.accessPct
    ensures multiset(Filter(data, t1)) <= multiset(Filter(data, t2))
  {
    FilterMonotone(data, t1, t2);
    FilterSubMultiset(Filter(data, t2), t1);
  }

  // ---------------------------------------------------------------------------
  // Intervention table
  // ---------------------------------------------------------------------------

  /** Access boost in points, cost in dollars, return per resident. */
  datatype Impact = Impact(accessBoost: int, cost: int, roi: int)

  const NoImpact: Impact := Impact(0, 0, 0)

  const ActionTable: map<string, Impact> := map[
    "2 pocket parks" := Impact(14, 850000, 42),
    "Street tree corridor" := Impact(8, 320000, 68),
    "1 pocket park" := Impact(11, 420000, 51),
    "Green roof program" := Impact(5, 180000, 34),
    "Schoolyard sharing" := Impact(9, 95000, 88)
  ]

  /** The table entry for the site's action; an unknown action has no impact. */
  function SimulateIntervention(site: Record): (r: Impact)
    ensures r.accessBoost >= 0 && r.cost >= 0 && r.roi >= 0
  {
    if site.topAction in ActionTable then ActionTable[site.topAction] else NoImpact
  }

  /** A known action has an impact, and an unknown one none at all: every entry of
      the table has a positive boost, cost and return; "Schoolyard sharing", for
      one, gives a boost of 9 for 95000 at a return of 88. */
  lemma InterventionKnown(site: Record)
    ensures SimulateIntervention(site) != NoImpact <==> site.topAction in ActionTable
    ensures site.topAction in ActionTable ==>
      var r := SimulateIntervention(site);
      r.accessBoost > 0 && r.cost > 0 && r.roi > 0
    ensures site.topAction == "Schoolyard sharing" ==> SimulateIntervention(site) == Impact(9, 95000, 88)
  {
  }

  // ---------------------------------------------------------------------------
  // Projection
  // ---------------------------------------------------------------------------

  datatype Point = Point(year: int, coverage: real, cost: real)

  const BaselineYear: int := 2025
  const BaselineCoverage: real := 58.0
  const Baseline: Point := Point(BaselineYear, BaselineCoverage, 0.0)

  function TotalBoost(sites: seq<Record>): (b: int)
    ensures b >= 0
  {
    if sites == [] then 0
    else TotalBoost(sites[..|sites| - 1]) + SimulateIntervention(sites[|sites| - 1]).accessBoost
  }

  function TotalCost(sites: seq<Record>): (c: int)
    ensures c >= 0
  {
    if sites == [] then 0
    else TotalCost(sites[..|sites| - 1]) + SimulateIntervention(sites[|sites| - 1]).cost
  }

  function MinReal(a: real, b: real): real {
    if a <= b then a else b
  }

  /** The projected series: the baseline, then, for a non-empty list, 30%, 70% and
      100% of the total boost and 40%, 80% and 100% of the total cost at 2026, 2028
      and 2030, only the last coverage capped at 100. */
  function Projection(sites: seq<Record>): seq<Point> {
    var b := TotalBoost(sites) as real;
    var c := TotalCost(sites) as real;
    [Baseline] +
    if |sites| == 0 then []
    else [Point(2026, BaselineCoverage + b * 0.3, c * 0.4),
          Point(2028, BaselineCoverage + b * 0.7, c * 0.8),
          Point(2030, MinReal(100.0, BaselineCoverage + b), c)]
  }

  /** The page's `projectionData`: a reduce over the sites, then the pushes. */
  method ProjectionData(sites: seq<Record>) returns (projection: seq<Point>)
    ensures projection == Projection(sites)
  {
    projection := [Point(BaselineYear, BaselineCoverage, 0.0)];
    var totalBoost, totalCost := 0, 0;
    var i := 0;
    while i < |sites|
      invariant 0 <= i <= |sites|
      invariant totalBoost == TotalBoost(sites[..i])
      invariant totalCost == TotalCost(sites[..i])
    {
      var intervention := SimulateIntervention(sites[i]);
      assert sites[..i + 1][..i] == sites[..i];
      totalBoost := totalBoost + intervention.accessBoost;
      totalCost := totalCost + intervention.cost;
      i := i + 1;
    }
    assert sites[..|sites|] == sites;
    if |sites| > 0 {
      projection := projection + [Point(2026, BaselineCoverage + totalBoost as real * 0.3, totalCost as real * 0.4)];
      projection := projection + [Point(2028, BaselineCoverage + totalBoost as real * 0.7, totalCost as real * 0.8)];
      projection := projection + [Point(2030, MinReal(100.0, BaselineCoverage + totalBoost as real), totalCost as real)];
    }
  }

  lemma {:induction false} TotalsAppend(u: seq<Record>, v: seq<Record>)
    ensures TotalBoost(u + v) == TotalBoost(u) + TotalBoost(v)
    ensures TotalCost(u + v) == TotalCost(u) + TotalCost(v)
    decreases |v|
  {
    if v == [] {
      assert u + v == u;
    } else {
      var w := v[..|v| - 1];
      assert (u + v)[..|u + v| - 1] == u + w;
      assert (u + v)[|u + v| - 1] == v[|v| - 1];
      TotalsAppend(u, w);
    }
  }

  lemma TotalsSingle(x: Record)
    ensures TotalBoost([x]) == SimulateIntervention(x).accessBoost
    ensures TotalCost([x]) == SimulateIntervention(x).cost
  {
    assert [x][..0] == [];
  }

  /** Taking the site `x` out of a list takes its share out of both totals. */
  lemma TotalsRemove(pre: seq<Record>, x: Record, post: seq<Record>)
    ensures TotalBoost(pre + [x] + post) == TotalBoost(pre + post) + SimulateIntervention(x).accessBoost
    ensures TotalCost(pre + [x] + post) == TotalCost(pre + post) + SimulateIntervention(x).cost
  {
    TotalsAppend(pre + [x], post);
    TotalsAppend(pre, [x]);
    TotalsAppend(pre, post);
    TotalsSingle(x);
  }

  /** The totals depend only on which sites are selected, not on their order. */
  lemma {:induction false} TotalsPermutation(a: seq<Record>, b: seq<Record>)
    requires multiset(a) == multiset(b)
    ensures TotalBoost(a) == TotalBoost(b) && TotalCost(a) == TotalCost(b)
    decreases |a|
  {
    if a == [] {
      assert |b| == |multiset(b)| == 0;
    } else {
      var n := |a| - 1;
      var x := a[n];
      assert a == a[..n] + [x];
      assert multiset(a) == multiset(a[..n]) + multiset{x};
      var k, rest := RemoveOne(b, x, multiset(a[..n]));
      TotalsRemove(b[..k], x, b[k + 1..]);
      TotalsPermutation(a[..n], rest);
    }
  }

  /** Where `x` sits in `b` when `b` holds `x` besides `m`, and `b` without it. */
  lemma RemoveOne(b: seq<Record>, x: Record, m: multiset<Record>) returns (k: nat, rest: seq<Record>)
    requires multiset(b) == m + multiset{x}
    ensures k < |b| && b[k] == x && rest == b[..k] + b[k + 1..] && b == b[..k] + [x] + b[k + 1..]
    ensures multiset(rest) == m && |rest| == |b| - 1
  {
    assert x in multiset(b);
    k :| 0 <= k < |b| && b[k] == x;
    rest := b[..k] + b[k + 1..];
    assert b == b[..k] + [x] + b[k + 1..];
    assert multiset(b) == multiset(rest) + multiset{x};
    MultisetCancel(m, multiset(rest), x);
  }

  lemma MultisetCancel<T>(p: multiset<T>, q: multiset<T>, x: T)
    requires p + multiset{x} == q + multiset{x}
    ensures p == q
  {
    forall y ensures p[y] == q[y] {
      assert (p + multiset{x})[y] == p[y] + multiset{x}[y];
      assert (q + multiset{x})[y] == q[y] + multiset{x}[y];
    }
  }

  /** The series always opens with the baseline; an empty list gives nothing else,
      any other list exactly three more points, in increasing years, with
      non-decreasing costs ending at the total cost and the last coverage never
      above 100. */
  lemma ProjectionShape(sites: seq<Record>)
    ensures Projection(sites)[0] == Point(2025, 58.0, 0.0)
    ensures |Projection(sites)| == (if sites == [] then 1 else 4)
    ensures sites != [] ==>
      var p := Projection(sites);
      && p[0].year < p[1].year < p[2].year < p[3].year
      && p[0].coverage <= p[1].coverage <= p[2].coverage
      && p[0].cost <= p[1].cost <= p[2].cost <= p[3].cost
      && p[3].cost == TotalCost(sites) as real
      && p[3].coverage <= 100.0
      && BaselineCoverage <= p[3].coverage
  {
  }
}
