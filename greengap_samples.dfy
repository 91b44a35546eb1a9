/**
  The Greengap page's ten sample block groups, and what the ranking and the
  projection give for them.
 */
module GreengapSamples {
  import opened Greengap

  const BlockGroup101 := Record("bg_101", "Block Group 101", 22, 41, 82, "2 pocket parks")
  const BlockGroup088 := Record("bg_088", "Block Group 088", 31, 55, 74, "Street tree corridor")
  const BlockGroup132 := Record("bg_132", "Block Group 132", 27, 49, 71, "1 pocket park")
  const BlockGroup067 := Record("bg_067", "Block Group 067", 29, 58, 68, "Green roof program")
  const BlockGroup045 := Record("bg_045", "Block Group 045", 19, 38, 79, "Schoolyard sharing")
  const DistrictNorth := Record("bg_201", "District North", 15, 25, 91, "2 pocket parks")
  const Riverside := Record("bg_202", "Riverside", 45, 88, 45, "Street tree corridor")
  const IndustrialPark := Record("bg_203", "Industrial Park", 8, 15, 95, "2 pocket parks")
  const EastSuburbs := Record("bg_204", "East Suburbs", 35, 75, 50, "Green roof program")
  const DowntownCore := Record("bg_205", "Downtown Core", 12, 65, 65, "1 pocket park")

  const SampleData: seq<Record> := [
    BlockGroup101, BlockGroup088, BlockGroup132, BlockGroup067, BlockGroup045,
    DistrictNorth, Riverside, IndustrialPark, EastSuburbs, DowntownCore
  ]

  lemma FilterStep(data: seq<Record>, k: nat, t: Thresholds)
    requires k < |data|
    ensures Filter(data[k..], t) == (if Qualifies(data[k], t) then [data[k]] else []) + Filter(data[k + 1..], t)
  {
    assert data[k..] == [data[k]] + data[k + 1..];
    FilterCons(data[k], data[k + 1..], t);
  }

  lemma DefaultFilterTail()
    ensures Filter(SampleData[5..], DefaultThresholds) == [DistrictNorth, IndustrialPark]
  {
    var d, t := SampleData, DefaultThresholds;
    assert d[10..] == [];
    FilterStep(d, 9, t);
    FilterStep(d, 8, t);
    FilterStep(d, 7, t);
    FilterStep(d, 6, t);
    FilterStep(d, 5, t);
  }

  lemma DefaultFilterMiddle()
    ensures Filter(SampleData[2..], DefaultThresholds) ==
      [BlockGroup132, BlockGroup067, BlockGroup045, DistrictNorth, IndustrialPark]
  {
    var d, t := SampleData, DefaultThresholds;
    DefaultFilterTail();
    FilterStep(d, 4, t);
    FilterStep(d, 3, t);
    FilterStep(d, 2, t);
  }

  /** With the default sliders the filter keeps six block groups, in data order:
      Riverside and Downtown Core fail the access cut, Block Group 088 and East
      Suburbs the vegetation cut. */
  lemma DefaultFilter()
    ensures Filter(SampleData, DefaultThresholds) ==
      [BlockGroup101, BlockGroup132, BlockGroup067, BlockGroup045, DistrictNorth, IndustrialPark]
  {
    var d, t := SampleData, DefaultThresholds;
    DefaultFilterMiddle();
    FilterStep(d, 1, t);
    FilterStep(d, 0, t);
    assert d[0..] == d;
  }

  lemma SortCons(x: Record, s: seq<Record>)
    ensures SortByGdi([x] + s) == InsertByGdi(x, SortByGdi(s))
  {
    assert ([x] + s)[1..] == s;
  }

  lemma Sort1()
    ensures SortByGdi([IndustrialPark]) == [IndustrialPark]
  {
    SortCons(IndustrialPark, []);
  }

  lemma Sort2()
    ensures SortByGdi([DistrictNorth, IndustrialPark]) == [IndustrialPark, DistrictNorth]
  {
    Sort1();
    SortCons(DistrictNorth, [IndustrialPark]);
    InsertAt(DistrictNorth, [IndustrialPark], 1);
  }

  lemma Sort3()
    ensures SortByGdi([BlockGroup045, DistrictNorth, IndustrialPark]) ==
      [IndustrialPark, DistrictNorth, BlockGroup045]
  {
    Sort2();
    SortCons(BlockGroup045, [DistrictNorth, IndustrialPark]);
    InsertAt(BlockGroup045, [IndustrialPark, DistrictNorth], 2);
  }

  lemma Sort4()
    ensures SortByGdi([BlockGroup067, BlockGroup045, DistrictNorth, IndustrialPark]) ==
      [IndustrialPark, DistrictNorth, BlockGroup045, BlockGroup067]
  {
    Sort3();
    SortCons(BlockGroup067, [BlockGroup045, DistrictNorth, IndustrialPark]);
    InsertAt(BlockGroup067, [IndustrialPark, DistrictNorth, BlockGroup045], 3);
  }

  lemma Sort5()
    ensures SortByGdi([BlockGroup132, BlockGroup067, BlockGroup045, DistrictNorth, IndustrialPark]) ==
      [IndustrialPark, DistrictNorth, BlockGroup045, BlockGroup132, BlockGroup067]
  {
    Sort4();
    SortCons(BlockGroup132, [BlockGroup067, BlockGroup045, DistrictNorth, IndustrialPark]);
    var s := [IndustrialPark, DistrictNorth, BlockGroup045, BlockGroup067];
    InsertAt(BlockGroup132, s, 3);
    assert s[..3] == [IndustrialPark, DistrictNorth, BlockGroup045] && s[3..] == [BlockGroup067];
  }

  lemma DefaultSort()
    ensures SortByGdi([BlockGroup101, BlockGroup132, BlockGroup067, BlockGroup045, DistrictNorth, IndustrialPark]) ==
      [IndustrialPark, DistrictNorth, BlockGroup101, BlockGroup045, BlockGroup132, BlockGroup067]
  {
    Sort5();
    SortCons(BlockGroup101, [BlockGroup132, BlockGroup067, BlockGroup045, DistrictNorth, IndustrialPark]);
    var s := [IndustrialPark, DistrictNorth, BlockGroup045, BlockGroup132, BlockGroup067];
    InsertAt(BlockGroup101, s, 2);
    assert s[..2] == [IndustrialPark, DistrictNorth] && s[2..] == [BlockGroup045, BlockGroup132, BlockGroup067];
  }

  /** With the default sliders {30, 60} the list is Industrial Park, District
      North, Block Group 101, Block Group 045, Block Group 132, Block Group 067. */
  lemma DefaultPriorities()
    ensures FilteredPriorities(SampleData, DefaultThresholds) ==
      [IndustrialPark, DistrictNorth, BlockGroup101, BlockGroup045, BlockGroup132, BlockGroup067]
  {
    DefaultFilter();
    DefaultSort();
  }

  /** Both sliders at their maxima (60 and 90): every sample block group passes both cuts. */
  const OpenThresholds: Thresholds := Thresholds(60, 90)

  lemma {:induction false} FilterKeepsAll(data: seq<Record>, t: Thresholds)
    requires forall r :: r in data ==> Qualifies(r, t)
    ensures Filter(data, t) == data
  {
    if data != [] {
      assert data == [data[0]] + data[1..];
      FilterKeepsAll(data[1..], t);
    }
  }

  lemma BoostStep(d: seq<Record>, k: nat)
    requires k < |d|
    ensures TotalBoost(d[..k + 1]) == TotalBoost(d[..k]) + SimulateIntervention(d[k]).accessBoost
  {
    assert d[..k + 1][..k] == d[..k];
  }

  /** The access boosts of the ten sample block groups add up to 99. */
  lemma SampleBoost()
    ensures TotalBoost(SampleData) == 99
  {
    var d := SampleData;
    assert d[..0] == [];
    BoostStep(d, 0); BoostStep(d, 1); BoostStep(d, 2); BoostStep(d, 3); BoostStep(d, 4);
    BoostStep(d, 5); BoostStep(d, 6); BoostStep(d, 7); BoostStep(d, 8); BoostStep(d, 9);
    assert d[..10] == d;
  }

  /** When every record passes and there are no more than ten, the page lists them
      all, sorted, and the totals are those of the data. */
  lemma ListsAll(data: seq<Record>, t: Thresholds)
    requires forall r :: r in data ==> Qualifies(r, t)
    requires |data| <= TopN
    ensures FilteredPriorities(data, t) == SortByGdi(data)
    ensures TotalBoost(FilteredPriorities(data, t)) == TotalBoost(data)
  {
    FilterKeepsAll(data, t);
    SortByGdiSorted(data);
    TotalsPermutation(SortByGdi(data), data);
  }

  /** With open sliders all ten sample block groups are listed, for a total boost of 99. */
  lemma AllSamplesListed()
    ensures TotalBoost(FilteredPriorities(SampleData, OpenThresholds)) == 99
    ensures |FilteredPriorities(SampleData, OpenThresholds)| == 10
  {
    ListsAll(SampleData, OpenThresholds);
    SampleBoost();
  }

  /** With all ten sample block groups selected the total access boost is 99, and
      since only the 2030 point is capped, the 2028 coverage (127.3) lies above the
      2030 coverage (100): the series is not monotone in coverage. */
  lemma ProjectionOvershoot()
    ensures var p := Projection(FilteredPriorities(SampleData, OpenThresholds));
      |p| == 4 && p[2].coverage == 127.3 && p[3].coverage == 100.0 && p[2].coverage > p[3].coverage
  {
    AllSamplesListed();
  }
}
