/**
  The figures of the overview chapter (`renderChapterOverview`) with the HTML
  left aside: record and station counts, the fuels and regions present, the
  four tallies of the cached overview statistics, the semester axis in sorted
  order and the ten brands with most records.
*/
module Overview {
  import opened Collections
  import opened Lexical
  import opened Records

  /** The object the overview calculator returns: one `countBy` per field. */
  datatype OverviewStats = OverviewStats(
    bySemester: Tally<string>,  // recordsBySemester
    byFuel: Tally<string>,      // recordsByFuel
    byRegion: Tally<string>,    // recordsByRegional
    byBrand: Tally<string>      // recordsByBrand
  ) {
    ghost predicate Valid() {
      bySemester.Valid() && byFuel.Valid() && byRegion.Valid() && byBrand.Valid()
    }
  }

  /** The overview calculator: each tally counts, per value, the records having it. */
  function ComputeOverviewStats(data: seq<Record>): (st: OverviewStats)
    ensures st.Valid()
    ensures st.bySemester.counts.Keys == KeySet(data, SemesterOf)
    ensures st.byFuel.counts.Keys == KeySet(data, ProductOf)
    ensures st.byRegion.counts.Keys == KeySet(data, RegionOf)
    ensures st.byBrand.counts.Keys == KeySet(data, BrandOf)
    ensures forall k :: k in st.bySemester.counts ==> st.bySemester.counts[k] == Count(data, SemesterOf, k)
    ensures forall k :: k in st.byFuel.counts ==> st.byFuel.counts[k] == Count(data, ProductOf, k)
    ensures forall k :: k in st.byRegion.counts ==> st.byRegion.counts[k] == Count(data, RegionOf, k)
    ensures forall k :: k in st.byBrand.counts ==> st.byBrand.counts[k] == Count(data, BrandOf, k)
  {
    OverviewStats(CountBy(data, SemesterOf), CountBy(data, ProductOf),
                  CountBy(data, RegionOf), CountBy(data, BrandOf))
  }

  /** `_.uniqBy(dataToUse, 'cnpjDaRevenda').length`. */
  function UniqueStations(data: seq<Record>): (n: nat)
    ensures n == |KeySet(data, StationOf)|
    ensures n <= |data|
  {
    |UniqBy(data, StationOf)|
  }

  /** `_.uniq(dataToUse.map(d => d.produto))`. */
  function FuelTypes(data: seq<Record>): (r: seq<string>)
    ensures Distinct(r)
    ensures forall p :: p in r <==> exists d :: d in data && d.product == p
  {
    Uniq(MapSeq(ProductOf, data))
  }

  /** `_.uniq(dataToUse.map(d => d.regional)).filter(r => r !== 'Não Identificada')`. */
  function Regionals(data: seq<Record>): (r: seq<string>)
    ensures Distinct(r)
    ensures Unidentified !in r
    ensures forall g :: g in r <==> g != Unidentified && exists d :: d in data && d.region == g
  {
    var names := MapSeq(RegionOf, data);
    var regions := Uniq(names);
    var r := Filter(g => g != Unidentified, regions);
    FilterDistinct(g => g != Unidentified, regions);
    assert forall g :: g in r <==> g != Unidentified && g in names;
    r
  }

  /** `Object.keys(recordsBySemester).sort()`. */
  function SortedSemesters(t: Tally<string>): (r: seq<string>)
    requires t.Valid()
    ensures multiset(r) == multiset(t.keys)
    ensures forall k :: k in r <==> k in t.counts
    ensures forall i, j :: 0 <= i < j < |r| ==> LexLe(r[i], r[j]) && r[i] != r[j]
  {
    var r := SortWith(LexLe, t.keys);
    LexLeIsTotalOrder();
    SortWithSorted(LexLe, t.keys);
    DistinctPermutation(t.keys, r);
    assert forall k :: k in r <==> k in multiset(t.keys);
    r
  }

  /** The order of `_.sortBy(pairs, 1)`: ascending count. */
  predicate ByCount(p: (string, nat), q: (string, nat)) {
    p.1 <= q.1
  }

  /** `_.chain(recordsByBrand).toPairs().sortBy(1).reverse().take(10)`. */
  function Top10Brands(t: Tally<string>): (r: seq<(string, nat)>)
    requires t.Valid()
    ensures |r| == Min(10, |t.keys|)
    ensures forall q :: q in r ==> q.0 in t.counts && q.1 == t.counts[q.0]
    ensures forall i, j :: 0 <= i < j < |r| ==> r[i].1 >= r[j].1 && r[i].0 != r[j].0
    ensures forall b, q :: b in t.counts && q in r && t.counts[b] > q.1 ==> (b, t.counts[b]) in r
  {
    var pairs := ToPairs(t);
    var desc := Reverse(SortWith(ByCount, pairs));
    TopOfDescending(t, pairs, desc);
    desc[..Min(10, |desc|)]
  }

  lemma TopOfDescending(t: Tally<string>, pairs: seq<(string, nat)>, desc: seq<(string, nat)>)
    requires t.Valid() && pairs == ToPairs(t) && desc == Reverse(SortWith(ByCount, pairs))
    ensures |desc| == |t.keys|
    ensures forall q :: q in desc <==> q.0 in t.counts && q.1 == t.counts[q.0]
    ensures forall i, j :: 0 <= i < j < |desc| ==> desc[i].1 >= desc[j].1
    ensures Distinct(desc)
  {
    var asc := SortWith(ByCount, pairs);
    ToPairsMembers(t);
    DistinctPermutation(pairs, asc);
    ReverseDistinct(asc);
    ReverseMembers(asc);
    assert |asc| == |pairs| by { assert |multiset(asc)| == |multiset(pairs)|; }
    assert forall q :: q in asc <==> q in pairs by {
      assert forall q :: q in asc <==> q in multiset(pairs);
    }
    SortWithSorted(ByCount, pairs);
    DescendingCounts(asc);
  }

  lemma DescendingCounts(asc: seq<(string, nat)>)
    requires Sorted(asc, ByCount)
    ensures forall i, j :: 0 <= i < j < |asc| ==> Reverse(asc)[i].1 >= Reverse(asc)[j].1
  {
  }

  /** What the overview chapter shows, with the markup left out. */
  datatype OverviewFigures = OverviewFigures(
    totalRecords: nat,
    uniqueStations: nat,
    fuelTypes: seq<string>,
    regionals: seq<string>,
    sortedSemesters: seq<string>,
    sortedSemesterValues: seq<nat>,
    fuelKeys: seq<string>,
    fuelValues: seq<nat>,
    regionalKeys: seq<string>,
    regionalValues: seq<nat>,
    top10Brands: seq<(string, nat)>
  )

  /** The figures `renderChapterOverview` derives from the data and the cached statistics. */
  function OverviewOf(data: seq<Record>, st: OverviewStats): (o: OverviewFigures)
    requires st.Valid()
    ensures o.totalRecords == |data|
    ensures |o.sortedSemesterValues| == |o.sortedSemesters|
    ensures |o.fuelValues| == |o.fuelKeys| && |o.regionalValues| == |o.regionalKeys|
  {
    var semesters := SortedSemesters(st.bySemester);
    OverviewFigures(
      |data|,
      UniqueStations(data),
      FuelTypes(data),
      Regionals(data),
      semesters,
      ValuesAt(st.bySemester.counts, semesters),
      st.byFuel.keys,
      ValuesAt(st.byFuel.counts, st.byFuel.keys),
      st.byRegion.keys,
      ValuesAt(st.byRegion.counts, st.byRegion.keys),
      Top10Brands(st.byBrand))
  }

  /**
    The semester chart: each bar is the number of records of its semester, and
    the bars account for every record.
  */
  lemma SemesterChartCounts(data: seq<Record>)
    ensures var t := ComputeOverviewStats(data).bySemester;
      var semesters := SortedSemesters(t);
      var values := ValuesAt(t.counts, semesters);
      && (forall i :: 0 <= i < |semesters| ==> values[i] == Count(data, SemesterOf, semesters[i]))
      && Sum(values) == |data|
  {
    var t := ComputeOverviewStats(data).bySemester;
    var semesters := SortedSemesters(t);
    SumValuesAtCounts(data, SemesterOf, t.counts, semesters);
    forall d | d in data ensures SemesterOf(d) in semesters {
      assert SemesterOf(d) in KeySet(data, SemesterOf);
    }
    assert Distinct(semesters);
    SumOfCountsCovers(data, SemesterOf, semesters);
  }

  /**
    On statistics computed from the same data, the figures of the overview:
    at most one station per record, every chart value is the number of
    records having its label, and each chart accounts for every record (the
    region chart keeps the unidentified region).
  */
  lemma OverviewChartsCount(data: seq<Record>)
    ensures var o := OverviewOf(data, ComputeOverviewStats(data));
      && o.uniqueStations <= o.totalRecords == |data|
      && (forall i :: 0 <= i < |o.sortedSemesters| ==>
            o.sortedSemesterValues[i] == Count(data, SemesterOf, o.sortedSemesters[i]))
      && (forall i :: 0 <= i < |o.fuelKeys| ==>
            o.fuelValues[i] == Count(data, ProductOf, o.fuelKeys[i]))
      && (forall i :: 0 <= i < |o.regionalKeys| ==>
            o.regionalValues[i] == Count(data, RegionOf, o.regionalKeys[i]))
      && (Unidentified in o.regionalKeys <==> exists d :: d in data && d.region == Unidentified)
      && Sum(o.sortedSemesterValues) == |data|
      && Sum(o.fuelValues) == |data|
      && Sum(o.regionalValues) == |data|
  {
    var st := ComputeOverviewStats(data);
    var o := OverviewOf(data, st);
    assert o.sortedSemesters == SortedSemesters(st.bySemester);
    assert o.sortedSemesterValues == ValuesAt(st.bySemester.counts, o.sortedSemesters);
    assert o.fuelKeys == st.byFuel.keys && o.fuelValues == ValuesAt(st.byFuel.counts, st.byFuel.keys);
    assert o.regionalKeys == st.byRegion.keys && o.regionalValues == ValuesAt(st.byRegion.counts, st.byRegion.keys);
    assert o.uniqueStations == UniqueStations(data);
    assert Unidentified in o.regionalKeys <==> exists d :: d in data && d.region == Unidentified by {
      assert Unidentified in KeySet(data, RegionOf) <==> exists d :: d in data && d.region == Unidentified;
    }
    assert && (forall i :: 0 <= i < |o.sortedSemesters| ==>
                 o.sortedSemesterValues[i] == Count(data, SemesterOf, o.sortedSemesters[i]))
           && Sum(o.sortedSemesterValues) == |data|
    by { SemesterChartCounts(data); }
    assert && (forall i :: 0 <= i < |o.fuelKeys| ==> o.fuelValues[i] == Count(data, ProductOf, o.fuelKeys[i]))
           && Sum(o.fuelValues) == |data|
    by { CountByConservation(data, ProductOf); }
    assert && (forall i :: 0 <= i < |o.regionalKeys| ==> o.regionalValues[i] == Count(data, RegionOf, o.regionalKeys[i]))
           && Sum(o.regionalValues) == |data|
    by { CountByConservation(data, RegionOf); }
  }
}
