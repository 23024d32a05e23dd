/**
  The application state of the dashboard's entry script: the loaded records,
  the filtered view and the statistics cache, with the filter step and the
  rendering of the overview chapter that goes through the cache.
*/
module Dashboard {
  import opened Records
  import opened FilterEngine
  import opened Overview
  import opened StatsCache

  /** The cache key of the overview chapter. */
  const OverviewKey: string := "overview"

  class Dashboard {
    /** `allData`: loaded once at start-up and never changed afterwards. */
    const allData: seq<Record>
    /** `filteredData`: the records of the current filter. */
    var filteredData: seq<Record>
    /** `statsCache`; in this model it holds the overview statistics. */
    const cache: StatsCache<OverviewStats>

    /** A cached overview entry is always the statistics of the loaded data. */
    ghost predicate Valid()
      reads this, cache
    {
      OverviewKey in cache.entries ==> cache.entries[OverviewKey] == ComputeOverviewStats(allData)
    }

    /** The state after `allData = await loadAllData()`, before the first filter. */
    constructor (data: seq<Record>)
      ensures Valid()
      ensures allData == data && filteredData == [] && cache.entries == map[]
      ensures fresh(cache)
    {
      allData := data;
      filteredData := [];
      cache := new StatsCache();
    }

    /** `applyFilters` with the three widget values as `f`: refilter, then empty the cache. */
    method ApplyFilters(f: FilterSpec)
      modifies this, cache
      ensures Valid()
      ensures filteredData == ApplyFilter(allData, f)
      ensures cache.entries == map[]
    {
      filteredData := ApplyFilter(allData, f);
      cache.Clear();
    }

    /**
      The `'overview'` case of `renderActiveChapter`: the overview is computed
      from `allData` (not from the filtered view), its statistics fetched
      through the cache. The figures are those of fresh statistics whether
      the cache hit or missed.
    */
    method RenderOverview() returns (o: OverviewFigures)
      requires Valid()
      modifies cache
      ensures Valid()
      ensures o == OverviewOf(allData, ComputeOverviewStats(allData))
      ensures cache.entries == old(cache.entries)[OverviewKey := ComputeOverviewStats(allData)]
    {
      var stats := cache.GetCached(OverviewKey, ComputeOverviewStats(allData));
      o := OverviewOf(allData, stats);
    }

    /**
      The whole of `applyFilters` while the overview is the active chapter
      (the chapter the dashboard opens on): refilter, empty the cache, then
      re-render, which leaves the cache holding just the overview entry.
    */
    method ApplyFiltersAndRender(f: FilterSpec) returns (o: OverviewFigures)
      modifies this, cache
      ensures Valid()
      ensures filteredData == ApplyFilter(allData, f)
      ensures o == OverviewOf(allData, ComputeOverviewStats(allData))
      ensures cache.entries == map[OverviewKey := ComputeOverviewStats(allData)]
    {
      ApplyFilters(f);
      o := RenderOverview();
    }
  }
}
