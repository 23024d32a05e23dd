/**
  The record filter of `applyFilters`: a record is kept when it passes the
  semester, the fuel and the region criterion, each of which can be lifted.
*/
module FilterEngine {
  import opened Collections
  import opened Records

  /** The widget value that lifts the semester or the region criterion. */
  const All: string := "all"

  /**
    The three filter values read from the form: a semester or "all", the
    checked fuels (none checked lifts the criterion) and a region or "all".
  */
  datatype FilterSpec = FilterSpec(semester: string, fuels: seq<string>, region: string)

  predicate Matches(f: FilterSpec, d: Record) {
    && (f.semester == All || d.semester == f.semester)
    && (|f.fuels| == 0 || d.product in f.fuels)
    && (f.region == All || d.region == f.region)
  }

  /** `allData.filter(...)`: the records passing all three criteria, in their original order. */
  function ApplyFilter(data: seq<Record>, f: FilterSpec): (r: seq<Record>)
    ensures IsSubsequence(r, data)
    ensures forall d :: d in r <==>
      && d in data
      && (f.semester == All || d.semester == f.semester)
      && (|f.fuels| == 0 || d.product in f.fuels)
      && (f.region == All || d.region == f.region)
    ensures forall d :: multiset(r)[d] == if Matches(f, d) then multiset(data)[d] else 0
  {
    Filter(d => Matches(f, d), data)
  }

  /** With every criterion lifted, the filter returns the whole data set. */
  lemma NoRestrictionKeepsAll(data: seq<Record>)
    ensures ApplyFilter(data, FilterSpec(All, [], All)) == data
  {
    FilterKeepsAll(d => Matches(FilterSpec(All, [], All), d), data);
  }

  /**
    An empty fuel selection excludes nothing: the result is that of the
    semester and region criteria alone, the same as checking every fuel
    that occurs in the data.
  */
  lemma EmptyFuelSelectionExcludesNothing(data: seq<Record>, semester: string, region: string, fuels: seq<string>)
    requires forall d :: d in data ==> d.product in fuels
    ensures ApplyFilter(data, FilterSpec(semester, [], region))
         == ApplyFilter(data, FilterSpec(semester, fuels, region))
  {
    FilterCongruent(d => Matches(FilterSpec(semester, [], region), d),
                    d => Matches(FilterSpec(semester, fuels, region), d), data);
  }

  /** Applying the same filter to its own result changes nothing. */
  lemma ApplyFilterIdempotent(data: seq<Record>, f: FilterSpec)
    ensures ApplyFilter(ApplyFilter(data, f), f) == ApplyFilter(data, f)
  {
    FilterIdempotent(d => Matches(f, d), data);
  }

  /** Filtering data concatenated from several sources filters each source. */
  lemma ApplyFilterAppend(a: seq<Record>, b: seq<Record>, f: FilterSpec)
    ensures ApplyFilter(a + b, f) == ApplyFilter(a, f) + ApplyFilter(b, f)
  {
    FilterAppend(d => Matches(f, d), a, b);
  }
}
