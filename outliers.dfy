/**
  `detectOutliers`: the values outside the fences one and a half
  interquartile ranges below the first and above the third quartile.
*/
module Outliers {
  import opened Collections

  /** A quartile argument: `None` where the caller passed something that is not a number. */
  datatype Option<T> = None | Some(value: T)

  /** `x` lies strictly below `q1 - 1.5 iqr` or strictly above `q3 + 1.5 iqr`. */
  predicate OutsideFences(x: real, q1: real, q3: real, iqr: real) {
    x < q1 - 1.5 * iqr || x > q3 + 1.5 * iqr
  }

  function DetectOutliers(data: seq<real>, q1: Option<real>, q3: Option<real>, iqr: Option<real>): (r: seq<real>)
    ensures q1.None? || q3.None? || iqr.None? ==> r == []
    ensures IsSubsequence(r, data)
    ensures q1.Some? && q3.Some? && iqr.Some? ==>
      forall x :: x in r <==>
        x in data && (x < q1.value - 1.5 * iqr.value || x > q3.value + 1.5 * iqr.value)
    ensures q1.Some? && q3.Some? && iqr.Some? ==>
      forall x :: multiset(r)[x] ==
        if OutsideFences(x, q1.value, q3.value, iqr.value) then multiset(data)[x] else 0
  {
    if q1.None? || q3.None? || iqr.None? then []
    else Filter(x => OutsideFences(x, q1.value, q3.value, iqr.value), data)
  }

  /** Running the detector on its own output with the same quartiles returns that output. */
  lemma DetectOutliersIdempotent(data: seq<real>, q1: Option<real>, q3: Option<real>, iqr: Option<real>)
    ensures DetectOutliers(DetectOutliers(data, q1, q3, iqr), q1, q3, iqr) == DetectOutliers(data, q1, q3, iqr)
  {
    if q1.Some? && q3.Some? && iqr.Some? {
      FilterIdempotent(x => OutsideFences(x, q1.value, q3.value, iqr.value), data);
    }
  }

  /** Appending a value that lies within the fences leaves the outliers as they were. */
  lemma AppendInsideFences(data: seq<real>, v: real, q1: real, q3: real, iqr: real)
    requires q1 - 1.5 * iqr <= v <= q3 + 1.5 * iqr
    ensures DetectOutliers(data + [v], Some(q1), Some(q3), Some(iqr))
         == DetectOutliers(data, Some(q1), Some(q3), Some(iqr))
  {
    var p := x => OutsideFences(x, q1, q3, iqr);
    FilterAppend(p, data, [v]);
    assert Filter(p, [v]) == [];
  }
}
