/**
  Generic sequence operations in the form the dashboard uses them: the array
  `filter` and `map` of JavaScript and the lodash helpers `uniq`, `uniqBy`,
  `countBy`, `toPairs`, `sortBy` and `reverse` (`take` is a sequence slice
  where it is used). Each operation carries the contract
  that later modules rely on; the lemmas relate several calls.
*/
module Collections {

  // ---------------------------------------------------------------------------
  // Reference predicates
  // ---------------------------------------------------------------------------

  /** `sub` is obtained from `s` by deleting elements, keeping the rest in order. */
  ghost predicate IsSubsequence<T(!new)>(sub: seq<T>, s: seq<T>)
    decreases |s|
  {
    sub == [] ||
    (s != [] &&
     ((sub[0] == s[0] && IsSubsequence(sub[1..], s[1..])) || IsSubsequence(sub, s[1..])))
  }

  /** No element occurs twice in `s`. */
  ghost predicate Distinct<T(!new)>(s: seq<T>) {
    forall i, j :: 0 <= i < j < |s| ==> s[i] != s[j]
  }

  /** No two elements of `s` share a key. */
  ghost predicate DistinctBy<T(!new), K(!new)>(s: seq<T>, key: T -> K) {
    forall i, j :: 0 <= i < j < |s| ==> key(s[i]) != key(s[j])
  }

  /** The set of keys that the elements of `s` have. */
  function KeySet<T(==,!new), K(==,!new)>(s: seq<T>, key: T -> K): set<K> {
    set x | x in s :: key(x)
  }

  /** Number of elements of `s` whose key is `k`. */
  function Count<T(!new), K(==,!new)>(s: seq<T>, key: T -> K, k: K): nat {
    if s == [] then 0 else (if key(s[0]) == k then 1 else 0) + Count(s[1..], key, k)
  }

  function Sum(xs: seq<nat>): nat {
    if xs == [] then 0 else xs[0] + Sum(xs[1..])
  }

  function Min(a: nat, b: nat): nat {
    if a <= b then a else b
  }

  function Id<T(!new)>(x: T): T { x }

  // ---------------------------------------------------------------------------
  // filter and map
  // ---------------------------------------------------------------------------

  /** JavaScript `s.filter(p)`: the elements satisfying `p`, in their original order. */
  function Filter<T(!new)>(p: T -> bool, s: seq<T>): (r: seq<T>)
    ensures |r| <= |s|
    ensures IsSubsequence(r, s)
    ensures forall x :: x in r <==> x in s && p(x)
    ensures forall x :: multiset(r)[x] == if p(x) then multiset(s)[x] else 0
  {
    if s == [] then []
    else
      assert s == [s[0]] + s[1..];
      var rest := Filter(p, s[1..]);
      if p(s[0]) then
        assert ([s[0]] + rest)[1..] == rest;
        [s[0]] + rest
      else rest
  }

  lemma {:induction false} FilterAppend<T(!new)>(p: T -> bool, s: seq<T>, t: seq<T>)
    ensures Filter(p, s + t) == Filter(p, s) + Filter(p, t)
  {
    if s == [] {
      assert s + t == t;
    } else {
      assert (s + t)[1..] == s[1..] + t;
      FilterAppend(p, s[1..], t);
    }
  }

  /** Filtering twice by the same predicate is filtering once. */
  lemma {:induction false} FilterIdempotent<T(!new)>(p: T -> bool, s: seq<T>)
    ensures Filter(p, Filter(p, s)) == Filter(p, s)
  {
    if s != [] {
      FilterIdempotent(p, s[1..]);
      var rest := Filter(p, s[1..]);
      if p(s[0]) {
        assert Filter(p, s) == [s[0]] + rest;
        assert ([s[0]] + rest)[1..] == rest;
      }
    }
  }

  /** A filter whose predicate holds of every element returns its input. */
  lemma {:induction false} FilterKeepsAll<T(!new)>(p: T -> bool, s: seq<T>)
    requires forall x :: x in s ==> p(x)
    ensures Filter(p, s) == s
  {
    if s != [] {
      FilterKeepsAll(p, s[1..]);
      assert [s[0]] + s[1..] == s;
    }
  }

  /** Two predicates that agree on `s` filter it alike. */
  lemma {:induction false} FilterCongruent<T(!new)>(p: T -> bool, q: T -> bool, s: seq<T>)
    requires forall x :: x in s ==> p(x) == q(x)
    ensures Filter(p, s) == Filter(q, s)
  {
    if s != [] {
      FilterCongruent(p, q, s[1..]);
    }
  }

  /** JavaScript `s.map(f)`. */
  function MapSeq<T(!new), U(!new)>(f: T -> U, s: seq<T>): (r: seq<U>)
    ensures |r| == |s|
    ensures forall i :: 0 <= i < |s| ==> r[i] == f(s[i])
    ensures forall y :: y in r <==> exists x :: x in s && f(x) == y
  {
    var r := seq(|s|, i requires 0 <= i < |s| => f(s[i]));
    assert forall y :: y in r ==> exists x :: x in s && f(x) == y by {
      forall y | y in r ensures exists x :: x in s && f(x) == y {
        var i :| 0 <= i < |r| && r[i] == y;
        assert s[i] in s;
      }
    }
    assert forall x :: x in s ==> f(x) in r by {
      forall x | x in s ensures f(x) in r {
        var i :| 0 <= i < |s| && s[i] == x;
        assert r[i] == f(x);
      }
    }
    r
  }

  // ---------------------------------------------------------------------------
  // uniq and uniqBy (lodash baseUniq: keep the first element of each key)
  // ---------------------------------------------------------------------------

  /** The elements of `s` whose key is new, given the keys `seen` already taken. */
  function UniqFrom<T(!new), K(==,!new)>(s: seq<T>, key: T -> K, seen: set<K>): (r: seq<T>)
    ensures IsSubsequence(r, s)
    ensures DistinctBy(r, key)
    ensures KeySet(r, key) == KeySet(s, key) - seen
  {
    if s == [] then []
    else
      assert KeySet(s, key) == {key(s[0])} + KeySet(s[1..], key) by {
        assert s == [s[0]] + s[1..];
      }
      if key(s[0]) in seen then UniqFrom(s[1..], key, seen)
      else
        var rest := UniqFrom(s[1..], key, seen + {key(s[0])});
        var r := [s[0]] + rest;
        assert r[1..] == rest;
        assert KeySet(r, key) == {key(s[0])} + KeySet(rest, key) by {
          assert forall x :: x in r <==> x == s[0] || x in rest;
        }
        assert forall j :: 0 <= j < |rest| ==> key(rest[j]) != key(s[0]) by {
          forall j | 0 <= j < |rest| ensures key(rest[j]) != key(s[0]) {
            assert rest[j] in rest;
            assert key(rest[j]) in KeySet(rest, key);
          }
        }
        r
  }

  /** lodash `_.uniqBy(s, key)`: the first element of `s` for every key, in order. */
  function UniqBy<T(!new), K(==,!new)>(s: seq<T>, key: T -> K): (r: seq<T>)
    ensures IsSubsequence(r, s)
    ensures DistinctBy(r, key)
    ensures KeySet(r, key) == KeySet(s, key)
    ensures |r| == |KeySet(s, key)| <= |s|
  {
    var r := UniqFrom(s, key, {});
    DistinctByCard(r, key);
    KeySetCard(s, key);
    r
  }

  /** lodash `_.uniq(s)`: `s` with later repetitions removed. */
  function Uniq<T(==,!new)>(s: seq<T>): (r: seq<T>)
    ensures IsSubsequence(r, s)
    ensures Distinct(r)
    ensures forall x :: x in r <==> x in s
  {
    var r := UniqBy(s, Id);
    assert forall x :: x in r <==> Id(x) in KeySet(r, Id);
    assert forall x :: x in s <==> Id(x) in KeySet(s, Id);
    r
  }

  lemma {:induction false} DistinctByCard<T(!new), K(!new)>(s: seq<T>, key: T -> K)
    requires DistinctBy(s, key)
    ensures |KeySet(s, key)| == |s|
  {
    if s != [] {
      var t := s[1..];
      assert DistinctBy(t, key) by {
        forall i, j | 0 <= i < j < |t| ensures key(t[i]) != key(t[j]) {
          assert t[i] == s[i + 1] && t[j] == s[j + 1];
        }
      }
      DistinctByCard(t, key);
      assert s == [s[0]] + t;
      assert KeySet(s, key) == {key(s[0])} + KeySet(t, key);
      assert key(s[0]) !in KeySet(t, key);
    }
  }

  lemma {:induction false} KeySetCard<T(!new), K(!new)>(s: seq<T>, key: T -> K)
    ensures |KeySet(s, key)| <= |s|
  {
    if s != [] {
      KeySetCard(s[1..], key);
      assert s == [s[0]] + s[1..];
      assert KeySet(s, key) == {key(s[0])} + KeySet(s[1..], key);
    }
  }

  // ---------------------------------------------------------------------------
  // countBy
  // ---------------------------------------------------------------------------

  /**
    The object lodash `_.countBy` returns: its keys in insertion order (the order
    `Object.keys` reports them) and the count stored under each key.
  */
  datatype Tally<K(==,!new)> = Tally(keys: seq<K>, counts: map<K, nat>) {
    ghost predicate Valid() {
      Distinct(keys) && forall k :: k in keys <==> k in counts
    }
  }

  /** `Count` of `s + [x]` adds one for the key of `x`. */
  lemma {:induction false} CountSnoc<T(!new), K(!new)>(s: seq<T>, x: T, key: T -> K, k: K)
    ensures Count(s + [x], key, k) == Count(s, key, k) + (if key(x) == k then 1 else 0)
  {
    if s != [] {
      assert (s + [x])[1..] == s[1..] + [x];
      CountSnoc(s[1..], x, key, k);
    }
  }

  lemma {:induction false} CountAbsent<T(!new), K(!new)>(s: seq<T>, key: T -> K, k: K)
    requires k !in KeySet(s, key)
    ensures Count(s, key, k) == 0
  {
    if s != [] {
      assert s[0] in s;
      assert KeySet(s[1..], key) <= KeySet(s, key) by {
        forall y | y in KeySet(s[1..], key) ensures y in KeySet(s, key) {
          var x :| x in s[1..] && key(x) == y;
          assert x in s;
        }
      }
      CountAbsent(s[1..], key, k);
    }
  }

  /**
    lodash `_.countBy(s, key)`: walks `s` from the front, adding a key the first
    time it is met and incrementing its count afterwards.
  */
  function CountBy<T(!new), K(==,!new)>(s: seq<T>, key: T -> K): (t: Tally<K>)
    ensures t.Valid()
    ensures t.counts.Keys == KeySet(s, key)
    ensures forall k :: k in t.counts ==> t.counts[k] == Count(s, key, k)
  {
    if s == [] then Tally([], map[])
    else
      var init := s[..|s| - 1];
      var x := s[|s| - 1];
      assert s == init + [x];
      var t := CountBy(init, key);
      var k := key(x);
      assert KeySet(s, key) == KeySet(init, key) + {k};
      assert forall j :: Count(s, key, j) == Count(init, key, j) + (if k == j then 1 else 0) by {
        forall j ensures Count(s, key, j) == Count(init, key, j) + (if k == j then 1 else 0) {
          CountSnoc(init, x, key, j);
        }
      }
      if k in t.counts then Tally(t.keys, t.counts[k := t.counts[k] + 1])
      else
        var keys := t.keys + [k];
        assert Distinct(keys) by {
          forall i, j | 0 <= i < j < |keys| ensures keys[i] != keys[j] {
            assert keys[i] == t.keys[i];
            if j < |t.keys| { assert keys[j] == t.keys[j]; }
          }
        }
        CountAbsent(init, key, k);
        assert forall j :: j in keys <==> j in t.counts[k := 1];
        Tally(keys, t.counts[k := 1])
  }

  /** Mapping `s + [x]` is mapping `s` and then `x`. */
  lemma MapSeqSnoc<T(!new), U(!new)>(f: T -> U, s: seq<T>, x: T)
    ensures MapSeq(f, s + [x]) == MapSeq(f, s) + [f(x)]
  {
    var a := MapSeq(f, s + [x]);
    var b := MapSeq(f, s) + [f(x)];
    forall i | 0 <= i < |a| ensures a[i] == b[i] {
      if i < |s| {
        assert (s + [x])[i] == s[i];
      } else {
        assert (s + [x])[i] == x;
      }
    }
  }

  /** `s[j]` is the first element of `s` with its key. */
  ghost predicate FirstOfKey<T(!new), K(!new)>(s: seq<T>, key: T -> K, j: int)
    requires 0 <= j < |s|
  {
    forall m :: 0 <= m < j ==> key(s[m]) != key(s[j])
  }

  /**
    Every element `UniqFrom` keeps is, in `s`, the first element of its key,
    and that key is not among those already `seen`.
  */
  lemma {:induction false} UniqFromKeepsFirst<T(!new), K(!new)>(s: seq<T>, key: T -> K, seen: set<K>)
    ensures forall i :: 0 <= i < |UniqFrom(s, key, seen)| ==>
      (exists j :: 0 <= j < |s| && s[j] == UniqFrom(s, key, seen)[i] && key(s[j]) !in seen && FirstOfKey(s, key, j))
  {
    if s != [] {
      var k0 := key(s[0]);
      var r := UniqFrom(s, key, seen);
      var t := s[1..];
      if k0 in seen {
        assert r == UniqFrom(t, key, seen);
        UniqFromKeepsFirst(t, key, seen);
        forall i | 0 <= i < |r|
          ensures exists j :: 0 <= j < |s| && s[j] == r[i] && key(s[j]) !in seen && FirstOfKey(s, key, j)
        {
          var j' :| 0 <= j' < |t| && t[j'] == r[i] && key(t[j']) !in seen && FirstOfKey(t, key, j');
          var j := j' + 1;
          assert s[j] == t[j'];
          forall m | 0 <= m < j ensures key(s[m]) != key(s[j]) {
            if m > 0 { assert s[m] == t[m - 1]; }
          }
          assert FirstOfKey(s, key, j);
        }
      } else {
        var seen' := seen + {k0};
        var rest := UniqFrom(t, key, seen');
        assert r == [s[0]] + rest;
        UniqFromKeepsFirst(t, key, seen');
        forall i | 0 <= i < |r|
          ensures exists j :: 0 <= j < |s| && s[j] == r[i] && key(s[j]) !in seen && FirstOfKey(s, key, j)
        {
          if i == 0 {
            assert s[0] == r[0] && FirstOfKey(s, key, 0);
          } else {
            assert r[i] == rest[i - 1];
            var j' :| 0 <= j' < |t| && t[j'] == rest[i - 1] && key(t[j']) !in seen' && FirstOfKey(t, key, j');
            var j := j' + 1;
            assert s[j] == t[j'];
            forall m | 0 <= m < j ensures key(s[m]) != key(s[j]) {
              if m > 0 { assert s[m] == t[m - 1]; }
            }
            assert FirstOfKey(s, key, j);
          }
        }
      }
    } else {
      assert UniqFrom(s, key, seen) == [];
    }
  }

  /** lodash `_.uniqBy` keeps, for every key, the first element of `s` with that key. */
  lemma UniqByKeepsFirst<T(!new), K(!new)>(s: seq<T>, key: T -> K)
    ensures forall i :: 0 <= i < |UniqBy(s, key)| ==>
      (exists j :: 0 <= j < |s| && s[j] == UniqBy(s, key)[i] && FirstOfKey(s, key, j))
  {
    assert UniqBy(s, key) == UniqFrom(s, key, {});
    UniqFromKeepsFirst(s, key, {});
  }

  /** Appending `x` to `s` appends it to `UniqFrom` exactly when its key is new. */
  lemma {:induction false} UniqFromSnoc<T(!new), K(!new)>(s: seq<T>, x: T, key: T -> K, seen: set<K>)
    ensures UniqFrom(s + [x], key, seen) ==
            UniqFrom(s, key, seen) + (if key(x) in seen || key(x) in KeySet(s, key) then [] else [x])
  {
    if s == [] {
      assert [x][1..] == [];
    } else {
      assert (s + [x])[0] == s[0];
      assert (s + [x])[1..] == s[1..] + [x];
      assert KeySet(s, key) == {key(s[0])} + KeySet(s[1..], key) by {
        assert s == [s[0]] + s[1..];
      }
      if key(s[0]) in seen {
        UniqFromSnoc(s[1..], x, key, seen);
      } else {
        UniqFromSnoc(s[1..], x, key, seen + {key(s[0])});
      }
    }
  }

  /**
    The keys of `_.countBy(s, key)` are in the order of their first occurrence
    in `s`: they are the keys of `_.uniqBy(s, key)`, position by position.
  */
  lemma {:induction false} CountByKeyOrder<T(!new), K(!new)>(s: seq<T>, key: T -> K)
    ensures CountBy(s, key).keys == MapSeq(key, UniqBy(s, key))
  {
    if s != [] {
      var init := s[..|s| - 1];
      var x := s[|s| - 1];
      assert s == init + [x];
      CountByKeyOrder(init, key);
      UniqFromSnoc(init, x, key, {});
      var u := UniqBy(init, key);
      if key(x) !in KeySet(init, key) {
        MapSeqSnoc(key, u, x);
      }
    }
  }

  /** The values stored under `ks`, in the order of `ks`. */
  function ValuesAt<K(==,!new), V>(m: map<K, V>, ks: seq<K>): (vs: seq<V>)
    requires forall k :: k in ks ==> k in m
    ensures |vs| == |ks|
    ensures forall i :: 0 <= i < |ks| ==> vs[i] == m[ks[i]]
  {
    seq(|ks|, i requires 0 <= i < |ks| => m[ks[i]])
  }

  /** lodash `_.toPairs` of a tally: each key with its count, in key order. */
  function ToPairs<K(==,!new)>(t: Tally<K>): (ps: seq<(K, nat)>)
    requires t.Valid()
    ensures |ps| == |t.keys|
    ensures forall i :: 0 <= i < |ps| ==> ps[i] == (t.keys[i], t.counts[t.keys[i]])
  {
    seq(|t.keys|, i requires 0 <= i < |t.keys| => (t.keys[i], t.counts[t.keys[i]]))
  }

  /** Sum of `Count(s, key, k)` over the keys `ks`. */
  function SumOfCounts<T(!new), K(==,!new)>(s: seq<T>, key: T -> K, ks: seq<K>): nat {
    if ks == [] then 0 else Count(s, key, ks[0]) + SumOfCounts(s, key, ks[1..])
  }

  lemma {:induction false} SumOfCountsNil<T(!new), K(!new)>(key: T -> K, ks: seq<K>)
    ensures SumOfCounts([], key, ks) == 0
  {
    if ks != [] {
      SumOfCountsNil(key, ks[1..]);
    }
  }

  lemma {:induction false} SumOfCountsCons<T(!new), K(!new)>(x: T, s: seq<T>, key: T -> K, ks: seq<K>)
    ensures SumOfCounts([x] + s, key, ks) == multiset(ks)[key(x)] + SumOfCounts(s, key, ks)
  {
    if ks != [] {
      SumOfCountsCons(x, s, key, ks[1..]);
      assert ([x] + s)[1..] == s;
      assert ks == [ks[0]] + ks[1..];
    }
  }

  lemma {:induction false} DistinctOnce<T(!new)>(ks: seq<T>, k: T)
    requires Distinct(ks) && k in ks
    ensures multiset(ks)[k] == 1
  {
    assert ks == [ks[0]] + ks[1..];
    if ks[0] == k {
      assert k !in ks[1..];
    } else {
      DistinctOnce(ks[1..], k);
    }
  }

  /** Counting over a duplicate-free cover of the keys accounts for every element once. */
  lemma {:induction false} SumOfCountsCovers<T(!new), K(!new)>(s: seq<T>, key: T -> K, ks: seq<K>)
    requires Distinct(ks)
    requires forall x :: x in s ==> key(x) in ks
    ensures SumOfCounts(s, key, ks) == |s|
  {
    if s == [] {
      SumOfCountsNil(key, ks);
    } else {
      assert s == [s[0]] + s[1..];
      SumOfCountsCons(s[0], s[1..], key, ks);
      DistinctOnce(ks, key(s[0]));
      SumOfCountsCovers(s[1..], key, ks);
    }
  }

  lemma {:induction false} SumValuesAtCounts<T(!new), K(!new)>(s: seq<T>, key: T -> K, m: map<K, nat>, ks: seq<K>)
    requires forall k :: k in ks ==> k in m && m[k] == Count(s, key, k)
    ensures Sum(ValuesAt(m, ks)) == SumOfCounts(s, key, ks)
  {
    if ks != [] {
      SumValuesAtCounts(s, key, m, ks[1..]);
      assert ValuesAt(m, ks)[1..] == ValuesAt(m, ks[1..]);
    }
  }

  /**
    The values of a `countBy`, read in key order, are the numbers of elements
    having each key, and they add up to the number of elements counted.
  */
  lemma CountByConservation<T(!new), K(!new)>(s: seq<T>, key: T -> K)
    ensures var t := CountBy(s, key);
      && (forall i :: 0 <= i < |t.keys| ==> ValuesAt(t.counts, t.keys)[i] == Count(s, key, t.keys[i]))
      && Sum(ValuesAt(t.counts, t.keys)) == |s|
  {
    var t := CountBy(s, key);
    forall i | 0 <= i < |t.keys| ensures ValuesAt(t.counts, t.keys)[i] == Count(s, key, t.keys[i]) {
      assert t.keys[i] in t.counts;
    }
    SumValuesAtCounts(s, key, t.counts, t.keys);
    forall x | x in s ensures key(x) in t.keys {
      assert key(x) in KeySet(s, key);
    }
    SumOfCountsCovers(s, key, t.keys);
  }

  // ---------------------------------------------------------------------------
  // Stable insertion sort, reverse
  // ---------------------------------------------------------------------------

  ghost predicate Total<T(!new)>(le: (T, T) -> bool) {
    forall a, b :: le(a, b) || le(b, a)
  }

  ghost predicate Transitive<T(!new)>(le: (T, T) -> bool) {
    forall a, b, c :: le(a, b) && le(b, c) ==> le(a, c)
  }

  ghost predicate Sorted<T(!new)>(s: seq<T>, le: (T, T) -> bool) {
    forall i, j :: 0 <= i < j < |s| ==> le(s[i], s[j])
  }

  /** Places `x` before the first element it is not above, so that equal elements keep their order. */
  function Insert<T(!new)>(le: (T, T) -> bool, x: T, s: seq<T>): (r: seq<T>)
    ensures multiset(r) == multiset(s) + multiset{x}
  {
    if s == [] then [x]
    else if le(x, s[0]) then [x] + s
    else
      assert s == [s[0]] + s[1..];
      [s[0]] + Insert(le, x, s[1..])
  }

  /** A stable sort by `le`: lodash `_.sortBy`, and the default `Array.prototype.sort` with `le` the string order `Lexical.LexLe`. */
  function SortWith<T(!new)>(le: (T, T) -> bool, s: seq<T>): (r: seq<T>)
    ensures multiset(r) == multiset(s)
  {
    if s == [] then []
    else
      assert s == [s[0]] + s[1..];
      Insert(le, s[0], SortWith(le, s[1..]))
  }

  lemma {:induction false} InsertSorted<T(!new)>(le: (T, T) -> bool, x: T, s: seq<T>)
    requires Total(le) && Transitive(le) && Sorted(s, le)
    ensures Sorted(Insert(le, x, s), le)
  {
    if s != [] && !le(x, s[0]) {
      var tail := Insert(le, x, s[1..]);
      assert Sorted(s[1..], le) by {
        forall i, j | 0 <= i < j < |s[1..]| ensures le(s[1..][i], s[1..][j]) {
          assert s[1..][i] == s[i + 1] && s[1..][j] == s[j + 1];
        }
      }
      InsertSorted(le, x, s[1..]);
      var r := [s[0]] + tail;
      forall i, j | 0 <= i < j < |r| ensures le(r[i], r[j]) {
        if i == 0 {
          var y := r[j];
          assert y in multiset(tail) by { assert y == tail[j - 1]; }
          if y == x {
            assert le(s[0], x);
          } else {
            assert y in multiset(s[1..]);
            var k :| 0 <= k < |s[1..]| && s[1..][k] == y;
            assert s[k + 1] == y;
          }
        } else {
          assert r[i] == tail[i - 1] && r[j] == tail[j - 1];
        }
      }
    }
  }

  lemma {:induction false} SortWithSorted<T(!new)>(le: (T, T) -> bool, s: seq<T>)
    requires Total(le) && Transitive(le)
    ensures Sorted(SortWith(le, s), le)
  {
    if s != [] {
      SortWithSorted(le, s[1..]);
      InsertSorted(le, s[0], SortWith(le, s[1..]));
    }
  }

  /** lodash `_.reverse`. */
  function Reverse<T(!new)>(s: seq<T>): (r: seq<T>)
    ensures |r| == |s|
    ensures forall i :: 0 <= i < |s| ==> r[i] == s[|s| - 1 - i]
  {
    seq(|s|, i requires 0 <= i < |s| => s[|s| - 1 - i])
  }

  lemma ReverseMembers<T(!new)>(s: seq<T>)
    ensures forall x :: x in Reverse(s) <==> x in s
  {
    var r := Reverse(s);
    forall x | x in s ensures x in r {
      var m :| 0 <= m < |s| && s[m] == x;
      assert r[|s| - 1 - m] == x;
    }
  }

  lemma ReverseDistinct<T(!new)>(s: seq<T>)
    requires Distinct(s)
    ensures Distinct(Reverse(s))
  {
  }

  lemma ToPairsMembers<K(!new)>(t: Tally<K>)
    requires t.Valid()
    ensures Distinct(ToPairs(t))
    ensures forall q: (K, nat) :: q in ToPairs(t) <==> q.0 in t.counts && q.1 == t.counts[q.0]
  {
  }

  /** A duplicate-free sequence has each element at most once in its multiset, and conversely. */
  lemma {:induction false} DistinctMultiset<T(!new)>(s: seq<T>)
    ensures Distinct(s) <==> forall x :: multiset(s)[x] <= 1
  {
    if s != [] {
      var t := s[1..];
      DistinctMultiset(t);
      assert s == [s[0]] + t;
      if Distinct(s) {
        assert Distinct(t) by {
          forall i, j | 0 <= i < j < |t| ensures t[i] != t[j] {
            assert t[i] == s[i + 1] && t[j] == s[j + 1];
          }
        }
        assert s[0] !in t;
      }
      if forall x :: multiset(s)[x] <= 1 {
        assert multiset(s) == multiset{s[0]} + multiset(t);
        assert multiset(s)[s[0]] <= 1;
        assert multiset(t)[s[0]] == 0;
        forall x ensures multiset(t)[x] <= 1 {
          assert multiset(s)[x] <= 1;
        }
        forall i, j | 0 <= i < j < |s| ensures s[i] != s[j] {
          if i == 0 {
            assert s[j] == t[j - 1];
            assert s[j] in t;
          } else {
            assert s[i] == t[i - 1] && s[j] == t[j - 1];
          }
        }
      }
    }
  }

  lemma FilterDistinct<T(!new)>(p: T -> bool, s: seq<T>)
    requires Distinct(s)
    ensures Distinct(Filter(p, s))
  {
  }

  lemma DistinctPermutation<T(!new)>(s: seq<T>, r: seq<T>)
    requires Distinct(s) && multiset(r) == multiset(s)
    ensures Distinct(r)
  {
    DistinctMultiset(s);
    DistinctMultiset(r);
  }
}
