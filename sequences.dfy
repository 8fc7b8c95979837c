/**
 * Relational building blocks over finite sequences of rows: projection (Map),
 * selection (Filter), joins and explodes (FlatMap), `drop_duplicates` (Dedup)
 * and column sums (Sum).
 */
module Sequences {

  function Map<A(!new), B(!new)>(s: seq<A>, f: A -> B): (r: seq<B>)
    ensures |r| == |s|
    ensures forall i :: 0 <= i < |s| ==> r[i] == f(s[i])
    ensures forall y :: y in r <==> exists x :: x in s && y == f(x)
  {
    if s == [] then []
    else
      var rest := Map(s[1..], f);
      assert forall x :: x in s <==> x == s[0] || x in s[1..];
      [f(s[0])] + rest
  }

  lemma MapAppend<A(!new), B(!new)>(a: seq<A>, b: seq<A>, f: A -> B)
    ensures Map(a + b, f) == Map(a, f) + Map(b, f)
  {
  }

  function Filter<T(!new)>(s: seq<T>, p: T -> bool): (r: seq<T>)
    ensures |r| <= |s|
    ensures forall x :: x in r <==> x in s && p(x)
  {
    if s == [] then []
    else if p(s[0]) then [s[0]] + Filter(s[1..], p)
    else Filter(s[1..], p)
  }

  lemma NonEmptyHasMember<T>(s: seq<T>)
    ensures s != [] ==> s[0] in s
  {
  }

  /** Selecting from a sequence without repetitions gives one without repetitions. */
  lemma {:induction false} FilterDistinct<T(!new)>(s: seq<T>, p: T -> bool)
    requires Distinct(s)
    ensures Distinct(Filter(s, p))
  {
    if s != [] {
      assert Distinct(s[1..]) by {
        forall a, b | 0 <= a < b < |s[1..]| ensures s[1..][a] != s[1..][b] {
          assert s[a + 1] != s[b + 1];
        }
      }
      FilterDistinct(s[1..], p);
      if p(s[0]) {
        var r := Filter(s, p);
        forall a, b | 0 <= a < b < |r| ensures r[a] != r[b] {
          if a == 0 {
            assert r[b] in Filter(s[1..], p);
            var k :| 0 <= k < |s[1..]| && s[1..][k] == r[b];
            assert s[k + 1] == r[b];
          } else {
            assert r[a] == Filter(s[1..], p)[a - 1] && r[b] == Filter(s[1..], p)[b - 1];
          }
        }
      }
    }
  }

  function FlatMap<A(!new), B(!new)>(s: seq<A>, f: A -> seq<B>): (r: seq<B>)
    ensures forall y :: y in r <==> exists x :: x in s && y in f(x)
  {
    if s == [] then []
    else
      var rest := FlatMap(s[1..], f);
      assert forall x :: x in s <==> x == s[0] || x in s[1..];
      f(s[0]) + rest
  }

  lemma FlatMapAppend<A(!new), B(!new)>(a: seq<A>, b: seq<A>, f: A -> seq<B>)
    ensures FlatMap(a + b, f) == FlatMap(a, f) + FlatMap(b, f)
  {
    if a != [] {
      assert (a + b)[0] == a[0] && (a + b)[1..] == a[1..] + b;
      FlatMapAppend(a[1..], b, f);
      calc {
        FlatMap(a + b, f);
        f(a[0]) + FlatMap(a[1..] + b, f);
        f(a[0]) + (FlatMap(a[1..], f) + FlatMap(b, f));
        (f(a[0]) + FlatMap(a[1..], f)) + FlatMap(b, f);
      }
    } else {
      assert a + b == b;
    }
  }

  /** No element occurs twice. */
  predicate Distinct<T(==)>(s: seq<T>) {
    forall i, j :: 0 <= i < j < |s| ==> s[i] != s[j]
  }

  /** `drop_duplicates`: the first occurrence of every element, in order. */
  function Dedup<T(==,!new)>(s: seq<T>): (r: seq<T>)
    ensures forall x :: x in r <==> x in s
    ensures Distinct(r)
    ensures |r| <= |s|
  {
    if s == [] then []
    else
      var r := Dedup(s[..|s| - 1]);
      assert forall x :: x in s <==> x in s[..|s| - 1] || x == s[|s| - 1];
      if s[|s| - 1] in r then r else r + [s[|s| - 1]]
  }

  lemma DedupOfDistinct<T(!new)>(s: seq<T>)
    requires Distinct(s)
    ensures Dedup(s) == s
  {
    if s != [] {
      DedupOfDistinct(s[..|s| - 1]);
    }
  }

  lemma DistinctAppend<T>(a: seq<T>, b: seq<T>)
    requires Distinct(a) && Distinct(b)
    requires forall x :: x in a ==> x !in b
    ensures Distinct(a + b)
  {
    var s := a + b;
    forall i, j | 0 <= i < j < |s| ensures s[i] != s[j] {
      if i < |a| && |a| <= j {
        assert s[i] in a && s[j] == b[j - |a|];
      } else if |a| <= i {
        assert s[i] == b[i - |a|] && s[j] == b[j - |a|];
      }
    }
  }

  /** A map that is one-to-one on the elements of a list without repeats gives a list without repeats. */
  lemma MapDistinct<A(!new), B(!new)>(s: seq<A>, f: A -> B)
    requires Distinct(s)
    requires forall x, y :: x in s && y in s && f(x) == f(y) ==> x == y
    ensures Distinct(Map(s, f))
  {
    var r := Map(s, f);
    forall i, j | 0 <= i < j < |r| ensures r[i] != r[j] {
      assert s[i] in s && s[j] in s;
    }
  }

  /**
   * Concatenating lists without repeats, no two of which share an element,
   * gives a list without repeats.
   */
  lemma {:induction false} FlatMapDistinct<A(!new), B(!new)>(s: seq<A>, f: A -> seq<B>)
    requires forall i :: 0 <= i < |s| ==> Distinct(f(s[i]))
    requires forall i, j, y :: 0 <= i < j < |s| && y in f(s[i]) ==> y !in f(s[j])
    ensures Distinct(FlatMap(s, f))
  {
    if s != [] {
      var rest := s[1..];
      forall i, j, y | 0 <= i < j < |rest| && y in f(rest[i]) ensures y !in f(rest[j]) {
        assert rest[i] == s[i + 1] && rest[j] == s[j + 1];
      }
      FlatMapDistinct(rest, f);
      forall y | y in f(s[0]) ensures y !in FlatMap(rest, f) {
        forall x | x in rest ensures y !in f(x) {
          var k :| 0 <= k < |rest| && rest[k] == x;
          assert x == s[k + 1];
        }
      }
      DistinctAppend(f(s[0]), FlatMap(rest, f));
    }
  }

  function Sum<T>(s: seq<T>, f: T -> int): int {
    if s == [] then 0 else f(s[0]) + Sum(s[1..], f)
  }

  lemma SumAppend<T>(a: seq<T>, b: seq<T>, f: T -> int)
    ensures Sum(a + b, f) == Sum(a, f) + Sum(b, f)
  {
    if a != [] {
      assert (a + b)[0] == a[0] && (a + b)[1..] == a[1..] + b;
      SumAppend(a[1..], b, f);
    } else {
      assert a + b == b;
    }
  }

  /** A prefix one element longer. */
  lemma PrefixSnoc<T>(s: seq<T>, i: nat)
    requires i < |s|
    ensures s[..i + 1] == s[..i] + [s[i]]
  {
  }

  function Max(a: int, b: int): int { if a < b then b else a }
  function Min(a: int, b: int): int { if a < b then a else b }

  // ---------------------------------------------------------------------
  // Grouped sums
  // ---------------------------------------------------------------------

  /** The total weight of the elements whose key is `k` (a `sum` over a window partitioned by the key). */
  function GroupSum<T(!new), K(==)>(s: seq<T>, key: T -> K, w: T -> int, k: K): int {
    if s == [] then 0
    else (if key(s[0]) == k then w(s[0]) else 0) + GroupSum(s[1..], key, w, k)
  }

  /** A group sum of non-negative weights is non-negative. */
  lemma {:induction false} GroupSumNonNegative<T(!new), K>(s: seq<T>, key: T -> K, w: T -> int, k: K)
    requires forall i :: 0 <= i < |s| ==> w(s[i]) >= 0
    ensures GroupSum(s, key, w, k) >= 0
  {
    if s != [] {
      GroupSumNonNegative(s[1..], key, w, k);
    }
  }

  lemma GroupSumSnoc<T(!new), K>(s: seq<T>, x: T, key: T -> K, w: T -> int, k: K)
    ensures GroupSum(s + [x], key, w, k) == GroupSum(s, key, w, k) + (if key(x) == k then w(x) else 0)
  {
    if s == [] {
      assert s + [x] == [x];
    } else {
      assert (s + [x])[0] == s[0] && (s + [x])[1..] == s[1..] + [x];
      GroupSumSnoc(s[1..], x, key, w, k);
    }
  }

  lemma GroupSumAbsent<T(!new), K>(s: seq<T>, key: T -> K, w: T -> int, k: K)
    requires forall x :: x in s ==> key(x) != k
    ensures GroupSum(s, key, w, k) == 0
  {
    if s != [] {
      GroupSumAbsent(s[1..], key, w, k);
    }
  }

  /** The weight of one key, summed over a list of distinct keys that holds it, is that weight once. */
  lemma {:induction false} SumIndicator<K>(keys: seq<K>, k: K, v: int)
    requires Distinct(keys) && k in keys
    ensures Sum(keys, (j: K) => if j == k then v else 0) == v
  {
    var f := (j: K) => if j == k then v else 0;
    if keys[0] == k {
      assert forall j :: j in keys[1..] ==> j != k by {
        forall j | j in keys[1..] ensures j != k {
          var i :| 0 <= i < |keys[1..]| && keys[1..][i] == j;
          assert keys[i + 1] == j;
        }
      }
      SumZero(keys[1..], f);
    } else {
      assert Distinct(keys[1..]) by {
        forall a, b | 0 <= a < b < |keys[1..]| ensures keys[1..][a] != keys[1..][b] {
          assert keys[a + 1] != keys[b + 1];
        }
      }
      SumIndicator(keys[1..], k, v);
    }
  }

  lemma SumZero<K>(keys: seq<K>, f: K -> int)
    requires forall j :: j in keys ==> f(j) == 0
    ensures Sum(keys, f) == 0
  {
    if keys != [] {
      SumZero(keys[1..], f);
    }
  }

  lemma {:induction false} SumAdd<K>(keys: seq<K>, f: K -> int, g: K -> int, h: K -> int)
    requires forall j :: j in keys ==> h(j) == f(j) + g(j)
    ensures Sum(keys, h) == Sum(keys, f) + Sum(keys, g)
  {
    if keys != [] {
      SumAdd(keys[1..], f, g, h);
    }
  }

  lemma {:induction false} SumCongruent<K>(keys: seq<K>, f: K -> int, g: K -> int)
    requires forall j :: j in keys ==> f(j) == g(j)
    ensures Sum(keys, f) == Sum(keys, g)
  {
    if keys != [] {
      SumCongruent(keys[1..], f, g);
    }
  }

  /** Summing over a selection is summing, over the whole sequence, the values of the selected elements. */
  lemma {:induction false} SumFilter<T(!new)>(s: seq<T>, p: T -> bool, f: T -> int, g: T -> int)
    requires forall x :: x in s ==> g(x) == (if p(x) then f(x) else 0)
    ensures Sum(Filter(s, p), f) == Sum(s, g)
  {
    if s != [] {
      SumFilter(s[1..], p, f, g);
      if p(s[0]) {
        assert ([s[0]] + Filter(s[1..], p))[1..] == Filter(s[1..], p);
      }
    }
  }

  /** Taking one element out of a sum. */
  lemma SumRemove<T>(s: seq<T>, m: nat, f: T -> int)
    requires m < |s|
    ensures Sum(s, f) == Sum(s[..m] + s[m + 1..], f) + f(s[m])
  {
    assert s == s[..m] + [s[m]] + s[m + 1..];
    SumAppend(s[..m] + [s[m]], s[m + 1..], f);
    SumAppend(s[..m], [s[m]], f);
    SumAppend(s[..m], s[m + 1..], f);
  }

  /** Two conditions that agree on the elements select the same elements. */
  lemma {:induction false} FilterCongruent<T(!new)>(s: seq<T>, p: T -> bool, q: T -> bool)
    requires forall x :: x in s ==> p(x) == q(x)
    ensures Filter(s, p) == Filter(s, q)
  {
    if s != [] {
      FilterCongruent(s[1..], p, q);
    }
  }

  /** A relation between any two selected elements, in order, holds between any two elements of the selection. */
  lemma {:induction false} FilterPairwise<T(!new)>(s: seq<T>, p: T -> bool, rel: (T, T) -> bool)
    requires forall a, b :: 0 <= a < b < |s| && p(s[a]) && p(s[b]) ==> rel(s[a], s[b])
    ensures forall a, b :: 0 <= a < b < |Filter(s, p)| ==> rel(Filter(s, p)[a], Filter(s, p)[b])
  {
    if s != [] {
      var rest := s[1..];
      forall a, b | 0 <= a < b < |rest| && p(rest[a]) && p(rest[b]) ensures rel(rest[a], rest[b]) {
        assert rest[a] == s[a + 1] && rest[b] == s[b + 1];
      }
      FilterPairwise(rest, p, rel);
      var r := Filter(s, p);
      if p(s[0]) {
        forall a, b | 0 <= a < b < |r| ensures rel(r[a], r[b]) {
          if a == 0 {
            assert r[b] in Filter(rest, p);
            var j :| 0 <= j < |rest| && rest[j] == r[b];
            assert s[j + 1] == r[b];
          } else {
            assert r[a] == Filter(rest, p)[a - 1] && r[b] == Filter(rest, p)[b - 1];
          }
        }
      }
    }
  }

  lemma DedupSnoc<T(!new)>(s: seq<T>, x: T)
    ensures Dedup(s + [x]) == if x in Dedup(s) then Dedup(s) else Dedup(s) + [x]
  {
    assert (s + [x])[..|s|] == s;
  }

  /**
   * Summing the group totals over the distinct keys gives the total weight:
   * grouping neither loses nor counts twice.
   */
  lemma {:induction false} GroupSumsTotal<T(!new), K(!new)>(s: seq<T>, key: T -> K, w: T -> int)
    ensures Sum(Dedup(Map(s, key)), (k: K) => GroupSum(s, key, w, k)) == Sum(s, w)
  {
    if s != [] {
      var init := s[..|s| - 1];
      var x := s[|s| - 1];
      assert s == init + [x];
      GroupSumsTotal(init, key, w);
      GroupSumsStep(init, x, key, w);
      SumAppend(init, [x], w);
    }
  }

  /** Adding one element adds its weight to the sum of the group totals. */
  lemma GroupSumsStep<T(!new), K(!new)>(init: seq<T>, x: T, key: T -> K, w: T -> int)
    ensures Sum(Dedup(Map(init + [x], key)), (k: K) => GroupSum(init + [x], key, w, k))
      == Sum(Dedup(Map(init, key)), (k: K) => GroupSum(init, key, w, k)) + w(x)
  {
    var s := init + [x];
    MapAppend(init, [x], key);
    DedupSnoc(Map(init, key), key(x));
    var d0 := Dedup(Map(init, key));
    var d := Dedup(Map(s, key));
    var after := (k: K) => GroupSum(s, key, w, k);
    var before := (k: K) => GroupSum(init, key, w, k);
    var one := (k: K) => if k == key(x) then w(x) else 0;
    forall k | k in d ensures after(k) == before(k) + one(k) {
      GroupSumSnoc(init, x, key, w, k);
    }
    SumAdd(d, before, one, after);
    assert key(x) in d by {
      assert key(x) in Map(s, key);
    }
    SumIndicator(d, key(x), w(x));
    if key(x) !in d0 {
      SumAppend(d0, [key(x)], before);
      GroupSumAbsent(init, key, w, key(x));
    }
  }

  /**
   * `drop_duplicates` of rows that are determined by a key, when distinct
   * keys give distinct rows: one row per distinct key, in order of first
   * occurrence.
   */
  lemma {:induction false} DedupByKey<T(!new), K(!new), R(!new)>(s: seq<T>, key: T -> K, mk: K -> R, row: T -> R)
    requires forall x :: row(x) == mk(key(x))
    requires forall a, b :: mk(a) == mk(b) ==> a == b
    ensures Dedup(Map(s, row)) == Map(Dedup(Map(s, key)), mk)
  {
    if s != [] {
      var init := s[..|s| - 1];
      var x := s[|s| - 1];
      assert s == init + [x];
      DedupByKey(init, key, mk, row);
      MapAppend(init, [x], key);
      MapAppend(init, [x], row);
      DedupSnoc(Map(init, key), key(x));
      DedupSnoc(Map(init, row), row(x));
      var d0 := Dedup(Map(init, key));
      assert row(x) in Map(d0, mk) <==> key(x) in d0;
      if key(x) !in d0 {
        MapAppend(d0, [key(x)], mk);
      }
    }
  }
}
