/**
 * Insertion-ordered dictionaries and the counting helpers the analyzers share.
 *
 * A Python `dict`, `Counter` or `defaultdict` iterates its keys in
 * first-insertion order, and that order is visible in every result the
 * analyzers return.  A dictionary is therefore an association list whose keys
 * appear in insertion order; `Put` overwrites an existing key in place and
 * appends a new one at the end, exactly as `d[k] = v` does.
 */
module Collections {

  datatype Option<+T> = None | Some(value: T)

  /** A dictionary; iteration order is the order of the list. */
  type Dict<K, V> = seq<(K, V)>

  function Keys<K, V>(m: Dict<K, V>): seq<K>
  {
    seq(|m|, i requires 0 <= i < |m| => m[i].0)
  }

  predicate Distinct<T(==,!new)>(s: seq<T>)
  {
    forall i, j :: 0 <= i < j < |s| ==> s[i] != s[j]
  }

  lemma KeysCons<K, V>(p: (K, V), m: Dict<K, V>)
    ensures Keys([p] + m) == [p.0] + Keys(m)
  {
  }

  /** `k in d` and `d[k]`: the value stored under `k`, if any. */
  function Find<K(==,!new), V>(m: Dict<K, V>, k: K): (r: Option<V>)
    ensures r.Some? <==> k in Keys(m)
    ensures r.Some? ==> (k, r.value) in m
  {
    if m == [] then None
    else if m[0].0 == k then
      assert Keys(m)[0] == k;
      Some(m[0].1)
    else
      KeysCons(m[0], m[1..]);
      assert m == [m[0]] + m[1..];
      Find(m[1..], k)
  }

  /** `d[k] = v`: overwrites in place when `k` is present, appends otherwise. */
  function Put<K(==,!new), V>(m: Dict<K, V>, k: K, v: V): (r: Dict<K, V>)
    ensures Find(r, k) == Some(v)
  {
    if m == [] then [(k, v)]
    else if m[0].0 == k then
      KeysCons((k, v), m[1..]);
      KeysCons(m[0], m[1..]);
      assert m == [m[0]] + m[1..];
      [(k, v)] + m[1..]
    else
      var rest := Put(m[1..], k, v);
      KeysCons(m[0], rest);
      KeysCons(m[0], m[1..]);
      assert m == [m[0]] + m[1..];
      [m[0]] + rest
  }

  /** `d[k] = v` leaves the entry of every other key as it was. */
  lemma {:induction false} PutOther<K(!new), V>(m: Dict<K, V>, k: K, v: V, j: K)
    requires j != k
    ensures Find(Put(m, k, v), j) == Find(m, j)
  {
    if m != [] {
      var r := Put(m, k, v);
      if m[0].0 == k {
        assert r[1..] == m[1..];
      } else if m[0].0 != j {
        assert r[1..] == Put(m[1..], k, v);
        PutOther(m[1..], k, v, j);
      }
    }
  }

  lemma PutOthers<K(!new), V>(m: Dict<K, V>, k: K, v: V)
    ensures forall j :: j != k ==> Find(Put(m, k, v), j) == Find(m, j)
  {
    forall j | j != k ensures Find(Put(m, k, v), j) == Find(m, j) {
      PutOther(m, k, v, j);
    }
  }

  /** The values of a dictionary are all at least zero. */
  predicate NonNegative<K>(m: Dict<K, int>)
  {
    forall i :: 0 <= i < |m| ==> m[i].1 >= 0
  }

  /** Storing a value that is at least zero keeps every value at least zero. */
  lemma {:induction false} PutNonNegative<K(!new)>(m: Dict<K, int>, k: K, v: int)
    requires NonNegative(m) && v >= 0
    ensures NonNegative(Put(m, k, v))
  {
    if m != [] && m[0].0 != k {
      PutNonNegative(m[1..], k, v);
    }
  }

  /** A new key goes to the end; an existing key keeps its place. */
  lemma {:induction false} PutKeys<K(!new), V>(m: Dict<K, V>, k: K, v: V)
    ensures Keys(Put(m, k, v)) == if k in Keys(m) then Keys(m) else Keys(m) + [k]
  {
    if m != [] {
      assert m == [m[0]] + m[1..];
      KeysCons(m[0], m[1..]);
      if m[0].0 == k {
        KeysCons((k, v), m[1..]);
      } else {
        PutKeys(m[1..], k, v);
        KeysCons(m[0], Put(m[1..], k, v));
      }
    }
  }

  /** Storing under a new key appends one entry. */
  lemma {:induction false} PutNew<K(!new), V>(m: Dict<K, V>, k: K, v: V)
    requires k !in Keys(m)
    ensures Put(m, k, v) == m + [(k, v)]
  {
    if m != [] {
      assert m == [m[0]] + m[1..];
      KeysCons(m[0], m[1..]);
      PutNew(m[1..], k, v);
    }
  }

  lemma DistinctSnoc<T(!new)>(s: seq<T>, x: T)
    requires Distinct(s) && x !in s
    ensures Distinct(s + [x])
  {
  }

  /** The values `f` yields on the elements of `s`, in order, skipping the elements it yields nothing for. */
  function FilterMap<A, B>(f: A -> Option<B>, s: seq<A>): seq<B>
  {
    if s == [] then []
    else
      var r := f(s[|s| - 1]);
      FilterMap(f, s[..|s| - 1]) + (if r.Some? then [r.value] else [])
  }

  lemma {:induction false} FilterMapMembers<A, B(!new)>(f: A -> Option<B>, s: seq<A>)
    ensures forall y :: y in FilterMap(f, s) <==> exists i :: 0 <= i < |s| && f(s[i]) == Some(y)
  {
    if s != [] {
      var prev := s[..|s| - 1];
      FilterMapMembers(f, prev);
      forall y ensures y in FilterMap(f, s) <==> exists i :: 0 <= i < |s| && f(s[i]) == Some(y) {
        if exists i :: 0 <= i < |s| && f(s[i]) == Some(y) {
          var i :| 0 <= i < |s| && f(s[i]) == Some(y);
          if i < |prev| {
            assert prev[i] == s[i];
          }
        }
        if exists i :: 0 <= i < |prev| && f(prev[i]) == Some(y) {
          var i :| 0 <= i < |prev| && f(prev[i]) == Some(y);
          assert s[i] == prev[i];
        }
      }
    }
  }

  /** `counter[k]` on a `Counter` or `defaultdict(int)`: 0 for a missing key. */
  function Get<K(==,!new)>(m: Dict<K, int>, k: K): int
  {
    if Find(m, k).Some? then Find(m, k).value else 0
  }

  /** `sum(counter.values())`. */
  function Total<K>(m: Dict<K, int>): int
  {
    if m == [] then 0 else m[0].1 + Total(m[1..])
  }

  lemma {:induction false} PutTotal<K(!new)>(m: Dict<K, int>, k: K, v: int)
    ensures Total(Put(m, k, v)) == Total(m) - Get(m, k) + v
  {
    if m != [] && m[0].0 != k {
      PutTotal(m[1..], k, v);
    }
  }

  /** `counter[k] += d`. */
  function Bump<K(==,!new)>(m: Dict<K, int>, k: K, d: int): Dict<K, int>
  {
    Put(m, k, Get(m, k) + d)
  }

  /** Adding an amount that is at least zero keeps every count at least zero. */
  lemma BumpNonNegative<K(!new)>(m: Dict<K, int>, k: K, d: int)
    requires NonNegative(m) && d >= 0
    ensures NonNegative(Bump(m, k, d))
  {
    if Find(m, k).Some? {
      assert (k, Find(m, k).value) in m;
    }
    PutNonNegative(m, k, Get(m, k) + d);
  }

  /** `counter[k] += d` adds `d` to the count of `k` and to the sum, and to nothing else. */
  lemma BumpEffect<K(!new)>(m: Dict<K, int>, k: K, d: int)
    ensures Get(Bump(m, k, d), k) == Get(m, k) + d
    ensures forall j :: j != k ==> Get(Bump(m, k, d), j) == Get(m, j)
    ensures Keys(Bump(m, k, d)) == if k in Keys(m) then Keys(m) else Keys(m) + [k]
    ensures Total(Bump(m, k, d)) == Total(m) + d
  {
    BumpGet(m, k, d);
    BumpKeys(m, k, d);
    BumpTotal(m, k, d);
  }

  lemma BumpKeys<K(!new)>(m: Dict<K, int>, k: K, d: int)
    ensures Keys(Bump(m, k, d)) == if k in Keys(m) then Keys(m) else Keys(m) + [k]
  {
    PutKeys(m, k, Get(m, k) + d);
  }

  lemma BumpTotal<K(!new)>(m: Dict<K, int>, k: K, d: int)
    ensures Total(Bump(m, k, d)) == Total(m) + d
  {
    PutTotal(m, k, Get(m, k) + d);
  }

  lemma BumpGet<K(!new)>(m: Dict<K, int>, k: K, d: int)
    ensures Get(Bump(m, k, d), k) == Get(m, k) + d
    ensures forall j :: j != k ==> Get(Bump(m, k, d), j) == Get(m, j)
  {
    PutOthers(m, k, Get(m, k) + d);
  }

  /** Number of occurrences of `x` in `s`. */
  function Count<T(==,!new)>(s: seq<T>, x: T): nat
  {
    if s == [] then 0 else Count(s[..|s| - 1], x) + (if s[|s| - 1] == x then 1 else 0)
  }

  lemma {:induction false} CountPositive<T(!new)>(s: seq<T>, x: T)
    ensures Count(s, x) > 0 <==> x in s
  {
    if s != [] {
      CountPositive(s[..|s| - 1], x);
      assert s == s[..|s| - 1] + [s[|s| - 1]];
    }
  }

  /** The elements of `s` in order of first appearance. */
  function Dedup<T(==,!new)>(s: seq<T>): (r: seq<T>)
    ensures Distinct(r)
    ensures forall x :: x in r <==> x in s
  {
    if s == [] then []
    else
      var d := Dedup(s[..|s| - 1]);
      assert s == s[..|s| - 1] + [s[|s| - 1]];
      if s[|s| - 1] in d then d else d + [s[|s| - 1]]
  }

  /** Storing under `k` keeps the keys the first appearances of the stored-under sequence. */
  lemma PutDedup<K(!new), V>(m: Dict<K, V>, a: seq<K>, k: K, v: V)
    requires Keys(m) == Dedup(a)
    ensures Keys(Put(m, k, v)) == Dedup(a + [k])
  {
    PutKeys(m, k, v);
    assert (a + [k])[..|a|] == a;
  }

  lemma BumpDedup<K(!new)>(m: Dict<K, int>, a: seq<K>, k: K, d: int)
    requires Keys(m) == Dedup(a)
    ensures Keys(Bump(m, k, d)) == Dedup(a + [k])
  {
    BumpKeys(m, k, d);
    assert (a + [k])[..|a|] == a;
  }

  /** Sum of the weights paired with `k`. */
  function Weight<K(==,!new)>(s: seq<(K, int)>, k: K): int
  {
    if s == [] then 0 else Weight(s[..|s| - 1], k) + (if s[|s| - 1].0 == k then s[|s| - 1].1 else 0)
  }

  /** `for k, w in s: d[k] += w` on a `defaultdict(int)`. */
  function Accumulate<K(==,!new)>(s: seq<(K, int)>): Dict<K, int>
  {
    if s == [] then [] else Bump(Accumulate(s[..|s| - 1]), s[|s| - 1].0, s[|s| - 1].1)
  }

  lemma {:induction false} AccumulateKeys<K(!new)>(s: seq<(K, int)>)
    ensures Keys(Accumulate(s)) == Dedup(Keys(s))
  {
    if s != [] {
      var prev, key, w := s[..|s| - 1], s[|s| - 1].0, s[|s| - 1].1;
      AccumulateKeys(prev);
      assert Keys(s) == Keys(prev) + [key];
      BumpDedup(Accumulate(prev), Keys(prev), key, w);
    }
  }

  lemma {:induction false} AccumulateWeights<K(!new)>(s: seq<(K, int)>, k: K)
    ensures Get(Accumulate(s), k) == Weight(s, k)
  {
    if s != [] {
      var prev, key, w := s[..|s| - 1], s[|s| - 1].0, s[|s| - 1].1;
      AccumulateWeights(prev, k);
      BumpGet(Accumulate(prev), key, w);
    }
  }

  /** Accumulating keeps each key once, in first-appearance order, with the sum of its weights. */
  lemma AccumulateSums<K(!new)>(s: seq<(K, int)>)
    ensures Keys(Accumulate(s)) == Dedup(Keys(s))
    ensures forall k :: Get(Accumulate(s), k) == Weight(s, k)
  {
    AccumulateKeys(s);
    forall k ensures Get(Accumulate(s), k) == Weight(s, k) {
      AccumulateWeights(s, k);
    }
  }

  /** `Counter(s)`: occurrences of each element, keyed in first-appearance order. */
  function Tally<T(==,!new)>(s: seq<T>): Dict<T, int>
  {
    if s == [] then [] else Bump(Tally(s[..|s| - 1]), s[|s| - 1], 1)
  }

  lemma {:induction false} TallyCounts<T(!new)>(s: seq<T>)
    ensures Keys(Tally(s)) == Dedup(s)
    ensures forall x :: Get(Tally(s), x) == Count(s, x)
  {
    if s != [] {
      TallyCounts(s[..|s| - 1]);
      BumpEffect(Tally(s[..|s| - 1]), s[|s| - 1], 1);
    }
  }

  /** `{k: v for k, v in m.items() if v > t}`. */
  function Above<K>(m: Dict<K, int>, t: real): Dict<K, int>
  {
    if m == [] then []
    else (if m[0].1 as real > t then [m[0]] else []) + Above(m[1..], t)
  }

  lemma {:induction false} AboveMembers<K(!new)>(m: Dict<K, int>, t: real)
    ensures forall p :: p in Above(m, t) <==> p in m && p.1 as real > t
  {
    if m != [] {
      assert m == [m[0]] + m[1..];
      AboveMembers(m[1..], t);
    }
  }

  /** Filtering one more entry at the end only decides about that entry. */
  lemma {:induction false} AboveSnoc<K(!new)>(m: Dict<K, int>, p: (K, int), t: real)
    ensures Keys(Above(m + [p], t)) == Keys(Above(m, t)) + (if p.1 as real > t then [p.0] else [])
  {
    if m == [] {
      assert [p] == [p] + [];
    } else {
      assert (m + [p])[0] == m[0] && (m + [p])[1..] == m[1..] + [p];
      AboveSnoc(m[1..], p, t);
      if m[0].1 as real > t {
        assert Above(m + [p], t) == [m[0]] + Above(m[1..] + [p], t);
        assert Above(m, t) == [m[0]] + Above(m[1..], t);
        KeysCons(m[0], Above(m[1..] + [p], t));
        KeysCons(m[0], Above(m[1..], t));
      } else {
        assert Above(m + [p], t) == Above(m[1..] + [p], t);
        assert Above(m, t) == Above(m[1..], t);
      }
    }
  }

  /** `{k: v for k, v in m.items() if v >= t}`. */
  function AtLeast<K>(m: Dict<K, int>, t: int): Dict<K, int>
  {
    if m == [] then []
    else (if m[0].1 >= t then [m[0]] else []) + AtLeast(m[1..], t)
  }

  lemma {:induction false} AtLeastMembers<K(!new)>(m: Dict<K, int>, t: int)
    ensures forall p :: p in AtLeast(m, t) <==> p in m && p.1 >= t
  {
    if m != [] {
      assert m == [m[0]] + m[1..];
      AtLeastMembers(m[1..], t);
    }
  }

  lemma FindCons<K(!new), V>(p: (K, V), m: Dict<K, V>, k: K)
    ensures Find([p] + m, k) == if p.0 == k then Some(p.1) else Find(m, k)
  {
    assert ([p] + m)[1..] == m;
  }

  lemma DistinctCons<K(!new), V>(p: (K, V), m: Dict<K, V>)
    ensures Distinct(Keys([p] + m)) <==> p.0 !in Keys(m) && Distinct(Keys(m))
  {
    KeysCons(p, m);
    var ks := Keys([p] + m);
    if p.0 !in Keys(m) && Distinct(Keys(m)) {
      forall i, j | 0 <= i < j < |ks| ensures ks[i] != ks[j] {
        if i > 0 {
          assert ks[i] == Keys(m)[i - 1] && ks[j] == Keys(m)[j - 1];
        } else {
          assert ks[j] == Keys(m)[j - 1];
        }
      }
    }
    if Distinct(ks) {
      forall i, j | 0 <= i < j < |Keys(m)| ensures Keys(m)[i] != Keys(m)[j] {
        assert Keys(m)[i] == ks[i + 1] && Keys(m)[j] == ks[j + 1];
      }
      forall i | 0 <= i < |Keys(m)| ensures Keys(m)[i] != p.0 {
        assert ks[0] == p.0 && Keys(m)[i] == ks[i + 1];
      }
    }
  }

  /** Every key of a sub-list of entries is a key of the whole list. */
  lemma KeysWithin<K, V>(r: Dict<K, V>, m: Dict<K, V>)
    requires forall p :: p in r ==> p in m
    ensures forall x :: x in Keys(r) ==> x in Keys(m)
  {
    forall x | x in Keys(r) ensures x in Keys(m) {
      var i :| 0 <= i < |r| && Keys(r)[i] == x;
      assert r[i] in m;
      var j :| 0 <= j < |m| && m[j] == r[i];
      assert Keys(m)[j] == x;
    }
  }

  /** With distinct keys, a key survives `Above` exactly when its value exceeds `t`. */
  lemma {:induction false} AboveFind<K(!new)>(m: Dict<K, int>, t: real, k: K)
    requires Distinct(Keys(m))
    ensures Distinct(Keys(Above(m, t)))
    ensures Find(Above(m, t), k) == if k in Keys(m) && Get(m, k) as real > t then Find(m, k) else None
  {
    if m != [] {
      var tail := m[1..];
      assert m == [m[0]] + tail;
      DistinctCons(m[0], tail);
      AboveFind(tail, t, k);
      FindCons(m[0], tail, k);
      var rest := Above(tail, t);
      AboveMembers(tail, t);
      KeysWithin(rest, tail);
      if m[0].1 as real > t {
        assert Above(m, t) == [m[0]] + rest;
        DistinctCons(m[0], rest);
        FindCons(m[0], rest, k);
      } else {
        assert Above(m, t) == rest;
      }
    }
  }

  /** With distinct keys, a key survives `AtLeast` exactly when its value reaches `t`. */
  lemma {:induction false} AtLeastFind<K(!new)>(m: Dict<K, int>, t: int, k: K)
    requires Distinct(Keys(m))
    ensures Distinct(Keys(AtLeast(m, t)))
    ensures Find(AtLeast(m, t), k) == if k in Keys(m) && Get(m, k) >= t then Find(m, k) else None
  {
    if m != [] {
      var tail := m[1..];
      assert m == [m[0]] + tail;
      DistinctCons(m[0], tail);
      AtLeastFind(tail, t, k);
      FindCons(m[0], tail, k);
      var rest := AtLeast(tail, t);
      AtLeastMembers(tail, t);
      KeysWithin(rest, tail);
      if m[0].1 >= t {
        assert AtLeast(m, t) == [m[0]] + rest;
        DistinctCons(m[0], rest);
        FindCons(m[0], rest, k);
      } else {
        assert AtLeast(m, t) == rest;
      }
    }
  }

  /** Raising the cut only removes entries, and keeps the survivors in order. */
  lemma {:induction false} AboveNested<K(!new)>(m: Dict<K, int>, t1: real, t2: real)
    requires t1 <= t2
    ensures Above(Above(m, t1), t2) == Above(m, t2)
  {
    if m != [] {
      AboveNested(m[1..], t1, t2);
      var a := Above(m, t1);
      if m[0].1 as real > t1 {
        assert a == [m[0]] + Above(m[1..], t1);
        assert a[0] == m[0] && a[1..] == Above(m[1..], t1);
      } else {
        assert a == Above(m[1..], t1);
      }
    }
  }
}
