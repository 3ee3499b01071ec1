/** Insertion-ordered string-keyed dictionaries, the shape of the Python `dict`
    that holds a configuration document: lookup by key, iteration in insertion
    order, `d[k] = v`, `d.update(e)` and `d.pop(k)`. */
module Dicts {

  /** A sequence without repeated elements. */
  ghost predicate Distinct<T>(s: seq<T>) {
    forall i, j | 0 <= i < j < |s| :: s[i] != s[j]
  }

  /** The elements of `s` that satisfy `p`, in their original order. */
  function Filter<T(==,!new)>(s: seq<T>, p: T -> bool): (r: seq<T>)
    ensures forall x :: x in r <==> x in s && p(x)
    ensures |r| <= |s|
  {
    if s == [] then [] else (if p(s[0]) then [s[0]] else []) + Filter(s[1..], p)
  }

  lemma {:induction false} FilterDistinct<T(!new)>(s: seq<T>, p: T -> bool)
    requires Distinct(s)
    ensures Distinct(Filter(s, p))
  {
    if s != [] {
      FilterDistinct(s[1..], p);
      assert s[0] !in s[1..];
    }
  }

  /** Two filters agree when their predicates agree on the elements. */
  lemma {:induction false} FilterExt<T(!new)>(s: seq<T>, p: T -> bool, q: T -> bool)
    requires forall x :: x in s ==> p(x) == q(x)
    ensures Filter(s, p) == Filter(s, q)
  {
    if s != [] {
      FilterExt(s[1..], p, q);
    }
  }

  /** Filtering twice is filtering once by the conjunction. */
  lemma {:induction false} FilterTwice<T(!new)>(s: seq<T>, p: T -> bool, q: T -> bool, pq: T -> bool)
    requires forall x :: x in s ==> pq(x) == (p(x) && q(x))
    ensures Filter(Filter(s, p), q) == Filter(s, pq)
  {
    if s != [] {
      FilterTwice(s[1..], p, q, pq);
      var rest := Filter(s[1..], p);
      if p(s[0]) {
        assert Filter(s, p) == [s[0]] + rest;
        assert ([s[0]] + rest)[1..] == rest;
        assert Filter([s[0]] + rest, q) == (if q(s[0]) then [s[0]] else []) + Filter(rest, q);
      } else {
        assert Filter(s, p) == rest;
      }
    }
  }

  /** A prefix of a sequence without repeats has none either. */
  lemma DistinctPrefix<T>(a: seq<T>, b: seq<T>)
    requires Distinct(a + b)
    ensures Distinct(a)
  {
    forall i, j | 0 <= i < j < |a| ensures a[i] != a[j] {
      assert a[i] == (a + b)[i] && a[j] == (a + b)[j];
    }
  }

  /** The elements of a sequence, as a set. */
  function Elems<T>(s: seq<T>): set<T> {
    set x | x in s
  }

  /** Representation of a dictionary: its keys in insertion order and its entries. */
  datatype DictRep<V> = DictRep(keys: seq<string>, items: map<string, V>)

  ghost predicate WellFormed<V>(d: DictRep<V>) {
    Distinct(d.keys) && d.items.Keys == set k | k in d.keys
  }

  type Dict<V> = d: DictRep<V> | WellFormed(d) witness DictRep([], map[])

  function Empty<V>(): (d: Dict<V>)
    ensures d.keys == [] && d.items == map[]
  {
    DictRep([], map[])
  }

  /** `d.pop(k)` for every `k` in `ks`: the other keys keep their order. */
  function Without<V>(d: Dict<V>, ks: set<string>): (r: Dict<V>)
    ensures r.items == d.items - ks
    ensures r.keys == Filter(d.keys, k => k !in ks)
  {
    FilterDistinct(d.keys, k => k !in ks);
    DictRep(Filter(d.keys, k => k !in ks), d.items - ks)
  }

  /** `d[k] = v`: an existing key keeps its position, a new key goes last. */
  function Put<V>(d: Dict<V>, k: string, v: V): (r: Dict<V>)
    ensures r.items == d.items[k := v]
    ensures k in d.items ==> r.keys == d.keys
    ensures k !in d.items ==> r.keys == d.keys + [k]
  {
    if k in d.items then DictRep(d.keys, d.items[k := v])
    else
      var r := DictRep(d.keys + [k], d.items[k := v]);
      assert Distinct(r.keys) by {
        forall i, j | 0 <= i < j < |r.keys| ensures r.keys[i] != r.keys[j] {
          if j == |d.keys| {
            assert r.keys[i] in d.keys;
          }
        }
      }
      r
  }

  /** `d.update(e)` when no key of `e` is already in `d`: `e`'s keys follow
      `d`'s, in `e`'s order. */
  function Extend<V>(d: Dict<V>, e: Dict<V>): (r: Dict<V>)
    requires d.items.Keys !! e.items.Keys
    ensures r.items == d.items + e.items
    ensures r.keys == d.keys + e.keys
  {
    var r := DictRep(d.keys + e.keys, d.items + e.items);
    assert Distinct(r.keys) by {
      forall i, j | 0 <= i < j < |r.keys| ensures r.keys[i] != r.keys[j] {
        if i < |d.keys| <= j {
          assert r.keys[i] in d.items && r.keys[j] in e.items;
        }
      }
    }
    r
  }

  /** The listed keys are exactly the keys with entries. */
  lemma DictKeys<V>(d: Dict<V>)
    ensures forall k :: k in d.keys <==> k in d.items
  {
  }
}
