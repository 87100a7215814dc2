/**
 * Sequences and ordered dictionaries.
 *
 * The pipeline keeps its state in Python dictionaries, which remember the
 * order in which keys were first inserted and iterate in that order.  They
 * are modelled here as association lists `seq<(K, V)>` whose keys are
 * unique; filtering a dictionary is filtering its list of entries.
 */
module Collections {

  datatype Option<T> = None | Some(value: T)

  /** pandas `.item()`: the single element of a selection, or None when the
      selection has no element or more than one. */
  function Item<T>(s: seq<T>): (r: Option<T>)
    ensures r.Some? <==> |s| == 1
    ensures r.Some? ==> r.value == s[0] && r.value in s
  {
    if |s| == 1 then Some(s[0]) else None
  }

  /** The elements of `s` that satisfy `p`, in their original order. */
  function Filter<T>(p: T -> bool, s: seq<T>): (r: seq<T>)
    ensures |r| <= |s|
    ensures forall i :: 0 <= i < |r| ==> r[i] in s && p(r[i])
    ensures forall i :: 0 <= i < |s| && p(s[i]) ==> s[i] in r
    decreases |s|
  {
    if s == [] then []
    else
      assert s == s[..|s| - 1] + [s[|s| - 1]];
      var r := Filter(p, s[..|s| - 1]);
      if p(s[|s| - 1]) then r + [s[|s| - 1]] else r
  }

  function Not<T>(p: T -> bool): T -> bool
  {
    x => !p(x)
  }

  function And<T>(p: T -> bool, q: T -> bool): T -> bool
  {
    x => p(x) && q(x)
  }

  lemma FilterSnoc<T>(p: T -> bool, s: seq<T>, x: T)
    ensures Filter(p, s + [x]) == if p(x) then Filter(p, s) + [x] else Filter(p, s)
  {
    assert (s + [x])[..|s|] == s;
  }

  /** One step of a loop that filters `s` front to back. */
  lemma FilterPrefixStep<T>(p: T -> bool, s: seq<T>, j: nat)
    requires j < |s|
    ensures Filter(p, s[..j + 1]) == if p(s[j]) then Filter(p, s[..j]) + [s[j]] else Filter(p, s[..j])
  {
    assert s[..j + 1] == s[..j] + [s[j]];
    FilterSnoc(p, s[..j], s[j]);
  }

  /** Filtering distributes over concatenation. */
  lemma {:induction false} FilterConcat<T>(p: T -> bool, a: seq<T>, b: seq<T>)
    ensures Filter(p, a + b) == Filter(p, a) + Filter(p, b)
    decreases |b|
  {
    if b == [] {
      assert a + b == a;
    } else {
      var b', x := b[..|b| - 1], b[|b| - 1];
      assert b == b' + [x];
      assert a + b == (a + b') + [x];
      FilterConcat(p, a, b');
      FilterSnoc(p, a + b', x);
      FilterSnoc(p, b', x);
    }
  }

  /** Selecting twice is selecting by both conditions. */
  lemma {:induction false} FilterFilter<T>(p: T -> bool, q: T -> bool, s: seq<T>)
    ensures Filter(q, Filter(p, s)) == Filter(And(p, q), s)
    decreases |s|
  {
    if s != [] {
      var s', x := s[..|s| - 1], s[|s| - 1];
      assert s == s' + [x];
      FilterFilter(p, q, s');
      if p(x) {
        FilterSnoc(q, Filter(p, s'), x);
      }
    }
  }

  /** When `p` holds nowhere in `s`, filtering keeps nothing. */
  lemma {:induction false} FilterNone<T>(p: T -> bool, s: seq<T>)
    requires forall x :: x in s ==> !p(x)
    ensures Filter(p, s) == []
    decreases |s|
  {
    if s != [] {
      assert s[|s| - 1] in s;
      FilterNone(p, s[..|s| - 1]);
    }
  }

  /** When `p` holds everywhere in `s`, filtering keeps every element. */
  lemma {:induction false} FilterAll<T>(p: T -> bool, s: seq<T>)
    requires forall x :: x in s ==> p(x)
    ensures Filter(p, s) == s
    decreases |s|
  {
    if s != [] {
      FilterAll(p, s[..|s| - 1]);
      assert s == s[..|s| - 1] + [s[|s| - 1]];
    }
  }

  /** Two predicates that disagree everywhere on `s` split it: what one keeps
      and what the other keeps make up `s` exactly once. */
  lemma {:induction false} FilterSplit<T>(p: T -> bool, q: T -> bool, s: seq<T>)
    requires forall x :: x in s ==> p(x) != q(x)
    ensures multiset(Filter(p, s)) + multiset(Filter(q, s)) == multiset(s)
    decreases |s|
  {
    if s != [] {
      var s', x := s[..|s| - 1], s[|s| - 1];
      assert s == s' + [x];
      FilterSplit(p, q, s');
    }
  }

  // ---------------------------------------------------------------------
  // Subsequences

  /** `a` can be obtained from `b` by deleting elements (matched from the end). */
  predicate IsSubseq<T(==)>(a: seq<T>, b: seq<T>)
    decreases |b|
  {
    if a == [] then true
    else if b == [] then false
    else if a[|a| - 1] == b[|b| - 1] then IsSubseq(a[..|a| - 1], b[..|b| - 1])
    else IsSubseq(a, b[..|b| - 1])
  }

  lemma {:induction false} SubseqRefl<T>(s: seq<T>)
    ensures IsSubseq(s, s)
    decreases |s|
  {
    if s != [] {
      SubseqRefl(s[..|s| - 1]);
    }
  }

  lemma {:induction false} SubseqExtend<T>(a: seq<T>, b: seq<T>, x: T)
    requires IsSubseq(a, b)
    ensures IsSubseq(a, b + [x])
    decreases |b|, 1
  {
    assert (b + [x])[..|b|] == b;
    if a != [] && a[|a| - 1] == x {
      SubseqDropLast(a, b);
    }
  }

  lemma {:induction false} SubseqDropLast<T>(a: seq<T>, b: seq<T>)
    requires a != [] && IsSubseq(a, b)
    ensures IsSubseq(a[..|a| - 1], b)
    decreases |b|, 0
  {
    var a', b' := a[..|a| - 1], b[..|b| - 1];
    assert b == b' + [b[|b| - 1]];
    if a[|a| - 1] != b[|b| - 1] {
      SubseqDropLast(a, b');
    }
    SubseqExtend(a', b', b[|b| - 1]);
  }

  lemma {:induction false} SubseqTrans<T>(a: seq<T>, b: seq<T>, c: seq<T>)
    requires IsSubseq(a, b) && IsSubseq(b, c)
    ensures IsSubseq(a, c)
    decreases |c|
  {
    if a != [] {
      var c', x := c[..|c| - 1], c[|c| - 1];
      assert c == c' + [x];
      if b[|b| - 1] == x {
        if a[|a| - 1] == x {
          SubseqTrans(a[..|a| - 1], b[..|b| - 1], c');
        } else {
          SubseqTrans(a, b[..|b| - 1], c');
        }
      } else {
        SubseqTrans(a, b, c');
        SubseqExtend(a, c', x);
      }
    }
  }

  /** Python `list.pop(k)` leaves a subsequence behind. */
  lemma {:induction false} SubseqDelete<T>(s: seq<T>, k: nat)
    requires k < |s|
    ensures IsSubseq(s[..k] + s[k + 1..], s)
    decreases |s|
  {
    var s' := s[..|s| - 1];
    assert s == s' + [s[|s| - 1]];
    if k == |s| - 1 {
      assert s[..k] + s[k + 1..] == s';
      SubseqRefl(s');
      SubseqExtend(s', s', s[|s| - 1]);
    } else {
      var d := s[..k] + s[k + 1..];
      assert d[..|d| - 1] == s'[..k] + s'[k + 1..];
      assert d[|d| - 1] == s[|s| - 1];
      SubseqDelete(s', k);
    }
  }

  lemma {:induction false} FilterSubseq<T>(p: T -> bool, s: seq<T>)
    ensures IsSubseq(Filter(p, s), s)
    decreases |s|
  {
    if s != [] {
      var s', x := s[..|s| - 1], s[|s| - 1];
      assert s == s' + [x];
      FilterSubseq(p, s');
      if p(x) {
        assert (Filter(p, s') + [x])[..|Filter(p, s')|] == Filter(p, s');
      } else {
        SubseqExtend(Filter(p, s'), s', x);
      }
    }
  }

  // ---------------------------------------------------------------------
  // First occurrences and list positions

  /** The elements of `s` at their first occurrence, in order. */
  function Dedup<T(==)>(s: seq<T>): (r: seq<T>)
    ensures forall i :: 0 <= i < |r| ==> r[i] in s
    ensures forall i :: 0 <= i < |s| ==> s[i] in r
    ensures forall i, j :: 0 <= i < j < |r| ==> r[i] != r[j]
    decreases |s|
  {
    if s == [] then []
    else
      assert s == s[..|s| - 1] + [s[|s| - 1]];
      var r := Dedup(s[..|s| - 1]);
      if s[|s| - 1] in r then r else r + [s[|s| - 1]]
  }

  /** Python `list.index(x)`: the position of the first occurrence of `x`. */
  function IndexOf<T(==)>(s: seq<T>, x: T): (k: nat)
    requires x in s
    ensures k < |s| && s[k] == x
    ensures forall j :: 0 <= j < k ==> s[j] != x
  {
    if s[0] == x then 0 else 1 + IndexOf(s[1..], x)
  }

  // ---------------------------------------------------------------------
  // Ordered dictionaries

  type Dict<K, V> = seq<(K, V)>

  /** The keys of a dictionary in iteration order (`d.keys()`). */
  function Keys<K, V>(d: Dict<K, V>): (ks: seq<K>)
    ensures |ks| == |d|
  {
    seq(|d|, i requires 0 <= i < |d| => d[i].0)
  }

  ghost predicate UniqueKeys<K, V>(d: Dict<K, V>)
  {
    forall i, j :: 0 <= i < j < |d| ==> d[i].0 != d[j].0
  }

  lemma KeysSnoc<K, V>(d: Dict<K, V>, e: (K, V))
    ensures Keys(d + [e]) == Keys(d) + [e.0]
  {
  }

  lemma KeysMember<K, V>(d: Dict<K, V>, e: (K, V))
    requires e in d
    ensures e.0 in Keys(d)
  {
    var i :| 0 <= i < |d| && d[i] == e;
    assert Keys(d)[i] == e.0;
  }

  /** A dictionary comprehension `{k: f(k) for k in ks}`: each key once, at
      the position of its first occurrence in `ks`. */
  function FromKeys<K(==), V>(ks: seq<K>, f: K -> V): (d: Dict<K, V>)
    ensures Keys(d) == Dedup(ks)
    ensures UniqueKeys(d)
    ensures forall i :: 0 <= i < |d| ==> d[i].1 == f(d[i].0)
  {
    var u := Dedup(ks);
    seq(|u|, i requires 0 <= i < |u| => (u[i], f(u[i])))
  }

  /** Python `d[k] = v`: overwrite the value in place when `k` is a key,
      otherwise append a new entry. */
  function Put<K(==), V>(d: Dict<K, V>, k: K, v: V): (r: Dict<K, V>)
    decreases |d|
  {
    if d == [] then [(k, v)]
    else if d[0].0 == k then [(k, v)] + d[1..]
    else [d[0]] + Put(d[1..], k, v)
  }

  lemma {:induction false} PutNew<K, V>(d: Dict<K, V>, k: K, v: V)
    requires k !in Keys(d)
    ensures Put(d, k, v) == d + [(k, v)]
    decreases |d|
  {
    if d != [] {
      assert Keys(d)[0] == d[0].0;
      assert forall i :: 0 <= i < |d| - 1 ==> Keys(d[1..])[i] == Keys(d)[i + 1];
      PutNew(d[1..], k, v);
    }
  }

  lemma {:induction false} PutPresent<K, V>(d: Dict<K, V>, k: K, v: V, i: nat)
    requires UniqueKeys(d) && i < |d| && d[i] == (k, v)
    ensures Put(d, k, v) == d
    decreases |d|
  {
    if d[0].0 != k {
      assert UniqueKeys(d[1..]) by {
        forall a, b | 0 <= a < b < |d| - 1 ensures d[1..][a].0 != d[1..][b].0 {
          assert d[1..][a] == d[a + 1] && d[1..][b] == d[b + 1];
        }
      }
      PutPresent(d[1..], k, v, i - 1);
    }
  }

  /** Rebuild a dictionary entry by entry, keeping its keys and their order. */
  function MapValues<K, V, W>(d: Dict<K, V>, f: (K, V) -> W): (r: Dict<K, W>)
    ensures Keys(r) == Keys(d)
  {
    seq(|d|, i requires 0 <= i < |d| => (d[i].0, f(d[i].0, d[i].1)))
  }

  lemma UniqueKeysByKeys<K, V, W>(d: Dict<K, V>, r: Dict<K, W>)
    requires UniqueKeys(d) && Keys(r) == Keys(d)
    ensures UniqueKeys(r)
  {
    forall i, j | 0 <= i < j < |r| ensures r[i].0 != r[j].0 {
      assert Keys(r)[i] == r[i].0 && Keys(r)[j] == r[j].0;
      assert Keys(d)[i] == d[i].0 && Keys(d)[j] == d[j].0;
    }
  }

  /** Dropping entries never makes two keys equal. */
  lemma {:induction false} FilterUniqueKeys<K, V>(p: ((K, V)) -> bool, d: Dict<K, V>)
    requires UniqueKeys(d)
    ensures UniqueKeys(Filter(p, d))
    decreases |d|
  {
    if d != [] {
      var d', e := d[..|d| - 1], d[|d| - 1];
      assert d == d' + [e];
      FilterUniqueKeys(p, d');
      var r' := Filter(p, d');
      if p(e) {
        forall i | 0 <= i < |r'| ensures r'[i].0 != e.0 {
          assert r'[i] in d';
          var j :| 0 <= j < |d'| && d'[j] == r'[i];
          assert d[j] == d'[j];
        }
      }
    }
  }

  /** The keys of two complementary filters of a dictionary make up its keys. */
  lemma {:induction false} FilterSplitKeys<K, V>(p: ((K, V)) -> bool, q: ((K, V)) -> bool, d: Dict<K, V>)
    requires forall e :: e in d ==> p(e) != q(e)
    ensures multiset(Keys(Filter(p, d))) + multiset(Keys(Filter(q, d))) == multiset(Keys(d))
    decreases |d|
  {
    if d != [] {
      var d', e := d[..|d| - 1], d[|d| - 1];
      assert d == d' + [e];
      FilterSplitKeys(p, q, d');
      KeysSnoc(d', e);
      KeysSnoc(Filter(p, d'), e);
      KeysSnoc(Filter(q, d'), e);
    }
  }

  // ---------------------------------------------------------------------
  // One loop step of building a dictionary with `d[k] = v`

  /** A prefix of a dictionary with unique keys has unique keys. */
  lemma UniqueKeysPrefix<K, V>(d: Dict<K, V>, n: nat)
    requires UniqueKeys(d) && n <= |d|
    ensures UniqueKeys(d[..n])
  {
    var p := d[..n];
    forall a, b | 0 <= a < b < |p| ensures p[a].0 != p[b].0 {
      assert p[a] == d[a] && p[b] == d[b];
    }
  }

  /** In a dictionary with unique keys, no entry repeats a key of the
      entries before it. */
  lemma FreshKey<K, V>(d: Dict<K, V>, i: nat)
    requires UniqueKeys(d) && i < |d|
    ensures d[i].0 !in Keys(d[..i])
  {
    forall j | 0 <= j < i
      ensures Keys(d[..i])[j] != d[i].0
    {
      assert Keys(d[..i])[j] == d[j].0;
    }
  }

  lemma FilterKeys<K, V>(p: ((K, V)) -> bool, d: Dict<K, V>, k: K)
    requires k in Keys(Filter(p, d))
    ensures k in Keys(d)
  {
    var r := Filter(p, d);
    var j :| 0 <= j < |r| && Keys(r)[j] == k;
    assert r[j] in d;
    KeysMember(d, r[j]);
  }

  /** The key of the next entry is not among the keys kept so far. */
  lemma FreshAfterFilter<K, V>(p: ((K, V)) -> bool, d: Dict<K, V>, i: nat)
    requires UniqueKeys(d) && i < |d|
    ensures d[i].0 !in Keys(Filter(p, d[..i]))
  {
    FreshKey(d, i);
    if d[i].0 in Keys(Filter(p, d[..i])) {
      FilterKeys(p, d[..i], d[i].0);
    }
  }

  /** Copying the entries of `d` that satisfy `p` into a new dictionary one
      by one: the next entry is either assigned (and, its key being new,
      appended) or skipped. */
  lemma FilterStep<K, V>(p: ((K, V)) -> bool, d: Dict<K, V>, i: nat)
    requires UniqueKeys(d) && i < |d|
    ensures Filter(p, d[..i + 1]) == if p(d[i]) then Put(Filter(p, d[..i]), d[i].0, d[i].1) else Filter(p, d[..i])
  {
    assert d[..i + 1] == d[..i] + [d[i]];
    FilterSnoc(p, d[..i], d[i]);
    FreshAfterFilter(p, d, i);
    PutNew(Filter(p, d[..i]), d[i].0, d[i].1);
  }

  lemma MapValuesSnoc<K, V, W>(d: Dict<K, V>, x: (K, V), f: (K, V) -> W)
    ensures MapValues(d + [x], f) == MapValues(d, f) + [(x.0, f(x.0, x.1))]
  {
  }

  /** As FilterStep, for a loop that stores a transformed value `f(k, v)`. */
  lemma FilterMapStep<K, V, W>(p: ((K, V)) -> bool, f: (K, V) -> W, d: Dict<K, V>, i: nat)
    requires UniqueKeys(d) && i < |d|
    ensures MapValues(Filter(p, d[..i + 1]), f)
         == if p(d[i]) then Put(MapValues(Filter(p, d[..i]), f), d[i].0, f(d[i].0, d[i].1))
            else MapValues(Filter(p, d[..i]), f)
  {
    FilterStep(p, d, i);
    var r := Filter(p, d[..i]);
    if p(d[i]) {
      FreshAfterFilter(p, d, i);
      PutNew(r, d[i].0, d[i].1);
      MapValuesSnoc(r, d[i], f);
      PutNew(MapValues(r, f), d[i].0, f(d[i].0, d[i].1));
    }
  }

  /** Rebuilding a unique-keyed dictionary entry by entry with `r[k] = f(k, v)`. */
  lemma MapValuesStep<K, V, W>(d: Dict<K, V>, f: (K, V) -> W, i: nat)
    requires UniqueKeys(d) && i < |d|
    ensures MapValues(d[..i + 1], f) == Put(MapValues(d[..i], f), d[i].0, f(d[i].0, d[i].1))
  {
    FreshKey(d, i);
    PutNew(MapValues(d[..i], f), d[i].0, f(d[i].0, d[i].1));
    assert MapValues(d[..i + 1], f) == MapValues(d[..i], f) + [(d[i].0, f(d[i].0, d[i].1))];
  }

  /** Filling `{k: f(k) for k in ks}` one key at a time with `d[k] = f(k)`. */
  lemma FromKeysStep<K, V>(ks: seq<K>, f: K -> V, j: nat)
    requires j < |ks|
    ensures FromKeys(ks[..j + 1], f) == Put(FromKeys(ks[..j], f), ks[j], f(ks[j]))
  {
    var s := ks[..j + 1];
    assert s[..|s| - 1] == ks[..j];
    var d := FromKeys(ks[..j], f);
    var x := ks[j];
    if x in Dedup(ks[..j]) {
      var i :| 0 <= i < |Keys(d)| && Keys(d)[i] == x;
      assert d[i] == (x, f(x));
      PutPresent(d, x, f(x), i);
    } else {
      PutNew(d, x, f(x));
      assert FromKeys(s, f) == d + [(x, f(x))];
    }
  }

  /** Every inner dictionary of a dictionary of dictionaries has unique keys,
      and so has the outer one. */
  ghost predicate NestedUnique<K, K2, V>(d: Dict<K, Dict<K2, V>>)
  {
    UniqueKeys(d) && forall i :: 0 <= i < |d| ==> UniqueKeys(d[i].1)
  }
}
