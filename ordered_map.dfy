/**
  The ordered associative container behind the device bus (a `std::map`
  keyed by base address). It is represented by its in-order contents: a
  sequence of entries whose keys strictly increase. `ToMap` gives the
  abstract map; `Insert` is `operator[]` assignment and `UpperBound` is
  `upper_bound`, the index of the first entry whose key exceeds a given key.
*/
module OrderedMap {

  datatype Entry<V> = Entry(key: int, value: V)

  predicate StrictlySorted<V>(e: seq<Entry<V>>) {
    forall i, j :: 0 <= i < j < |e| ==> e[i].key < e[j].key
  }

  /** The abstract map that the in-order sequence represents. */
  function ToMap<V>(e: seq<Entry<V>>): map<int, V> {
    if e == [] then map[] else ToMap(e[1..])[e[0].key := e[0].value]
  }

  /** `b` is the greatest key of `m` that is at most `a`. */
  ghost predicate IsFloor<V>(m: map<int, V>, a: int, b: int) {
    b in m && b <= a && forall k :: k in m && k <= a ==> k <= b
  }

  /** Every key of `m` is above `a` (in particular when `m` is empty). */
  ghost predicate AllAbove<V>(m: map<int, V>, a: int) {
    forall k :: k in m ==> k > a
  }

  /** `upper_bound(k)`: the position of the first entry whose key is greater than `k`. */
  function UpperBound<V>(e: seq<Entry<V>>, k: int): (r: nat)
    requires StrictlySorted(e)
    ensures r <= |e|
    ensures forall i :: 0 <= i < r ==> e[i].key <= k
    ensures forall i :: r <= i < |e| ==> e[i].key > k
  {
    if e == [] || e[0].key > k then 0 else 1 + UpperBound(e[1..], k)
  }

  /** `m[k] = v`: overwrite the entry at `k`, or insert one in key order. */
  function Insert<V>(e: seq<Entry<V>>, k: int, v: V): seq<Entry<V>> {
    if e == [] || k < e[0].key then [Entry(k, v)] + e
    else if e[0].key == k then [Entry(k, v)] + e[1..]
    else [e[0]] + Insert(e[1..], k, v)
  }

  lemma {:induction false} KeysOfToMap<V>(e: seq<Entry<V>>, k: int)
    ensures k in ToMap(e) <==> exists i :: 0 <= i < |e| && e[i].key == k
  {
    if e != [] {
      KeysOfToMap(e[1..], k);
      if k != e[0].key && k in ToMap(e[1..]) {
        var i :| 0 <= i < |e[1..]| && e[1..][i].key == k;
        assert e[i + 1].key == k;
      }
      if exists i :: 0 <= i < |e| && e[i].key == k {
        var i :| 0 <= i < |e| && e[i].key == k;
        if i > 0 { assert e[1..][i - 1].key == k; }
      }
    }
  }

  lemma {:induction false} ValueOfToMap<V>(e: seq<Entry<V>>, i: int)
    requires StrictlySorted(e) && 0 <= i < |e|
    ensures e[i].key in ToMap(e) && ToMap(e)[e[i].key] == e[i].value
  {
    if i > 0 {
      assert e[1..][i - 1] == e[i];
      ValueOfToMap(e[1..], i - 1);
    }
  }

  /** Inserting keeps the keys strictly increasing and adds only the new entry. */
  lemma {:induction false} InsertSorted<V>(e: seq<Entry<V>>, k: int, v: V)
    requires StrictlySorted(e)
    ensures StrictlySorted(Insert(e, k, v))
    ensures forall x :: x in Insert(e, k, v) ==> x == Entry(k, v) || x in e
  {
    if e != [] && k > e[0].key {
      InsertSorted(e[1..], k, v);
      var r := Insert(e, k, v);
      forall i, j | 0 <= i < j < |r| ensures r[i].key < r[j].key {
        if i == 0 {
          assert r[j] in Insert(e[1..], k, v);
        } else {
          assert r[i] == Insert(e[1..], k, v)[i - 1];
          assert r[j] == Insert(e[1..], k, v)[j - 1];
        }
      }
    }
  }

  /** `m[k] = v` on the sequence is map update on the abstract map. */
  lemma {:induction false} InsertToMap<V>(e: seq<Entry<V>>, k: int, v: V)
    ensures ToMap(Insert(e, k, v)) == ToMap(e)[k := v]
  {
    if e == [] || k < e[0].key {
      assert ([Entry(k, v)] + e)[1..] == e;
    } else if e[0].key == k {
      assert ([Entry(k, v)] + e[1..])[1..] == e[1..];
    } else {
      InsertToMap(e[1..], k, v);
      assert ([e[0]] + Insert(e[1..], k, v))[1..] == Insert(e[1..], k, v);
    }
  }

  /**
    Stepping back one entry from `upper_bound(a)` yields the greatest key
    at most `a`; when `upper_bound(a)` is the first position, no key is at
    most `a`.
  */
  lemma FloorOfUpperBound<V>(e: seq<Entry<V>>, a: int)
    requires StrictlySorted(e)
    ensures UpperBound(e, a) == 0 ==> AllAbove(ToMap(e), a)
    ensures UpperBound(e, a) > 0 ==>
      var it := UpperBound(e, a) - 1;
      IsFloor(ToMap(e), a, e[it].key) && ToMap(e)[e[it].key] == e[it].value
  {
    var ub := UpperBound(e, a);
    forall k | k in ToMap(e) && k <= a
      ensures ub > 0 && k <= e[ub - 1].key
    {
      KeysOfToMap(e, k);
      var j :| 0 <= j < |e| && e[j].key == k;
    }
    if ub > 0 {
      KeysOfToMap(e, e[ub - 1].key);
      ValueOfToMap(e, ub - 1);
    }
  }
}
