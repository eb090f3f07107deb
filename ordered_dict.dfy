/** A Python dictionary: key/value entries kept in insertion order, with
    distinct keys, where assigning to a key that is already present replaces
    its value in place and assigning to a new key appends an entry. */
module OrderedDict {
  import opened Wrappers

  type Dict<K, V> = seq<(K, V)>

  function Keys<K, V>(d: Dict<K, V>): seq<K>
  {
    seq(|d|, i requires 0 <= i < |d| => d[i].0)
  }

  predicate Distinct<T(==)>(s: seq<T>)
  {
    forall i, j :: 0 <= i < j < |s| ==> s[i] != s[j]
  }

  /** The invariant every Python dictionary keeps: no key occurs twice. */
  predicate Valid<K(==), V>(d: Dict<K, V>)
  {
    Distinct(Keys(d))
  }

  /** `d[k]`, or None when `k` is not a key (first entry wins). */
  function Lookup<K(==), V>(d: Dict<K, V>, k: K): (r: Option<V>)
    ensures r.Some? <==> k in Keys(d)
  {
    if d == [] then None
    else if d[0].0 == k then assert Keys(d)[0] == k; Some(d[0].1)
    else
      KeysCons(d);
      Lookup(d[1..], k)
  }

  /** `d[k] = v`. */
  function Put<K(==, !new), V>(d: Dict<K, V>, k: K, v: V): (r: Dict<K, V>)
    ensures Lookup(r, k) == Some(v)
    ensures forall x :: x != k ==> Lookup(r, x) == Lookup(d, x)
    ensures k !in Keys(d) ==> r == d + [(k, v)]
    ensures k in Keys(d) ==> Keys(r) == Keys(d)
    ensures Valid(d) ==> Valid(r)
  {
    if d == [] then [(k, v)]
    else if d[0].0 == k then
      var r := [(k, v)] + d[1..];
      assert Keys(r) == Keys(d);
      r
    else
      var rest := Put(d[1..], k, v);
      var r := [d[0]] + rest;
      KeysCons(d);
      KeysCons(r);
      assert r[1..] == rest;
      DistinctCons(d[0].0, Keys(d[1..]));
      DistinctCons(d[0].0, Keys(rest));
      assert k in Keys(d[1..]) ==> Keys(rest) == Keys(d[1..]);
      assert k !in Keys(d[1..]) ==> Keys(rest) == Keys(d[1..]) + [k];
      assert d[0].0 !in Keys(d[1..]) ==> d[0].0 !in Keys(rest);
      r
  }

  lemma KeysCons<K, V>(d: Dict<K, V>)
    requires d != []
    ensures Keys(d) == [d[0].0] + Keys(d[1..])
  {
  }

  lemma DistinctCons<T>(x: T, s: seq<T>)
    ensures Distinct([x] + s) <==> x !in s && Distinct(s)
  {
    var t := [x] + s;
    if x !in s && Distinct(s) {
      forall i, j | 0 <= i < j < |t| ensures t[i] != t[j] {
        if i > 0 { assert t[i] == s[i - 1] && t[j] == s[j - 1]; }
      }
    }
    if Distinct(t) {
      forall i, j | 0 <= i < j < |s| ensures s[i] != s[j] {
        assert s[i] == t[i + 1] && s[j] == t[j + 1];
      }
    }
    if x in s {
      var j :| 0 <= j < |s| && s[j] == x;
      assert t[0] == t[j + 1];
    }
  }

  lemma KeysAppend<K, V>(a: Dict<K, V>, b: Dict<K, V>)
    ensures Keys(a + b) == Keys(a) + Keys(b)
  {
  }

  /** Lookup in a concatenation finds the first dictionary's entry first. */
  lemma {:induction false} LookupAppend<K, V>(a: Dict<K, V>, b: Dict<K, V>, k: K)
    ensures Lookup(a + b, k) == if Lookup(a, k).Some? then Lookup(a, k) else Lookup(b, k)
  {
    if a == [] {
      assert a + b == b;
    } else {
      assert (a + b)[0] == a[0];
      assert (a + b)[1..] == a[1..] + b;
      LookupAppend(a[1..], b, k);
    }
  }

  /** Both halves of a dictionary are dictionaries, with disjoint keys. */
  lemma ValidSplit<K, V>(a: Dict<K, V>, b: Dict<K, V>)
    requires Valid(a + b)
    ensures Valid(a) && Valid(b)
    ensures forall k :: k in Keys(a) ==> k !in Keys(b)
  {
    KeysAppend(a, b);
    var ka, kb := Keys(a), Keys(b);
    assert forall i :: 0 <= i < |ka| ==> (ka + kb)[i] == ka[i];
    assert forall j :: 0 <= j < |kb| ==> (ka + kb)[|ka| + j] == kb[j];
  }
}
