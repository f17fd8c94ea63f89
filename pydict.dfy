/**
 * Python's `dict` as the model uses it: a sequence of (key, value) pairs in
 * insertion order. Assigning to a key that is present replaces its value in
 * place; assigning to a new key appends it. `list(d.keys())`,
 * `list(d.values())` and `len(d)` follow that order.
 */
module PyDict {

  type Dict<K(==), V> = seq<(K, V)>

  predicate Distinct<T(==)>(s: seq<T>) {
    forall i, j :: 0 <= i < j < |s| ==> s[i] != s[j]
  }

  lemma DistinctTail<T>(s: seq<T>)
    requires |s| > 0 && Distinct(s)
    ensures Distinct(s[1..])
  {
    forall i, j | 0 <= i < j < |s| - 1 ensures s[1..][i] != s[1..][j] {
      assert s[1..][i] == s[i + 1] && s[1..][j] == s[j + 1];
    }
  }

  lemma DistinctCons<T>(x: T, s: seq<T>)
    requires x !in s && Distinct(s)
    ensures Distinct([x] + s)
  {
    forall i, j | 0 <= i < j < |s| + 1 ensures ([x] + s)[i] != ([x] + s)[j] {
      assert ([x] + s)[j] == s[j - 1];
      if i > 0 {
        assert ([x] + s)[i] == s[i - 1];
      }
    }
  }

  /** `list(d.keys())` */
  function Keys<K(==), V>(d: Dict<K, V>): (ks: seq<K>)
    ensures |ks| == |d|
    ensures forall i :: 0 <= i < |d| ==> ks[i] == d[i].0
  {
    seq(|d|, i requires 0 <= i < |d| => d[i].0)
  }

  /** `list(d.values())` */
  function Values<K(==), V>(d: Dict<K, V>): (vs: seq<V>)
    ensures |vs| == |d|
    ensures forall i :: 0 <= i < |d| ==> vs[i] == d[i].1
  {
    seq(|d|, i requires 0 <= i < |d| => d[i].1)
  }

  /** A dict never holds a key twice. */
  predicate WellFormed<K(==), V>(d: Dict<K, V>) {
    Distinct(Keys(d))
  }

  /** `k in d` */
  predicate HasKey<K(==), V>(d: Dict<K, V>, k: K) {
    k in Keys(d)
  }

  /** The position of `k` among the keys. */
  function IndexOf<K(==), V>(d: Dict<K, V>, k: K): (i: nat)
    requires HasKey(d, k)
    ensures i < |d| && d[i].0 == k
    ensures forall j :: 0 <= j < i ==> d[j].0 != k
  {
    if d[0].0 == k then 0
    else
      assert k in Keys(d[1..]) by {
        var j :| 0 <= j < |d| && Keys(d)[j] == k;
        assert Keys(d[1..])[j - 1] == k;
      }
      1 + IndexOf(d[1..], k)
  }

  /** `d[k]` */
  function Get<K(==), V>(d: Dict<K, V>, k: K): V
    requires HasKey(d, k)
  {
    d[IndexOf(d, k)].1
  }

  /** `d[k]` is a value the dict pairs with `k`; with unique keys it is the
      only one. */
  lemma GetPaired<K, V>(d: Dict<K, V>, k: K)
    requires HasKey(d, k)
    ensures (k, Get(d, k)) in d
    ensures WellFormed(d) ==> forall v :: (k, v) in d ==> v == Get(d, k)
  {
    assert d[IndexOf(d, k)] == (k, Get(d, k));
    if WellFormed(d) {
      forall v | (k, v) in d ensures v == Get(d, k) {
        GetUnique(d, k, v);
      }
    }
  }

  /** Two dicts with the same key sequence place each key at the same index. */
  lemma SameKeysSameIndex<K, V>(d: Dict<K, V>, e: Dict<K, V>, k: K)
    requires Keys(d) == Keys(e) && HasKey(d, k)
    ensures HasKey(e, k) && IndexOf(e, k) == IndexOf(d, k)
  {
    var i, j := IndexOf(d, k), IndexOf(e, k);
    assert Keys(e)[i] == Keys(d)[i];
    assert Keys(d)[j] == Keys(e)[j];
  }

  /** `d[k] = v` */
  function Set<K(==), V>(d: Dict<K, V>, k: K, v: V): (r: Dict<K, V>)
    ensures HasKey(r, k) && Get(r, k) == v
    ensures Keys(r) == if HasKey(d, k) then Keys(d) else Keys(d) + [k]
    ensures forall i :: 0 <= i < |d| && d[i].0 != k ==> Get(r, d[i].0) == Get(d, d[i].0)
    ensures WellFormed(d) ==> WellFormed(r)
  {
    if HasKey(d, k) then
      var r := d[IndexOf(d, k) := (k, v)];
      assert Keys(r) == Keys(d);
      assert IndexOf(r, k) == IndexOf(d, k) by { SameKeysSameIndex(d, r, k); }
      assert forall i :: 0 <= i < |d| && d[i].0 != k ==> Get(r, d[i].0) == Get(d, d[i].0) by {
        forall i | 0 <= i < |d| && d[i].0 != k ensures Get(r, d[i].0) == Get(d, d[i].0) {
          assert Keys(d)[i] == d[i].0;
          SameKeysSameIndex(d, r, d[i].0);
        }
      }
      r
    else
      var r := d + [(k, v)];
      assert Keys(r) == Keys(d) + [k];
      assert forall i :: 0 <= i < |d| && d[i].0 != k ==> Get(r, d[i].0) == Get(d, d[i].0) by {
        forall i | 0 <= i < |d| && d[i].0 != k ensures Get(r, d[i].0) == Get(d, d[i].0) {
          var k' := d[i].0;
          assert Keys(d)[i] == k';
          assert IndexOf(r, k') == IndexOf(d, k') by {
            var i, j := IndexOf(d, k'), IndexOf(r, k');
            assert r[i] == d[i];
            assert r[j] == d[j];
          }
        }
      }
      r
  }

  /** `d[k] = v` leaves the values in place: a new key's value goes last, a
      present key's value is replaced at its own position. */
  lemma SetValues<K, V>(d: Dict<K, V>, k: K, v: V)
    ensures |Values(Set(d, k, v))| == |d| + (if HasKey(d, k) then 0 else 1)
    ensures !HasKey(d, k) ==> Values(Set(d, k, v)) == Values(d) + [v]
    ensures HasKey(d, k) && WellFormed(d) ==>
      forall i :: 0 <= i < |d| ==> Values(Set(d, k, v))[i] == if d[i].0 == k then v else d[i].1
  {
    var r := Set(d, k, v);
    if HasKey(d, k) {
      assert r == d[IndexOf(d, k) := (k, v)];
      if WellFormed(d) {
        forall i | 0 <= i < |d| ensures Values(r)[i] == if d[i].0 == k then v else d[i].1 {
          if d[i].0 == k {
            assert Keys(d)[i] == Keys(d)[IndexOf(d, k)];
          }
        }
      }
    } else {
      assert r == d + [(k, v)];
    }
  }

  /** `dict(zip(ks, vs))` for sequences of equal length; a repeated key keeps
      its first place and its last value, so no key is held twice. */
  function FromZip<K(==), V>(ks: seq<K>, vs: seq<V>): (d: Dict<K, V>)
    requires |ks| == |vs|
    ensures WellFormed(d)
  {
    if |ks| == 0 then []
    else Set(FromZip(ks[..|ks| - 1], vs[..|vs| - 1]), ks[|ks| - 1], vs[|vs| - 1])
  }

  /** With unique keys, `d[k]` is the one value paired with `k`. */
  lemma GetUnique<K, V>(d: Dict<K, V>, k: K, v: V)
    requires WellFormed(d) && (k, v) in d
    ensures HasKey(d, k) && Get(d, k) == v
  {
    var i :| 0 <= i < |d| && d[i] == (k, v);
    assert Keys(d)[i] == k;
    assert Keys(d)[IndexOf(d, k)] == k;
  }

  /** Every zipped key is present and reads back the value zipped with it
      last, so with distinct keys the dict lists the keys and the values in
      the order they were given. */
  lemma {:induction false} FromZipKeysValues<K, V>(ks: seq<K>, vs: seq<V>)
    requires |ks| == |vs| && Distinct(ks)
    ensures WellFormed(FromZip(ks, vs))
    ensures Keys(FromZip(ks, vs)) == ks && Values(FromZip(ks, vs)) == vs
  {
    if |ks| > 0 {
      var n := |ks| - 1;
      FromZipKeysValues(ks[..n], vs[..n]);
      ZipStep(FromZip(ks[..n], vs[..n]), ks, vs);
    }
  }

  /** The inductive step of `FromZipKeysValues`: assigning the last pair to
      the dict built from the others extends its keys and values. */
  lemma ZipStep<K, V>(prefix: Dict<K, V>, ks: seq<K>, vs: seq<V>)
    requires |ks| == |vs| > 0 && Distinct(ks)
    requires WellFormed(prefix)
    requires Keys(prefix) == ks[..|ks| - 1] && Values(prefix) == vs[..|vs| - 1]
    ensures WellFormed(Set(prefix, ks[|ks| - 1], vs[|vs| - 1]))
    ensures Keys(Set(prefix, ks[|ks| - 1], vs[|vs| - 1])) == ks
    ensures Values(Set(prefix, ks[|ks| - 1], vs[|vs| - 1])) == vs
  {
    var n := |ks| - 1;
    assert !HasKey(prefix, ks[n]) by { assert ks[n] !in ks[..n]; }
    SetValues(prefix, ks[n], vs[n]);
    assert ks[..n] + [ks[n]] == ks;
    assert vs[..n] + [vs[n]] == vs;
  }

  /** With distinct keys, `dict(zip(ks, vs))[ks[i]] == vs[i]`. */
  lemma FromZipGet<K, V>(ks: seq<K>, vs: seq<V>, i: nat)
    requires |ks| == |vs| && Distinct(ks) && i < |ks|
    ensures HasKey(FromZip(ks, vs), ks[i]) && Get(FromZip(ks, vs), ks[i]) == vs[i]
  {
    FromZipKeysValues(ks, vs);
    var d := FromZip(ks, vs);
    assert Keys(d)[i] == ks[i];
    assert IndexOf(d, ks[i]) == i;
  }
}
