/** PHP arrays with non-integer keys: an association list that remembers the order in
    which keys were first inserted. Writing to a key that is present keeps its position. */
module OrderedMap {
  import opened Results

  /** The keys in iteration order (`array_keys`). */
  function Keys<K, V>(m: seq<(K, V)>): (r: seq<K>)
    ensures |r| == |m|
    ensures forall i :: 0 <= i < |m| ==> r[i] == m[i].0
  {
    if |m| == 0 then [] else [m[0].0] + Keys(m[1..])
  }

  /** No key occurs twice, as in every PHP array. */
  predicate Valid<K(==), V>(m: seq<(K, V)>)
  {
    Distinct(Keys(m))
  }

  predicate Distinct<K(==)>(ks: seq<K>)
  {
    forall i, j :: 0 <= i < j < |ks| ==> ks[i] != ks[j]
  }

  /** `$m[$k]`, or `None` when the key is absent. */
  function Get<K(==), V>(m: seq<(K, V)>, k: K): (r: Option<V>)
    ensures r.None? ==> forall i :: 0 <= i < |m| ==> m[i].0 != k
    ensures r.Some? ==> (k, r.value) in m
  {
    if |m| == 0 then None
    else if m[0].0 == k then Some(m[0].1)
    else Get(m[1..], k)
  }

  /** `$m[$k] = $v`: replaces the value in place when the key is present, appends otherwise. */
  function Put<K(==,!new), V>(m: seq<(K, V)>, k: K, v: V): (r: seq<(K, V)>)
    ensures Get(r, k) == Some(v)
    ensures forall k' :: k' != k ==> Get(r, k') == Get(m, k')
    ensures k in Keys(m) ==> Keys(r) == Keys(m)
    ensures k !in Keys(m) ==> Keys(r) == Keys(m) + [k]
  {
    if |m| == 0 then [(k, v)]
    else if m[0].0 == k then
      var r := [(k, v)] + m[1..];
      assert r[1..] == m[1..];
      assert Keys(r) == [k] + Keys(m[1..]) == Keys(m);
      r
    else
      var rest := Put(m[1..], k, v);
      PutConsGet(m, k, v, rest);
      PutConsKeys(m, k, rest);
      [m[0]] + rest
  }

  /** The step of `Put` past a first entry with another key: lookups in the written rest
      carry over to the whole array. */
  lemma PutConsGet<K(!new), V>(m: seq<(K, V)>, k: K, v: V, rest: seq<(K, V)>)
    requires |m| > 0 && m[0].0 != k
    requires Get(rest, k) == Some(v)
    requires forall k' :: k' != k ==> Get(rest, k') == Get(m[1..], k')
    ensures Get([m[0]] + rest, k) == Some(v)
    ensures forall k' :: k' != k ==> Get([m[0]] + rest, k') == Get(m, k')
  {
    var r := [m[0]] + rest;
    assert r[1..] == rest;
    forall k' | k' != k
      ensures Get(r, k') == Get(m, k')
    {
      if k' != m[0].0 {
        assert Get(r, k') == Get(rest, k');
      }
    }
  }

  /** The same step for the key order: the first key stays in front of the rest's keys. */
  lemma PutConsKeys<K, V>(m: seq<(K, V)>, k: K, rest: seq<(K, V)>)
    requires |m| > 0 && m[0].0 != k
    requires k in Keys(m[1..]) ==> Keys(rest) == Keys(m[1..])
    requires k !in Keys(m[1..]) ==> Keys(rest) == Keys(m[1..]) + [k]
    ensures k in Keys(m) ==> Keys([m[0]] + rest) == Keys(m)
    ensures k !in Keys(m) ==> Keys([m[0]] + rest) == Keys(m) + [k]
  {
    var r := [m[0]] + rest;
    assert r[1..] == rest;
    assert Keys(m) == [m[0].0] + Keys(m[1..]);
    assert Keys(r) == [m[0].0] + Keys(rest);
    assert k in Keys(m) <==> k in Keys(m[1..]);
  }

  /** A write keeps every key unique. */
  lemma PutValid<K(!new), V>(m: seq<(K, V)>, k: K, v: V)
    requires Valid(m)
    ensures Valid(Put(m, k, v))
  {
    var ks := Keys(m);
    if k !in ks {
      forall i | 0 <= i < |ks|
        ensures ks[i] != k
      {
      }
    }
  }

  /** Every entry after a write is the new one or one that was there before. */
  lemma {:induction false} PutEntries<K(!new), V>(m: seq<(K, V)>, k: K, v: V)
    ensures forall i :: 0 <= i < |Put(m, k, v)| ==> Put(m, k, v)[i] == (k, v) || Put(m, k, v)[i] in m
    decreases |m|
  {
    if |m| > 0 && m[0].0 != k {
      PutEntries(m[1..], k, v);
      var rest := Put(m[1..], k, v);
      assert Put(m, k, v) == [m[0]] + rest;
      forall i | 1 <= i < |rest| + 1
        ensures Put(m, k, v)[i] == (k, v) || Put(m, k, v)[i] in m
      {
        assert Put(m, k, v)[i] == rest[i - 1];
        assert rest[i - 1] in m[1..] ==> rest[i - 1] in m;
      }
    }
  }

  /** The value at the first position holding a key is what a lookup of that key returns. */
  lemma {:induction false} GetFirst<K, V>(m: seq<(K, V)>, i: nat)
    requires i < |m|
    requires forall j :: 0 <= j < i ==> m[j].0 != m[i].0
    ensures Get(m, m[i].0) == Some(m[i].1)
    decreases i
  {
    if i > 0 {
      GetFirst(m[1..], i - 1);
    }
  }

  /** A second write to the same key leaves no trace of the first. */
  lemma {:induction false} PutPut<K(!new), V>(m: seq<(K, V)>, k: K, v1: V, v2: V)
    ensures Put(Put(m, k, v1), k, v2) == Put(m, k, v2)
    decreases |m|
  {
    if |m| > 0 && m[0].0 != k {
      PutPut(m[1..], k, v1, v2);
      var p := Put(m, k, v1);
      assert p == [m[0]] + Put(m[1..], k, v1);
      assert p[1..] == Put(m[1..], k, v1);
    }
  }
}
