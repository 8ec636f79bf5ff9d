/** The JavaScript Map: entries in insertion order, one per key. */
module OrderedMap {
  import opened Bytes

  type Key = Octets

  type OMap<V> = seq<(Key, V)>

  function Keys<V(!new)>(m: OMap<V>): (r: seq<Key>)
    ensures |r| == |m|
    ensures forall i :: 0 <= i < |m| ==> r[i] == m[i].0
  {
    seq(|m|, i requires 0 <= i < |m| => m[i].0)
  }

  predicate Distinct(ks: seq<Key>)
  {
    forall i, j :: 0 <= i < j < |ks| ==> ks[i] != ks[j]
  }

  /** get */
  function Find<V(!new)>(m: OMap<V>, k: Key): Option<V>
  {
    if m == [] then None else if m[0].0 == k then Some(m[0].1) else Find(m[1..], k)
  }

  /** delete */
  function Delete<V(!new)>(m: OMap<V>, k: Key): (r: OMap<V>)
    ensures |r| <= |m|
    ensures forall e :: e in r <==> e in m && e.0 != k
  {
    if m == [] then [] else if m[0].0 == k then Delete(m[1..], k) else [m[0]] + Delete(m[1..], k)
  }

  /** set: an existing key keeps its place, a new one goes last */
  function Put<V(!new)>(m: OMap<V>, k: Key, v: V): (r: OMap<V>)
  {
    if m == [] then [(k, v)]
    else if m[0].0 == k then [(k, v)] + m[1..]
    else [m[0]] + Put(m[1..], k, v)
  }

  function Without(ks: seq<Key>, k: Key): (r: seq<Key>)
    ensures |r| <= |ks|
    ensures forall x :: x in r <==> x in ks && x != k
  {
    if ks == [] then [] else if ks[0] == k then Without(ks[1..], k) else [ks[0]] + Without(ks[1..], k)
  }

  lemma {:induction false} FindMeansEntry<V(!new)>(m: OMap<V>, k: Key)
    ensures Find(m, k).Some? <==> k in Keys(m)
    ensures Find(m, k).Some? ==> (k, Find(m, k).value) in m
  {
    if m != [] {
      assert Keys(m)[1..] == Keys(m[1..]);
      FindMeansEntry(m[1..], k);
      if m[0].0 == k {
        assert Keys(m)[0] == k && m[0] in m && m[0] == (k, m[0].1);
      } else if k in Keys(m) {
        assert exists i :: 0 < i < |m| && Keys(m)[i] == k;
        assert k in Keys(m)[1..];
      }
    }
  }

  lemma {:induction false} DeleteKeys<V(!new)>(m: OMap<V>, k: Key)
    ensures Keys(Delete(m, k)) == Without(Keys(m), k)
  {
    if m != [] {
      assert Keys(m)[1..] == Keys(m[1..]);
      DeleteKeys(m[1..], k);
      if m[0].0 != k {
        assert Keys([m[0]] + Delete(m[1..], k)) == [m[0].0] + Keys(Delete(m[1..], k));
      }
    }
  }

  lemma {:induction false} WithoutAbsent(ks: seq<Key>, k: Key)
    requires k !in ks
    ensures Without(ks, k) == ks
  {
    if ks != [] { WithoutAbsent(ks[1..], k); }
  }

  lemma {:induction false} WithoutDistinct(ks: seq<Key>, k: Key)
    requires Distinct(ks)
    ensures Distinct(Without(ks, k))
    ensures k in ks ==> |Without(ks, k)| == |ks| - 1
  {
    if ks != [] {
      WithoutDistinct(ks[1..], k);
      if ks[0] == k {
        WithoutAbsent(ks[1..], k);
      } else {
        var r, rest := Without(ks, k), Without(ks[1..], k);
        forall j | 0 < j < |r| ensures r[j] in ks[1..] { assert r[j] == rest[j - 1] && rest[j - 1] in rest; }
        assert ks[0] !in ks[1..];
      }
    }
  }

  lemma {:induction false} WithoutAppend(a: seq<Key>, b: seq<Key>, k: Key)
    ensures Without(a + b, k) == Without(a, k) + Without(b, k)
  {
    if a == [] {
      assert a + b == b;
    } else {
      assert (a + b)[1..] == a[1..] + b;
      WithoutAppend(a[1..], b, k);
    }
  }

  lemma {:induction false} PutKeys<V(!new)>(m: OMap<V>, k: Key, v: V)
    ensures Keys(Put(m, k, v)) == if k in Keys(m) then Keys(m) else Keys(m) + [k]
  {
    if m != [] {
      assert Keys(m)[1..] == Keys(m[1..]);
      assert k in Keys(m) <==> m[0].0 == k || k in Keys(m[1..]);
      if m[0].0 != k {
        PutKeys(m[1..], k, v);
        assert Keys(Put(m, k, v)) == [m[0].0] + Keys(Put(m[1..], k, v));
      } else {
        assert Keys(Put(m, k, v)) == Keys(m);
      }
    }
  }

  lemma {:induction false} FindAfterPut<V(!new)>(m: OMap<V>, k: Key, v: V, x: Key)
    ensures Find(Put(m, k, v), x) == if x == k then Some(v) else Find(m, x)
  {
    if m != [] {
      FindAfterPut(m[1..], k, v, x);
    }
  }

  lemma {:induction false} FindAfterDelete<V(!new)>(m: OMap<V>, k: Key, x: Key)
    ensures Find(Delete(m, k), x) == if x == k then None else Find(m, x)
  {
    if m != [] {
      FindAfterDelete(m[1..], k, x);
    }
  }
}
