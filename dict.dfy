/** Ordered dictionaries: a sequence of key/value pairs read front to back.
    This is how the layer sees both a Web Storage area (whose `key(i)` walks
    the entries by index) and the plain JavaScript objects it builds as
    results (`result[key] = value` updates an existing key where it stands and
    appends a new one; `delete result[key]` drops it). */
module Dict {

  import opened Wrappers

  /** The value stored under k, looking from the front. */
  function Get<K(==), V>(d: seq<(K, V)>, k: K): (r: Option<V>)
    ensures r.Some? <==> exists i :: 0 <= i < |d| && d[i].0 == k
    ensures r.Some? ==> exists i :: 0 <= i < |d| && d[i] == (k, r.value)
  {
    if d == [] then None
    else if d[0].0 == k then Some(d[0].1)
    else
      var r := Get(d[1..], k);
      assert forall i :: 1 <= i < |d| ==> d[1..][i - 1] == d[i];
      r
  }

  /** No key occurs twice. */
  predicate Distinct<K(==), V>(d: seq<(K, V)>) {
    forall i, j :: 0 <= i < j < |d| ==> d[i].0 != d[j].0
  }

  function Keys<K, V>(d: seq<(K, V)>): (ks: seq<K>)
    ensures |ks| == |d|
    ensures forall i :: 0 <= i < |d| ==> ks[i] == d[i].0
  {
    if d == [] then [] else [d[0].0] + Keys(d[1..])
  }

  function Values<K, V>(d: seq<(K, V)>): (vs: seq<V>)
    ensures |vs| == |d|
    ensures forall i :: 0 <= i < |d| ==> vs[i] == d[i].1
  {
    if d == [] then [] else [d[0].1] + Values(d[1..])
  }

  /** `d[k] = v`: an existing key keeps its place and takes the new value; a
      new key goes to the end. */
  function Put<K(==), V>(d: seq<(K, V)>, k: K, v: V): (r: seq<(K, V)>)
  {
    if d == [] then [(k, v)]
    else if d[0].0 == k then [(k, v)] + d[1..]
    else [d[0]] + Put(d[1..], k, v)
  }

  /** `delete d[k]`: every pair with key k goes, the others keep their order. */
  function Delete<K(==), V>(d: seq<(K, V)>, k: K): (r: seq<(K, V)>)
    ensures |r| <= |d|
  {
    if d == [] then []
    else if d[0].0 == k then Delete(d[1..], k)
    else [d[0]] + Delete(d[1..], k)
  }

  /** The pairs whose key is not in ks, in their order. */
  function Without<K(==), V>(d: seq<(K, V)>, ks: set<K>): (r: seq<(K, V)>)
  {
    if d == [] then []
    else if d[0].0 in ks then Without(d[1..], ks)
    else [d[0]] + Without(d[1..], ks)
  }

  // ---------------------------------------------------------------- lemmas

  lemma {:induction false} GetPut<K, V>(d: seq<(K, V)>, k: K, v: V, k': K)
    ensures Get(Put(d, k, v), k') == if k' == k then Some(v) else Get(d, k')
  {
    if d != [] && d[0].0 != k {
      GetPut(d[1..], k, v, k');
    }
  }

  lemma {:induction false} GetDelete<K, V>(d: seq<(K, V)>, k: K, k': K)
    ensures Get(Delete(d, k), k') == if k' == k then None else Get(d, k')
  {
    if d != [] {
      GetDelete(d[1..], k, k');
    }
  }

  lemma {:induction false} GetWithout<K, V>(d: seq<(K, V)>, ks: set<K>, k: K)
    ensures Get(Without(d, ks), k) == if k in ks then None else Get(d, k)
  {
    if d != [] {
      GetWithout(d[1..], ks, k);
    }
  }

  /** In a dictionary without repeated keys, the pair at index i is what
      Get finds for its key. */
  lemma {:induction false} GetAt<K, V>(d: seq<(K, V)>, i: nat)
    requires Distinct(d) && i < |d|
    ensures Get(d, d[i].0) == Some(d[i].1)
  {
    if i > 0 {
      assert Distinct(d[1..]) by {
        forall a, b | 0 <= a < b < |d[1..]| ensures d[1..][a].0 != d[1..][b].0 {
          assert d[1..][a] == d[a + 1] && d[1..][b] == d[b + 1];
        }
      }
      GetAt(d[1..], i - 1);
      assert d[1..][i - 1] == d[i];
    }
  }

  lemma {:induction false} KeysPut<K, V>(d: seq<(K, V)>, k: K, v: V)
    ensures Keys(Put(d, k, v)) == if k in Keys(d) then Keys(d) else Keys(d) + [k]
  {
    if d != [] {
      KeysPut(d[1..], k, v);
      assert Keys(d) == [d[0].0] + Keys(d[1..]);
    }
  }

  lemma {:induction false} KeysDelete<K, V>(d: seq<(K, V)>, k: K)
    ensures k !in Keys(Delete(d, k))
    ensures forall x :: x in Keys(Delete(d, k)) <==> x in Keys(d) && x != k
  {
    if d != [] {
      KeysDelete(d[1..], k);
      assert Keys(d) == [d[0].0] + Keys(d[1..]);
    }
  }

  lemma {:induction false} PutDistinct<K, V>(d: seq<(K, V)>, k: K, v: V)
    requires Distinct(d)
    ensures Distinct(Put(d, k, v))
  {
    KeysPut(d, k, v);
    var r := Put(d, k, v);
    forall i, j | 0 <= i < j < |r| ensures r[i].0 != r[j].0 {
      assert Keys(r)[i] == r[i].0 && Keys(r)[j] == r[j].0;
      assert Keys(d)[i] == d[i].0;
      if j < |d| {
        assert Keys(d)[j] == d[j].0;
      } else {
        assert r[j].0 == k && k !in Keys(d);
      }
    }
  }

  lemma {:induction false} DeleteDistinct<K, V>(d: seq<(K, V)>, k: K)
    requires Distinct(d)
    ensures Distinct(Delete(d, k))
  {
    if d != [] {
      assert Distinct(d[1..]) by {
        forall a, b | 0 <= a < b < |d[1..]| ensures d[1..][a].0 != d[1..][b].0 {
          assert d[1..][a] == d[a + 1] && d[1..][b] == d[b + 1];
        }
      }
      DeleteDistinct(d[1..], k);
      if d[0].0 != k {
        var r := Delete(d, k);
        KeysDelete(d[1..], k);
        forall j | 1 <= j < |r| ensures r[0].0 != r[j].0 {
          var t := Delete(d[1..], k);
          assert r[j] == t[j - 1] && Keys(t)[j - 1] == t[j - 1].0;
          assert t[j - 1].0 in Keys(d[1..]);
          var m :| 0 <= m < |d[1..]| && Keys(d[1..])[m] == t[j - 1].0;
          assert d[1..][m] == d[m + 1];
        }
      }
    }
  }

  /** Deleting a key that is not there changes nothing. */
  lemma {:induction false} DeleteAbsent<K, V>(d: seq<(K, V)>, k: K)
    requires Get(d, k) == None
    ensures Delete(d, k) == d
  {
    if d != [] {
      DeleteAbsent(d[1..], k);
    }
  }

  /** Putting a key that is not there appends it. */
  lemma {:induction false} PutAbsent<K, V>(d: seq<(K, V)>, k: K, v: V)
    requires Get(d, k) == None
    ensures Put(d, k, v) == d + [(k, v)]
  {
    if d != [] {
      PutAbsent(d[1..], k, v);
      assert [d[0]] + (d[1..] + [(k, v)]) == d + [(k, v)];
    }
  }

  /** Looking up in d + [p]: d first, then the appended pair. */
  lemma {:induction false} GetAppend<K, V>(d: seq<(K, V)>, p: (K, V), k: K)
    ensures Get(d + [p], k) == if Get(d, k).Some? then Get(d, k) else if p.0 == k then Some(p.1) else None
  {
    if d != [] {
      assert (d + [p])[1..] == d[1..] + [p];
      GetAppend(d[1..], p, k);
    }
  }

  /** In a dictionary without repeated keys, the key at index i does not occur
      before i. */
  lemma {:induction false} GetBefore<K, V>(d: seq<(K, V)>, i: nat)
    requires Distinct(d) && i < |d|
    ensures Get(d[..i], d[i].0) == None
  {
    forall j | 0 <= j < i ensures d[..i][j].0 != d[i].0 {
      assert d[..i][j] == d[j];
    }
  }

  /** Deleting a key twice is deleting it once. */
  lemma {:induction false} DeleteTwice<K, V>(d: seq<(K, V)>, k: K)
    ensures Delete(Delete(d, k), k) == Delete(d, k)
  {
    if d != [] {
      DeleteTwice(d[1..], k);
    }
  }

  /** Deleting keys one by one from a dictionary is filtering them out. */
  lemma {:induction false} DeleteWithout<K, V>(d: seq<(K, V)>, ks: set<K>, k: K)
    ensures Delete(Without(d, ks), k) == Without(d, ks + {k})
  {
    if d != [] {
      DeleteWithout(d[1..], ks, k);
    }
  }

  /** Cutting the prefix of length i + 1 back to length i. */
  lemma {:induction false} PrefixStep<T>(s: seq<T>, i: nat)
    requires i < |s|
    ensures s[..i + 1][..i] == s[..i]
  {
  }

  /** The prefix as long as the sequence is the sequence. */
  lemma {:induction false} WholePrefix<T>(s: seq<T>)
    ensures s[..|s|] == s
  {
  }
}
