/** An insertion-ordered dictionary, as Python's `dict` behaves, kept as an
    association list. */
module OrderedMap {
  import opened Wrappers
  import opened Seqs

  /** The keys of an association list, in list order. */
  function Keys<K, V>(m: seq<(K, V)>): (ks: seq<K>)
    ensures |ks| == |m| && forall i :: 0 <= i < |m| ==> ks[i] == m[i].0
  {
    seq(|m|, i requires 0 <= i < |m| => m[i].0)
  }

  /** `d.get(k)`: the value of the (first) entry for `k`. */
  function Get<K(==,!new), V>(m: seq<(K, V)>, k: K): (r: Option<V>)
    ensures r.None? <==> k !in Keys(m)
    ensures r.Some? ==> exists i :: 0 <= i < |m| && m[i] == (k, r.value)
  {
    if |m| == 0 then None
    else if m[0].0 == k then Some(m[0].1)
    else
      assert Keys(m) == [m[0].0] + Keys(m[1..]);
      var r := Get(m[1..], k);
      assert r.Some? ==> exists i :: 0 <= i < |m[1..]| && m[1..][i] == (k, r.value);
      r
  }

  /** `d[k] = v`: a present key keeps its position and takes the new
      value, a new key goes at the end (`PutKeys`, `PutGet`, `PutFresh`). */
  function Put<K(==), V>(m: seq<(K, V)>, k: K, v: V): seq<(K, V)>
  {
    if |m| == 0 then [(k, v)]
    else if m[0].0 == k then [(k, v)] + m[1..]
    else [m[0]] + Put(m[1..], k, v)
  }

  /** `d[k] = v` adds `k` at the end when it is new and leaves the key
      order alone otherwise. */
  lemma {:induction false} PutKeys<K, V>(m: seq<(K, V)>, k: K, v: V)
    ensures Keys(Put(m, k, v)) == if k in Keys(m) then Keys(m) else Keys(m) + [k]
  {
    if |m| > 0 {
      KeysCons(m[0], m[1..]);
      assert m == [m[0]] + m[1..];
      if m[0].0 == k {
        KeysCons((k, v), m[1..]);
      } else {
        PutKeys(m[1..], k, v);
        KeysCons(m[0], Put(m[1..], k, v));
        assert k in Keys(m) <==> k in Keys(m[1..]);
      }
    }
  }

  lemma KeysCons<K, V>(x: (K, V), m: seq<(K, V)>)
    ensures Keys([x] + m) == [x.0] + Keys(m)
  {
  }

  /** After `d[k] = v`, `d[k]` is `v` and every other key reads as before. */
  lemma {:induction false} PutGet<K(!new), V>(m: seq<(K, V)>, k: K, v: V, k': K)
    ensures Get(Put(m, k, v), k') == if k' == k then Some(v) else Get(m, k')
  {
    if |m| > 0 && m[0].0 != k {
      PutGet(m[1..], k, v, k');
      var r := Put(m, k, v);
      assert r[1..] == Put(m[1..], k, v);
    }
  }

  /** A new key is appended after every existing entry. */
  lemma {:induction false} PutFresh<K, V>(m: seq<(K, V)>, k: K, v: V)
    requires k !in Keys(m)
    ensures Put(m, k, v) == m + [(k, v)]
  {
    if |m| > 0 {
      var t := m[1..];
      assert m[0].0 != k by {
        assert Keys(m)[0] == m[0].0;
      }
      assert k !in Keys(t) by {
        forall i | 0 <= i < |t| ensures Keys(t)[i] != k {
          assert Keys(t)[i] == Keys(m)[i + 1];
        }
      }
      PutFresh(t, k, v);
      PutStep(m, k, v);
      assert m + [(k, v)] == [m[0]] + (t + [(k, v)]);
    }
  }

  lemma PutStep<K, V>(m: seq<(K, V)>, k: K, v: V)
    requires |m| > 0 && m[0].0 != k
    ensures Put(m, k, v) == [m[0]] + Put(m[1..], k, v)
  {
  }

  /** `dict(pairs)`: one entry per distinct key. */
  function FromPairs<K(==,!new), V>(ps: seq<(K, V)>): (m: seq<(K, V)>)
    ensures Distinct(Keys(m))
  {
    if |ps| == 0 then []
    else
      var last := ps[|ps| - 1];
      var m := FromPairs(ps[..|ps| - 1]);
      PutKeys(m, last.0, last.1);
      Put(m, last.0, last.1)
  }

  /** Reference reading of `dict(pairs)[k]`: the value of the last pair
      whose key is `k`. */
  function LastValue<K(==,!new), V>(ps: seq<(K, V)>, k: K): Option<V>
  {
    if |ps| == 0 then None
    else if ps[|ps| - 1].0 == k then Some(ps[|ps| - 1].1)
    else LastValue(ps[..|ps| - 1], k)
  }

  /** The keys of `dict(pairs)` are the pair keys in first-occurrence order. */
  lemma {:induction false} FromPairsKeys<K(!new), V>(ps: seq<(K, V)>)
    ensures Keys(FromPairs(ps)) == Dedup(Keys(ps))
  {
    if |ps| > 0 {
      var p, last := ps[..|ps| - 1], ps[|ps| - 1];
      var ks := Keys(ps);
      assert ks[..|ks| - 1] == Keys(p);
      assert ks[|ks| - 1] == last.0;
      DedupLast(ks);
      FromPairsKeys(p);
      PutKeys(FromPairs(p), last.0, last.1);
    }
  }

  /** A later pair with the same key overwrites the value of an earlier one. */
  lemma {:induction false} FromPairsGet<K(!new), V>(ps: seq<(K, V)>, k: K)
    ensures Get(FromPairs(ps), k) == LastValue(ps, k)
  {
    if |ps| > 0 {
      var p := ps[..|ps| - 1];
      FromPairsGet(p, k);
      PutGet(FromPairs(p), ps[|ps| - 1].0, ps[|ps| - 1].1, k);
    }
  }

  /** Pairs with distinct keys all survive, in their own order. */
  lemma {:induction false} FromPairsDistinct<K(!new), V>(ps: seq<(K, V)>)
    requires Distinct(Keys(ps))
    ensures FromPairs(ps) == ps
  {
    if |ps| > 0 {
      var p := ps[..|ps| - 1];
      var last := ps[|ps| - 1];
      assert Distinct(Keys(p)) by {
        forall i, j | 0 <= i < j < |p| ensures Keys(p)[i] != Keys(p)[j] {
          assert Keys(ps)[i] != Keys(ps)[j];
        }
      }
      FromPairsDistinct(p);
      assert last.0 !in Keys(p) by {
        forall i | 0 <= i < |p| ensures Keys(p)[i] != last.0 {
          assert Keys(ps)[i] != Keys(ps)[|ps| - 1];
        }
      }
      PutFresh(p, last.0, last.1);
      assert ps == p + [last];
    }
  }

  /** `dict(pairs)` has as many entries as there are distinct keys. */
  lemma FromPairsSize<K(!new), V>(ps: seq<(K, V)>)
    ensures |FromPairs(ps)| == |Elems(Keys(ps))|
  {
    FromPairsKeys(ps);
    DedupSize(Keys(ps));
  }
}
