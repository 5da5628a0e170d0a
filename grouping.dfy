/** Grouping a sequence of (key, value) pairs the way the core does with a
    `Map` or an object of arrays: a key's list is created when the key is
    first seen, and each value is pushed onto its key's list. The keys come
    out in order of first appearance and each list keeps input order. */
module Grouping {
  import opened Common

  /** The keys in order of first appearance. */
  function Keys<K(==), V>(pairs: seq<(K, V)>): seq<K> {
    if pairs == [] then []
    else
      var init := Keys(pairs[..|pairs| - 1]);
      var k := pairs[|pairs| - 1].0;
      if k in init then init else init + [k]
  }

  /** The values pushed onto the list of key `k`, in input order. */
  function Bucket<K(==), V>(pairs: seq<(K, V)>, k: K): seq<V> {
    if pairs == [] then []
    else
      var p := pairs[|pairs| - 1];
      Bucket(pairs[..|pairs| - 1], k) + (if p.0 == k then [p.1] else [])
  }

  /** The total size of the lists of the given keys. */
  function BucketTotal<K(==), V>(pairs: seq<(K, V)>, keys: seq<K>): nat {
    if keys == [] then 0
    else BucketTotal(pairs, keys[..|keys| - 1]) + |Bucket(pairs, keys[|keys| - 1])|
  }

  /** Each key occurs once, the keys are exactly the keys of the pairs, and
      a key's list is empty exactly when the key does not occur. */
  lemma KeysSpec<K, V>(pairs: seq<(K, V)>)
    ensures Distinct(Keys(pairs))
    ensures forall i | 0 <= i < |pairs| :: pairs[i].0 in Keys(pairs)
    ensures forall k | k in Keys(pairs) :: exists i | 0 <= i < |pairs| :: pairs[i].0 == k
    ensures forall k :: Bucket(pairs, k) == [] <==> k !in Keys(pairs)
  {
    KeysNoRepeats(pairs);
    NoRepeatsDistinct(Keys(pairs));
    KeysCover(pairs);
    KeysWitness(pairs);
    forall k ensures Bucket(pairs, k) == [] <==> k !in Keys(pairs) {
      BucketEmptyIff(pairs, k);
    }
  }

  lemma {:induction false} NoRepeatsDistinct<K>(keys: seq<K>)
    requires NoRepeats(keys)
    ensures Distinct(keys)
  {
    if keys != [] {
      var m := |keys| - 1;
      var front := keys[..m];
      NoRepeatsDistinct(front);
      forall i, j | 0 <= i < j < |keys| ensures keys[i] != keys[j] {
        assert keys[i] == front[i];
        if j < m {
          assert keys[j] == front[j];
        }
      }
    }
  }

  lemma {:induction false} KeysCover<K, V>(pairs: seq<(K, V)>)
    ensures forall i | 0 <= i < |pairs| :: pairs[i].0 in Keys(pairs)
  {
    if pairs != [] {
      var n := |pairs| - 1;
      var init := pairs[..n];
      assert init + [pairs[n]] == pairs;
      KeysCover(init);
      KeysSnoc(init, pairs[n]);
      forall i | 0 <= i < n ensures pairs[i].0 in Keys(pairs) {
        assert pairs[i] == init[i];
      }
    }
  }

  lemma {:induction false} KeysWitness<K, V>(pairs: seq<(K, V)>)
    ensures forall k | k in Keys(pairs) :: exists i | 0 <= i < |pairs| :: pairs[i].0 == k
  {
    if pairs != [] {
      var n := |pairs| - 1;
      var init := pairs[..n];
      assert init + [pairs[n]] == pairs;
      KeysWitness(init);
      KeysSnoc(init, pairs[n]);
      forall k | k in Keys(pairs) ensures exists i | 0 <= i < |pairs| :: pairs[i].0 == k {
        if k in Keys(init) {
          var i :| 0 <= i < n && init[i].0 == k;
          assert pairs[i] == init[i];
        } else {
          assert pairs[n].0 == k;
        }
      }
    }
  }

  lemma {:induction false} BucketEmptyIff<K, V>(pairs: seq<(K, V)>, k: K)
    ensures Bucket(pairs, k) == [] <==> k !in Keys(pairs)
  {
    if pairs != [] {
      var n := |pairs| - 1;
      var init := pairs[..n];
      assert init + [pairs[n]] == pairs;
      BucketEmptyIff(init, k);
      KeysSnoc(init, pairs[n]);
      BucketSnocAt(init, pairs[n], k);
    }
  }

  /** No key occurs twice, stated one key at a time from the back. */
  predicate NoRepeats<K(==)>(keys: seq<K>) {
    keys == [] || (NoRepeats(keys[..|keys| - 1]) && keys[|keys| - 1] !in keys[..|keys| - 1])
  }

  lemma {:induction false} KeysNoRepeats<K, V>(pairs: seq<(K, V)>)
    ensures NoRepeats(Keys(pairs))
  {
    if pairs != [] {
      var init := pairs[..|pairs| - 1];
      KeysNoRepeats(init);
      var ks := Keys(init);
      assert (ks + [pairs[|pairs| - 1].0])[..|ks|] == ks;
    }
  }

  /** The keys seen after one more pair. */
  lemma KeysStep<K, V>(init: seq<(K, V)>, p: (K, V))
    ensures p.0 in Keys(init) ==> Keys(init + [p]) == Keys(init)
    ensures p.0 !in Keys(init) ==>
      && Keys(init + [p]) == Keys(init) + [p.0]
      && Keys(init + [p])[..|Keys(init)|] == Keys(init)
      && Bucket(init + [p], p.0) == [p.1]
  {
    KeysSnoc(init, p);
    if p.0 !in Keys(init) {
      BucketEmpty(init, p.0);
      BucketSnocAt(init, p, p.0);
      var ks := Keys(init);
      assert (ks + [p.0])[..|ks|] == ks;
    }
  }

  /** Every value lands in exactly one list, so the lists of all keys
      together hold as many values as there are pairs. */
  lemma {:induction false} BucketsCover<K, V>(pairs: seq<(K, V)>)
    ensures BucketTotal(pairs, Keys(pairs)) == |pairs|
  {
    if pairs != [] {
      var n := |pairs| - 1;
      var init := pairs[..n];
      var p := pairs[n];
      assert init + [p] == pairs;
      BucketsCover(init);
      KeysNoRepeats(init);
      TotalStep(init, p, Keys(init));
      KeysStep(init, p);
    }
  }

  /** Pushing one more pair adds one to the total exactly when its key is
      among the keys counted. */
  lemma {:induction false} TotalStep<K, V>(init: seq<(K, V)>, p: (K, V), keys: seq<K>)
    requires NoRepeats(keys)
    ensures BucketTotal(init + [p], keys) == BucketTotal(init, keys) + (if p.0 in keys then 1 else 0)
  {
    if keys != [] {
      var m := |keys| - 1;
      var front := keys[..m];
      TotalStep(init, p, front);
      BucketSnocAt(init, p, keys[m]);
      assert keys == front + [keys[m]];
    }
  }

  /** Every pair's value is on its key's list. */
  lemma {:induction false} BucketHolds<K, V>(pairs: seq<(K, V)>, i: nat)
    requires i < |pairs|
    ensures pairs[i].1 in Bucket(pairs, pairs[i].0)
  {
    var n := |pairs| - 1;
    if i < n {
      assert pairs[..n][i] == pairs[i];
      BucketHolds(pairs[..n], i);
    }
  }

  /** The pairs of one list, tagged again with their key. */
  function Tagged<K, V>(k: K, vs: seq<V>): (r: seq<(K, V)>)
    ensures |r| == |vs|
  {
    seq(|vs|, i requires 0 <= i < |vs| => (k, vs[i]))
  }

  /** The lists of the given keys, one after the other, each value tagged
      with its key: what a walk over the grouped map visits. */
  function Regrouped<K(==), V>(pairs: seq<(K, V)>, keys: seq<K>): seq<(K, V)> {
    if keys == [] then []
    else Regrouped(pairs, keys[..|keys| - 1]) + Tagged(keys[|keys| - 1], Bucket(pairs, keys[|keys| - 1]))
  }

  /** Walking the grouped map visits each pair exactly once. */
  lemma {:induction false} RegroupedPerm<K, V>(pairs: seq<(K, V)>)
    ensures multiset(Regrouped(pairs, Keys(pairs))) == multiset(pairs)
  {
    if pairs != [] {
      var n := |pairs| - 1;
      assert pairs[..n] + [pairs[n]] == pairs;
      RegroupedPerm(pairs[..n]);
      PermStep(pairs[..n], pairs[n]);
    }
  }

  lemma PermStep<K, V>(init: seq<(K, V)>, p: (K, V))
    requires multiset(Regrouped(init, Keys(init))) == multiset(init)
    ensures multiset(Regrouped(init + [p], Keys(init + [p]))) == multiset(init + [p])
  {
    KeysNoRepeats(init);
    RegroupStep(init, p, Keys(init));
    KeysStep(init, p);
    var r0 := Regrouped(init, Keys(init));
    var a := Regrouped(init + [p], Keys(init));
    if p.0 in Keys(init) {
      PermGrow(r0, init, a, p);
    } else {
      assert Regrouped(init + [p], Keys(init + [p])) == a + [p] by {
        TaggedOne(p.0, p.1);
        assert (p.0, p.1) == p;
      }
      PermGrow(r0, init, a + [p], p);
    }
  }

  /** Multiset bookkeeping of one more pair. */
  lemma PermGrow<T>(r0: seq<T>, s0: seq<T>, r1: seq<T>, p: T)
    requires multiset(r0) == multiset(s0) && multiset(r1) == multiset(r0) + multiset{p}
    ensures multiset(r1) == multiset(s0 + [p])
  {
  }

  /** Pushing one more pair adds it to the walk exactly when its key is
      among the keys walked. */
  lemma {:induction false} RegroupStep<K, V>(init: seq<(K, V)>, p: (K, V), keys: seq<K>)
    requires NoRepeats(keys)
    ensures p.0 in keys ==> multiset(Regrouped(init + [p], keys)) == multiset(Regrouped(init, keys)) + multiset{p}
    ensures p.0 !in keys ==> multiset(Regrouped(init + [p], keys)) == multiset(Regrouped(init, keys))
  {
    if keys != [] {
      var m := |keys| - 1;
      var front := keys[..m];
      var k := keys[m];
      RegroupStep(init, p, front);
      var t := Tagged(k, Bucket(init, k));
      var a := Regrouped(init, front);
      var b := Regrouped(init + [p], front);
      assert Regrouped(init, keys) == a + t;
      if p.0 == k {
        assert Regrouped(init + [p], keys) == b + (t + [p]) by {
          BucketSnocAt(init, p, k);
          TaggedAppend(k, Bucket(init, k), [p.1]);
          TaggedOne(k, p.1);
          assert (k, p.1) == p;
        }
        SpliceSnoc(a, b, t, p);
      } else {
        assert Regrouped(init + [p], keys) == b + t by {
          BucketSnocAt(init, p, k);
        }
        assert p.0 in keys <==> p.0 in front by {
          assert keys == front + [k];
        }
        if p.0 in front {
          SpliceAdd(a, b, t, multiset{p});
        } else {
          SpliceAdd(a, b, t, multiset{});
        }
      }
    }
  }

  /** Multiset bookkeeping of one step of the walk. */
  lemma SpliceAdd<T>(a: seq<T>, b: seq<T>, t: seq<T>, x: multiset<T>)
    requires multiset(b) == multiset(a) + x
    ensures multiset(b + t) == multiset(a + t) + x
  {
  }

  lemma SpliceSnoc<T>(a: seq<T>, b: seq<T>, t: seq<T>, p: T)
    requires multiset(b) == multiset(a)
    ensures multiset(b + (t + [p])) == multiset(a + t) + multiset{p}
  {
    assert a + t + [p] == a + (t + [p]);
  }

  /** One more pair, read through one key's list. */
  lemma BucketSnocAt<K, V>(pairs: seq<(K, V)>, p: (K, V), k: K)
    ensures Bucket(pairs + [p], k) == Bucket(pairs, k) + (if p.0 == k then [p.1] else [])
  {
    assert (pairs + [p])[..|pairs|] == pairs;
  }

  lemma TaggedOne<K, V>(k: K, v: V)
    ensures Tagged(k, [v]) == [(k, v)]
  {
  }

  lemma TaggedAppend<K, V>(k: K, vs: seq<V>, ws: seq<V>)
    ensures Tagged(k, vs + ws) == Tagged(k, vs) + Tagged(k, ws)
  {
  }

  /** The walk is as long as the lists are together. */
  lemma {:induction false} RegroupedLength<K, V>(pairs: seq<(K, V)>, keys: seq<K>)
    ensures |Regrouped(pairs, keys)| == BucketTotal(pairs, keys)
  {
    if keys != [] {
      RegroupedLength(pairs, keys[..|keys| - 1]);
    }
  }

  /** One more pair adds its key at the end, unless the key was seen. */
  lemma KeysSnoc<K, V>(pairs: seq<(K, V)>, p: (K, V))
    ensures Keys(pairs + [p]) == if p.0 in Keys(pairs) then Keys(pairs) else Keys(pairs) + [p.0]
  {
    assert (pairs + [p])[..|pairs|] == pairs;
  }

  /** One more pair is pushed onto its own key's list and no other. */
  lemma BucketSnoc<K, V>(pairs: seq<(K, V)>, p: (K, V))
    ensures forall k :: Bucket(pairs + [p], k) == Bucket(pairs, k) + (if p.0 == k then [p.1] else [])
  {
    assert (pairs + [p])[..|pairs|] == pairs;
  }

  /** A key not seen yet has an empty list. */
  lemma BucketEmpty<K, V>(pairs: seq<(K, V)>, k: K)
    requires k !in Keys(pairs)
    ensures Bucket(pairs, k) == []
  {
    BucketEmptyIff(pairs, k);
  }

  /** A map of lists, with its keys listed in insertion order, that holds
      the grouping of the pairs. */
  ghost predicate GroupedBy<K, V>(pairs: seq<(K, V)>, order: seq<K>, m: map<K, seq<V>>) {
    && order == Keys(pairs)
    && (forall k | k in order :: k in m)
    && (forall k | k in m :: k in order && m[k] == Bucket(pairs, k))
  }

  /** One push: `if (!map[k]) { map[k] = []; order.push(k) } map[k].push(v)`
      keeps the map the grouping of the pairs seen so far. */
  lemma GroupedPush<K, V>(pairs: seq<(K, V)>, order: seq<K>, m: map<K, seq<V>>, p: (K, V))
    requires GroupedBy(pairs, order, m)
    ensures var o1 := if p.0 in m then order else order + [p.0];
      var m1 := if p.0 in m then m else m[p.0 := []];
      GroupedBy(pairs + [p], o1, m1[p.0 := m1[p.0] + [p.1]])
  {
    KeysSnoc(pairs, p);
    BucketSnoc(pairs, p);
    if p.0 !in m {
      BucketEmpty(pairs, p.0);
    }
  }
}
