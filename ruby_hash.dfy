/** A Ruby Hash as an association list in insertion order: assigning to a present key keeps
    its position, assigning to a new key appends it, `delete` removes it. */
module RubyHash {
  import opened Wrappers
  import opened Collections

  type Hash<K, V> = seq<(K, V)>

  /** `h.keys`, in insertion order. */
  function Keys<K, V>(h: Hash<K, V>): seq<K>
  {
    seq(|h|, i requires 0 <= i < |h| => h[i].0)
  }

  lemma KeysTail<K, V>(h: Hash<K, V>)
    requires h != []
    ensures Keys(h) == [h[0].0] + Keys(h[1..])
  {
    assert forall i :: 0 <= i < |h| ==> Keys(h)[i] == ([h[0].0] + Keys(h[1..]))[i];
  }

  /** `h[k]`, with None for nil. */
  function Get<K(==), V>(h: Hash<K, V>, k: K): (r: Option<V>)
    ensures r.None? <==> k !in Keys(h)
  {
    if h == [] then None
    else
      KeysTail(h);
      if h[0].0 == k then Some(h[0].1) else Get(h[1..], k)
  }

  /** `h[k] = v`. */
  function Put<K(==), V>(h: Hash<K, V>, k: K, v: V): (r: Hash<K, V>)
    ensures |h| <= |r| <= |h| + 1
  {
    if h == [] then [(k, v)]
    else if h[0].0 == k then [(k, v)] + h[1..]
    else [h[0]] + Put(h[1..], k, v)
  }

  /** After `h[k] = v`, `k` maps to `v`, every other key maps to what it did, and the keys
      are the old keys, with `k` appended when it is new. */
  lemma {:induction false} PutSpec<K, V>(h: Hash<K, V>, k: K, v: V)
    ensures Get(Put(h, k, v), k) == Some(v)
    ensures forall k' :: k' != k ==> Get(Put(h, k, v), k') == Get(h, k')
    ensures Keys(Put(h, k, v)) == if k in Keys(h) then Keys(h) else Keys(h) + [k]
  {
    if h != [] {
      KeysTail(h);
      var r := Put(h, k, v);
      if h[0].0 == k {
        assert r[1..] == h[1..];
        KeysTail(r);
      } else {
        PutSpec(h[1..], k, v);
        assert r[1..] == Put(h[1..], k, v);
        KeysTail(r);
      }
    }
  }

  /** `h.delete(k)`. */
  function Delete<K(==), V>(h: Hash<K, V>, k: K): (r: Hash<K, V>)
    ensures multiset(r) <= multiset(h)
    ensures |h| - 1 <= |r| <= |h|
  {
    if h == [] then []
    else
      assert h == [h[0]] + h[1..];
      if h[0].0 == k then h[1..]
      else [h[0]] + Delete(h[1..], k)
  }

  /** With distinct keys, after `h.delete(k)` the keys stay distinct, `k` is gone and
      every other key maps to what it did. */
  lemma {:induction false} DeleteSpec<K, V>(h: Hash<K, V>, k: K)
    requires NoDuplicates(Keys(h))
    ensures NoDuplicates(Keys(Delete(h, k)))
    ensures Get(Delete(h, k), k) == None
    ensures forall k' :: k' != k ==> Get(Delete(h, k), k') == Get(h, k')
    ensures forall k' :: k' in Keys(Delete(h, k)) <==> k' in Keys(h) && k' != k
  {
    if h != [] {
      KeysTail(h);
      NoDuplicatesTail(Keys(h));
      if h[0].0 != k {
        DeleteSpec(h[1..], k);
        var rest := Delete(h[1..], k);
        var r := [h[0]] + rest;
        assert r[1..] == rest;
        KeysTail(r);
      }
    }
  }

  lemma PutKeepsDistinct<K, V>(h: Hash<K, V>, k: K, v: V)
    requires NoDuplicates(Keys(h))
    ensures NoDuplicates(Keys(Put(h, k, v)))
  {
    PutSpec(h, k, v);
  }

  /** With distinct keys, looking up the key stored at a position finds that position. */
  lemma {:induction false} GetAt<K, V>(h: Hash<K, V>, i: nat)
    requires NoDuplicates(Keys(h)) && i < |h|
    ensures Get(h, h[i].0) == Some(h[i].1)
  {
    KeysTail(h);
    NoDuplicatesTail(Keys(h));
    if i > 0 {
      assert Keys(h)[i] == h[i].0 && Keys(h)[0] == h[0].0;
      assert h[1..][i - 1] == h[i];
      GetAt(h[1..], i - 1);
    }
  }

  lemma {:induction false} GetSomeIn<K, V>(h: Hash<K, V>, k: K, v: V)
    requires Get(h, k) == Some(v)
    ensures (k, v) in h
  {
    if h[0].0 != k {
      GetSomeIn(h[1..], k, v);
    }
  }

  /** Assigning a key that is not present appends the pair at the end. */
  lemma {:induction false} PutNewKeyAppends<K, V>(h: Hash<K, V>, k: K, v: V)
    requires k !in Keys(h)
    ensures Put(h, k, v) == h + [(k, v)]
  {
    if h != [] {
      KeysTail(h);
      PutNewKeyAppends(h[1..], k, v);
      assert h == [h[0]] + h[1..];
    }
  }

  /** With distinct keys, assigning the key stored at a position replaces that pair. */
  lemma {:induction false} PutAtIndex<K, V>(h: Hash<K, V>, i: nat, v: V)
    requires NoDuplicates(Keys(h)) && i < |h|
    ensures Put(h, h[i].0, v) == h[i := (h[i].0, v)]
  {
    KeysTail(h);
    NoDuplicatesTail(Keys(h));
    if i > 0 {
      assert Keys(h)[i] == h[i].0 && Keys(h)[0] == h[0].0;
      assert h[1..][i - 1] == h[i];
      PutAtIndex(h[1..], i - 1, v);
      assert h[i := (h[i].0, v)] == [h[0]] + h[1..][i - 1 := (h[i].0, v)];
    }
  }
}
