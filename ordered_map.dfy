/**
 * A JavaScript plain object used as a dictionary (`Record<string, V>`): its
 * entries in insertion order, as `Object.keys` / `Object.entries` list them.
 * Assigning to a present key keeps its position; a new key goes last.
 */
module OrderedMap {
  import opened Wrappers
  import opened Seqs

  /** `Object.keys(m)`. */
  function Keys<K, V>(m: seq<(K, V)>): (ks: seq<K>)
    ensures |ks| == |m|
    ensures forall i :: 0 <= i < |m| ==> ks[i] == m[i].0
  {
    seq(|m|, i requires 0 <= i < |m| => m[i].0)
  }

  /** No key is listed twice (what every JavaScript object guarantees). */
  ghost predicate UniqueKeys<K, V>(m: seq<(K, V)>) {
    forall i, j :: 0 <= i < j < |m| ==> m[i].0 != m[j].0
  }

  predicate HasKey<K(==), V>(m: seq<(K, V)>, k: K) {
    k in Keys(m)
  }

  /** Entry `i` is the first one listing key `k`. */
  ghost predicate FirstEntry<K, V>(m: seq<(K, V)>, k: K, i: int) {
    0 <= i < |m| && m[i].0 == k && forall j :: 0 <= j < i ==> m[j].0 != k
  }

  /** `m[k]`, with `None` for `undefined`: the value of the first entry listing `k`. */
  function Get<K(==), V>(m: seq<(K, V)>, k: K): (r: Option<V>)
    ensures r.Some? <==> HasKey(m, k)
  {
    match IndexOf(Keys(m), k)
    case None => None
    case Some(i) => Some(m[i].1)
  }

  /** A key that is present has a first entry, and `Get` reads that entry's value. */
  lemma GetIndex<K, V>(m: seq<(K, V)>, k: K) returns (i: nat)
    requires HasKey(m, k)
    ensures FirstEntry(m, k, i) && Get(m, k) == Some(m[i].1)
  {
    i := IndexOf(Keys(m), k).value;
  }

  /** A key listed by no entry reads `undefined`. */
  lemma GetAbsent<K, V>(m: seq<(K, V)>, k: K)
    requires forall p | p in m :: p.0 != k
    ensures Get(m, k) == None
  {
    forall i | 0 <= i < |m|
      ensures Keys(m)[i] != k
    {
      assert m[i] in m;
    }
  }

  /** `m[k] = v`. */
  function Put<K(==,!new), V>(m: seq<(K, V)>, k: K, v: V): (r: seq<(K, V)>)
    ensures Keys(r) == if HasKey(m, k) then Keys(m) else Keys(m) + [k]
    ensures Get(r, k) == Some(v)
    ensures forall k' :: k' != k ==> Get(r, k') == Get(m, k')
    ensures UniqueKeys(m) ==> UniqueKeys(r)
  {
    match IndexOf(Keys(m), k)
    case Some(i) =>
      var r := m[i := (k, v)];
      assert Keys(r) == Keys(m);
      r
    case None =>
      GetAppended(m, k, v);
      m + [(k, v)]
  }

  /** Appending a fresh key leaves every other lookup as it was. */
  lemma GetAppended<K, V>(m: seq<(K, V)>, k: K, v: V)
    requires !HasKey(m, k)
    ensures Keys(m + [(k, v)]) == Keys(m) + [k]
    ensures Get(m + [(k, v)], k) == Some(v)
    ensures forall k' :: k' != k ==> Get(m + [(k, v)], k') == Get(m, k')
  {
    var r := m + [(k, v)];
    assert Keys(r) == Keys(m) + [k];
    forall k' | k' != k ensures Get(r, k') == Get(m, k') {
      match IndexOf(Keys(m), k')
      case None =>
      case Some(j) => IndexOfIs(Keys(r), k', j);
    }
    IndexOfIs(Keys(r), k, |m|);
  }

  /** In a well-formed map, the value stored with each listed key is found by `Get`. */
  lemma GetAt<K, V>(m: seq<(K, V)>, i: nat)
    requires UniqueKeys(m) && i < |m|
    ensures Get(m, m[i].0) == Some(m[i].1)
  {
    IndexOfIs(Keys(m), m[i].0, i);
  }

  /** Re-assigning the value already stored is a no-op. */
  lemma PutSame<K(!new), V>(m: seq<(K, V)>, k: K, v: V)
    requires Get(m, k) == Some(v)
    ensures Put(m, k, v) == m
  {
    var i := IndexOf(Keys(m), k).value;
    assert m[i] == (k, v);
  }

  /** Adding the next entry of a well-formed map to its prefix extends the prefix. */
  lemma PutNext<K(!new), V>(m: seq<(K, V)>, j: nat)
    requires UniqueKeys(m) && j < |m|
    ensures Put(m[..j], m[j].0, m[j].1) == m[..j + 1]
  {
    assert !HasKey(m[..j], m[j].0);
    assert m[..j] + [(m[j].0, m[j].1)] == m[..j + 1];
  }
}
