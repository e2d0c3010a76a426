/**
 * Reference definitions of the java.util.Map operations on the entries a map
 * holds, listed in insertion order: a sequence of key/value pairs whose keys
 * are distinct.  FastMap keeps its entries on a chain in exactly this order,
 * and is proved against these definitions.
 */
module MapSpec {
  import ListSpec

  /** The keys of the entries, in order. */
  function Keys<K, V>(es: seq<(K, V)>): (r: seq<K>)
    ensures |r| == |es| && forall i :: 0 <= i < |es| ==> r[i] == es[i].0
  {
    seq(|es|, i requires 0 <= i < |es| => es[i].0)
  }

  /** The values of the entries, in order. */
  function Values<K, V>(es: seq<(K, V)>): (r: seq<V>)
    ensures |r| == |es| && forall i :: 0 <= i < |es| ==> r[i] == es[i].1
  {
    seq(|es|, i requires 0 <= i < |es| => es[i].1)
  }

  predicate DistinctKeys<K(==), V>(es: seq<(K, V)>)
  {
    forall i, j :: 0 <= i < j < |es| ==> es[i].0 != es[j].0
  }

  /** Position of the entry for `k`, or -1. */
  function Find<K(==), V>(es: seq<(K, V)>, k: K): (r: int)
    ensures -1 <= r < |es|
    ensures r >= 0 ==> es[r].0 == k && forall j :: 0 <= j < r ==> es[j].0 != k
    ensures r == -1 <==> forall i :: 0 <= i < |es| ==> es[i].0 != k
  {
    ListSpec.IndexOf(Keys(es), k)
  }

  /** `containsKey(k)`. */
  predicate ContainsKey<K(==), V>(es: seq<(K, V)>, k: K)
  {
    Find(es, k) >= 0
  }

  /** `get(k)`: the value of the entry for `k`, or `nil` (Java's `null`) when there is none. */
  function Get<K(==), V>(es: seq<(K, V)>, k: K, nil: V): V
  {
    var i := Find(es, k);
    if i >= 0 then es[i].1 else nil
  }

  /** `put(k, v)`: the entry for `k` gets the value `v` where it stands, or a new entry is appended. */
  function Put<K(==), V>(es: seq<(K, V)>, k: K, v: V): seq<(K, V)>
  {
    var i := Find(es, k);
    if i >= 0 then es[i := (k, v)] else es + [(k, v)]
  }

  /** `putIfAbsent(k, v)`: a new entry only when there is none for `k`. */
  function PutIfAbsent<K(==), V>(es: seq<(K, V)>, k: K, v: V): seq<(K, V)>
  {
    if Find(es, k) >= 0 then es else es + [(k, v)]
  }

  /** `remove(k)`: the entry for `k` is taken out, the others keep their order. */
  function Remove<K(==), V>(es: seq<(K, V)>, k: K): seq<(K, V)>
  {
    var i := Find(es, k);
    if i >= 0 then es[..i] + es[i + 1..] else es
  }

  /** In a sequence with distinct keys, the entry found for `k` is the one at any position holding `k`. */
  lemma FindUnique<K, V>(es: seq<(K, V)>, k: K, i: int)
    requires DistinctKeys(es) && 0 <= i < |es| && es[i].0 == k
    ensures Find(es, k) == i
  {
  }

  /** `put` keeps the keys distinct, replaces the value in place or appends the key at the end. */
  lemma PutShape<K, V>(es: seq<(K, V)>, k: K, v: V)
    requires DistinctKeys(es)
    ensures DistinctKeys(Put(es, k, v))
    ensures Keys(Put(es, k, v)) == if ContainsKey(es, k) then Keys(es) else Keys(es) + [k]
    ensures |Put(es, k, v)| == if ContainsKey(es, k) then |es| else |es| + 1
  {
    var r := Put(es, k, v);
    if ContainsKey(es, k) {
      assert Keys(r) == Keys(es);
    } else {
      assert Keys(r) == Keys(es) + [k];
    }
  }

  /** After `put(k, v)`, `get(k)` is `v` and every other key keeps its value. */
  lemma GetAfterPut<K, V>(es: seq<(K, V)>, k: K, v: V, k': K, nil: V)
    requires DistinctKeys(es)
    ensures Get(Put(es, k, v), k', nil) == if k' == k then v else Get(es, k', nil)
  {
    var r := Put(es, k, v);
    PutShape(es, k, v);
    var i := Find(es, k);
    if k' == k {
      if i >= 0 {
        FindUnique(r, k, i);
      } else {
        FindUnique(r, k, |es|);
      }
    } else {
      var j := Find(es, k');
      if j >= 0 {
        FindUnique(r, k', j);
      } else {
        assert forall m :: 0 <= m < |r| ==> r[m].0 != k';
      }
    }
  }

  /** `putIfAbsent` changes nothing when the key is present, and otherwise is `put`. */
  lemma PutIfAbsentIsPut<K, V>(es: seq<(K, V)>, k: K, v: V)
    ensures PutIfAbsent(es, k, v) == if ContainsKey(es, k) then es else Put(es, k, v)
  {
  }

  /** `remove(k)` keeps the keys distinct, drops `k` and keeps every other key's value. */
  lemma GetAfterRemove<K, V>(es: seq<(K, V)>, k: K, k': K, nil: V)
    requires DistinctKeys(es)
    ensures DistinctKeys(Remove(es, k))
    ensures !ContainsKey(Remove(es, k), k)
    ensures Get(Remove(es, k), k', nil) == if k' == k then nil else Get(es, k', nil)
    ensures |Remove(es, k)| == if ContainsKey(es, k) then |es| - 1 else |es|
  {
    var i := Find(es, k);
    var r := Remove(es, k);
    if i >= 0 {
      RemovedAt(es, i, r);
      var j := Find(es, k');
      if k' != k && j >= 0 {
        FindUnique(r, k', if j < i then j else j - 1);
      }
    }
  }

  /** After `put(k, v)` the map holds a key exactly when it is `k` or was held before. */
  lemma ContainsAfterPut<K, V>(es: seq<(K, V)>, k: K, v: V, k': K)
    ensures ContainsKey(Put(es, k, v), k') <==> k' == k || ContainsKey(es, k')
  {
    var r := Put(es, k, v);
    var i := Find(es, k);
    if i < 0 {
      assert r[|es|].0 == k;
      if ContainsKey(es, k') {
        assert r[Find(es, k')].0 == k';
      }
    } else if k' == k || ContainsKey(es, k') {
      var j := if k' == k then i else Find(es, k');
      assert r[j].0 == k';
    }
  }

  /** Taking out the entry at `i`: the entries before it keep their positions, those after it move down by one. */
  lemma RemovedAt<K, V>(es: seq<(K, V)>, i: int, r: seq<(K, V)>)
    requires 0 <= i < |es| && r == es[..i] + es[i + 1..]
    ensures |r| == |es| - 1
    ensures forall m :: 0 <= m < i ==> r[m] == es[m]
    ensures forall m :: i <= m < |r| ==> r[m] == es[m + 1]
  {
  }

  /** A key held after `remove(k)` was held before and is not `k`. */
  lemma HeldAfterRemove<K, V>(es: seq<(K, V)>, k: K, k': K)
    requires DistinctKeys(es) && ContainsKey(Remove(es, k), k')
    ensures k' != k && ContainsKey(es, k')
  {
    var i, r := Find(es, k), Remove(es, k);
    if i >= 0 {
      RemovedAt(es, i, r);
      var j := Find(r, k');
      var o := if j < i then j else j + 1;
      assert es[o].0 == k' && o != i;
    }
  }

  /** A key held before `remove(k)` other than `k` is still held after it. */
  lemma KeptAfterRemove<K, V>(es: seq<(K, V)>, k: K, k': K)
    requires k' != k && ContainsKey(es, k')
    ensures ContainsKey(Remove(es, k), k')
  {
    var i, r := Find(es, k), Remove(es, k);
    if i >= 0 {
      RemovedAt(es, i, r);
      var j := Find(es, k');
      assert r[if j < i then j else j - 1].0 == k';
    }
  }

  /** After `remove(k)` the map holds a key exactly when it was held before and is not `k`. */
  lemma ContainsAfterRemove<K, V>(es: seq<(K, V)>, k: K, k': K)
    requires DistinctKeys(es)
    ensures ContainsKey(Remove(es, k), k') <==> k' != k && ContainsKey(es, k')
  {
    if ContainsKey(Remove(es, k), k') {
      HeldAfterRemove(es, k, k');
    }
    if k' != k && ContainsKey(es, k') {
      KeptAfterRemove(es, k, k');
    }
  }

  /** `putAll(map)`: the entries of `from` put one after the other, in their order. */
  function PutAll<K(==), V>(es: seq<(K, V)>, from: seq<(K, V)>): seq<(K, V)>
    decreases |from|
  {
    if |from| == 0 then es else PutAll(Put(es, from[0].0, from[0].1), from[1..])
  }

  /** Putting one more entry after the others: `putAll` is a left-to-right loop of `put`. */
  lemma {:induction false} PutAllSnoc<K, V>(es: seq<(K, V)>, from: seq<(K, V)>, k: K, v: V)
    ensures PutAll(es, from + [(k, v)]) == Put(PutAll(es, from), k, v)
    decreases |from|
  {
    if |from| == 0 {
      assert from + [(k, v)] == [(k, v)];
    } else {
      assert (from + [(k, v)])[1..] == from[1..] + [(k, v)];
      PutAllSnoc(Put(es, from[0].0, from[0].1), from[1..], k, v);
    }
  }

  /**
   * One more turn of the `putAll` loop: the prefix grows by the next
   * mapping, which is put; when its key is the first occurrence of `k`,
   * the prefix before it is what `Find` delimits.
   */
  lemma PutAllStep<K, V>(es: seq<(K, V)>, from: seq<(K, V)>, i: int, k: K)
    requires 0 <= i < |from| && !ContainsKey(from[..i], k)
    ensures PutAll(es, from[..i + 1]) == Put(PutAll(es, from[..i]), from[i].0, from[i].1)
    ensures ContainsKey(from[..i + 1], k) <==> from[i].0 == k
    ensures from[i].0 == k ==> Find(from, k) == i && ContainsKey(from, k)
    ensures from[i].0 != k && i + 1 == |from| ==> !ContainsKey(from, k)
  {
    assert from[..i + 1] == from[..i] + [from[i]];
    PutAllSnoc(es, from[..i], from[i].0, from[i].1);
    assert forall j :: 0 <= j < i ==> from[..i][j] == from[j];
    assert forall j :: 0 <= j <= i ==> from[..i + 1][j] == from[j];
    if i + 1 == |from| {
      assert from[..i + 1] == from;
    }
  }

  /** `putAll` keeps the keys distinct, and every key of `from` ends up with its last value there. */
  lemma {:induction false} PutAllDistinct<K, V>(es: seq<(K, V)>, from: seq<(K, V)>)
    requires DistinctKeys(es)
    ensures DistinctKeys(PutAll(es, from))
    decreases |from|
  {
    if |from| > 0 {
      PutShape(es, from[0].0, from[0].1);
      PutAllDistinct(Put(es, from[0].0, from[0].1), from[1..]);
    }
  }

  /**
   * Putting entries with distinct keys that are all new appends them in
   * order; in particular replaying the entries a map wrote out, into an
   * empty map, rebuilds exactly those entries.
   */
  lemma {:induction false} PutAllNew<K, V>(es: seq<(K, V)>, from: seq<(K, V)>)
    requires DistinctKeys(es + from)
    ensures PutAll(es, from) == es + from
    decreases |from|
  {
    if |from| > 0 {
      var k, v := from[0].0, from[0].1;
      assert (es + from)[|es|] == from[0];
      forall i | 0 <= i < |es|
        ensures es[i].0 != k
      {
        assert (es + from)[i] == es[i];
      }
      assert Put(es, k, v) == es + [from[0]];
      assert es + from == (es + [from[0]]) + from[1..];
      PutAllNew(es + [from[0]], from[1..]);
    }
  }

  /** Replaying a sequence of entries with distinct keys into an empty map gives that sequence. */
  lemma ReplayEntries<K, V>(from: seq<(K, V)>)
    requires DistinctKeys(from)
    ensures PutAll([], from) == from
  {
    assert [] + from == from;
    PutAllNew([], from);
  }
}
