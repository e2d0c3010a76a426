/**
 * The state of a FastMap as a value, with the invariant its operations keep.
 *
 * Entries are indices into the arena sequences `keys`, `values`, `hashes`
 * (the cached `_keyHash`), `next` and `prev`.  They are all on one chain
 *
 *     head, live entries..., tail, free entries...
 *
 * in insertion order (see NodeChains); `pos` gives each entry's position on
 * the chain and `n` the number of live entries.  The tables of the map and
 * of its sub-maps form the arena `tables` with the parent sequence `parent`
 * (see SubMaps); `where` gives the slot of each live entry in the leaf its
 * hash is routed to.
 */
module MapStores {
  import opened JavaLang
  import opened NodeChains
  import opened HashSlots
  import opened SubMaps
  import MapSpec

  datatype Store<K, V> = Store(
    keys: seq<K>, values: seq<V>, hashes: seq<int>, next: seq<int>, prev: seq<int>,
    head: int, tail: int, tables: seq<Table>,
    chain: seq<int>, pos: seq<int>, n: int, where: seq<int>, parent: seq<int>)

  /** The entry arena sequences have one element per entry. */
  predicate Sized<K, V>(s: Store<K, V>)
  {
    && |s.values| == |s.keys| && |s.hashes| == |s.keys| && |s.next| == |s.keys| && |s.prev| == |s.keys|
    && |s.chain| == |s.keys| && |s.pos| == |s.keys| && |s.where| == |s.keys|
  }

  /**
   * The chain is linked and holds every entry of the arena, `head` first and
   * `tail` after the `n` live entries; `pos` inverts it.
   */
  ghost predicate ChainOk<K, V>(s: Store<K, V>)
  {
    && Sized(s) && NodeChains.Linked(s.next, s.prev, s.chain)
    && 0 <= s.n && s.n + 2 <= |s.chain|
    && s.chain[0] == s.head && s.chain[s.n + 1] == s.tail
    && forall e :: 0 <= e < |s.pos| ==> 0 <= s.pos[e] < |s.chain| && s.chain[s.pos[e]] == e
  }

  /** Entry `e` is one of the map's entries (strictly between head and tail). */
  ghost predicate Live<K, V>(s: Store<K, V>, e: int)
  {
    0 <= e < |s.pos| && 1 <= s.pos[e] <= s.n
  }

  /** The map's entries in insertion order, as key/value pairs. */
  ghost function Entries<K, V>(s: Store<K, V>): (r: seq<(K, V)>)
    requires ChainOk(s)
    ensures |r| == s.n
    ensures forall i :: 0 <= i < s.n ==> r[i] == (s.keys[s.chain[i + 1]], s.values[s.chain[i + 1]])
  {
    seq(s.n, i requires 0 <= i < s.n => (s.keys[s.chain[i + 1]], s.values[s.chain[i + 1]]))
  }

  /**
   * Live entries cache their key's hash and have distinct keys; the head
   * and the free entries hold no key and no value (`null`).
   */
  ghost predicate EntriesOk<K, V>(s: Store<K, V>, hash: K -> int, noKey: K, nil: V)
    requires ChainOk(s)
  {
    && (forall i :: 1 <= i <= s.n ==> s.hashes[s.chain[i]] == hash(s.keys[s.chain[i]]))
    && (forall i :: 0 <= i < |s.chain| && (i == 0 || s.n < i) ==> s.keys[s.chain[i]] == noKey && s.values[s.chain[i]] == nil)
    && MapSpec.DistinctKeys(Entries(s))
  }

  /**
   * Leaf `t`: each slot is `EMPTY`, a tombstone or an entry; the entries are
   * live, routed to `t` and where `where` says; `entryCount` counts them and
   * `entryCount + nullCount` bounds the slots in use and is at most half the
   * length (plus `slack`); every entry is reached by a probe from its home.
   */
  ghost predicate LeafOk<K, V>(s: Store<K, V>, t: int, slack: int)
    requires Sized(s) && 0 <= t < |s.tables|
  {
    var x := s.tables[t];
    && |x.slots| > 0
    && (forall p :: 0 <= p < |x.slots| ==> x.slots[p] < |s.keys|)
    && (forall p :: 0 <= p < |x.slots| && x.slots[p] >= 0 ==>
          Live(s, x.slots[p]) && Route(s.tables, 0, s.hashes[x.slots[p]]) == t && s.where[x.slots[p]] == p)
    && Holding(x.slots) == x.entryCount
    && Occupied(x.slots) <= x.entryCount + x.nullCount
    && 2 * (x.entryCount + x.nullCount) <= |x.slots| + slack
    && Reachable(x.slots, s.hashes, x.keyShift)
  }

  /** Every active leaf is in order, leaf `over` possibly one entry over its load limit. */
  ghost predicate LeavesOk<K, V>(s: Store<K, V>, over: int)
    requires Sized(s) && |s.parent| == |s.tables|
  {
    forall t :: 0 <= t < |s.tables| && Active(s.tables, s.parent, t) && !s.tables[t].useSubMaps ==>
      LeafOk(s, t, if t == over then 2 else 0)
  }

  /** Every live entry sits in the leaf its hash is routed to, at the slot `where` records. */
  ghost predicate Placed<K, V>(s: Store<K, V>)
    requires Sized(s) && |s.tables| >= 1
  {
    forall e :: Live(s, e) ==>
      var x := s.tables[Route(s.tables, 0, s.hashes[e])];
      0 <= s.where[e] < |x.slots| && x.slots[s.where[e]] == e
  }

  /** The invariant of a FastMap, leaf `over` possibly over its load limit (`-1`: none). */
  ghost predicate Inv<K, V>(s: Store<K, V>, hash: K -> int, noKey: K, nil: V, over: int)
  {
    && ChainOk(s) && EntriesOk(s, hash, noKey, nil)
    && TreeOk(s.tables, s.parent) && LeavesOk(s, over) && Placed(s)
    && s.n == TreeCount(s.tables, 0)
  }

  /** The entry at position `i` of the chain is the one whose position is `i`. */
  lemma PosOfChain<K, V>(s: Store<K, V>, i: int)
    requires ChainOk(s) && 0 <= i < |s.chain|
    ensures 0 <= s.chain[i] < |s.pos| && s.pos[s.chain[i]] == i
  {
    var e := s.chain[i];
    assert s.chain[s.pos[e]] == e;
  }

  /** A leaf's slots hold each entry at most once. */
  lemma LeafUnique<K, V>(s: Store<K, V>, t: int, slack: int)
    requires Sized(s) && 0 <= t < |s.tables| && LeafOk(s, t, slack)
    ensures Unique(s.tables[t].slots)
  {
    var from := s.tables[t].slots;
    forall p1, p2 | 0 <= p1 < p2 < |from| && from[p1] >= 0
      ensures from[p1] != from[p2]
    {
      assert s.where[from[p1]] == p1;
    }
  }

  /** A leaf within its load limit has an `EMPTY` slot, so that probes end. */
  lemma LeafHasRoom<K, V>(s: Store<K, V>, t: int)
    requires Sized(s) && 0 <= t < |s.tables| && LeafOk(s, t, 0)
    ensures Occupied(s.tables[t].slots) < |s.tables[t].slots|
  {
  }

  /**
   * The probe loop of `getEntry` and `remove`: from the home slot of `h` on,
   * the first slot holding an entry whose key is `key` (tombstones are
   * passed over), or -1 once an `EMPTY` slot is met.
   */
  method Lookup<K(==)>(slots: seq<int>, keys: seq<K>, key: K, h: int, shift: nat) returns (p: int)
    requires |slots| > 0 && Occupied(slots) < |slots|
    requires forall q :: 0 <= q < |slots| ==> slots[q] < |keys|
    ensures -1 <= p < |slots|
    ensures p >= 0 ==> slots[p] >= 0 && keys[slots[p]] == key
    ensures p < 0 ==> forall q :: 0 <= q < |slots| && slots[q] >= 0 && keys[slots[q]] == key ==>
      !PathFull(slots, Home(h, shift, |slots|), q)
  {
    var len := |slots|;
    var i := Shr(h, shift);
    ghost var home := i % len;
    ghost var free := FreeSlot(slots);
    SlotOfDist(home, free, len);
    ghost var d := 0;
    while true
      invariant 0 <= d <= Dist(home, free, len) && i % len == Slot(home, d, len)
      invariant forall j :: 0 <= j < d ==> slots[Slot(home, j, len)] != EMPTY
      invariant forall j :: 0 <= j < d && slots[Slot(home, j, len)] >= 0 ==> keys[slots[Slot(home, j, len)]] != key
      decreases Dist(home, free, len) - d
    {
      var entry := slots[i % len];
      if entry == EMPTY {
        forall q | 0 <= q < len && slots[q] >= 0 && keys[slots[q]] == key
          ensures !PathFull(slots, home, q)
        {
          if PathFull(slots, home, q) {
            ProbePassed(slots, home, d, q);
          }
        }
        return -1;
      }
      if entry >= 0 && keys[entry] == key {
        return i % len;
      }
      NextSlot(i, home, d, len);
      i := i + 1;
      d := d + 1;
    }
  }

  /**
   * The probe loop of `put`: from the home slot of `h` on, the slot of the
   * entry whose key is `key` (`p`), or else (`p` is -1) the first slot that
   * holds no entry, a tombstone or the `EMPTY` slot that ended the probe.
   */
  method PutProbe<K(==)>(slots: seq<int>, keys: seq<K>, key: K, h: int, shift: nat) returns (p: int, slot: int)
    requires |slots| > 0 && Occupied(slots) < |slots|
    requires forall q :: 0 <= q < |slots| ==> slots[q] < |keys|
    ensures -1 <= p < |slots|
    ensures p >= 0 ==> slots[p] >= 0 && keys[slots[p]] == key
    ensures p < 0 ==> forall q :: 0 <= q < |slots| && slots[q] >= 0 && keys[slots[q]] == key ==>
      !PathFull(slots, Home(h, shift, |slots|), q)
    ensures p < 0 ==> 0 <= slot < |slots| && slots[slot] < 0 && PathFull(slots, Home(h, shift, |slots|), slot)
  {
    var len := |slots|;
    var i := Shr(h, shift);
    ghost var home := i % len;
    ghost var free := FreeSlot(slots);
    SlotOfDist(home, free, len);
    ghost var d := 0;
    slot := -1;
    while true
      invariant 0 <= d <= Dist(home, free, len) && i % len == Slot(home, d, len)
      invariant forall j :: 0 <= j < d ==> slots[Slot(home, j, len)] != EMPTY
      invariant forall j :: 0 <= j < d && slots[Slot(home, j, len)] >= 0 ==> keys[slots[Slot(home, j, len)]] != key
      invariant slot >= 0 ==> 0 <= slot < len && slots[slot] < 0 && PathFull(slots, home, slot)
      decreases Dist(home, free, len) - d
    {
      var entry := slots[i % len];
      if entry == EMPTY {
        forall q | 0 <= q < len && slots[q] >= 0 && keys[slots[q]] == key
          ensures !PathFull(slots, home, q)
        {
          if PathFull(slots, home, q) {
            ProbePassed(slots, home, d, q);
          }
        }
        if slot < 0 {
          slot := i % len;
          DistOfSlot(home, d, len);
        }
        return -1, slot;
      } else if entry == TOMBSTONE {
        if slot < 0 {
          slot := i % len;
          DistOfSlot(home, d, len);
        }
      } else if entry >= 0 && keys[entry] == key {
        return i % len, slot;
      }
      NextSlot(i, home, d, len);
      i := i + 1;
      d := d + 1;
    }
  }

  /** The leaf a key's hash is routed to is active and in order, and has an `EMPTY` slot. */
  lemma LeafOfKey<K, V>(s: Store<K, V>, hash: K -> int, noKey: K, nil: V, key: K)
    requires Inv(s, hash, noKey, nil, -1)
    ensures var t := Route(s.tables, 0, hash(key));
      && Active(s.tables, s.parent, t) && !s.tables[t].useSubMaps && LeafOk(s, t, 0)
      && Occupied(s.tables[t].slots) < |s.tables[t].slots|
  {
    RouteActive(s.tables, s.parent, 0, hash(key));
    RouteLeaf(s.tables, s.parent, 0, hash(key));
  }

  /**
   * An entry with the key found in the key's leaf is one of the map's
   * entries, and the one `Find` names.
   */
  lemma FoundEntry<K, V>(s: Store<K, V>, hash: K -> int, noKey: K, nil: V, key: K, slack: int, p: int)
    requires ChainOk(s) && EntriesOk(s, hash, noKey, nil) && |s.tables| >= 1
    requires LeafOk(s, Route(s.tables, 0, hash(key)), slack)
    requires var x := s.tables[Route(s.tables, 0, hash(key))];
      0 <= p < |x.slots| && 0 <= x.slots[p] < |s.keys| && s.keys[x.slots[p]] == key
    ensures var e := s.tables[Route(s.tables, 0, hash(key))].slots[p];
      Live(s, e) && MapSpec.Find(Entries(s), key) == s.pos[e] - 1
  {
    var e := s.tables[Route(s.tables, 0, hash(key))].slots[p];
    assert Entries(s)[s.pos[e] - 1] == (key, s.values[e]);
    MapSpec.FindUnique(Entries(s), key, s.pos[e] - 1);
  }

  /**
   * When no entry with the key is reached by a probe from the key's home
   * slot, the map has no entry for the key.
   */
  lemma NoEntry<K, V>(s: Store<K, V>, hash: K -> int, noKey: K, nil: V, key: K, slack: int)
    requires ChainOk(s) && EntriesOk(s, hash, noKey, nil) && |s.tables| >= 1 && Placed(s)
    requires LeafOk(s, Route(s.tables, 0, hash(key)), slack)
    requires var x := s.tables[Route(s.tables, 0, hash(key))];
      forall q :: 0 <= q < |x.slots| && 0 <= x.slots[q] < |s.keys| && s.keys[x.slots[q]] == key ==>
        !PathFull(x.slots, Home(hash(key), x.keyShift, |x.slots|), q)
    ensures MapSpec.Find(Entries(s), key) == -1
  {
    var i := MapSpec.Find(Entries(s), key);
    if i >= 0 {
      KeyReached(s, hash, noKey, nil, key, slack, i);
      assert false;
    }
  }

  /** The entry for a key the map holds sits in the key's leaf, on a probe path from the key's home slot. */
  lemma KeyReached<K, V>(s: Store<K, V>, hash: K -> int, noKey: K, nil: V, key: K, slack: int, i: int)
    requires ChainOk(s) && EntriesOk(s, hash, noKey, nil) && |s.tables| >= 1 && Placed(s)
    requires LeafOk(s, Route(s.tables, 0, hash(key)), slack)
    requires 0 <= i < s.n && Entries(s)[i].0 == key
    ensures var x, e := s.tables[Route(s.tables, 0, hash(key))], s.chain[i + 1];
      && 0 <= s.where[e] < |x.slots| && x.slots[s.where[e]] == e && 0 <= e < |s.keys| && s.keys[e] == key
      && PathFull(x.slots, Home(hash(key), x.keyShift, |x.slots|), s.where[e])
  {
    var x := s.tables[Route(s.tables, 0, hash(key))];
    var e := s.chain[i + 1];
    PosOfChain(s, i + 1);
    assert s.hashes[e] == hash(key);
    assert Live(s, e);
    assert x.slots[s.where[e]] == e;
  }

  /** A leaf over its load limit that has been brought back within it: the invariant holds with no leaf over. */
  lemma Settled<K, V>(s: Store<K, V>, hash: K -> int, noKey: K, nil: V, t: int)
    requires Inv(s, hash, noKey, nil, t) && 0 <= t < |s.tables|
    requires 2 * (s.tables[t].entryCount + s.tables[t].nullCount) <= |s.tables[t].slots|
    ensures Inv(s, hash, noKey, nil, -1)
  {
  }

  /** Replacing the tables, the parents and the recorded slots leaves the chain and the entries alone. */
  lemma TablesFrame<K, V>(s: Store<K, V>, hash: K -> int, noKey: K, nil: V, T: seq<Table>, P: seq<int>, w: seq<int>)
    requires ChainOk(s) && EntriesOk(s, hash, noKey, nil) && |w| == |s.where|
    ensures ChainOk(s.(tables := T, parent := P, where := w))
    ensures EntriesOk(s.(tables := T, parent := P, where := w), hash, noKey, nil)
    ensures Entries(s.(tables := T, parent := P, where := w)) == Entries(s)
  {
    var s' := s.(tables := T, parent := P, where := w);
    assert Entries(s') == Entries(s);
  }

  /**
   * A leaf whose table did not change stays in order when every entry it
   * holds stays live, keeps its hash, its slot and its route.
   */
  lemma LeafFrame<K, V>(s: Store<K, V>, s': Store<K, V>, c: int, slack: int)
    requires Sized(s) && Sized(s') && 0 <= c < |s.tables| && c < |s'.tables| && LeafOk(s, c, slack)
    requires s'.tables[c] == s.tables[c] && |s'.keys| >= |s.keys|
    requires var x := s.tables[c];
      forall p :: 0 <= p < |x.slots| && x.slots[p] >= 0 ==>
        var e := x.slots[p];
        Live(s', e) && s'.hashes[e] == s.hashes[e] && s'.where[e] == s.where[e]
        && Route(s'.tables, 0, s.hashes[e]) == Route(s.tables, 0, s.hashes[e])
    ensures LeafOk(s', c, slack)
  {
    var x := s.tables[c];
    ReachableSameHashes(x.slots, s.hashes, s'.hashes, x.keyShift);
  }

  /**
   * The tables after `put` of a new key placed entry `e` at `slot` of the
   * leaf hash `h` is routed to: the slot is written and the leaf's entry
   * count grows by one.
   */
  function AddTables(T: seq<Table>, h: int, slot: int, e: int): (T': seq<Table>)
    requires |T| >= 1 && 0 <= slot < |T[Route(T, 0, h)].slots|
    ensures |T'| == |T|
  {
    var t := Route(T, 0, h);
    var x := T[t];
    T[t := x.(slots := x.slots[slot := e], entryCount := x.entryCount + 1)]
  }

  /**
   * `put` of a new key: the tail entry takes the key, the value and the hash
   * and is placed at `slot` of the key's leaf, and `tail` moves on to the
   * next (free) entry.
   */
  function AddEntry<K, V>(s: Store<K, V>, key: K, value: V, h: int, slot: int): Store<K, V>
    requires Sized(s) && 0 <= s.tail < |s.keys| && |s.tables| >= 1
    requires 0 <= slot < |s.tables[Route(s.tables, 0, h)].slots|
  {
    var e := s.tail;
    s.(keys := s.keys[e := key], values := s.values[e := value], hashes := s.hashes[e := h],
       where := s.where[e := slot], n := s.n + 1, tail := s.next[e],
       tables := AddTables(s.tables, h, slot, e))
  }

  /**
   * Adding a new key at a free slot on the probe path from its home keeps
   * the invariant, with the key's leaf possibly over its load limit, and
   * appends the key and the value to the entries.
   */
  lemma AddKeepsInv<K, V>(s: Store<K, V>, hash: K -> int, noKey: K, nil: V, key: K, value: V, slot: int)
    requires Inv(s, hash, noKey, nil, -1) && s.n + 2 < |s.chain|
    requires MapSpec.Find(Entries(s), key) == -1
    requires var x := s.tables[Route(s.tables, 0, hash(key))];
      0 <= slot < |x.slots| && x.slots[slot] < 0 && PathFull(x.slots, Home(hash(key), x.keyShift, |x.slots|), slot)
    ensures 0 <= s.tail < |s.keys|
    ensures Inv(AddEntry(s, key, value, hash(key), slot), hash, noKey, nil, Route(s.tables, 0, hash(key)))
    ensures Entries(AddEntry(s, key, value, hash(key), slot)) == Entries(s) + [(key, value)]
  {
    var h := hash(key);
    PosOfChain(s, s.n + 1);
    AddedChain(s, hash, noKey, nil, key, value, slot);
    AddedTree(s.tables, s.parent, h, slot, s.tail);
    AddedLeaves(s, key, value, h, slot);
    assert forall e :: 0 <= e < |s.pos| && s.pos[e] == s.n + 1 ==> e == s.tail;
    AddedPlaced(s, key, value, h, slot);
  }

  lemma AddedChain<K, V>(s: Store<K, V>, hash: K -> int, noKey: K, nil: V, key: K, value: V, slot: int)
    requires ChainOk(s) && EntriesOk(s, hash, noKey, nil) && s.n + 2 < |s.chain| && |s.tables| >= 1
    requires MapSpec.Find(Entries(s), key) == -1
    requires 0 <= slot < |s.tables[Route(s.tables, 0, hash(key))].slots|
    ensures 0 <= s.tail < |s.keys|
    ensures var s' := AddEntry(s, key, value, hash(key), slot);
      ChainOk(s') && EntriesOk(s', hash, noKey, nil) && Entries(s') == Entries(s) + [(key, value)]
  {
    var s' := AddEntry(s, key, value, hash(key), slot);
    var e := s.tail;
    assert s.next[s.chain[s.n + 1]] == s.chain[s.n + 2];
    assert forall i :: 0 <= i < |s.chain| && i != s.n + 1 ==> s.chain[i] != e;
    assert Entries(s') == Entries(s) + [(key, value)];
  }

  /** Placing an entry in a leaf keeps the tree's shape, routes and active tables, and adds one to the size. */
  lemma AddedTree(T: seq<Table>, P: seq<int>, h: int, slot: int, e: int)
    requires TreeOk(T, P) && 0 <= slot < |T[Route(T, 0, h)].slots|
    ensures var T' := AddTables(T, h, slot, e);
      && TreeOk(T', P) && TreeCount(T', 0) == TreeCount(T, 0) + 1
      && (forall h' :: Route(T', 0, h') == Route(T, 0, h'))
      && (forall c :: 0 <= c < |T| ==> Active(T', P, c) == Active(T, P, c))
  {
    var t := Route(T, 0, h);
    var x := T[t];
    var y := x.(slots := x.slots[slot := e], entryCount := x.entryCount + 1);
    assert AddTables(T, h, slot, e) == T[t := y];
    RouteActive(T, P, 0, h);
    RouteLeaf(T, P, 0, h);
    LeafUpdated(T, P, t, y);
  }

  /**
   * Writing the slots and counts of an active leaf (to a power-of-two
   * length, its sub-map array kept or dropped) keeps the tree's shape, every
   * route and every active table, and changes the size of the map by as
   * much as the leaf's entry count.
   */
  lemma LeafUpdated(T: seq<Table>, P: seq<int>, t: int, y: Table)
    requires TreeOk(T, P) && 0 <= t < |T| && Active(T, P, t) && !T[t].useSubMaps
    requires y.(slots := T[t].slots, entryCount := T[t].entryCount, nullCount := T[t].nullCount, subBase := T[t].subBase) == T[t]
    requires IsPow2(|y.slots|) && (y.subBase == T[t].subBase || y.subBase == -1)
    ensures var T' := T[t := y];
      && TreeOk(T', P) && TreeCount(T', 0) == TreeCount(T, 0) - T[t].entryCount + y.entryCount
      && (forall h' :: Route(T', 0, h') == Route(T, 0, h'))
      && (forall c :: 0 <= c < |T| ==> Active(T', P, c) == Active(T, P, c))
  {
    var T' := T[t := y];
    LeafWriteTreeOk(T, P, t, y);
    BelowRoot(T, P, t);
    TreeCountChange(T, T', P, t, 0);
    forall c | 0 <= c < |T|
      ensures Active(T', P, c) == Active(T, P, c)
    {
      ActiveShapes(T, T', P, c);
    }
  }

  /** After adding, every active leaf is in order, the key's leaf possibly one entry over. */
  lemma AddedLeaves<K, V>(s: Store<K, V>, key: K, value: V, h: int, slot: int)
    requires ChainOk(s) && TreeOk(s.tables, s.parent) && LeavesOk(s, -1) && s.n + 2 < |s.chain|
    requires var x := s.tables[Route(s.tables, 0, h)];
      0 <= slot < |x.slots| && x.slots[slot] < 0 && PathFull(x.slots, Home(h, x.keyShift, |x.slots|), slot)
    requires 0 <= s.tail < |s.pos| && s.pos[s.tail] == s.n + 1
    requires var T' := AddTables(s.tables, h, slot, s.tail);
      && (forall h' :: Route(T', 0, h') == Route(s.tables, 0, h'))
      && (forall c :: 0 <= c < |s.tables| ==> Active(T', s.parent, c) == Active(s.tables, s.parent, c))
    ensures LeavesOk(AddEntry(s, key, value, h, slot), Route(s.tables, 0, h))
  {
    var s' := AddEntry(s, key, value, h, slot);
    var t := Route(s.tables, 0, h);
    forall c | 0 <= c < |s'.tables| && Active(s'.tables, s'.parent, c) && !s'.tables[c].useSubMaps
      ensures LeafOk(s', c, if c == t then 2 else 0)
    {
      if c == t {
        AddedLeaf(s, key, value, h, slot);
      } else {
        assert LeafOk(s, c, 0);
        var x := s.tables[c];
        forall p | 0 <= p < |x.slots| && x.slots[p] >= 0
          ensures var e := x.slots[p];
            Live(s', e) && s'.hashes[e] == s.hashes[e] && s'.where[e] == s.where[e]
            && Route(s'.tables, 0, s.hashes[e]) == Route(s.tables, 0, s.hashes[e])
        {
          assert Live(s, x.slots[p]);
        }
        LeafFrame(s, s', c, 0);
      }
    }
  }

  /** The key's leaf after adding: one more entry, reachable from its home, and at most one entry over. */
  lemma AddedLeaf<K, V>(s: Store<K, V>, key: K, value: V, h: int, slot: int)
    requires Sized(s) && TreeOk(s.tables, s.parent)
    requires LeafOk(s, Route(s.tables, 0, h), 0)
    requires var x := s.tables[Route(s.tables, 0, h)];
      0 <= slot < |x.slots| && x.slots[slot] < 0 && PathFull(x.slots, Home(h, x.keyShift, |x.slots|), slot)
    requires 0 <= s.tail < |s.pos| && s.pos[s.tail] == s.n + 1 && s.n >= 0
    requires forall h' :: Route(AddTables(s.tables, h, slot, s.tail), 0, h') == Route(s.tables, 0, h')
    ensures LeafOk(AddEntry(s, key, value, h, slot), Route(s.tables, 0, h), 2)
  {
    var s' := AddEntry(s, key, value, h, slot);
    var t := Route(s.tables, 0, h);
    var x, e := s.tables[t], s.tail;
    var y := s'.tables[t];
    forall p | 0 <= p < |x.slots| && x.slots[p] >= 0
      ensures x.slots[p] != e && s'.hashes[x.slots[p]] == s.hashes[x.slots[p]]
    {
      assert Live(s, x.slots[p]);
    }
    forall p | 0 <= p < |y.slots| && y.slots[p] >= 0
      ensures Live(s', y.slots[p]) && Route(s'.tables, 0, s'.hashes[y.slots[p]]) == t && s'.where[y.slots[p]] == p
    {
      if p != slot {
        assert Live(s, x.slots[p]);
      }
    }
    WriteCounts(x.slots, slot, e);
    ReachableSameHashes(x.slots, s.hashes, s'.hashes, x.keyShift);
    WriteKeepsReachable(x.slots, s'.hashes, x.keyShift, slot, e);
  }

  /** After adding, every live entry, the new one included, is where `where` says. */
  lemma AddedPlaced<K, V>(s: Store<K, V>, key: K, value: V, h: int, slot: int)
    requires Sized(s) && TreeOk(s.tables, s.parent) && Placed(s) && s.n >= 0
    requires var x := s.tables[Route(s.tables, 0, h)];
      0 <= slot < |x.slots| && x.slots[slot] < 0
    requires 0 <= s.tail < |s.pos| && s.pos[s.tail] == s.n + 1
    requires forall e :: 0 <= e < |s.pos| && s.pos[e] == s.n + 1 ==> e == s.tail
    requires forall h' :: Route(AddTables(s.tables, h, slot, s.tail), 0, h') == Route(s.tables, 0, h')
    ensures Placed(AddEntry(s, key, value, h, slot))
  {
    var s' := AddEntry(s, key, value, h, slot);
    forall e | Live(s', e)
      ensures var x := s'.tables[Route(s'.tables, 0, s'.hashes[e])];
        0 <= s'.where[e] < |x.slots| && x.slots[s'.where[e]] == e
    {
      if e != s.tail {
        assert Live(s, e);
      }
    }
  }

  /**
   * `put` of a key the map holds: the value of its entry is replaced where
   * it stands, and everything else stays as it was.
   */
  lemma SetValueKeepsInv<K, V>(s: Store<K, V>, hash: K -> int, noKey: K, nil: V, over: int, e: int, value: V)
    requires Inv(s, hash, noKey, nil, over) && Live(s, e)
    ensures Inv(s.(values := s.values[e := value]), hash, noKey, nil, over)
    ensures Entries(s.(values := s.values[e := value])) == Entries(s)[s.pos[e] - 1 := (s.keys[e], value)]
  {
    var s' := s.(values := s.values[e := value]);
    SetValueEntries(s, hash, noKey, nil, e, value);
    forall c | 0 <= c < |s'.tables| && Active(s'.tables, s'.parent, c) && !s'.tables[c].useSubMaps
      ensures LeafOk(s', c, if c == over then 2 else 0)
    {
      LeafOfValues(s, s'.values, c, if c == over then 2 else 0);
    }
  }

  lemma SetValueEntries<K, V>(s: Store<K, V>, hash: K -> int, noKey: K, nil: V, e: int, value: V)
    requires ChainOk(s) && EntriesOk(s, hash, noKey, nil) && Live(s, e)
    ensures var s' := s.(values := s.values[e := value]);
      && ChainOk(s') && EntriesOk(s', hash, noKey, nil)
      && Entries(s') == Entries(s)[s.pos[e] - 1 := (s.keys[e], value)]
  {
    var s' := s.(values := s.values[e := value]);
    var es, k := Entries(s), s.pos[e];
    var es' := es[k - 1 := (s.keys[e], value)];
    assert ChainOk(s');
    assert Entries(s') == es' by {
      var r := Entries(s');
      forall i | 0 <= i < s.n
        ensures r[i] == es'[i]
      {
        if i + 1 != k {
          PosOfChain(s, i + 1);
        }
      }
    }
    assert MapSpec.DistinctKeys(es') by {
      MapSpec.FindUnique(es, s.keys[e], k - 1);
      MapSpec.PutShape(es, s.keys[e], value);
    }
    forall i | 0 <= i < |s.chain| && (i == 0 || s.n < i)
      ensures s'.values[s.chain[i]] == nil
    {
      PosOfChain(s, i);
    }
  }

  /** The leaves do not depend on the values. */
  lemma LeafOfValues<K, V>(s: Store<K, V>, values: seq<V>, c: int, slack: int)
    requires Sized(s) && |values| == |s.keys| && 0 <= c < |s.tables| && LeafOk(s, c, slack)
    ensures LeafOk(s.(values := values), c, slack)
  {
  }

  /** The chain position after `remove` moved the entry at position `k` right behind the tail. */
  function DeletePos(i: int, k: int, n: int): int
  {
    if i < k then i else if i == k then n + 1 else if i <= n + 1 then i - 1 else i
  }

  /** The chain after `remove` of the entry at position `k`: it is unlinked and goes right after the tail. */
  function RemovedChain(chain: seq<int>, k: int, n: int): (r: seq<int>)
    requires 1 <= k <= n && n + 2 <= |chain|
    ensures |r| == |chain|
  {
    chain[..k] + chain[k + 1..n + 2] + [chain[k]] + chain[n + 2..]
  }

  /**
   * `remove` of the entry at slot `p` of the leaf hash `h` is routed to:
   * its key and value are cleared, it is unlinked and given back to the pool
   * (the links being `next'` and `prev'`), the slot becomes a tombstone, the
   * leaf counts one more tombstone and one entry less.
   */
  function RemoveEntry<K, V>(s: Store<K, V>, noKey: K, nil: V, h: int, p: int, next': seq<int>, prev': seq<int>): Store<K, V>
    requires Sized(s) && 0 <= s.n && s.n + 2 <= |s.chain| && |s.tables| >= 1
    requires var x := s.tables[Route(s.tables, 0, h)];
      0 <= p < |x.slots| && 0 <= x.slots[p] < |s.keys| && 1 <= s.pos[x.slots[p]] <= s.n
  {
    var t := Route(s.tables, 0, h);
    var x := s.tables[t];
    var e := x.slots[p];
    var k := s.pos[e];
    s.(keys := s.keys[e := noKey], values := s.values[e := nil], next := next', prev := prev',
       chain := RemovedChain(s.chain, k, s.n),
       pos := seq(|s.pos|, i requires 0 <= i < |s.pos| => DeletePos(s.pos[i], k, s.n)),
       n := s.n - 1, tables := RemoveTables(s.tables, h, p))
  }

  /**
   * The tables after `remove` of the entry at slot `p` of the leaf hash `h`
   * is routed to: the slot becomes a tombstone, the leaf counts one more
   * tombstone and one entry less.
   */
  function RemoveTables(T: seq<Table>, h: int, p: int): (T': seq<Table>)
    requires |T| >= 1 && 0 <= p < |T[Route(T, 0, h)].slots|
    ensures |T'| == |T|
  {
    var t := Route(T, 0, h);
    var x := T[t];
    T[t := x.(slots := x.slots[p := TOMBSTONE], nullCount := x.nullCount + 1, entryCount := x.entryCount - 1)]
  }

  /** Moving back from the chain after `remove` to the chain before it. */
  lemma DeletePosSource(i: int, k: int, n: int)
    requires 1 <= k <= n
    ensures DeleteSource(DeletePos(i, k, n), k, n) == i
  {
  }

  /**
   * Removing the entry for a key the map holds keeps the invariant and
   * removes that key's entry from the entries, the others keeping their order.
   */
  lemma RemoveKeepsInv<K, V>(s: Store<K, V>, hash: K -> int, noKey: K, nil: V, key: K, p: int,
                             next': seq<int>, prev': seq<int>)
    requires Inv(s, hash, noKey, nil, -1)
    requires var x := s.tables[Route(s.tables, 0, hash(key))];
      0 <= p < |x.slots| && 0 <= x.slots[p] < |s.keys| && s.keys[x.slots[p]] == key
    requires var e := s.tables[Route(s.tables, 0, hash(key))].slots[p];
      && 1 <= s.pos[e] <= s.n
      && |next'| == |s.next| && |prev'| == |s.prev| && NodeChains.Linked(next', prev', RemovedChain(s.chain, s.pos[e], s.n))
    ensures Inv(RemoveEntry(s, noKey, nil, hash(key), p, next', prev'), hash, noKey, nil, -1)
    ensures Entries(RemoveEntry(s, noKey, nil, hash(key), p, next', prev')) == MapSpec.Remove(Entries(s), key)
  {
    var h := hash(key);
    var t := Route(s.tables, 0, h);
    LeafOfKey(s, hash, noKey, nil, key);
    FoundEntry(s, hash, noKey, nil, key, 0, p);
    RemovedChainOk(s, hash, noKey, nil, h, p, next', prev');
    var x := s.tables[t];
    RemovedTree(s.tables, s.parent, h, p);
    RemovedLeaves(s, noKey, nil, h, p, next', prev');
    RemovedPlaced(s, noKey, nil, h, p, next', prev');
    var k := s.pos[x.slots[p]];
    assert MapSpec.Remove(Entries(s), key) == ListSpec.RemoveSlice(Entries(s), k - 1, k);
  }

  /** Turning a slot of a leaf into a tombstone keeps the tree's shape, routes and active tables, and takes one from the size. */
  lemma RemovedTree(T: seq<Table>, P: seq<int>, h: int, p: int)
    requires TreeOk(T, P) && 0 <= p < |T[Route(T, 0, h)].slots|
    ensures var T' := RemoveTables(T, h, p);
      && TreeOk(T', P) && TreeCount(T', 0) == TreeCount(T, 0) - 1
      && (forall h' :: Route(T', 0, h') == Route(T, 0, h'))
      && (forall c :: 0 <= c < |T| ==> Active(T', P, c) == Active(T, P, c))
  {
    var t := Route(T, 0, h);
    var x := T[t];
    var y := x.(slots := x.slots[p := TOMBSTONE], nullCount := x.nullCount + 1, entryCount := x.entryCount - 1);
    assert RemoveTables(T, h, p) == T[t := y];
    RouteActive(T, P, 0, h);
    RouteLeaf(T, P, 0, h);
    LeafUpdated(T, P, t, y);
  }

  lemma RemovedChainOk<K, V>(s: Store<K, V>, hash: K -> int, noKey: K, nil: V, h: int, p: int,
                             next': seq<int>, prev': seq<int>)
    requires ChainOk(s) && EntriesOk(s, hash, noKey, nil) && |s.tables| >= 1
    requires var x := s.tables[Route(s.tables, 0, h)];
      0 <= p < |x.slots| && 0 <= x.slots[p] < |s.keys| && 1 <= s.pos[x.slots[p]] <= s.n
    requires var e := s.tables[Route(s.tables, 0, h)].slots[p];
      |next'| == |s.next| && |prev'| == |s.prev| && NodeChains.Linked(next', prev', RemovedChain(s.chain, s.pos[e], s.n))
    ensures var s', e := RemoveEntry(s, noKey, nil, h, p, next', prev'), s.tables[Route(s.tables, 0, h)].slots[p];
      && ChainOk(s') && EntriesOk(s', hash, noKey, nil)
      && Entries(s') == ListSpec.RemoveSlice(Entries(s), s.pos[e] - 1, s.pos[e])
  {
    var s' := RemoveEntry(s, noKey, nil, h, p, next', prev');
    var e := s.tables[Route(s.tables, 0, h)].slots[p];
    var k := s.pos[e];
    assert s.chain[k] == e;
    assert Deleted(s, s', k, noKey, nil);
    DeletedChainOk(s, s', k, noKey, nil);
    DeletedEntries(s, s', k, hash, noKey, nil);
  }

  /** `s'` is `s` after the entry at chain position `k` was removed (the tables aside). */
  ghost predicate Deleted<K, V>(s: Store<K, V>, s': Store<K, V>, k: int, noKey: K, nil: V)
  {
    && Sized(s) && Sized(s') && 1 <= k <= s.n && s.n + 2 <= |s.chain| && |s'.keys| == |s.keys|
    && s'.chain == RemovedChain(s.chain, k, s.n) && s'.n == s.n - 1
    && s'.head == s.head && s'.tail == s.tail && s'.hashes == s.hashes
    && 0 <= s.chain[k] < |s.keys|
    && s'.keys == s.keys[s.chain[k] := noKey] && s'.values == s.values[s.chain[k] := nil]
    && forall x :: 0 <= x < |s.pos| ==> s'.pos[x] == DeletePos(s.pos[x], k, s.n)
  }

  lemma DeletedChainOk<K, V>(s: Store<K, V>, s': Store<K, V>, k: int, noKey: K, nil: V)
    requires ChainOk(s) && Deleted(s, s', k, noKey, nil) && NodeChains.Linked(s'.next, s'.prev, s'.chain)
    ensures ChainOk(s')
  {
    var n := s.n;
    DeletedChain(s.chain, n, k, s'.chain);
    forall x | 0 <= x < |s'.pos|
      ensures 0 <= s'.pos[x] < |s'.chain| && s'.chain[s'.pos[x]] == x
    {
      DeletePosSource(s.pos[x], k, n);
    }
  }

  lemma DeletedEntries<K, V>(s: Store<K, V>, s': Store<K, V>, k: int, hash: K -> int, noKey: K, nil: V)
    requires ChainOk(s) && EntriesOk(s, hash, noKey, nil) && Deleted(s, s', k, noKey, nil) && ChainOk(s')
    ensures EntriesOk(s', hash, noKey, nil)
    ensures Entries(s') == ListSpec.RemoveSlice(Entries(s), k - 1, k)
  {
    var es := Entries(s);
    DeletedList(s, s', k, noKey, nil);
    assert MapSpec.DistinctKeys(Entries(s')) by {
      MapSpec.GetAfterRemove(es, es[k - 1].0, es[k - 1].0, nil);
      MapSpec.FindUnique(es, es[k - 1].0, k - 1);
    }
    DeletedCached(s, s', k, hash, noKey, nil);
  }

  lemma DeletedList<K, V>(s: Store<K, V>, s': Store<K, V>, k: int, noKey: K, nil: V)
    requires ChainOk(s) && Deleted(s, s', k, noKey, nil) && ChainOk(s')
    ensures Entries(s') == ListSpec.RemoveSlice(Entries(s), k - 1, k)
  {
    var n := s.n;
    var es, r := Entries(s), Entries(s');
    DeletedChain(s.chain, n, k, s'.chain);
    forall j | 0 <= j < |r|
      ensures r[j] == (if j < k - 1 then es[j] else es[j + 1])
    {
      PosOfChain(s, DeleteSource(j + 1, k, n));
    }
    ListSpec.RemoveSlicePointwise(r, es, k - 1, k);
  }

  lemma DeletedCached<K, V>(s: Store<K, V>, s': Store<K, V>, k: int, hash: K -> int, noKey: K, nil: V)
    requires ChainOk(s) && EntriesOk(s, hash, noKey, nil) && Deleted(s, s', k, noKey, nil) && ChainOk(s')
    ensures forall i :: 1 <= i <= s'.n ==> s'.hashes[s'.chain[i]] == hash(s'.keys[s'.chain[i]])
    ensures forall i :: 0 <= i < |s'.chain| && (i == 0 || s'.n < i) ==>
      s'.keys[s'.chain[i]] == noKey && s'.values[s'.chain[i]] == nil
  {
    var n := s.n;
    DeletedChain(s.chain, n, k, s'.chain);
    forall i | 0 <= i < |s'.chain|
      ensures 1 <= i <= n - 1 ==> s'.hashes[s'.chain[i]] == hash(s'.keys[s'.chain[i]])
      ensures i == 0 || n - 1 < i ==> s'.keys[s'.chain[i]] == noKey && s'.values[s'.chain[i]] == nil
    {
      var j := DeleteSource(i, k, n);
      PosOfChain(s, j);
      if i != n + 1 {
        assert s.chain[j] != s.chain[k];
      }
    }
  }

  /** After removing, every active leaf is in order. */
  lemma RemovedLeaves<K, V>(s: Store<K, V>, noKey: K, nil: V, h: int, p: int, next': seq<int>, prev': seq<int>)
    requires ChainOk(s) && TreeOk(s.tables, s.parent) && LeavesOk(s, -1) && |s.tables| >= 1
    requires |next'| == |s.next| && |prev'| == |s.prev|
    requires var t := Route(s.tables, 0, h);
      && Active(s.tables, s.parent, t) && !s.tables[t].useSubMaps
      && 0 <= p < |s.tables[t].slots| && 0 <= s.tables[t].slots[p] < |s.keys| && 1 <= s.pos[s.tables[t].slots[p]] <= s.n
    requires var T' := RemoveEntry(s, noKey, nil, h, p, next', prev').tables;
      && (forall h' :: Route(T', 0, h') == Route(s.tables, 0, h'))
      && (forall c :: 0 <= c < |s.tables| ==> Active(T', s.parent, c) == Active(s.tables, s.parent, c))
    ensures LeavesOk(RemoveEntry(s, noKey, nil, h, p, next', prev'), -1)
  {
    var s' := RemoveEntry(s, noKey, nil, h, p, next', prev');
    var t := Route(s.tables, 0, h);
    var e := s.tables[t].slots[p];
    assert LeafOk(s, t, 0);
    forall c | 0 <= c < |s'.tables| && Active(s'.tables, s'.parent, c) && !s'.tables[c].useSubMaps
      ensures LeafOk(s', c, 0)
    {
      if c == t {
        RemovedLeaf(s, noKey, nil, h, p, next', prev');
      } else {
        RemovedOtherLeaf(s, noKey, nil, h, p, next', prev', c);
      }
    }
  }

  /** After removing, an active leaf other than the one the entry was in is in order as before. */
  lemma RemovedOtherLeaf<K, V>(s: Store<K, V>, noKey: K, nil: V, h: int, p: int, next': seq<int>, prev': seq<int>, c: int)
    requires ChainOk(s) && TreeOk(s.tables, s.parent) && LeavesOk(s, -1) && |s.tables| >= 1
    requires |next'| == |s.next| && |prev'| == |s.prev|
    requires var t := Route(s.tables, 0, h);
      && Active(s.tables, s.parent, t) && !s.tables[t].useSubMaps
      && 0 <= p < |s.tables[t].slots| && 0 <= s.tables[t].slots[p] < |s.keys| && 1 <= s.pos[s.tables[t].slots[p]] <= s.n
    requires var T' := RemoveEntry(s, noKey, nil, h, p, next', prev').tables;
      && (forall h' :: Route(T', 0, h') == Route(s.tables, 0, h'))
      && (forall c :: 0 <= c < |s.tables| ==> Active(T', s.parent, c) == Active(s.tables, s.parent, c))
    requires 0 <= c < |s.tables| && c != Route(s.tables, 0, h) && Active(s.tables, s.parent, c) && !s.tables[c].useSubMaps
    ensures LeafOk(RemoveEntry(s, noKey, nil, h, p, next', prev'), c, 0)
  {
    var s' := RemoveEntry(s, noKey, nil, h, p, next', prev');
    var e := s.tables[Route(s.tables, 0, h)].slots[p];
    assert LeafOk(s, c, 0);
    var x := s.tables[c];
    forall q | 0 <= q < |x.slots| && x.slots[q] >= 0
      ensures var f := x.slots[q];
        Live(s', f) && s'.hashes[f] == s.hashes[f] && s'.where[f] == s.where[f]
        && Route(s'.tables, 0, s.hashes[f]) == Route(s.tables, 0, s.hashes[f])
    {
      var f := x.slots[q];
      assert Live(s, f) && f != e;
    }
    LeafFrame(s, s', c, 0);
  }

  /** The leaf after removing: one entry less and one tombstone more, the slots in use unchanged. */
  lemma RemovedLeaf<K, V>(s: Store<K, V>, noKey: K, nil: V, h: int, p: int, next': seq<int>, prev': seq<int>)
    requires ChainOk(s) && |s.tables| >= 1 && LeafOk(s, Route(s.tables, 0, h), 0)
    requires |next'| == |s.next| && |prev'| == |s.prev|
    requires var t := Route(s.tables, 0, h);
      0 <= p < |s.tables[t].slots| && 0 <= s.tables[t].slots[p] < |s.keys| && 1 <= s.pos[s.tables[t].slots[p]] <= s.n
    requires forall h' :: Route(RemoveEntry(s, noKey, nil, h, p, next', prev').tables, 0, h') == Route(s.tables, 0, h')
    ensures LeafOk(RemoveEntry(s, noKey, nil, h, p, next', prev'), Route(s.tables, 0, h), 0)
  {
    var s' := RemoveEntry(s, noKey, nil, h, p, next', prev');
    var t := Route(s.tables, 0, h);
    var x := s.tables[t];
    var e := x.slots[p];
    var y := s'.tables[t];
    forall q | 0 <= q < |y.slots| && y.slots[q] >= 0
      ensures Live(s', y.slots[q]) && Route(s'.tables, 0, s'.hashes[y.slots[q]]) == t && s'.where[y.slots[q]] == q
    {
      assert Live(s, x.slots[q]) && x.slots[q] != e;
    }
    WriteCounts(x.slots, p, TOMBSTONE);
    WriteKeepsReachable(x.slots, s.hashes, x.keyShift, p, TOMBSTONE);
  }

  /** After removing, every live entry is still where `where` says. */
  lemma RemovedPlaced<K, V>(s: Store<K, V>, noKey: K, nil: V, h: int, p: int, next': seq<int>, prev': seq<int>)
    requires ChainOk(s) && |s.tables| >= 1 && Placed(s)
    requires |next'| == |s.next| && |prev'| == |s.prev|
    requires var t := Route(s.tables, 0, h);
      0 <= p < |s.tables[t].slots| && 0 <= s.tables[t].slots[p] < |s.keys| && 1 <= s.pos[s.tables[t].slots[p]] <= s.n
    requires forall h' :: Route(RemoveEntry(s, noKey, nil, h, p, next', prev').tables, 0, h') == Route(s.tables, 0, h')
    ensures Placed(RemoveEntry(s, noKey, nil, h, p, next', prev'))
  {
    var s' := RemoveEntry(s, noKey, nil, h, p, next', prev');
    var e := s.tables[Route(s.tables, 0, h)].slots[p];
    forall f | Live(s', f)
      ensures var x := s'.tables[Route(s'.tables, 0, s'.hashes[f])];
        0 <= s'.where[f] < |x.slots| && x.slots[s'.where[f]] == f
    {
      assert Live(s, f) && f != e;
    }
  }

  /**
   * One entry of `createNewEntries`: a fresh entry with no key and no value
   * is linked after the last entry of the chain, joining the free entries.
   */
  function AppendEntry<K, V>(s: Store<K, V>, noKey: K, nil: V): Store<K, V>
    requires ChainOk(s)
  {
    var x, last := |s.keys|, s.chain[|s.chain| - 1];
    s.(keys := s.keys + [noKey], values := s.values + [nil], hashes := s.hashes + [0],
       next := (s.next + [NIL])[last := x], prev := (s.prev + [NIL])[x := last],
       chain := s.chain + [x], pos := s.pos + [|s.chain|], where := s.where + [0])
  }

  /** A new free entry keeps the invariant and the entries. */
  lemma AppendKeepsInv<K, V>(s: Store<K, V>, hash: K -> int, noKey: K, nil: V, over: int)
    requires Inv(s, hash, noKey, nil, over)
    ensures Inv(AppendEntry(s, noKey, nil), hash, noKey, nil, over)
    ensures Entries(AppendEntry(s, noKey, nil)) == Entries(s)
    ensures var s' := AppendEntry(s, noKey, nil); s'.n == s.n && s'.tail == s.tail && |s'.chain| == |s.chain| + 1
  {
    AppendedLinks(s, noKey, nil);
    AppendedEntries(s, hash, noKey, nil);
    var s' := AppendEntry(s, noKey, nil);
    forall c | 0 <= c < |s'.tables| && Active(s'.tables, s'.parent, c) && !s'.tables[c].useSubMaps
      ensures LeafOk(s', c, if c == over then 2 else 0)
    {
      AppendedLeaf(s, noKey, nil, c, if c == over then 2 else 0);
    }
    forall e | Live(s', e)
      ensures var x := s'.tables[Route(s'.tables, 0, s'.hashes[e])];
        0 <= s'.where[e] < |x.slots| && x.slots[s'.where[e]] == e
    {
      assert Live(s, e);
    }
  }

  lemma AppendedLinks<K, V>(s: Store<K, V>, noKey: K, nil: V)
    requires ChainOk(s)
    ensures ChainOk(AppendEntry(s, noKey, nil))
  {
    AppendLinked(s.next, s.prev, s.chain);
  }

  lemma AppendedEntries<K, V>(s: Store<K, V>, hash: K -> int, noKey: K, nil: V)
    requires ChainOk(s) && EntriesOk(s, hash, noKey, nil) && ChainOk(AppendEntry(s, noKey, nil))
    ensures var s' := AppendEntry(s, noKey, nil);
      EntriesOk(s', hash, noKey, nil) && Entries(s') == Entries(s)
  {
    var s' := AppendEntry(s, noKey, nil);
    assert Entries(s') == Entries(s) by {
      var r, es := Entries(s'), Entries(s);
      forall i | 0 <= i < s.n
        ensures r[i] == es[i]
      {
        PosOfChain(s, i + 1);
      }
    }
    forall i | 0 <= i < |s'.chain| && (i == 0 || s.n < i)
      ensures s'.keys[s'.chain[i]] == noKey && s'.values[s'.chain[i]] == nil
    {
      if i < |s.chain| {
        PosOfChain(s, i);
      }
    }
    forall i | 1 <= i <= s.n
      ensures s'.hashes[s'.chain[i]] == hash(s'.keys[s'.chain[i]])
    {
      PosOfChain(s, i);
    }
  }

  lemma AppendedLeaf<K, V>(s: Store<K, V>, noKey: K, nil: V, c: int, slack: int)
    requires ChainOk(s) && 0 <= c < |s.tables| && LeafOk(s, c, slack)
    ensures LeafOk(AppendEntry(s, noKey, nil), c, slack)
  {
    var s' := AppendEntry(s, noKey, nil);
    var x := s.tables[c];
    forall q | 0 <= q < |x.slots| && x.slots[q] >= 0
      ensures var e := x.slots[q];
        Live(s', e) && s'.hashes[e] == s.hashes[e] && s'.where[e] == s.where[e]
        && Route(s'.tables, 0, s.hashes[e]) == Route(s.tables, 0, s.hashes[e])
    {
      assert Live(s, x.slots[q]);
    }
    LeafFrame(s, s', c, slack);
  }

  /**
   * The store after `clear()`: no entry holds a key or a value, the chain is
   * kept for reuse with `tail` right after `head`, and the tables are `T'`.
   */
  function ClearStore<K, V>(s: Store<K, V>, noKey: K, nil: V, T': seq<Table>): Store<K, V>
    requires ChainOk(s)
  {
    s.(keys := ListSpec.Repeat(noKey, |s.keys|), values := ListSpec.Repeat(nil, |s.values|),
       tail := s.chain[1], n := 0, tables := T')
  }

  /**
   * The loop of `clear()`: from the entry after `head` up to `tail`, the key
   * and the value of each entry are cleared.  Since the other entries hold
   * none, no entry holds a key or a value afterwards.
   */
  method ClearEntries<K, V>(keys0: seq<K>, values0: seq<V>, next: seq<int>, head: int, tail: int, noKey: K, nil: V,
                            ghost s: Store<K, V>, ghost hash: K -> int) returns (keys: seq<K>, values: seq<V>)
    requires ChainOk(s) && EntriesOk(s, hash, noKey, nil)
    requires keys0 == s.keys && values0 == s.values && next == s.next && head == s.head && tail == s.tail
    ensures keys == ListSpec.Repeat(noKey, |s.keys|) && values == ListSpec.Repeat(nil, |s.values|)
  {
    keys, values := keys0, values0;
    var e := next[head];
    ghost var i := 1;
    while e != tail
      invariant 1 <= i <= s.n + 1 && e == s.chain[i]
      invariant |keys| == |s.keys| && |values| == |s.values|
      invariant forall x :: 0 <= x < |keys| ==> keys[x] == if 1 <= s.pos[x] < i then noKey else s.keys[x]
      invariant forall x :: 0 <= x < |values| ==> values[x] == if 1 <= s.pos[x] < i then nil else s.values[x]
      decreases s.n + 1 - i
    {
      PosOfChain(s, i);
      if i == s.n + 1 {
        assert false;
      }
      keys, values := keys[e := noKey], values[e := nil];
      e := next[e];
      i := i + 1;
    }
    PosOfChain(s, i);
    PosOfChain(s, s.n + 1);
    forall x | 0 <= x < |keys|
      ensures keys[x] == noKey && values[x] == nil
    {
      PosOfChain(s, s.pos[x]);
    }
  }

  /** Clearing every table and every entry leaves an empty map that keeps the invariant. */
  lemma ClearKeepsInv<K, V>(s: Store<K, V>, hash: K -> int, noKey: K, nil: V, T': seq<Table>)
    requires Inv(s, hash, noKey, nil, -1)
    requires |T'| == |s.tables|
    requires forall c :: 0 <= c < |s.tables| ==> T'[c] == if Below(s.parent, c, 0) then Cleared(s.tables[c]) else s.tables[c]
    ensures Inv(ClearStore(s, noKey, nil, T'), hash, noKey, nil, -1)
    ensures Entries(ClearStore(s, noKey, nil, T')) == []
  {
    var T, P := s.tables, s.parent;
    var s' := ClearStore(s, noKey, nil, T');
    ClearedTree(T, P, T');
    assert ChainOk(s') by {
      assert s.next[s.chain[0]] == s.chain[1];
    }
    forall c | 0 <= c < |T'| && Active(T', P, c) && !T'[c].useSubMaps
      ensures LeafOk(s', c, 0)
    {
      ClearedLeaf(s', T[c], c);
    }
  }

  /** Clearing every table keeps the tree's shape and leaves nothing in it. */
  lemma ClearedTree(T: seq<Table>, P: seq<int>, T': seq<Table>)
    requires TreeOk(T, P) && |T'| == |T|
    requires forall c :: 0 <= c < |T| ==> T'[c] == if Below(P, c, 0) then Cleared(T[c]) else T[c]
    ensures TreeOk(T', P) && TreeCount(T', 0) == 0
    ensures forall c :: 0 <= c < |T| ==> T'[c] == Cleared(T[c])
  {
    forall c | 0 <= c < |T|
      ensures T'[c] == Cleared(T[c])
    {
      BelowRoot(T, P, c);
    }
    var all := set c | 0 <= c < |T| && Below(P, c, 0);
    ClearedTreeOk(T, P, all, T');
    ClearedCount(T, P, T');
  }

  /** A cleared table whose length is a power of two is a leaf in order holding nothing. */
  lemma ClearedLeaf<K, V>(s: Store<K, V>, x: Table, c: int)
    requires Sized(s) && 0 <= c < |s.tables| && s.tables[c] == Cleared(x) && IsPow2(|x.slots|)
    ensures LeafOk(s, c, 0)
  {
    var len := |x.slots|;
    var k: nat :| Pow2(k) == len;
    CountsOfEmpty(len);
    EmptyReachable(len, s.hashes, x.keyShift);
  }

  /**
   * The store `setup` starts from, before the free entries are added: a
   * root table of `len` empty slots, and the chain of `head` and `tail`.
   */
  function InitialStore<K, V>(len: int, noKey: K, nil: V): Store<K, V>
  {
    Store([noKey, noKey], [nil, nil], [0, 0], [1, NIL], [NIL, 0], 0, 1,
          [Table(ListSpec.Repeat(EMPTY, if len < 0 then 0 else len), 0, 0, 0, false, -1)],
          [0, 1], [0, 1], 0, [0, 0], [0])
  }

  /** The starting store is an empty map that keeps the invariant. */
  lemma InitialInv<K, V>(len: int, hash: K -> int, noKey: K, nil: V)
    requires IsPow2(len)
    ensures Inv(InitialStore(len, noKey, nil), hash, noKey, nil, -1)
    ensures Entries(InitialStore(len, noKey, nil)) == []
  {
    var s := InitialStore(len, noKey, nil);
    var k: nat :| Pow2(k) == len;
    assert NodeChains.Linked(s.next, s.prev, s.chain);
    assert TreeOk(s.tables, s.parent);
    assert TreeCount(s.tables, 0) == 0;
    ClearedLeaf(s, s.tables[0], 0);
  }
}
