/**
 * FastMap itself: the `_head`/`_tail` chain of entries, the tables of the
 * map and of its sub-maps, and the operations of java.util.Map on them,
 * each proved against the reference definitions of MapSpec on the map's
 * entries in insertion order.  Its key/value/entry iterators and its
 * unmodifiable view follow.
 *
 * Entries are indices into the arena sequences `keys`, `values`, `hashes`,
 * `next` and `prev` (the `_key`, `_value`, `_keyHash`, `_next` and
 * `_previous` fields of the Java `Entry` objects); `NIL` is the `null`
 * link.  The tables of the map and of its sub-maps are the arena `tables`,
 * the root map being table 0 (see SubMaps).  The key given as `noKey` and
 * the value given as `nil` stand for `null`; `hash` is the keys' `hashCode()`
 * and keys are compared with `==` (the default key comparator).  The model
 * is that of a map that is not shared.
 */
module FastMaps {
  import opened JavaLang
  import opened NodeChains
  import opened HashSlots
  import opened SubMaps
  import opened MapStores
  import opened MapResizes
  import MapSpec
  import ListSpec

  /** Initial table capacity (C0): `setup` doubles it until it reaches the capacity asked for. */
  const C0: int := 16

  /** Capacity of `new FastMap()`. */
  const DEFAULT_CAPACITY: int := 4

  /** Entries `createNewEntries` adds to the pool at a time. */
  const NEW_ENTRIES: int := 8

  /** The live entry `e` holds the mapping of its key, at its position in the entries. */
  lemma LiveEntry<K, V>(s: Store<K, V>, hash: K -> int, noKey: K, nil: V, e: int)
    requires ChainOk(s) && EntriesOk(s, hash, noKey, nil) && Live(s, e)
    ensures Entries(s)[s.pos[e] - 1] == (s.keys[e], s.values[e])
    ensures MapSpec.Find(Entries(s), s.keys[e]) == s.pos[e] - 1
    ensures MapSpec.Get(Entries(s), s.keys[e], nil) == s.values[e]
  {
    assert s.chain[s.pos[e]] == e;
    MapSpec.FindUnique(Entries(s), s.keys[e], s.pos[e] - 1);
  }

  /**
   * The relinking of `remove`: entry `e`, at position `k` of the chain, is
   * detached from its neighbours and linked back in right after `tail`, as
   * the first free entry.
   */
  method Recycle(next: seq<int>, prev: seq<int>, e: int, tail: int, ghost chain: seq<int>, ghost n: int, ghost k: int)
    returns (next': seq<int>, prev': seq<int>)
    requires NodeChains.Linked(next, prev, chain) && 1 <= k <= n && n + 2 <= |chain|
    requires chain[k] == e && chain[n + 1] == tail
    ensures |next'| == |next| && |prev'| == |prev|
    ensures NodeChains.Linked(next', prev', RemovedChain(chain, k, n))
  {
    LastOfChain(next, prev, chain, n + 1);
    assert prev[e] == chain[k - 1] && next[e] == chain[k + 1];
    assert n + 2 < |chain| ==> next[tail] == chain[n + 2];
    next', prev' := next, prev;
    // Detaches the entry from the list.
    var previous, following := prev'[e], next'[e];
    next' := next'[previous := following];
    prev' := prev'[following := previous];
    // Recycles it after the tail.
    var nx := next'[tail];
    prev' := prev'[e := tail];
    next' := next'[e := nx];
    next' := next'[tail := e];
    if nx != NIL {
      prev' := prev'[nx := e];
    }
    DeleteLinked(next, prev, chain, n, k, next', prev');
  }

  /**
   * What placing a new key at `slot` gives, stated on the store `s'` that
   * results: its fields, its invariant with the key's leaf possibly over
   * its load limit, and its entries.
   */
  lemma PlacedKey<K, V>(s: Store<K, V>, hash: K -> int, noKey: K, nil: V, key: K, value: V, slot: int)
    requires Inv(s, hash, noKey, nil, -1) && !MapSpec.ContainsKey(Entries(s), noKey)
    requires key != noKey && s.n + 2 < |s.chain| && MapSpec.Find(Entries(s), key) == -1
    requires var x := s.tables[Route(s.tables, 0, hash(key))];
      0 <= slot < |x.slots| && x.slots[slot] < 0 && PathFull(x.slots, Home(hash(key), x.keyShift, |x.slots|), slot)
    ensures 0 <= s.tail < |s.keys| == |s.values| == |s.hashes| == |s.next|
    ensures var t := Route(s.tables, 0, hash(key));
      var s' := AddEntry(s, key, value, hash(key), slot);
      && s'.keys == s.keys[s.tail := key] && s'.values == s.values[s.tail := value]
      && s'.hashes == s.hashes[s.tail := hash(key)] && s'.next == s.next && s'.prev == s.prev
      && s'.head == s.head && s'.tail == s.next[s.tail]
      && s'.tables == AddTables(s.tables, hash(key), slot, s.tail)
      && Inv(s', hash, noKey, nil, t) && !MapSpec.ContainsKey(Entries(s'), noKey)
      && Entries(s') == Entries(s) + [(key, value)]
      && 0 <= t < |s'.tables| && Active(s'.tables, s'.parent, t) && !s'.tables[t].useSubMaps
      && Live(s', s.tail) && s'.keys[s.tail] == key && s'.values[s.tail] == value
  {
    LeafOfKey(s, hash, noKey, nil, key);
    AddKeepsInv(s, hash, noKey, nil, key, value, slot);
    AddedTree(s.tables, s.parent, hash(key), slot, s.tail);
    PosOfChain(s, s.n + 1);
    MapSpec.ContainsAfterPut(Entries(s), key, value, noKey);
  }

  /**
   * What `remove` of the key at slot `p` of its leaf gives, stated on the
   * store that results: its invariant, its entries and its chain.
   */
  lemma UnlinkedKey<K, V>(s: Store<K, V>, hash: K -> int, noKey: K, nil: V, key: K, p: int,
                          next': seq<int>, prev': seq<int>)
    requires Inv(s, hash, noKey, nil, -1) && !MapSpec.ContainsKey(Entries(s), noKey)
    requires var x := s.tables[Route(s.tables, 0, hash(key))];
      0 <= p < |x.slots| && 0 <= x.slots[p] < |s.keys| && s.keys[x.slots[p]] == key
    requires var e := s.tables[Route(s.tables, 0, hash(key))].slots[p];
      && Live(s, e)
      && |next'| == |s.next| && |prev'| == |s.prev| && NodeChains.Linked(next', prev', RemovedChain(s.chain, s.pos[e], s.n))
    ensures Sized(s) && 0 <= s.n && s.n + 2 <= |s.chain| && |s.tables| >= 1
    ensures var x := s.tables[Route(s.tables, 0, hash(key))];
      0 <= p < |x.slots| && 0 <= x.slots[p] < |s.keys| && 1 <= s.pos[x.slots[p]] <= s.n
    ensures var s' := RemoveEntry(s, noKey, nil, hash(key), p, next', prev');
      && Inv(s', hash, noKey, nil, -1) && !MapSpec.ContainsKey(Entries(s'), noKey)
      && Entries(s') == MapSpec.Remove(Entries(s), key)
      && MapSpec.Find(Entries(s), key) == s.pos[s.tables[Route(s.tables, 0, hash(key))].slots[p]] - 1
  {
    var e := s.tables[Route(s.tables, 0, hash(key))].slots[p];
    LiveEntry(s, hash, noKey, nil, e);
    RemoveKeepsInv(s, hash, noKey, nil, key, p, next', prev');
    MapSpec.ContainsAfterRemove(Entries(s), key, noKey);
  }

  /** The fields of the store after `remove` of the entry at slot `p` of the leaf hash `h` is routed to. */
  lemma RemovedFields<K, V>(s: Store<K, V>, noKey: K, nil: V, h: int, p: int, next': seq<int>, prev': seq<int>)
    requires Sized(s) && 0 <= s.n && s.n + 2 <= |s.chain| && |s.tables| >= 1
    requires var x := s.tables[Route(s.tables, 0, h)];
      0 <= p < |x.slots| && 0 <= x.slots[p] < |s.keys| && 1 <= s.pos[x.slots[p]] <= s.n
    ensures var t := Route(s.tables, 0, h);
      var x := s.tables[t];
      var e := x.slots[p];
      var s' := RemoveEntry(s, noKey, nil, h, p, next', prev');
      && s'.keys == s.keys[e := noKey] && s'.values == s.values[e := nil] && s'.hashes == s.hashes
      && s'.next == next' && s'.prev == prev' && s'.head == s.head && s'.tail == s.tail
      && s'.tables == RemoveTables(s.tables, h, p)
      && s'.chain == RemovedChain(s.chain, s.pos[e], s.n) && s'.n == s.n - 1
  {
  }

  class FastMap<K(==), V(==)> {
    /** `hashCode()` of the keys. */
    const hash: K -> int
    /** The `null` key, held by the head and the free entries. */
    const noKey: K
    /** The `null` value. */
    const nil: V

    var keys: seq<K>
    var values: seq<V>
    var hashes: seq<int>
    var next: seq<int>
    var prev: seq<int>
    var head: int
    var tail: int
    var tables: seq<Table>

    ghost var Chain: seq<int>
    ghost var Pos: seq<int>
    ghost var N: int
    ghost var Where: seq<int>
    ghost var Parent: seq<int>

    /** The state of the map as a value. */
    ghost function S(): Store<K, V>
      reads this
    {
      Store(keys, values, hashes, next, prev, head, tail, tables, Chain, Pos, N, Where, Parent)
    }

    /** The invariant of MapStores with no leaf over its load limit, and no entry for the `null` key. */
    ghost predicate Valid()
      reads this
    {
      Inv(S(), hash, noKey, nil, -1) && !MapSpec.ContainsKey(MapStores.Entries(S()), noKey)
    }

    /** The mappings of the map, in insertion order. */
    ghost function Entries(): (r: seq<(K, V)>)
      reads this
      requires Valid()
      ensures MapSpec.DistinctKeys(r)
    {
      MapStores.Entries(S())
    }

    /** The entries in the pool after `tail`, ready for new mappings. */
    ghost function Free(): int
      reads this
    {
      |Chain| - N - 2
    }

    /**
     * `FastMap(capacity)` and `setup(capacity)`: a root table of twice the
     * smallest power of two from C0 on that reaches `capacity`, and
     * `capacity` free entries chained after `head` and `tail`.
     */
    constructor (capacity: int, hash: K -> int, noKey: K, nil: V)
      ensures this.hash == hash && this.noKey == noKey && this.nil == nil
      ensures Valid() && Entries() == []
      ensures Free() == if capacity < 0 then 0 else capacity
      ensures |tables| == 1 && IsPow2(|tables[0].slots|)
      ensures var len := |tables[0].slots|; len >= 2 * C0 && len >= 2 * capacity && (len == 2 * C0 || len < 4 * capacity)
    {
      this.hash, this.noKey, this.nil := hash, noKey, nil;
      var tableLength := C0;
      ghost var b: nat := 4;
      while tableLength < capacity
        invariant tableLength == Pow2(b) >= C0
        invariant tableLength == C0 || tableLength < 2 * capacity
        decreases capacity - tableLength
      {
        tableLength := tableLength * 2;
        b := b + 1;
      }
      assert Pow2(b + 1) == tableLength * 2;
      keys, values, hashes := [noKey, noKey], [nil, nil], [0, 0];
      next, prev := [1, NIL], [NIL, 0];
      head, tail := 0, 1;
      tables := [Table(ListSpec.Repeat(EMPTY, tableLength * 2), 0, 0, 0, false, -1)];
      Chain, Pos, N, Where, Parent := [0, 1], [0, 1], 0, [0, 0], [0];
      new;
      InitialInv(tableLength * 2, hash, noKey, nil);
      assert S() == InitialStore(tableLength * 2, noKey, nil);
      var previous := tail;
      var i := 0;
      while i < capacity
        invariant Valid() && Entries() == [] && |tables| == 1 && |tables[0].slots| == tableLength * 2
        invariant 0 <= i && (i <= capacity || i == 0) && Free() == i
        invariant previous == Chain[|Chain| - 1]
      {
        previous := AppendFree(previous);
        i := i + 1;
      }
    }

    /** `new FastMap()`: the default capacity. */
    static method Create(hash: K -> int, noKey: K, nil: V) returns (m: FastMap<K, V>)
      ensures fresh(m) && m.hash == hash && m.noKey == noKey && m.nil == nil
      ensures m.Valid() && m.Entries() == [] && m.Free() == DEFAULT_CAPACITY
    {
      m := new FastMap(DEFAULT_CAPACITY, hash, noKey, nil);
    }

    /** `newEntry()` linked after `last`, the last entry of the chain: one more free entry. */
    method AppendFree(last: int) returns (x: int)
      requires Valid() && last == Chain[|Chain| - 1]
      modifies this
      ensures Valid() && Entries() == old(Entries())
      ensures x == Chain[|Chain| - 1] && Chain == old(Chain) + [x] && Free() == old(Free()) + 1
      ensures tables == old(tables) && Parent == old(Parent) && head == old(head) && tail == old(tail) && N == old(N)
    {
      ghost var s := S();
      x := |keys|;
      AppendKeepsInv(s, hash, noKey, nil, -1);
      SetState(keys + [noKey], values + [nil], hashes + [0], (next + [NIL])[last := x], (prev + [NIL])[x := last],
               head, tail, tables, AppendEntry(s, noKey, nil));
    }

    /**
     * Every field of the map set at once to the state `s'` (the fields are
     * written in three groups, each of which leaves the others as they are).
     */
    method SetState(keys': seq<K>, values': seq<V>, hashes': seq<int>, next': seq<int>, prev': seq<int>,
                    head': int, tail': int, tables': seq<Table>, ghost s': Store<K, V>)
      requires keys' == s'.keys && values' == s'.values && hashes' == s'.hashes && next' == s'.next && prev' == s'.prev
      requires head' == s'.head && tail' == s'.tail && tables' == s'.tables
      modifies this
      ensures S() == s'
    {
      SetEntries(keys', values', hashes', next', prev');
      SetTables(head', tail', tables');
      SetBook(s'.chain, s'.pos, s'.n, s'.where, s'.parent);
    }

    /** The fields of the entries. */
    method SetEntries(keys': seq<K>, values': seq<V>, hashes': seq<int>, next': seq<int>, prev': seq<int>)
      modifies this
      ensures keys == keys' && values == values' && hashes == hashes' && next == next' && prev == prev'
      ensures head == old(head) && tail == old(tail) && tables == old(tables)
      ensures Chain == old(Chain) && Pos == old(Pos) && N == old(N) && Where == old(Where) && Parent == old(Parent)
    {
      keys, values, hashes, next, prev := keys', values', hashes', next', prev';
    }

    /** The ends of the chain and the tables. */
    method SetTables(head': int, tail': int, tables': seq<Table>)
      modifies this
      ensures head == head' && tail == tail' && tables == tables'
      ensures keys == old(keys) && values == old(values) && hashes == old(hashes) && next == old(next) && prev == old(prev)
      ensures Chain == old(Chain) && Pos == old(Pos) && N == old(N) && Where == old(Where) && Parent == old(Parent)
    {
      head, tail, tables := head', tail', tables';
    }

    /** The ghost bookkeeping. */
    method SetBook(ghost chain': seq<int>, ghost pos': seq<int>, ghost n': int, ghost where': seq<int>, ghost parent': seq<int>)
      modifies this
      ensures Chain == chain' && Pos == pos' && N == n' && Where == where' && Parent == parent'
      ensures keys == old(keys) && values == old(values) && hashes == old(hashes) && next == old(next) && prev == old(prev)
      ensures head == old(head) && tail == old(tail) && tables == old(tables)
    {
      Chain, Pos, N, Where, Parent := chain', pos', n', where', parent';
    }

    /** `createNewEntries()`: eight free entries chained after `tail`, the last entry. */
    method CreateNewEntries()
      requires Valid() && next[tail] == NIL
      modifies this
      ensures Valid() && Entries() == old(Entries())
      ensures Free() == old(Free()) + NEW_ENTRIES && next[tail] != NIL
      ensures tables == old(tables) && Parent == old(Parent) && head == old(head) && tail == old(tail) && N == old(N)
    {
      LastOfChain(next, prev, Chain, N + 1);
      var previous := tail;
      var i := 0;
      while i < NEW_ENTRIES
        invariant 0 <= i <= NEW_ENTRIES && Valid() && Entries() == old(Entries())
        invariant |Chain| == old(|Chain|) + i && previous == Chain[|Chain| - 1]
        invariant tables == old(tables) && Parent == old(Parent) && head == old(head) && tail == old(tail) && N == old(N)
      {
        previous := AppendFree(previous);
        i := i + 1;
      }
      LastOfChain(next, prev, Chain, N + 1);
    }

    /**
     * `getEntry(key, keyHash)`: the probe of the sub-map the hash is routed
     * to, from the key's home slot until the entry or an `EMPTY` slot.
     */
    method EntryOf(key: K, h: int) returns (e: int)
      requires Valid() && h == hash(key)
      ensures e == NIL <==> !MapSpec.ContainsKey(Entries(), key)
      ensures e != NIL ==> Live(S(), e) && keys[e] == key && values[e] == MapSpec.Get(Entries(), key, nil)
    {
      var t := SubMapOf(tables, 0, h);
      GetSubMapRoute(tables, Parent, h);
      LeafOfKey(S(), hash, noKey, nil, key);
      var x := tables[t];
      var p := Lookup(x.slots, keys, key, h, x.keyShift);
      if p < 0 {
        NoEntry(S(), hash, noKey, nil, key, 0);
        return NIL;
      }
      e := x.slots[p];
      FoundEntry(S(), hash, noKey, nil, key, 0, p);
      LiveEntry(S(), hash, noKey, nil, e);
    }

    /** `getEntry(key)`: the entry for the key, or `null`. */
    method GetEntry(key: K) returns (r: Result<int>)
      requires Valid()
      ensures r.Throw? <==> key == noKey
      ensures r.Throw? ==> r.ex == NullPointer
      ensures r.Ok? ==> (r.value == NIL <==> !MapSpec.ContainsKey(Entries(), key))
      ensures r.Ok? && r.value != NIL ==>
        Live(S(), r.value) && keys[r.value] == key && values[r.value] == MapSpec.Get(Entries(), key, nil)
    {
      if key == noKey {
        return Throw(NullPointer);
      }
      var e := EntryOf(key, hash(key));
      return Ok(e);
    }

    /** `get(key)`: the value the key is mapped to, or `null`. */
    method Get(key: K) returns (r: Result<V>)
      requires Valid()
      ensures r.Throw? <==> key == noKey
      ensures r.Throw? ==> r.ex == NullPointer
      ensures r.Ok? ==> r.value == MapSpec.Get(Entries(), key, nil)
    {
      if key == noKey {
        return Throw(NullPointer);
      }
      var e := EntryOf(key, hash(key));
      return Ok(if e != NIL then values[e] else nil);
    }

    /** `containsKey(key)`: whether `getEntry(key)` finds an entry. */
    method ContainsKey(key: K) returns (r: Result<bool>)
      requires Valid()
      ensures r.Throw? <==> key == noKey
      ensures r.Throw? ==> r.ex == NullPointer
      ensures r.Ok? ==> r.value == MapSpec.ContainsKey(Entries(), key)
    {
      if key == noKey {
        return Throw(NullPointer);
      }
      var e := EntryOf(key, hash(key));
      return Ok(e != NIL);
    }

    /** `containsValue(value)`: a walk of the values from `head` to `tail`. */
    method ContainsValue(value: V) returns (b: bool)
      requires Valid()
      ensures b <==> exists i :: 0 <= i < |Entries()| && Entries()[i].1 == value
    {
      var e := next[head];
      ghost var i := 1;
      while e != tail
        invariant 1 <= i <= N + 1 && e == Chain[i]
        invariant forall j :: 0 <= j < i - 1 ==> Entries()[j].1 != value
        decreases N + 1 - i
      {
        if values[e] == value {
          assert Entries()[i - 1].1 == value;
          return true;
        }
        e := next[e];
        i := i + 1;
      }
      return false;
    }

    /** `size()`: the entry count of the map, or the sum of its sub-maps' sizes. */
    method Size() returns (n: int)
      requires Valid()
      ensures n == |Entries()|
    {
      n := SizeOf(tables, Parent, 0);
    }

    /** `isEmpty()`: whether `tail` follows `head`. */
    method IsEmpty() returns (b: bool)
      requires Valid()
      ensures b <==> Entries() == []
    {
      b := next[head] == tail;
      assert Chain[1] == Chain[N + 1] ==> N == 0;
    }

    /** `put(key, value)`: the key is mapped to the value; returns the value it had, or `null`. */
    method Put(key: K, value: V) returns (r: Result<V>)
      requires Valid()
      modifies this
      ensures Valid()
      ensures r.Throw? <==> key == noKey
      ensures r.Throw? ==> r.ex == NullPointer && Entries() == old(Entries())
      ensures r.Ok? ==> r.value == MapSpec.Get(old(Entries()), key, nil) && Entries() == MapSpec.Put(old(Entries()), key, value)
      ensures r.Ok? ==> MapSpec.Get(Entries(), key, nil) == value
    {
      if key == noKey {
        return Throw(NullPointer);
      }
      var e, previous := PutKey(key, hash(key), value, false);
      return Ok(previous);
    }

    /** `putIfAbsent(key, value)`: a key the map holds keeps its value, which is returned; a new key is mapped to the value. */
    method PutIfAbsent(key: K, value: V) returns (r: Result<V>)
      requires Valid()
      modifies this
      ensures Valid()
      ensures r.Throw? <==> key == noKey
      ensures r.Throw? ==> r.ex == NullPointer && Entries() == old(Entries())
      ensures r.Ok? ==> r.value == MapSpec.Get(old(Entries()), key, nil)
      ensures r.Ok? ==> Entries() == MapSpec.PutIfAbsent(old(Entries()), key, value)
    {
      if key == noKey {
        return Throw(NullPointer);
      }
      var e, previous := PutKey(key, hash(key), value, true);
      return Ok(previous);
    }

    /** `putEntry(key, value)`: as `put`, returning the entry of the key. */
    method PutEntry(key: K, value: V) returns (r: Result<int>)
      requires Valid()
      modifies this
      ensures Valid()
      ensures r.Throw? <==> key == noKey
      ensures r.Throw? ==> r.ex == NullPointer && Entries() == old(Entries())
      ensures r.Ok? ==> Entries() == MapSpec.Put(old(Entries()), key, value)
      ensures r.Ok? ==> Live(S(), r.value) && keys[r.value] == key && values[r.value] == value
    {
      if key == noKey {
        return Throw(NullPointer);
      }
      var e, previous := PutKey(key, hash(key), value, false);
      return Ok(e);
    }

    /**
     * `putAll(map)`: `put` of each mapping of `from`, in order.  A `null`
     * key throws, the mappings before it having been put.
     */
    method PutAll(from: seq<(K, V)>) returns (r: Result<()>)
      requires Valid()
      modifies this
      ensures Valid()
      ensures r.Throw? <==> MapSpec.ContainsKey(from, noKey)
      ensures r.Ok? ==> Entries() == MapSpec.PutAll(old(Entries()), from)
      ensures r.Throw? ==> r.ex == NullPointer && Entries() == MapSpec.PutAll(old(Entries()), from[..MapSpec.Find(from, noKey)])
    {
      ghost var es := Entries();
      var i := 0;
      while i < |from|
        invariant 0 <= i <= |from| && Valid()
        invariant Entries() == MapSpec.PutAll(es, from[..i])
        invariant !MapSpec.ContainsKey(from[..i], noKey)
      {
        MapSpec.PutAllStep(es, from, i, noKey);
        var res := Put(from[i].0, from[i].1);
        if res.Throw? {
          return Throw(NullPointer);
        }
        i := i + 1;
      }
      assert from[..i] == from;
      return Ok(());
    }

    /** `remove(key)`: the mapping of the key is taken out; returns the value it had, or `null`. */
    method Remove(key: K) returns (r: Result<V>)
      requires Valid()
      modifies this
      ensures Valid() && head == old(head) && tail == old(tail)
      ensures r.Throw? <==> key == noKey
      ensures r.Throw? ==> r.ex == NullPointer && Entries() == old(Entries())
      ensures r.Ok? ==> r.value == MapSpec.Get(old(Entries()), key, nil) && Entries() == MapSpec.Remove(old(Entries()), key)
      ensures r.Ok? && MapSpec.ContainsKey(old(Entries()), key) ==>
        Chain == RemovedChain(old(Chain), MapSpec.Find(old(Entries()), key) + 1, old(N)) && N == old(N) - 1
      ensures !(r.Ok? && MapSpec.ContainsKey(old(Entries()), key)) ==> Chain == old(Chain) && N == old(N)
    {
      if key == noKey {
        return Throw(NullPointer);
      }
      var t, p, slot := ProbeKey(key, hash(key));
      if p < 0 {
        return Ok(nil);
      }
      var previous := Unlink(key, t, p);
      return Ok(previous);
    }

    /**
     * The found branch of the private `remove`: the entry at slot `p` of
     * leaf `t` is detached and recycled right after `tail` with its key and
     * value cleared, and its slot becomes a tombstone.
     */
    method Unlink(key: K, t: int, p: int) returns (previous: V)
      requires Valid() && t == Route(tables, 0, hash(key)) && 0 <= t < |tables| && 0 <= p < |tables[t].slots|
      requires var e := tables[t].slots[p]; Live(S(), e) && keys[e] == key
      modifies this
      ensures Valid() && head == old(head) && tail == old(tail) && N == old(N) - 1
      ensures previous == MapSpec.Get(old(Entries()), key, nil) && Entries() == MapSpec.Remove(old(Entries()), key)
      ensures Chain == RemovedChain(old(Chain), MapSpec.Find(old(Entries()), key) + 1, old(N))
    {
      ghost var s := S();
      var x := tables[t];
      var e := x.slots[p];
      LiveEntry(s, hash, noKey, nil, e);
      previous := values[e];
      var next', prev' := Detach(e);
      UnlinkedKey(s, hash, noKey, nil, key, p, next', prev');
      RemovedFields(s, noKey, nil, hash(key), p, next', prev');
      SetState(keys[e := noKey], values[e := nil], hashes, next', prev', head, tail, RemoveTables(tables, hash(key), p),
               RemoveEntry(s, noKey, nil, hash(key), p, next', prev'));
    }

    /** The links of the entries once the live entry `e` is detached and recycled right after `tail`. */
    method Detach(e: int) returns (next': seq<int>, prev': seq<int>)
      requires Valid() && Live(S(), e)
      ensures |next'| == |next| && |prev'| == |prev|
      ensures NodeChains.Linked(next', prev', RemovedChain(Chain, Pos[e], N))
    {
      next', prev' := Recycle(next, prev, e, tail, Chain, N, Pos[e]);
    }

    /**
     * `clear()`: the keys and values of the entries from `head` to `tail`
     * are cleared, `tail` moves back right after `head` (the entries stay
     * in the pool), and the tables are cleared.
     */
    method Clear()
      requires Valid()
      modifies this
      ensures Valid() && Entries() == []
      ensures Chain == old(Chain) && Free() == old(Free()) + old(|Entries()|)
    {
      ghost var s := S();
      var keys', values' := ClearEntries(keys, values, next, head, tail, noKey, nil, s, hash);
      var T' := ClearTables(tables, Parent, 0);
      ClearKeepsInv(s, hash, noKey, nil, T');
      assert next[head] == Chain[1];
      SetState(keys', values', hashes, next, prev, head, next[head], T', ClearStore(s, noKey, nil, T'));
    }

    /** `writeObject`: the size, then the key and the value of each entry from `head` to `tail`. */
    method WriteObject() returns (size: int, pairs: seq<(K, V)>)
      requires Valid()
      ensures size == |pairs| && pairs == Entries()
    {
      size := Size();
      pairs := [];
      var e := next[head];
      ghost var i := 1;
      while e != tail
        invariant 1 <= i <= N + 1 && e == Chain[i]
        invariant pairs == Entries()[..i - 1]
        decreases N + 1 - i
      {
        pairs := pairs + [(keys[e], values[e])];
        e := next[e];
        i := i + 1;
      }
      assert Chain[i] == Chain[N + 1] ==> i == N + 1;
    }

    /** `FastMap(map)`: a map of the capacity `from` needs, then `putAll(from)`. */
    static method OfMap(from: seq<(K, V)>, hash: K -> int, noKey: K, nil: V) returns (r: Result<FastMap<K, V>>)
      ensures r.Throw? <==> MapSpec.ContainsKey(from, noKey)
      ensures r.Throw? ==> r.ex == NullPointer
      ensures r.Ok? ==> fresh(r.value) && r.value.hash == hash && r.value.noKey == noKey && r.value.nil == nil
      ensures r.Ok? ==> r.value.Valid() && r.value.Entries() == MapSpec.PutAll([], from)
      ensures r.Ok? && MapSpec.DistinctKeys(from) ==> r.value.Entries() == from
    {
      var m := new FastMap(|from|, hash, noKey, nil);
      var res := m.PutAll(from);
      if res.Throw? {
        return Throw(res.ex);
      }
      if MapSpec.DistinctKeys(from) {
        MapSpec.ReplayEntries(from);
      }
      return Ok(m);
    }

    /**
     * `readObject`: a map set up for the `size` read, then `put` of that
     * many key/value pairs read from the stream (of which `pairs` is the
     * rest).  What `writeObject` wrote reads back as the same map.  A
     * stream that ends early throws end-of-file, unless a `null` key read
     * before its end makes `put` throw first.
     */
    static method ReadObject(size: int, pairs: seq<(K, V)>, hash: K -> int, noKey: K, nil: V)
      returns (r: Result<FastMap<K, V>>)
      ensures size > |pairs| && !MapSpec.ContainsKey(pairs, noKey) <==> r.Throw? && r.ex == EndOfFile
      ensures size > |pairs| && MapSpec.ContainsKey(pairs, noKey) ==> r.Throw? && r.ex == NullPointer
      ensures 0 <= size <= |pairs| ==>
        (r.Throw? <==> MapSpec.ContainsKey(pairs[..size], noKey)) &&
        (r.Ok? ==> fresh(r.value) && r.value.Valid() && r.value.Entries() == MapSpec.PutAll([], pairs[..size]))
      ensures size < 0 ==> r.Ok? && fresh(r.value) && r.value.Valid() && r.value.Entries() == []
      ensures size == |pairs| && MapSpec.DistinctKeys(pairs) && !MapSpec.ContainsKey(pairs, noKey) ==>
        r.Ok? && r.value.Entries() == pairs
    {
      if size > |pairs| {
        if MapSpec.ContainsKey(pairs, noKey) {
          return Throw(NullPointer);
        }
        return Throw(EndOfFile);
      }
      var n := if size < 0 then 0 else size;
      r := OfMap(pairs[..n], hash, noKey, nil);
      assert size == |pairs| ==> pairs[..n] == pairs;
    }

    /** `unmodifiable()`: a read-only view of this owner. */
    method Unmodifiable() returns (u: UnmodifiableMap<K, V>)
      ensures fresh(u) && u.owner == this
    {
      u := new UnmodifiableMap(this);
    }

    /** `Entry.setValue(value)` on the live entry `e`: the mapping keeps its place and takes the value; the old one is returned. */
    method SetValue(e: int, value: V) returns (previous: V)
      requires Valid() && Live(S(), e)
      modifies this
      ensures Valid() && Live(S(), e) && keys[e] == old(keys[e]) && values[e] == value && previous == old(values[e])
      ensures Entries() == MapSpec.Put(old(Entries()), old(keys[e]), value)
    {
      ghost var s := S();
      LiveEntry(s, hash, noKey, nil, e);
      SetValueKeepsInv(s, hash, noKey, nil, -1, e, value);
      MapSpec.ContainsAfterPut(Entries(), keys[e], value, noKey);
      previous := values[e];
      SetState(keys, values[e := value], hashes, next, prev, head, tail, tables, s.(values := s.values[e := value]));
    }

    /**
     * The probe loop of the private `put`: in the leaf `t` the hash is
     * routed to, the slot `p` of the entry holding the key, or else (`p`
     * negative) the first `null` or tombstone slot on the key's probe path.
     */
    method ProbeKey(key: K, h: int) returns (t: int, p: int, slot: int)
      requires Valid() && h == hash(key)
      ensures t == Route(tables, 0, h) && 0 <= t < |tables|
      ensures -1 <= p < |tables[t].slots|
      ensures p >= 0 ==> var e := tables[t].slots[p];
        && Live(S(), e) && keys[e] == key && MapSpec.Find(Entries(), key) == Pos[e] - 1
      ensures p < 0 ==> MapSpec.Find(Entries(), key) == -1
      ensures p < 0 ==> var x := tables[t];
        0 <= slot < |x.slots| && x.slots[slot] < 0 && PathFull(x.slots, Home(h, x.keyShift, |x.slots|), slot)
    {
      t := SubMapOf(tables, 0, h);
      GetSubMapRoute(tables, Parent, h);
      LeafOfKey(S(), hash, noKey, nil, key);
      var x := tables[t];
      p, slot := PutProbe(x.slots, keys, key, h, x.keyShift);
      if p >= 0 {
        FoundEntry(S(), hash, noKey, nil, key, 0, p);
      } else {
        NoEntry(S(), hash, noKey, nil, key, 0);
      }
    }

    /**
     * The private `put(key, value, keyHash, …, noReplace, returnEntry)`:
     * an entry holding the key takes the value unless `noReplace`;
     * otherwise the key takes the entry at `tail`.  Returns the entry and
     * the value the key had (`null` when it had none).
     */
    method PutKey(key: K, h: int, value: V, noReplace: bool) returns (e: int, previous: V)
      requires Valid() && h == hash(key) && key != noKey
      modifies this
      ensures Valid() && previous == MapSpec.Get(old(Entries()), key, nil)
      ensures Entries() ==
        if noReplace then MapSpec.PutIfAbsent(old(Entries()), key, value) else MapSpec.Put(old(Entries()), key, value)
      ensures Live(S(), e) && keys[e] == key && values[e] == MapSpec.Get(Entries(), key, nil)
      ensures !noReplace ==> values[e] == value
    {
      var t, p, slot := ProbeKey(key, h);
      if p >= 0 {
        e := tables[t].slots[p];
        LiveEntry(S(), hash, noKey, nil, e);
        if noReplace {
          return e, values[e];
        }
        previous := SetValue(e, value);
      } else {
        previous := nil;
        e := AddNew(key, h, value, t, slot);
      }
      LiveEntry(S(), hash, noKey, nil, e);
    }

    /**
     * `put` of a key the map does not hold: the entry at `tail` (after
     * `createNewEntries()` when it is the last one) is placed at `slot`; a
     * leaf then more than half taken by entries and tombstones is resized.
     */
    method AddNew(key: K, h: int, value: V, t: int, slot: int) returns (e: int)
      requires Valid() && h == hash(key) && key != noKey && t == Route(tables, 0, h)
      requires MapSpec.Find(Entries(), key) == -1
      requires var x := tables[t];
        0 <= slot < |x.slots| && x.slots[slot] < 0 && PathFull(x.slots, Home(h, x.keyShift, |x.slots|), slot)
      modifies this
      ensures Valid() && Entries() == old(Entries()) + [(key, value)]
      ensures Live(S(), e) && keys[e] == key && values[e] == value
    {
      if next[tail] == NIL {
        CreateNewEntries();
      }
      LastOfChain(next, prev, Chain, N + 1);
      e := Place(key, h, value, t, slot);
      var y := tables[t];
      if y.entryCount + y.nullCount > |y.slots| / 2 {
        ResizeTable(t);
      } else {
        Settled(S(), hash, noKey, nil, t);
      }
    }

    /**
     * The entry at `tail` takes the key, the value and the hash and goes
     * into `slot` of the key's leaf `t`, and `tail` moves on to the next
     * entry; the leaf may then be over its load limit.
     */
    method Place(key: K, h: int, value: V, t: int, slot: int) returns (e: int)
      requires Valid() && h == hash(key) && key != noKey && t == Route(tables, 0, h) && N + 2 < |Chain|
      requires MapSpec.Find(Entries(), key) == -1
      requires var x := tables[t];
        0 <= slot < |x.slots| && x.slots[slot] < 0 && PathFull(x.slots, Home(h, x.keyShift, |x.slots|), slot)
      modifies this
      ensures Inv(S(), hash, noKey, nil, t) && !MapSpec.ContainsKey(MapStores.Entries(S()), noKey)
      ensures MapStores.Entries(S()) == old(Entries()) + [(key, value)]
      ensures 0 <= t < |tables| && Active(tables, Parent, t) && !tables[t].useSubMaps
      ensures Live(S(), e) && keys[e] == key && values[e] == value
    {
      ghost var s := S();
      PlacedKey(s, hash, noKey, nil, key, value, slot);
      e := tail;
      SetState(keys[e := key], values[e := value], hashes[e := h], next, prev, head, next[e], AddTables(tables, h, slot, e),
               AddEntry(s, key, value, h, slot));
    }

    /** `resizeTable()` of the leaf `t` the last `put` left more than half taken. */
    method ResizeTable(t: int)
      requires Inv(S(), hash, noKey, nil, t) && 0 <= t < |tables| && Active(tables, Parent, t) && !tables[t].useSubMaps
      requires 2 * (tables[t].entryCount + tables[t].nullCount) > |tables[t].slots|
      requires !MapSpec.ContainsKey(MapStores.Entries(S()), noKey)
      modifies this
      ensures Valid() && Entries() == old(MapStores.Entries(S()))
      ensures keys == old(keys) && values == old(values) && Chain == old(Chain) && Pos == old(Pos) && N == old(N)
    {
      ghost var s := S();
      var T', P', w := ResizeLeaf(tables, hashes, t, s, hash, noKey, nil);
      SetState(keys, values, hashes, next, prev, head, tail, T', s.(tables := T', parent := P', where := w));
    }
  }

  /**
   * The view `unmodifiable()` returns: the queries are those of the map,
   * the updates throw `UnsupportedOperationException` and change nothing.
   */
  class UnmodifiableMap<K(==), V(==)> {
    const owner: FastMap<K, V>

    constructor (owner: FastMap<K, V>)
      ensures this.owner == owner
    {
      this.owner := owner;
    }

    method Size() returns (n: int)
      requires owner.Valid()
      ensures n == |owner.Entries()|
    {
      n := owner.Size();
    }

    method IsEmpty() returns (b: bool)
      requires owner.Valid()
      ensures b <==> owner.Entries() == []
    {
      b := owner.IsEmpty();
    }

    method ContainsKey(key: K) returns (r: Result<bool>)
      requires owner.Valid()
      ensures r.Throw? <==> key == owner.noKey
      ensures r.Ok? ==> r.value == MapSpec.ContainsKey(owner.Entries(), key)
    {
      r := owner.ContainsKey(key);
    }

    method ContainsValue(value: V) returns (b: bool)
      requires owner.Valid()
      ensures b <==> exists i :: 0 <= i < |owner.Entries()| && owner.Entries()[i].1 == value
    {
      b := owner.ContainsValue(value);
    }

    method Get(key: K) returns (r: Result<V>)
      requires owner.Valid()
      ensures r.Throw? <==> key == owner.noKey
      ensures r.Ok? ==> r.value == MapSpec.Get(owner.Entries(), key, owner.nil)
    {
      r := owner.Get(key);
    }

    /** `put`, `putAll`, `remove`, `clear` and `entrySet` of the view: each throws. */
    method Put(key: K, value: V) returns (r: Result<V>)
      ensures r == Throw(UnsupportedOperation)
    {
      return Throw(UnsupportedOperation);
    }

    method PutAll(from: seq<(K, V)>) returns (r: Result<()>)
      ensures r == Throw(UnsupportedOperation)
    {
      return Throw(UnsupportedOperation);
    }

    method Remove(key: K) returns (r: Result<V>)
      ensures r == Throw(UnsupportedOperation)
    {
      return Throw(UnsupportedOperation);
    }

    method Clear() returns (r: Result<()>)
      ensures r == Throw(UnsupportedOperation)
    {
      return Throw(UnsupportedOperation);
    }

    method EntrySet() returns (r: Result<()>)
      ensures r == Throw(UnsupportedOperation)
    {
      return Throw(UnsupportedOperation);
    }
  }

  /**
   * One step along the chain from position `i` of an entry: the next link,
   * the entry being live, and the mappings from there on starting with its
   * own; the tail is at no other position.
   */
  lemma ChainStep<K, V>(s: Store<K, V>, i: int)
    requires ChainOk(s) && 1 <= i <= s.n + 1
    ensures s.chain[i] == s.chain[s.n + 1] <==> i == s.n + 1
    ensures i <= s.n ==> 0 <= s.chain[i] < |s.next| && s.next[s.chain[i]] == s.chain[i + 1] && Live(s, s.chain[i])
    ensures i <= s.n ==> Entries(s)[i - 1..] == [(s.keys[s.chain[i]], s.values[s.chain[i]])] + Entries(s)[i..]
  {
    PosOfChain(s, i);
    PosOfChain(s, s.n + 1);
    if i <= s.n {
      assert Entries(s)[i - 1..] == [Entries(s)[i - 1]] + Entries(s)[i..];
    }
  }

  /** After `remove` of the mapping at position `k - 1`, the mappings from that position on are those after it. */
  lemma RemovedRest<K, V>(es: seq<(K, V)>, key: K, k: int)
    requires 1 <= k <= |es| && MapSpec.Find(es, key) == k - 1
    ensures MapSpec.Remove(es, key)[k - 1..] == es[k..]
  {
    assert (es[..k - 1] + es[k..])[k - 1..] == es[k..];
  }

  /** After `remove` of the entry at position `k` of the chain, its successor stands at that position. */
  lemma RemovedChainAt(chain: seq<int>, k: int, n: int)
    requires 1 <= k <= n && n + 2 <= |chain|
    ensures RemovedChain(chain, k, n)[k] == chain[k + 1]
  {
  }

  /**
   * What `remove()` of an iterator relies on, for the entry at position `k`
   * of the chain: its successor, its key (not the `null` one) found at
   * position `k - 1`, and the mappings and the chain after its removal
   * continuing with its successor at that position.
   */
  lemma RemovedCurrent<K, V>(s: Store<K, V>, hash: K -> int, noKey: K, nil: V, k: int)
    requires Inv(s, hash, noKey, nil, -1) && !MapSpec.ContainsKey(Entries(s), noKey) && 1 <= k <= s.n
    ensures var e := s.chain[k];
      && 0 <= e < |s.next| && s.next[e] == s.chain[k + 1] && Live(s, e)
      && s.keys[e] != noKey && MapSpec.ContainsKey(Entries(s), s.keys[e])
      && MapSpec.Find(Entries(s), s.keys[e]) + 1 == k
      && MapSpec.Remove(Entries(s), s.keys[e])[k - 1..] == Entries(s)[k..]
      && RemovedChain(s.chain, k, s.n)[k] == s.chain[k + 1]
  {
    var e := s.chain[k];
    ChainStep(s, k);
    LiveEntry(s, hash, noKey, nil, e);
    RemovedRest(Entries(s), s.keys[e], k);
    RemovedChainAt(s.chain, k, s.n);
  }

  /**
   * The iterators of the key set, the values and the entry set
   * (`KeyIterator`, `ValueIterator`, `EntryIterator`, which differ only in
   * what `next()` returns): from the entry after `head` up to the `tail`
   * the map had when the iterator was created.
   */
  class MapIterator<K(==), V(==)> {
    const owner: FastMap<K, V>
    /** `_current`: the entry `next()` returned last, `NIL` when there is none to remove. */
    var current: int
    /** `_next`: the entry `next()` returns. */
    var nextEntry: int
    /** `_tail`. */
    const end: int
    /** The position of `nextEntry` in the map's chain. */
    ghost var Index: int

    ghost predicate Valid()
      reads this, owner
    {
      && owner.Valid() && end == owner.tail
      && 1 <= Index <= owner.N + 1 && nextEntry == owner.Chain[Index]
      && (current == NIL || (2 <= Index && current == owner.Chain[Index - 1]))
    }

    /** The mappings still to be returned, in order. */
    ghost function Rest(): seq<(K, V)>
      reads this, owner
      requires Valid()
    {
      owner.Entries()[Index - 1..]
    }

    /** `valueOf(owner)`: an iterator at the first entry. */
    constructor (owner: FastMap<K, V>)
      requires owner.Valid()
      ensures Valid() && this.owner == owner && current == NIL && Rest() == owner.Entries()
    {
      this.owner := owner;
      current := NIL;
      nextEntry := owner.next[owner.head];
      end := owner.tail;
      Index := 1;
    }

    /** `hasNext()`. */
    method HasNext() returns (b: bool)
      requires Valid()
      ensures b <==> Rest() != []
    {
      b := nextEntry != end;
      ChainStep(owner.S(), Index);
    }

    /** `next()` of the entry iterator: the next entry, or `NoSuchElementException` at the end. */
    method NextEntry() returns (r: Result<int>)
      requires Valid()
      modifies this
      ensures Valid()
      ensures r.Throw? <==> old(Rest()) == []
      ensures r.Throw? ==> r.ex == NoSuchElement && Rest() == old(Rest()) && current == old(current)
      ensures r.Ok? ==> Live(owner.S(), r.value) && current == r.value
      ensures r.Ok? ==> old(Rest()) == [(owner.keys[r.value], owner.values[r.value])] + Rest()
    {
      if nextEntry == end {
        ChainStep(owner.S(), Index);
        return Throw(NoSuchElement);
      }
      var e := Advance();
      return Ok(e);
    }

    /** The step of `next()` short of the end: `_current` takes the next entry, `_next` the one after it. */
    method Advance() returns (e: int)
      requires Valid() && nextEntry != end
      modifies this
      ensures Valid() && Live(owner.S(), e) && current == e && old(Rest()) != []
      ensures old(Rest()) == [(owner.keys[e], owner.values[e])] + Rest()
    {
      ChainStep(owner.S(), Index);
      e := nextEntry;
      MoveTo(e, owner.next[e], Index + 1);
    }

    /** `next()` of the key iterator. */
    method NextKey() returns (r: Result<K>)
      requires Valid()
      modifies this
      ensures Valid()
      ensures r.Throw? <==> old(Rest()) == []
      ensures r.Throw? ==> r.ex == NoSuchElement && Rest() == old(Rest())
      ensures r.Ok? ==> old(Rest()) != [] && r.value == old(Rest())[0].0 && Rest() == old(Rest())[1..]
    {
      var e := NextEntry();
      if e.Throw? {
        return Throw(e.ex);
      }
      return Ok(owner.keys[e.value]);
    }

    /** `next()` of the value iterator. */
    method NextValue() returns (r: Result<V>)
      requires Valid()
      modifies this
      ensures Valid()
      ensures r.Throw? <==> old(Rest()) == []
      ensures r.Throw? ==> r.ex == NoSuchElement && Rest() == old(Rest())
      ensures r.Ok? ==> old(Rest()) != [] && r.value == old(Rest())[0].1 && Rest() == old(Rest())[1..]
    {
      var e := NextEntry();
      if e.Throw? {
        return Throw(e.ex);
      }
      return Ok(owner.values[e.value]);
    }

    /**
     * `remove()`: the mapping `next()` returned last is removed from the
     * map, the iteration going on with the entries after it; with none to
     * remove, `IllegalStateException`.
     */
    method Remove() returns (r: Result<()>)
      requires Valid()
      modifies this, owner
      ensures Valid()
      ensures r.Throw? <==> old(current) == NIL
      ensures r.Throw? ==> r.ex == IllegalState && owner.Entries() == old(owner.Entries())
      ensures r.Ok? ==> owner.Entries() == MapSpec.Remove(old(owner.Entries()), old(owner.keys[current])) && current == NIL
      ensures Rest() == old(Rest())
    {
      if current == NIL {
        return Throw(IllegalState);
      }
      RemoveCurrent();
      return Ok(());
    }

    /** `remove()` with an entry to remove: `_next` is its successor, then `_map.remove(_current._key)`. */
    method RemoveCurrent()
      requires Valid() && current != NIL
      modifies this, owner
      ensures Valid() && current == NIL
      ensures owner.Entries() == MapSpec.Remove(old(owner.Entries()), old(owner.keys[current]))
      ensures Rest() == old(Rest())
    {
      ghost var k := Index - 1;
      RemovedCurrent(owner.S(), owner.hash, owner.noKey, owner.nil, k);
      var following := owner.next[current];
      var res := owner.Remove(owner.keys[current]);
      MoveTo(NIL, following, k);
    }

    /** The iterator's fields set at once: `_current`, `_next` and the position of `_next`. */
    method MoveTo(current': int, nextEntry': int, ghost index': int)
      modifies this
      ensures current == current' && nextEntry == nextEntry' && Index == index'
    {
      current, nextEntry, Index := current', nextEntry', index';
    }
  }
}
