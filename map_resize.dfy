/**
 * `resizeTable` of a FastMap leaf that `put` has left more than half full.
 * Its tombstone count is reset, and then
 *
 *   - when it holds more tombstones than entries, its entries are copied
 *     back into its own (emptied) slots, which drops the tombstones;
 *   - otherwise, while twice its length is at most C1, its entries are
 *     copied into a table of twice the length;
 *   - otherwise its entries are mapped into its C2 sub-maps (created, when
 *     it has none yet, with `2 * length >> 5` slots each) and it starts
 *     dispatching to them; should a sub-map become half full on the way,
 *     the sub-maps are dropped and the entries copied into a table of twice
 *     the length instead.
 *
 * Each outcome keeps the invariant of the map with no leaf over its limit,
 * and none changes the map's entries.
 */
module MapResizes {
  import opened JavaLang
  import opened HashSlots
  import opened SubMaps
  import opened MapStores
  import ListSpec

  /** The store with leaf `t` replaced by `y` and the slots of the entries as `w` records them. */
  function Relaid<K, V>(s: Store<K, V>, t: int, y: Table, w: seq<int>): Store<K, V>
    requires 0 <= t < |s.tables|
  {
    s.(tables := s.tables[t := y], where := w)
  }

  /**
   * `y` is the leaf `x` rebuilt by `copyEntries` into the slots `y.slots`:
   * tombstone count zero, sub-map array kept or dropped, every entry of `x`
   * copied (to the slot `w` records) and at most half the slots in use.
   */
  ghost predicate Rebuilt(x: Table, y: Table, hashes: seq<int>, w0: seq<int>, src: seq<int>, w: seq<int>)
  {
    && y == x.(slots := y.slots, nullCount := 0, subBase := y.subBase)
    && (y.subBase == x.subBase || y.subBase == -1) && IsPow2(|y.slots|)
    && Copied(x.slots, |x.slots|, y.slots, hashes, x.keyShift, w0, src, w)
    && 2 * x.entryCount <= |y.slots|
  }

  /** Rebuilding the leaf that is over its limit gives a map with no leaf over its limit and the same entries. */
  lemma RelayKeepsInv<K, V>(s: Store<K, V>, hash: K -> int, noKey: K, nil: V, t: int, y: Table, src: seq<int>, w: seq<int>)
    requires Inv(s, hash, noKey, nil, t) && 0 <= t < |s.tables| && Active(s.tables, s.parent, t) && !s.tables[t].useSubMaps
    requires Rebuilt(s.tables[t], y, s.hashes, s.where, src, w)
    ensures Inv(Relaid(s, t, y, w), hash, noKey, nil, -1)
    ensures Entries(Relaid(s, t, y, w)) == Entries(s)
  {
    var T, P := s.tables, s.parent;
    var s' := Relaid(s, t, y, w);
    LeafUpdated(T, P, t, y);
    RelayedLeaves(s, t, y, src, w);
    assert LeafOk(s, t, 2);
    RelayMoved(s, t, y, src, w);
    RelayedPlaced(s, t, y, src, w);
    TablesFrame(s, hash, noKey, nil, s'.tables, P, w);
    assert s' == s.(tables := s'.tables, parent := P, where := w);
  }

  /** Every leaf is in order after the rebuild. */
  lemma RelayedLeaves<K, V>(s: Store<K, V>, t: int, y: Table, src: seq<int>, w: seq<int>)
    requires Sized(s) && |s.parent| == |s.tables| && 0 <= t < |s.tables| && LeavesOk(s, t)
    requires Active(s.tables, s.parent, t) && !s.tables[t].useSubMaps
    requires forall c :: 0 <= c < |s.tables| ==> Active(s.tables[t := y], s.parent, c) == Active(s.tables, s.parent, c)
    requires Rebuilt(s.tables[t], y, s.hashes, s.where, src, w)
    requires forall h :: Route(s.tables[t := y], 0, h) == Route(s.tables, 0, h)
    ensures LeavesOk(Relaid(s, t, y, w), -1)
  {
    var s' := Relaid(s, t, y, w);
    assert LeafOk(s, t, 2);
    RelayMoved(s, t, y, src, w);
    RelayedLeaf(s, t, y, src, w);
    forall c | 0 <= c < |s'.tables| && Active(s'.tables, s'.parent, c) && !s'.tables[c].useSubMaps
      ensures LeafOk(s', c, 0)
    {
      if c != t {
        assert LeafOk(s, c, 0);
        RelayedOther(s, t, y, src, w, c);
      }
    }
  }

  /** An entry whose recorded slot changed was copied, so it was in leaf `t`. */
  lemma RelayMoved<K, V>(s: Store<K, V>, t: int, y: Table, src: seq<int>, w: seq<int>)
    requires Sized(s) && 0 <= t < |s.tables| && LeafOk(s, t, 2)
    requires Rebuilt(s.tables[t], y, s.hashes, s.where, src, w)
    ensures forall f :: 0 <= f < |w| && w[f] != s.where[f] ==> Route(s.tables, 0, s.hashes[f]) == t
  {
    var from := s.tables[t].slots;
    forall f | 0 <= f < |w| && w[f] != s.where[f]
      ensures Route(s.tables, 0, s.hashes[f]) == t
    {
      var q := w[f];
      assert y.slots[q] == f;
      assert from[src[q]] == f;
    }
  }

  /** The rebuilt leaf is in order. */
  lemma RelayedLeaf<K, V>(s: Store<K, V>, t: int, y: Table, src: seq<int>, w: seq<int>)
    requires Sized(s) && 0 <= t < |s.tables| && LeafOk(s, t, 2)
    requires Rebuilt(s.tables[t], y, s.hashes, s.where, src, w)
    requires forall h :: Route(s.tables[t := y], 0, h) == Route(s.tables, 0, h)
    ensures LeafOk(Relaid(s, t, y, w), t, 0)
  {
    var s' := Relaid(s, t, y, w);
    var from, to := s.tables[t].slots, y.slots;
    var k: nat :| Pow2(k) == |to|;
    forall q | 0 <= q < |to| && to[q] >= 0
      ensures to[q] < |s.keys| && Live(s', to[q]) && Route(s'.tables, 0, s'.hashes[to[q]]) == t && s'.where[to[q]] == q
    {
      assert from[src[q]] == to[q];
    }
    assert from[..|from|] == from;
  }

  /** A leaf other than the rebuilt one keeps its table and its entries keep their slots. */
  lemma RelayedOther<K, V>(s: Store<K, V>, t: int, y: Table, src: seq<int>, w: seq<int>, c: int)
    requires Sized(s) && 0 <= t < |s.tables| && 0 <= c < |s.tables| && c != t && LeafOk(s, c, 0)
    requires |w| == |s.where|
    requires forall f :: 0 <= f < |w| && w[f] != s.where[f] ==> Route(s.tables, 0, s.hashes[f]) == t
    requires forall h :: Route(s.tables[t := y], 0, h) == Route(s.tables, 0, h)
    ensures LeafOk(Relaid(s, t, y, w), c, 0)
  {
    var s' := Relaid(s, t, y, w);
    var x := s.tables[c];
    forall q | 0 <= q < |x.slots| && x.slots[q] >= 0
      ensures var f := x.slots[q];
        Live(s', f) && s'.hashes[f] == s.hashes[f] && s'.where[f] == s.where[f]
        && Route(s'.tables, 0, s.hashes[f]) == Route(s.tables, 0, s.hashes[f])
    {
    }
    LeafFrame(s, s', c, 0);
  }

  /** After the rebuild every live entry is where `w` says. */
  lemma RelayedPlaced<K, V>(s: Store<K, V>, t: int, y: Table, src: seq<int>, w: seq<int>)
    requires Sized(s) && |s.tables| >= 1 && 0 <= t < |s.tables| && Placed(s)
    requires Rebuilt(s.tables[t], y, s.hashes, s.where, src, w)
    requires forall f :: 0 <= f < |w| && w[f] != s.where[f] ==> Route(s.tables, 0, s.hashes[f]) == t
    requires forall h :: Route(s.tables[t := y], 0, h) == Route(s.tables, 0, h)
    ensures Placed(Relaid(s, t, y, w))
  {
    var s' := Relaid(s, t, y, w);
    var from := s.tables[t].slots;
    forall e | Live(s', e)
      ensures var x := s'.tables[Route(s'.tables, 0, s'.hashes[e])];
        0 <= s'.where[e] < |x.slots| && x.slots[s'.where[e]] == e
    {
      assert Live(s, e);
      if Route(s.tables, 0, s.hashes[e]) == t {
        assert from[s.where[e]] == e;
      }
    }
  }

  /** The store after `newSubMaps` appended the C2 sub-maps `kids` of leaf `t` to the arena. */
  function Extended<K, V>(s: Store<K, V>, t: int, kids: seq<Table>): Store<K, V>
  {
    s.(tables := s.tables + kids, parent := s.parent + ListSpec.Repeat(t, C2))
  }

  /**
   * Appending blank sub-maps for a leaf that has none keeps the invariant:
   * nothing dispatches to them yet, so no route and no leaf changes.
   */
  lemma ExtendKeepsInv<K, V>(s: Store<K, V>, hash: K -> int, noKey: K, nil: V, t: int, kids: seq<Table>)
    requires Inv(s, hash, noKey, nil, t) && 0 <= t < |s.tables| && Active(s.tables, s.parent, t)
    requires !s.tables[t].useSubMaps && s.tables[t].subBase == -1 && |kids| == C2
    requires forall j :: 0 <= j < C2 ==> Blank(kids[j]) && IsPow2(|kids[j].slots|)
    requires forall j :: 0 <= j < C2 ==> kids[j].keyShift == s.tables[t].keyShift + B2 && kids[j].subBase == -1
    ensures Inv(Extended(s, t, kids), hash, noKey, nil, t)
    ensures Active(Extended(s, t, kids).tables, Extended(s, t, kids).parent, t)
    ensures Entries(Extended(s, t, kids)) == Entries(s)
  {
    var T, P := s.tables, s.parent;
    var s' := Extended(s, t, kids);
    var T', P' := s'.tables, s'.parent;
    ExtendTreeOk(T, P, t, kids);
    TreeCountPrefix(T, T', P, 0);
    forall h
      ensures Route(T', 0, h) == Route(T, 0, h)
    {
      RouteExtend(T, T', P, 0, h);
    }
    ActiveFrame(T, T', P, P', t);
    ExtendedLeaves(s, t, kids);
    ExtendedPlaced(s, t, kids);
    TablesFrame(s, hash, noKey, nil, T', P', s.where);
    assert s' == s.(tables := T', parent := P', where := s.where);
  }

  /** The leaves of the extended arena are the old ones, each still in order. */
  lemma ExtendedLeaves<K, V>(s: Store<K, V>, t: int, kids: seq<Table>)
    requires Sized(s) && |s.parent| == |s.tables| && LeavesOk(s, t) && 0 <= t < |s.tables| && !s.tables[t].useSubMaps
    requires |kids| == C2 && forall h :: Route(s.tables + kids, 0, h) == Route(s.tables, 0, h)
    ensures LeavesOk(Extended(s, t, kids), t)
  {
    var T, P := s.tables, s.parent;
    var s' := Extended(s, t, kids);
    var T', P' := s'.tables, s'.parent;
    forall c | 0 <= c < |T'| && Active(T', P', c) && !T'[c].useSubMaps
      ensures LeafOk(s', c, if c == t then 2 else 0)
    {
      ActiveBeforeExtend(T, P, T', P', c);
      assert LeafOk(s, c, if c == t then 2 else 0);
      ExtendedLeaf(s, t, kids, c, if c == t then 2 else 0);
    }
  }

  /** Every live entry keeps its leaf and its slot. */
  lemma ExtendedPlaced<K, V>(s: Store<K, V>, t: int, kids: seq<Table>)
    requires Sized(s) && |s.tables| >= 1 && Placed(s)
    requires forall h :: Route(s.tables + kids, 0, h) == Route(s.tables, 0, h)
    ensures Placed(Extended(s, t, kids))
  {
    var s' := Extended(s, t, kids);
    forall e | Live(s', e)
      ensures var x := s'.tables[Route(s'.tables, 0, s'.hashes[e])];
        0 <= s'.where[e] < |x.slots| && x.slots[s'.where[e]] == e
    {
      assert Live(s, e);
    }
  }

  /** One leaf of the extended arena is still in order. */
  lemma ExtendedLeaf<K, V>(s: Store<K, V>, t: int, kids: seq<Table>, c: int, slack: int)
    requires Sized(s) && 0 <= c < |s.tables| && LeafOk(s, c, slack)
    requires forall h :: Route(s.tables + kids, 0, h) == Route(s.tables, 0, h)
    ensures LeafOk(Extended(s, t, kids), c, slack)
  {
    var s' := Extended(s, t, kids);
    var x := s.tables[c];
    assert s'.tables[c] == x;
    forall q | 0 <= q < |x.slots| && x.slots[q] >= 0
      ensures var f := x.slots[q];
        Live(s', f) && s'.hashes[f] == s.hashes[f] && s'.where[f] == s.where[f]
        && Route(s'.tables, 0, s.hashes[f]) == Route(s.tables, 0, s.hashes[f])
    {
    }
    LeafFrame(s, s', c, slack);
  }

  /** The store after the split of leaf `t` into its filled sub-maps `kids` at `base`, its entries at the slots `w` records. */
  function Split<K, V>(s: Store<K, V>, t: int, base: int, kids: seq<Table>, w: seq<int>): Store<K, V>
    requires 0 <= t < |s.tables| && |kids| == C2 && t < base && base + C2 <= |s.tables|
  {
    s.(tables := Installed(s.tables, t, base, kids), where := w)
  }

  /** The C2 tables at `base` are blank sub-maps of leaf `t`, ready to be filled. */
  ghost predicate SplitReady(T: seq<Table>, P: seq<int>, t: int, base: int)
  {
    && |P| == |T| && 0 <= t < |T| && t < base && base + C2 <= |T|
    && (T[t].subBase == -1 || T[t].subBase == base)
    && forall j :: 0 <= j < C2 ==>
         P[Offset(base, j)] == t && T[Offset(base, j)].keyShift == T[t].keyShift + B2 && Blank(T[Offset(base, j)])
  }

  /**
   * Installing the sub-maps that the split loop filled with every entry of
   * the leaf that is over its limit gives a map with no leaf over its limit
   * and the same entries.
   */
  lemma SplitKeepsInv<K, V>(s: Store<K, V>, hash: K -> int, noKey: K, nil: V, t: int, base: int,
                            kids: seq<Table>, src: seq<seq<int>>, w: seq<int>)
    requires Inv(s, hash, noKey, nil, t) && 0 <= t < |s.tables| && Active(s.tables, s.parent, t) && !s.tables[t].useSubMaps
    requires SplitReady(s.tables, s.parent, t, base)
    requires Mapped(s.tables[t].slots, |s.tables[t].slots|, kids, s.tables[base..base + C2], s.tables[t], s.hashes, s.where, src, w)
    ensures Inv(Split(s, t, base, kids, w), hash, noKey, nil, -1)
    ensures Entries(Split(s, t, base, kids, w)) == Entries(s)
  {
    var T, P := s.tables, s.parent;
    var from := T[t].slots;
    var T' := Installed(T, t, base, kids);
    SplitKids(T, base, kids, T[base..base + C2], s.hashes);
    InstallTreeOk(T, P, t, base, kids);
    assert LeafOk(s, t, 2);
    assert from[..|from|] == from;
    SplitCount(T, P, t, base, kids);
    SplitRoutes(T, P, t, base, kids);
    SplitMoved(s, t, kids, src, w);
    SplitLeaves(s, t, base, kids, src, w);
    SplitPlaced(s, t, base, kids, src, w);
    TablesFrame(s, hash, noKey, nil, T', P, w);
    assert Split(s, t, base, kids, w) == s.(tables := T', parent := P, where := w);
  }

  /** The sub-maps the split loop filled, seen from the arena. */
  lemma SplitKids(T: seq<Table>, base: int, kids: seq<Table>, kids0: seq<Table>, hashes: seq<int>)
    requires 0 <= base && base + C2 <= |T| && kids0 == T[base..base + C2] && |kids| == C2
    requires forall j :: 0 <= j < C2 ==> KidOk(kids[j], kids0[j], hashes)
    ensures forall j :: 0 <= j < C2 ==> Blank(T[Offset(base, j)]) && Filled(kids[j], T[Offset(base, j)]) && !kids[j].useSubMaps
    ensures forall j :: 0 <= j < C2 ==> KidOk(kids[j], T[Offset(base, j)], hashes)
  {
    forall j | 0 <= j < C2
      ensures kids0[j] == T[Offset(base, j)]
    {
    }
  }

  /** After the split of leaf `t`, a hash routed to `t` goes to the sub-map it selects and every other hash stays. */
  ghost predicate Rerouted(T: seq<Table>, t: int, base: int, kids: seq<Table>)
    requires 0 <= t < |T| && |kids| == C2 && t < base && base + C2 <= |T|
  {
    forall h :: Route(Installed(T, t, base, kids), 0, h) ==
      if Route(T, 0, h) == t then Offset(base, Select(T[t], h)) else Route(T, 0, h)
  }

  /** After the split a hash routed to `t` goes to the sub-map it selects, and every other hash stays. */
  lemma SplitRoutes(T: seq<Table>, P: seq<int>, t: int, base: int, kids: seq<Table>)
    requires TreeOk(T, P) && 0 <= t < |T| && !T[t].useSubMaps && t < base && base + C2 <= |T| && |kids| == C2
    requires forall j :: 0 <= j < C2 ==> Blank(T[Offset(base, j)]) && Filled(kids[j], T[Offset(base, j)]) && !kids[j].useSubMaps
    ensures Rerouted(T, t, base, kids)
  {
    var T' := Installed(T, t, base, kids);
    InstalledFacts(T, t, base, kids);
    forall d | 0 <= d < |T| && d != t
      ensures SameShape(T[d], T'[d])
    {
    }
    forall j | 0 <= j < C2
      ensures !T'[Offset(base, j)].useSubMaps
    {
    }
    forall h
      ensures Route(T', 0, h) == if Route(T, 0, h) == t then Offset(base, Select(T[t], h)) else Route(T, 0, h)
    {
      RouteSplit(T, P, T', t, base, 0, h);
    }
  }

  /** An entry whose recorded slot changed was moved out of leaf `t`, so it was routed there. */
  lemma SplitMoved<K, V>(s: Store<K, V>, t: int, kids: seq<Table>, src: seq<seq<int>>, w: seq<int>)
    requires Sized(s) && 0 <= t < |s.tables| && LeafOk(s, t, 2)
    requires |kids| == |src| == C2 && |w| == |s.where| && forall j :: 0 <= j < C2 ==> |src[j]| == |kids[j].slots|
    requires var from := s.tables[t].slots;
      MappedFrom(from, |from|, kids, s.tables[t], s.hashes, src, w) && Moved(kids, s.tables[t], s.hashes, s.where, w)
    ensures forall f :: 0 <= f < |w| && w[f] != s.where[f] ==> Route(s.tables, 0, s.hashes[f]) == t
  {
    var x := s.tables[t];
    forall f | 0 <= f < |w| && w[f] != s.where[f]
      ensures Route(s.tables, 0, s.hashes[f]) == t
    {
      assert Holds(kids, x, s.hashes, w, f);
      var j, q := Select(x, s.hashes[f]), w[f];
      assert kids[j].slots[q] == f;
      assert x.slots[src[j][q]] == f;
    }
  }

  /** The leaves after the split: the filled sub-maps, and the untouched leaves. */
  lemma SplitLeaves<K, V>(s: Store<K, V>, t: int, base: int, kids: seq<Table>, src: seq<seq<int>>, w: seq<int>)
    requires Sized(s) && |s.parent| == |s.tables| && LeavesOk(s, t) && 0 <= t < |s.tables| && !s.tables[t].useSubMaps
    requires t < base && base + C2 <= |s.tables| && |w| == |s.where|
    requires |kids| == |src| == C2 && forall j :: 0 <= j < C2 ==> |src[j]| == |kids[j].slots|
    requires forall j :: 0 <= j < C2 ==> KidOk(kids[j], s.tables[Offset(base, j)], s.hashes)
    requires MappedFrom(s.tables[t].slots, |s.tables[t].slots|, kids, s.tables[t], s.hashes, src, w)
    requires forall f :: 0 <= f < |w| && w[f] != s.where[f] ==> Route(s.tables, 0, s.hashes[f]) == t
    requires Rerouted(s.tables, t, base, kids)
    requires Active(s.tables, s.parent, t)
    ensures LeavesOk(Split(s, t, base, kids, w), -1)
  {
    var T, P := s.tables, s.parent;
    var s' := Split(s, t, base, kids, w);
    var T' := s'.tables;
    assert LeafOk(s, t, 2);
    forall c | 0 <= c < |T'| && Active(T', P, c) && !T'[c].useSubMaps
      ensures LeafOk(s', c, 0)
    {
      if base <= c < base + C2 {
        SplitKid(s, t, base, kids, src, w, c - base);
      } else {
        assert c != t && T'[c] == T[c];
        ActiveBeforeInstall(T, P, t, base, kids, c);
        assert LeafOk(s, c, 0);
        SplitOther(s, t, base, kids, w, c);
      }
    }
  }

  /** A filled sub-map is a leaf in order. */
  lemma SplitKid<K, V>(s: Store<K, V>, t: int, base: int, kids: seq<Table>, src: seq<seq<int>>, w: seq<int>, j: int)
    requires Sized(s) && 0 <= t < |s.tables| && LeafOk(s, t, 2)
    requires t < base && base + C2 <= |s.tables| && |w| == |s.where| && 0 <= j < C2
    requires |kids| == |src| == C2 && forall i :: 0 <= i < C2 ==> |src[i]| == |kids[i].slots|
    requires KidOk(kids[j], s.tables[Offset(base, j)], s.hashes)
    requires MappedFrom(s.tables[t].slots, |s.tables[t].slots|, kids, s.tables[t], s.hashes, src, w)
    requires Rerouted(s.tables, t, base, kids)
    ensures LeafOk(Split(s, t, base, kids, w), Offset(base, j), 0)
  {
    var s' := Split(s, t, base, kids, w);
    var x, y := s.tables[t], kids[j];
    assert s'.tables[Offset(base, j)] == y;
    forall q | 0 <= q < |y.slots| && y.slots[q] >= 0
      ensures y.slots[q] < |s.keys| && Live(s', y.slots[q])
      ensures Route(s'.tables, 0, s'.hashes[y.slots[q]]) == Offset(base, j) && s'.where[y.slots[q]] == q
    {
      assert x.slots[src[j][q]] == y.slots[q];
    }
  }

  /** A leaf that is neither `t` nor one of its sub-maps keeps its table, and its entries their slots. */
  lemma SplitOther<K, V>(s: Store<K, V>, t: int, base: int, kids: seq<Table>, w: seq<int>, c: int)
    requires Sized(s) && 0 <= t < |s.tables| && t < base && base + C2 <= |s.tables| && |kids| == C2 && |w| == |s.where|
    requires 0 <= c < |s.tables| && c != t && !(base <= c < base + C2) && LeafOk(s, c, 0)
    requires forall f :: 0 <= f < |w| && w[f] != s.where[f] ==> Route(s.tables, 0, s.hashes[f]) == t
    requires Rerouted(s.tables, t, base, kids)
    ensures LeafOk(Split(s, t, base, kids, w), c, 0)
  {
    var s' := Split(s, t, base, kids, w);
    var x := s.tables[c];
    forall q | 0 <= q < |x.slots| && x.slots[q] >= 0
      ensures var f := x.slots[q];
        Live(s', f) && s'.hashes[f] == s.hashes[f] && s'.where[f] == s.where[f]
        && Route(s'.tables, 0, s.hashes[f]) == Route(s.tables, 0, s.hashes[f])
    {
    }
    LeafFrame(s, s', c, 0);
  }

  /** After the split every live entry is where `w` says. */
  lemma SplitPlaced<K, V>(s: Store<K, V>, t: int, base: int, kids: seq<Table>, src: seq<seq<int>>, w: seq<int>)
    requires Sized(s) && TreeOk(s.tables, s.parent) && Placed(s) && 0 <= t < |s.tables| && Active(s.tables, s.parent, t)
    requires !s.tables[t].useSubMaps && t < base && base + C2 <= |s.tables| && |w| == |s.where| && |kids| == C2
    requires forall j :: 0 <= j < C2 ==> s.parent[Offset(base, j)] == t
    requires MappedTo(s.tables[t].slots, |s.tables[t].slots|, kids, s.tables[t], s.hashes, w)
    requires forall f :: 0 <= f < |w| && w[f] != s.where[f] ==> Route(s.tables, 0, s.hashes[f]) == t
    requires Rerouted(s.tables, t, base, kids)
    ensures Placed(Split(s, t, base, kids, w))
  {
    var T, P := s.tables, s.parent;
    var s' := Split(s, t, base, kids, w);
    var x := T[t];
    forall e | Live(s', e)
      ensures var y := s'.tables[Route(s'.tables, 0, s'.hashes[e])];
        0 <= s'.where[e] < |y.slots| && y.slots[s'.where[e]] == e
    {
      assert Live(s, e);
      if Route(T, 0, s.hashes[e]) == t {
        SplitPlacedMoved(s, t, base, kids, w, e);
      } else {
        SplitPlacedKept(s, t, base, kids, w, e);
      }
    }
  }

  /** An entry of the split leaf is in the sub-map its hash selects. */
  lemma SplitPlacedMoved<K, V>(s: Store<K, V>, t: int, base: int, kids: seq<Table>, w: seq<int>, e: int)
    requires Sized(s) && |s.tables| >= 1 && Placed(s) && 0 <= t < |s.tables|
    requires t < base && base + C2 <= |s.tables| && |w| == |s.where| && |kids| == C2
    requires MappedTo(s.tables[t].slots, |s.tables[t].slots|, kids, s.tables[t], s.hashes, w)
    requires Rerouted(s.tables, t, base, kids)
    requires Live(s, e) && Route(s.tables, 0, s.hashes[e]) == t
    ensures var s' := Split(s, t, base, kids, w); var y := s'.tables[Route(s'.tables, 0, s'.hashes[e])];
      0 <= s'.where[e] < |y.slots| && y.slots[s'.where[e]] == e
  {
    var x := s.tables[t];
    var h := s.hashes[e];
    assert x.slots[s.where[e]] == e;
    assert Holds(kids, x, s.hashes, w, e);
    assert Installed(s.tables, t, base, kids)[Offset(base, Select(x, h))] == kids[Select(x, h)];
  }

  /** An entry of another leaf keeps its table and its slot. */
  lemma SplitPlacedKept<K, V>(s: Store<K, V>, t: int, base: int, kids: seq<Table>, w: seq<int>, e: int)
    requires Sized(s) && TreeOk(s.tables, s.parent) && Placed(s) && 0 <= t < |s.tables|
    requires !s.tables[t].useSubMaps && t < base && base + C2 <= |s.tables| && |w| == |s.where| && |kids| == C2
    requires forall j :: 0 <= j < C2 ==> s.parent[Offset(base, j)] == t
    requires forall f :: 0 <= f < |w| && w[f] != s.where[f] ==> Route(s.tables, 0, s.hashes[f]) == t
    requires Rerouted(s.tables, t, base, kids)
    requires Live(s, e) && Route(s.tables, 0, s.hashes[e]) != t
    ensures var s' := Split(s, t, base, kids, w); var y := s'.tables[Route(s'.tables, 0, s'.hashes[e])];
      0 <= s'.where[e] < |y.slots| && y.slots[s'.where[e]] == e
  {
    var T, P := s.tables, s.parent;
    var h := s.hashes[e];
    var c := Route(T, 0, h);
    RouteActive(T, P, 0, h);
    assert !(base <= c < base + C2) by {
      forall d | base <= d < base + C2
        ensures P[d] == t
      {
        assert P[Offset(base, d - base)] == t;
      }
    }
    assert Installed(T, t, base, kids)[c] == T[c];
  }

  /**
   * `resizeTable()` of leaf `t`, which `put` has left more than half full:
   * its tables as written back (`T'`), with the parents and the entries'
   * slots that the ghost state records.  The map keeps its entries, and no
   * leaf is over its limit any more.
   */
  method ResizeLeaf<K, V>(T: seq<Table>, hashes: seq<int>, t: int, ghost s: Store<K, V>,
                          ghost hash: K -> int, ghost noKey: K, ghost nil: V)
    returns (T': seq<Table>, ghost P': seq<int>, ghost w: seq<int>)
    requires T == s.tables && hashes == s.hashes
    requires Inv(s, hash, noKey, nil, t) && 0 <= t < |T| && Active(T, s.parent, t) && !T[t].useSubMaps
    requires 2 * (T[t].entryCount + T[t].nullCount) > |T[t].slots|
    ensures Inv(s.(tables := T', parent := P', where := w), hash, noKey, nil, -1)
    ensures Entries(s.(tables := T', parent := P', where := w)) == Entries(s)
  {
    var x := T[t];
    assert LeafOk(s, t, 2);
    if x.nullCount > x.entryCount {
      // Mostly tombstones: copy the entries back into the emptied table.
      var to0 := ResetSlots(x.slots);
      T', w := Recopy(T, hashes, t, to0, x.subBase, s, hash, noKey, nil);
      P' := s.parent;
      return;
    }
    var length := 2 * |x.slots|;
    DoubledPow2(|x.slots|);
    if length <= C1 {
      // Small enough: copy the entries into a table twice as long.
      T', w := Recopy(T, hashes, t, ListSpec.Repeat(EMPTY, length), x.subBase, s, hash, noKey, nil);
      P' := s.parent;
      return;
    }
    T', P', w := SplitLeaf(T, hashes, t, s, hash, noKey, nil);
  }

  /**
   * `copyEntries` of leaf `t` into the empty slots `to0`, which become the
   * leaf's slots, with a tombstone count of zero and the sub-map array
   * `subBase` (kept, or dropped with `-1`).
   */
  method Recopy<K, V>(T: seq<Table>, hashes: seq<int>, t: int, to0: seq<int>, subBase: int, ghost s: Store<K, V>,
                      ghost hash: K -> int, ghost noKey: K, ghost nil: V)
    returns (T': seq<Table>, ghost w: seq<int>)
    requires T == s.tables && hashes == s.hashes
    requires Inv(s, hash, noKey, nil, t) && 0 <= t < |T| && Active(T, s.parent, t) && !T[t].useSubMaps
    requires to0 == ListSpec.Repeat(EMPTY, |to0|) && IsPow2(|to0|) && 2 * T[t].entryCount <= |to0|
    requires subBase == T[t].subBase || subBase == -1
    ensures Inv(s.(tables := T', where := w), hash, noKey, nil, -1)
    ensures Entries(s.(tables := T', where := w)) == Entries(s)
  {
    var x := T[t];
    assert LeafOk(s, t, 2);
    LeafUnique(s, t, 2);
    var to;
    ghost var src;
    to, src, w := CopyEntries(x.slots, to0, hashes, x.keyShift, s.where);
    var y := x.(slots := to, nullCount := 0, subBase := subBase);
    RelayKeepsInv(s, hash, noKey, nil, t, y, src, w);
    T' := T[t := y];
    assert s.(tables := T', where := w) == Relaid(s, t, y, w);
  }

  /**
   * The part of `resizeTable()` for a leaf of more than C1 / 2 slots: its
   * entries are mapped into its sub-maps (created with `2 * length >> 5`
   * slots each if it has none), which it then dispatches to; if a sub-map
   * becomes half full the sub-maps are dropped and the leaf doubles instead.
   */
  method SplitLeaf<K, V>(T: seq<Table>, hashes: seq<int>, t: int, ghost s: Store<K, V>,
                         ghost hash: K -> int, ghost noKey: K, ghost nil: V)
    returns (T': seq<Table>, ghost P': seq<int>, ghost w: seq<int>)
    requires T == s.tables && hashes == s.hashes
    requires Inv(s, hash, noKey, nil, t) && 0 <= t < |T| && Active(T, s.parent, t) && !T[t].useSubMaps
    requires 2 * (T[t].entryCount + T[t].nullCount) <= |T[t].slots| + 2 && 2 * |T[t].slots| > C1
    ensures Inv(s.(tables := T', parent := P', where := w), hash, noKey, nil, -1)
    ensures Entries(s.(tables := T', parent := P', where := w)) == Entries(s)
  {
    var x := T[t];
    var length := 2 * |x.slots|;
    var T1, base;
    ghost var s1;
    T1, base, s1 := EnsureSubMaps(T, t, s, hash, noKey, nil);
    assert s1.tables == T1 && s1.hashes == hashes && s1.where == s.where && s1.tables[t] == x;
    assert LeafOk(s1, t, 2);
    LeafUnique(s1, t, 2);
    ReadyKids(T1, s1.parent, t, base, T1[base..base + C2]);
    ghost var src: seq<seq<int>>;
    var ok, kids;
    ok, kids, src, w := MapEntries(x.slots, T1[base..base + C2], x, hashes, s.where);
    if ok {
      T' := Installed(T1, t, base, kids);
      SplitKeepsInv(s1, hash, noKey, nil, t, base, kids, src, w);
      P' := s1.parent;
      assert s.(tables := T', parent := P', where := w) == Split(s1, t, base, kids, w);
    } else {
      // A sub-map became half full: drop the sub-maps and double the table instead.
      DoubledPow2(|x.slots|);
      T', w := Recopy(T1, hashes, t, ListSpec.Repeat(EMPTY, length), -1, s1, hash, noKey, nil);
      P' := s1.parent;
      assert s.(tables := T', parent := P', where := w) == s1.(tables := T', where := w);
    }
  }

  /**
   * The sub-maps of leaf `t` at `base`: the ones it has, or C2 new ones of
   * `2 * length >> 5` slots appended to the arena (`newSubMaps`).
   */
  method EnsureSubMaps<K, V>(T: seq<Table>, t: int, ghost s: Store<K, V>, ghost hash: K -> int, ghost noKey: K, ghost nil: V)
    returns (T1: seq<Table>, base: int, ghost s1: Store<K, V>)
    requires T == s.tables
    requires Inv(s, hash, noKey, nil, t) && 0 <= t < |T| && Active(T, s.parent, t) && !T[t].useSubMaps
    requires 2 * |T[t].slots| > C1
    ensures s1 == s.(tables := T1, parent := s1.parent) && |T1| >= |T| && T1[t] == T[t]
    ensures Inv(s1, hash, noKey, nil, t) && Active(T1, s1.parent, t) && Entries(s1) == Entries(s)
    ensures SplitReady(T1, s1.parent, t, base)
  {
    var x := T[t];
    T1, base, s1 := T, x.subBase, s;
    if base == -1 {
      SubLengthPow2(|x.slots|);
      assert Pow2(5) == 32;
      var kids0 := NewSubMaps(Shr(2 * |x.slots|, B2 - 1), x.keyShift);
      base, T1 := |T|, T + kids0;
      ExtendKeepsInv(s, hash, noKey, nil, t, kids0);
      s1 := Extended(s, t, kids0);
      assert SplitReady(T1, s1.parent, t, base) by {
        forall j | 0 <= j < C2
          ensures s1.parent[Offset(base, j)] == t && T1[Offset(base, j)] == kids0[j]
        {
        }
      }
    } else {
      SubMapsReady(T, s.parent, t);
    }
  }

  /** The sub-maps a split fills start out blank and have slots. */
  lemma ReadyKids(T: seq<Table>, P: seq<int>, t: int, base: int, kids0: seq<Table>)
    requires TablesOk(T) && SplitReady(T, P, t, base) && kids0 == T[base..base + C2]
    ensures forall j :: 0 <= j < C2 ==> Blank(kids0[j]) && |kids0[j].slots| > 0
  {
    forall j | 0 <= j < C2
      ensures Blank(kids0[j]) && |kids0[j].slots| > 0
    {
      var c := Offset(base, j);
      assert kids0[j] == T[c];
      assert IsPow2(|T[c].slots|);
      var k: nat :| Pow2(k) == |T[c].slots|;
    }
  }

  /** The sub-maps a leaf already has are blank tables of its own, ready to be filled. */
  lemma SubMapsReady(T: seq<Table>, P: seq<int>, t: int)
    requires TreeOk(T, P) && 0 <= t < |T| && Active(T, P, t) && !T[t].useSubMaps && T[t].subBase != -1
    ensures SplitReady(T, P, t, T[t].subBase)
  {
    var base := T[t].subBase;
    assert SubsOk(T, t);
    forall j | 0 <= j < C2
      ensures P[Offset(base, j)] == t && T[Offset(base, j)].keyShift == T[t].keyShift + B2 && Blank(T[Offset(base, j)])
    {
      assert Child(T[t], j) == Offset(base, j);
      var c := Offset(base, j);
      assert !Linked(T, P, c);
    }
  }
}
