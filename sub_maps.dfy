/**
 * The sub-map tree of a FastMap.  The map object and every sub-map it
 * dispatches to once a table has grown past C1 slots each own a slot table,
 * an entry count, a tombstone count, a key shift and, once split, an array of
 * C2 = 64 sub-maps.  These objects are the tables of an arena `T`: index 0 is
 * the map itself and `subBase` is the arena index of a table's first sub-map,
 * or -1 while its sub-map array is `null`.  The ghost sequence `P` gives the
 * table each sub-map was created for (its parent).
 *
 * A table whose `useSubMaps` flag is set dispatches every hash `h` to its
 * sub-map `(h >> keyShift) & 63`; the others are leaves, whose slot tables
 * hold the entries.  A sub-map that its parent does not dispatch to (its
 * parent has not split yet, or has been cleared, or dropped its sub-maps)
 * holds nothing.
 */
module SubMaps {
  import opened JavaLang
  import ListSpec
  import opened HashSlots

  /** Sub-map array length in bits (B2) and sub-map array length (C2). */
  const B2: nat := 6
  const C2: int := 64

  /** One FastMap object of the tree: `_entries`, `_entryCount`, `_nullCount`, `_keyShift`, `_useSubMaps` and `_subMaps`. */
  datatype Table = Table(slots: seq<int>, entryCount: int, nullCount: int, keyShift: nat,
                         useSubMaps: bool, subBase: int)

  /** Arena index of sub-map `j` of `x`. */
  function Child(x: Table, j: int): int
  {
    x.subBase + j
  }

  /** `(h >> keyShift) & (C2 - 1)`: the sub-map of `x` that hash `h` belongs to. */
  function Select(x: Table, h: int): int
  {
    Shr(h, x.keyShift) % C2
  }

  /** The table after `clearTables()`: slots reset, counts zero, sub-maps no longer used. */
  function Cleared(x: Table): Table
  {
    x.(slots := ListSpec.Repeat(EMPTY, |x.slots|), entryCount := 0, nullCount := 0, useSubMaps := false)
  }

  /** A table that holds nothing, so that clearing it changes nothing. */
  predicate Blank(x: Table)
  {
    Cleared(x) == x
  }

  /** Tables agree on what routing looks at: whether they dispatch, and if so how. */
  predicate SameShape(x: Table, y: Table)
  {
    x.useSubMaps == y.useSubMaps && (x.useSubMaps ==> x.keyShift == y.keyShift && x.subBase == y.subBase)
  }

  /** The sub-map array of table `t` is `null` or a range of the arena after `t`, and is there when used. */
  predicate SubsOk(T: seq<Table>, t: int)
    requires 0 <= t < |T|
  {
    var x := T[t];
    && (x.subBase == -1 || (t < x.subBase && x.subBase + C2 <= |T|))
    && (x.useSubMaps ==> x.subBase >= 0)
  }

  /** Table `c` is one of the sub-maps its parent currently dispatches to. */
  ghost predicate Linked(T: seq<Table>, P: seq<int>, c: int)
    requires 0 <= c < |T| && |P| == |T| && 0 <= P[c] < |T|
  {
    var x := T[P[c]];
    x.useSubMaps && x.subBase <= c < x.subBase + C2
  }

  /**
   * The shape of the tree: the root has key shift 0, every table length is a
   * power of two, the sub-maps of a table come after it with its key shift
   * plus B2, every table but the root has an earlier parent, and a sub-map its
   * parent does not dispatch to is blank.
   */
  ghost predicate TreeOk(T: seq<Table>, P: seq<int>)
  {
    && |T| >= 1 && |P| == |T| && T[0].keyShift == 0
    && TablesOk(T) && ParentsOk(P) && ChildrenOk(T, P) && UnlinkedBlank(T, P)
  }

  ghost predicate TablesOk(T: seq<Table>)
  {
    forall t :: 0 <= t < |T| ==> IsPow2(|T[t].slots|) && SubsOk(T, t)
  }

  ghost predicate ParentsOk(P: seq<int>)
  {
    forall c :: 1 <= c < |P| ==> 0 <= P[c] < c
  }

  ghost predicate ChildrenOk(T: seq<Table>, P: seq<int>)
    requires |P| == |T|
  {
    forall t, j :: 0 <= t < |T| && T[t].subBase >= 0 && 0 <= j < C2 ==>
      0 <= Child(T[t], j) < |T| && P[Child(T[t], j)] == t && T[Child(T[t], j)].keyShift == T[t].keyShift + B2
  }

  ghost predicate UnlinkedBlank(T: seq<Table>, P: seq<int>)
    requires |P| == |T| && ParentsOk(P)
  {
    forall c :: 1 <= c < |T| && !Linked(T, P, c) ==> Blank(T[c])
  }

  /**
   * The table that hash `h` is kept in, looking from table `t` down: while a
   * table uses its sub-maps, the sub-map its own key shift selects.  (The
   * range test only makes the function total; `TreeOk` makes it true.)
   */
  function Route(T: seq<Table>, t: int, h: int): (r: int)
    requires 0 <= t < |T|
    ensures 0 <= r < |T|
    decreases |T| - t
  {
    var x := T[t];
    if x.useSubMaps && t < x.subBase && x.subBase + C2 <= |T| then Route(T, Child(x, Select(x, h)), h) else t
  }

  /**
   * `getSubMap(keyHash)` as written: dispatch on the low B2 bits of the hash
   * and pass the rest, shifted right by B2, down to the sub-map.
   */
  function SubMapOf(T: seq<Table>, t: int, keyHash: int): (r: int)
    requires 0 <= t < |T|
    ensures 0 <= r < |T|
    decreases |T| - t
  {
    var x := T[t];
    if x.useSubMaps && t < x.subBase && x.subBase + C2 <= |T| then SubMapOf(T, Child(x, keyHash % C2), Shr(keyHash, B2)) else t
  }

  /**
   * Dispatching on successive 6-bit slices of the shifted hash reaches the
   * table that each table's own key shift selects.
   */
  lemma {:induction false} SubMapOfRoute(T: seq<Table>, P: seq<int>, t: int, h: int)
    requires TreeOk(T, P) && 0 <= t < |T|
    ensures SubMapOf(T, t, Shr(h, T[t].keyShift)) == Route(T, t, h)
    decreases |T| - t
  {
    var x := T[t];
    if x.useSubMaps && t < x.subBase && x.subBase + C2 <= |T| {
      var c := Child(x, Select(x, h));
      assert T[c].keyShift == x.keyShift + B2;
      ShrShr(h, x.keyShift, B2);
      SubMapOfRoute(T, P, c, h);
    }
  }

  /** `getSubMap(keyHash)` called on the map itself finds the table `Route` names. */
  lemma GetSubMapRoute(T: seq<Table>, P: seq<int>, h: int)
    requires TreeOk(T, P)
    ensures SubMapOf(T, 0, h) == Route(T, 0, h)
  {
    SubMapOfRoute(T, P, 0, h);
    assert Shr(h, 0) == h;
  }

  /** A hash is always routed to a leaf, a table that does not use sub-maps. */
  lemma {:induction false} RouteLeaf(T: seq<Table>, P: seq<int>, t: int, h: int)
    requires TreeOk(T, P) && 0 <= t < |T|
    ensures !T[Route(T, t, h)].useSubMaps
    decreases |T| - t
  {
    var x := T[t];
    assert SubsOk(T, t);
    if x.useSubMaps {
      RouteLeaf(T, P, Child(x, Select(x, h)), h);
    }
  }

  /** Routing looks only at the shapes of the tables. */
  lemma {:induction false} RouteShapes(T: seq<Table>, T': seq<Table>, t: int, h: int)
    requires |T'| == |T| && 0 <= t < |T|
    requires forall c :: 0 <= c < |T| ==> SameShape(T[c], T'[c])
    ensures Route(T', t, h) == Route(T, t, h)
    decreases |T| - t
  {
    var x := T[t];
    assert SameShape(x, T'[t]);
    if x.useSubMaps && t < x.subBase && x.subBase + C2 <= |T| {
      RouteShapes(T, T', Child(x, Select(x, h)), h);
    }
  }

  /** Writing a table without changing its shape moves no hash to another table. */
  lemma RouteAfterWrite(T: seq<Table>, t: int, y: Table)
    requires 0 <= t < |T| && SameShape(T[t], y)
    ensures forall h :: Route(T[t := y], 0, h) == Route(T, 0, h)
  {
    forall h
      ensures Route(T[t := y], 0, h) == Route(T, 0, h)
    {
      RouteShapes(T, T[t := y], 0, h);
    }
  }

  /** `c` is `a` or lies below `a` in the tree of parents. */
  ghost predicate Below(P: seq<int>, c: int, a: int)
    requires 0 <= c < |P|
    decreases c
  {
    c == a || (0 < c && 0 <= P[c] < c && Below(P, P[c], a))
  }

  lemma {:induction false} BelowLe(P: seq<int>, c: int, a: int)
    requires 0 <= c < |P| && Below(P, c, a)
    ensures a <= c
    decreases c
  {
    if c != a {
      BelowLe(P, P[c], a);
    }
  }

  /** The tables `c` lies below form one line: of two of them, one is below the other. */
  lemma {:induction false} BelowLine(P: seq<int>, c: int, x: int, y: int)
    requires 0 <= c < |P| && Below(P, c, x) && Below(P, c, y)
    requires 0 <= x < |P| && 0 <= y < |P|
    ensures Below(P, x, y) || Below(P, y, x)
    decreases c
  {
    if c != x && c != y {
      BelowLine(P, P[c], x, y);
    }
  }

  /** The ancestor of `c` (or `c` itself) whose parent is `a`. */
  ghost function Top(P: seq<int>, c: int, a: int): (r: int)
    requires 0 <= c < |P| && Below(P, c, a) && c != a
    ensures 0 < r <= c && P[r] == a && Below(P, c, r)
    decreases c
  {
    if P[c] == a then c else Top(P, P[c], a)
  }

  /** `Top` is the only child of `a` that `c` lies below. */
  lemma TopUnique(P: seq<int>, c: int, a: int, x: int)
    requires 0 <= c < |P| && Below(P, c, a) && c != a
    requires 0 < x < |P| && 0 <= P[x] < x && P[x] == a && Below(P, c, x)
    ensures x == Top(P, c, a)
  {
    var r := Top(P, c, a);
    BelowLine(P, c, x, r);
    if x != r {
      if Below(P, x, r) {
        BelowLe(P, a, r);
      } else {
        BelowLe(P, a, x);
      }
    }
  }

  /** A sub-map that the map reaches through tables that each dispatch to the next. */
  ghost predicate Active(T: seq<Table>, P: seq<int>, c: int)
    requires 0 <= c < |T| && |P| == |T|
    decreases c
  {
    c == 0 || (0 < c && 0 <= P[c] < c && Linked(T, P, c) && Active(T, P, P[c]))
  }

  /** Routing from an active table ends in an active table. */
  lemma {:induction false} RouteActive(T: seq<Table>, P: seq<int>, t: int, h: int)
    requires TreeOk(T, P) && 0 <= t < |T| && Active(T, P, t)
    ensures Active(T, P, Route(T, t, h))
    decreases |T| - t
  {
    var x := T[t];
    if x.useSubMaps && t < x.subBase && x.subBase + C2 <= |T| {
      var c := Child(x, Select(x, h));
      assert P[c] == t && Linked(T, P, c);
      RouteActive(T, P, c, h);
    }
  }

  /** Between an active table and an ancestor, the child of the ancestor is one it dispatches to. */
  lemma {:induction false} TopLinked(T: seq<Table>, P: seq<int>, c: int, a: int)
    requires TreeOk(T, P) && 0 <= c < |T| && Active(T, P, c) && Below(P, c, a) && c != a
    ensures Linked(T, P, Top(P, c, a))
    decreases c
  {
    if P[c] != a {
      TopLinked(T, P, P[c], a);
    }
  }

  /** Below a blank table every table is blank. */
  lemma {:induction false} BlankBelow(T: seq<Table>, P: seq<int>, c: int, a: int)
    requires TreeOk(T, P) && 0 <= c < |T| && 0 <= a < |T| && Below(P, c, a) && Blank(T[a])
    ensures Blank(T[c])
    decreases c
  {
    if c != a {
      BlankBelow(T, P, P[c], a);
      assert !Linked(T, P, c);
    }
  }

  /** Every table lies below the map itself. */
  lemma {:induction false} BelowRoot(T: seq<Table>, P: seq<int>, c: int)
    requires TreeOk(T, P) && 0 <= c < |T|
    ensures Below(P, c, 0)
    decreases c
  {
    if c != 0 {
      BelowRoot(T, P, P[c]);
    }
  }

  /**
   * Clearing the tables of a set `S` that holds, with every table, the
   * tables below it, keeps the tree's shape.
   */
  lemma ClearedTreeOk(T: seq<Table>, P: seq<int>, S: set<int>, T': seq<Table>)
    requires TreeOk(T, P) && |T'| == |T|
    requires forall c :: 1 <= c < |T| && P[c] in S ==> c in S
    requires forall c :: 0 <= c < |T| ==> T'[c] == if c in S then Cleared(T[c]) else T[c]
    ensures TreeOk(T', P)
  {
    forall c | 0 <= c < |T|
      ensures |T'[c].slots| == |T[c].slots| && T'[c].keyShift == T[c].keyShift && T'[c].subBase == T[c].subBase
      ensures T'[c].useSubMaps ==> T[c].useSubMaps
      ensures c in S || T'[c] == T[c]
      ensures c in S ==> Blank(T'[c])
    {
      if c in S {
        ClearedTwice(T[c]);
      }
    }
    WeakerTreeOk(T, P, S, T');
  }

  /**
   * The tree keeps its shape when tables keep their lengths, shifts and
   * sub-map arrays, stop using sub-maps at most, and every table changed is
   * blank together with the tables below it.
   */
  lemma WeakerTreeOk(T: seq<Table>, P: seq<int>, S: set<int>, T': seq<Table>)
    requires TreeOk(T, P) && |T'| == |T|
    requires forall c :: 1 <= c < |T| && P[c] in S ==> c in S
    requires forall c :: 0 <= c < |T| ==>
      |T'[c].slots| == |T[c].slots| && T'[c].keyShift == T[c].keyShift && T'[c].subBase == T[c].subBase
    requires forall c :: 0 <= c < |T| ==> (T'[c].useSubMaps ==> T[c].useSubMaps)
    requires forall c :: 0 <= c < |T| ==> c in S || T'[c] == T[c]
    requires forall c :: 0 <= c < |T| && c in S ==> Blank(T'[c])
    ensures TreeOk(T', P)
  {
    forall t | 0 <= t < |T'|
      ensures IsPow2(|T'[t].slots|) && SubsOk(T', t)
    {
      assert SubsOk(T, t);
    }
    forall t, j | 0 <= t < |T'| && T'[t].subBase >= 0 && 0 <= j < C2
      ensures P[Child(T'[t], j)] == t && T'[Child(T'[t], j)].keyShift == T'[t].keyShift + B2
    {
      assert Child(T'[t], j) == Child(T[t], j);
    }
    forall c | 1 <= c < |T'| && !Linked(T', P, c)
      ensures Blank(T'[c])
    {
      if c !in S {
        assert P[c] !in S;
        assert T'[P[c]] == T[P[c]];
      }
    }
  }

  /** Clearing twice is clearing once. */
  lemma ClearedTwice(x: Table)
    ensures Blank(Cleared(x))
  {
  }

  /**
   * `clearTables()` of table `t`: the sub-maps in use are cleared first (and
   * through them theirs), then `t`'s own slots are reset, its counts zeroed
   * and its sub-maps marked unused.  Every table below `t` ends up cleared;
   * the tables not below `t` are untouched.
   */
  method ClearTables(T: seq<Table>, ghost P: seq<int>, t: int) returns (T': seq<Table>)
    requires TreeOk(T, P) && 0 <= t < |T|
    ensures |T'| == |T|
    ensures forall c :: 0 <= c < |T| ==> T'[c] == if Below(P, c, t) then Cleared(T[c]) else T[c]
    decreases |T| - t
  {
    T' := T;
    var x := T[t];
    ghost var S: set<int> := {};
    if x.useSubMaps {
      assert SubsOk(T, t);
      var i := 0;
      while i < C2
        invariant 0 <= i <= C2 && |T'| == |T| && TreeOk(T', P)
        invariant forall c :: 0 <= c < |T| ==> T'[c] == if c in S then Cleared(T[c]) else T[c]
        invariant forall c :: c in S ==> 0 <= c < |T| && Below(P, c, t) && c != t
        invariant forall c :: 1 <= c < |T| && P[c] in S ==> c in S
        invariant forall c :: 0 <= c < |T| && Below(P, c, t) && c != t && x.subBase <= Top(P, c, t) < Child(x, i) ==> c in S
      {
        T', S := ClearSubMap(T, P, t, i, T', S);
        i := i + 1;
      }
    }
    UnclearedBlank(T, P, t, S);
    var slots := ResetSlots(x.slots);
    T' := T'[t := x.(useSubMaps := false, slots := slots, nullCount := 0, entryCount := 0)];
  }

  /** Once the sub-maps `t` dispatches to are cleared, what remains below `t` was blank. */
  lemma UnclearedBlank(T: seq<Table>, P: seq<int>, t: int, S: set<int>)
    requires TreeOk(T, P) && 0 <= t < |T|
    requires T[t].useSubMaps ==>
      forall c :: 0 <= c < |T| && Below(P, c, t) && c != t && T[t].subBase <= Top(P, c, t) < Child(T[t], C2) ==> c in S
    ensures forall c :: 0 <= c < |T| && Below(P, c, t) && c != t && c !in S ==> Blank(T[c])
  {
    forall c | 0 <= c < |T| && Below(P, c, t) && c != t && c !in S
      ensures Blank(T[c])
    {
      var r := Top(P, c, t);
      assert !Linked(T, P, r);
      BlankBelow(T, P, c, r);
    }
  }

  /** One round of `clearTables()`: sub-map `i` of table `t`, and every table below it, is cleared. */
  method ClearSubMap(T: seq<Table>, ghost P: seq<int>, t: int, i: int, T0: seq<Table>, ghost S0: set<int>)
    returns (T': seq<Table>, ghost S: set<int>)
    requires TreeOk(T, P) && 0 <= t < |T| && T[t].useSubMaps && 0 <= i < C2
    requires |T0| == |T| && TreeOk(T0, P)
    requires forall c :: 0 <= c < |T| ==> T0[c] == if c in S0 then Cleared(T[c]) else T[c]
    requires forall c :: c in S0 ==> 0 <= c < |T| && Below(P, c, t) && c != t
    requires forall c :: 1 <= c < |T| && P[c] in S0 ==> c in S0
    requires forall c :: 0 <= c < |T| && Below(P, c, t) && c != t && T[t].subBase <= Top(P, c, t) < Child(T[t], i) ==> c in S0
    ensures |T'| == |T| && TreeOk(T', P)
    ensures forall c :: 0 <= c < |T| ==> T'[c] == if c in S then Cleared(T[c]) else T[c]
    ensures forall c :: c in S ==> 0 <= c < |T| && Below(P, c, t) && c != t
    ensures forall c :: 1 <= c < |T| && P[c] in S ==> c in S
    ensures forall c :: 0 <= c < |T| && Below(P, c, t) && c != t && T[t].subBase <= Top(P, c, t) < Child(T[t], i + 1) ==> c in S
    decreases |T| - t, 0
  {
    var x := T[t];
    assert SubsOk(T, t);
    var s := Child(x, i);
    assert P[s] == t;
    T' := ClearTables(T0, P, s);
    S := S0 + set c | 0 <= c < |T| && Below(P, c, s);
    SubtreeAdded(T, P, t, i, S0, S);
    ClearedTreeOk(T, P, S, T');
  }

  /** Adding the subtree of sub-map `i` to the tables cleared so far. */
  lemma SubtreeAdded(T: seq<Table>, P: seq<int>, t: int, i: int, S0: set<int>, S: set<int>)
    requires TreeOk(T, P) && 0 <= t < |T| && T[t].useSubMaps && 0 <= i < C2
    requires forall c :: c in S0 ==> 0 <= c < |T| && Below(P, c, t) && c != t
    requires forall c :: 0 <= c < |T| && Below(P, c, t) && c != t && T[t].subBase <= Top(P, c, t) < Child(T[t], i) ==> c in S0
    requires S == S0 + set c | 0 <= c < |T| && Below(P, c, Child(T[t], i))
    ensures forall c :: c in S ==> 0 <= c < |T| && Below(P, c, t) && c != t
    ensures forall c :: 0 <= c < |T| && Below(P, c, t) && c != t && T[t].subBase <= Top(P, c, t) < Child(T[t], i + 1) ==> c in S
  {
    var x := T[t];
    assert SubsOk(T, t);
    var s := Child(x, i);
    assert P[s] == t;
    forall c | c in S
      ensures 0 <= c < |T| && Below(P, c, t) && c != t
    {
      if c !in S0 {
        BelowThrough(P, c, s, t);
      }
    }
    forall c | 0 <= c < |T| && Below(P, c, t) && c != t && x.subBase <= Top(P, c, t) < Child(x, i + 1)
      ensures c in S
    {
      if Top(P, c, t) == s {
        assert Below(P, c, s);
      }
    }
  }

  /** Below a child of `a` is below `a`. */
  lemma {:induction false} BelowThrough(P: seq<int>, c: int, s: int, a: int)
    requires 0 <= c < |P| && 0 < s < |P| && 0 <= P[s] < s && P[s] == a && Below(P, c, s)
    ensures Below(P, c, a) && c != a
    decreases c
  {
    if c != s {
      BelowThrough(P, P[c], s, a);
      BelowLe(P, P[c], s);
    } else {
      assert Below(P, P[s], a);
    }
  }

  /** `size()` of table `t`: its entry count, or the sizes of its sub-maps added up while it uses them. */
  function TreeCount(T: seq<Table>, t: int): int
    requires 0 <= t < |T|
    decreases |T| - t, 1
  {
    var x := T[t];
    if x.useSubMaps && t < x.subBase && x.subBase + C2 <= |T| then Sum(Sizes(T, t)) else x.entryCount
  }

  /** The sizes of the sub-maps of table `t`. */
  function Sizes(T: seq<Table>, t: int): (r: seq<int>)
    requires 0 <= t < |T| && t < T[t].subBase && T[t].subBase + C2 <= |T|
    ensures |r| == C2
    decreases |T| - t, 0
  {
    seq(C2, j requires 0 <= j < C2 => TreeCount(T, Child(T[t], j)))
  }

  function Sum(s: seq<int>): int
  {
    if |s| == 0 then 0 else Sum(s[..|s| - 1]) + s[|s| - 1]
  }

  /** Changing one number changes the sum by as much. */
  lemma {:induction false} SumUpdate(s: seq<int>, j: int, v: int)
    requires 0 <= j < |s|
    ensures Sum(s[j := v]) == Sum(s) - s[j] + v
  {
    var n := |s| - 1;
    if j < n {
      assert s[j := v][..n] == s[..n][j := v];
      SumUpdate(s[..n], j, v);
    } else {
      assert s[j := v][..n] == s[..n];
    }
  }

  lemma {:induction false} SumZero(s: seq<int>)
    requires forall j :: 0 <= j < |s| ==> s[j] == 0
    ensures Sum(s) == 0
  {
    if |s| > 0 {
      SumZero(s[..|s| - 1]);
    }
  }

  /** A table's size depends only on the tables below it. */
  lemma {:induction false} TreeCountFrame(T: seq<Table>, T': seq<Table>, P: seq<int>, c: int)
    requires TreeOk(T, P) && |T'| == |T| && 0 <= c < |T|
    requires forall d :: 0 <= d < |T| && Below(P, d, c) ==> T'[d] == T[d]
    ensures TreeCount(T', c) == TreeCount(T, c)
    decreases |T| - c
  {
    var x := T[c];
    assert Below(P, c, c);
    if x.useSubMaps && c < x.subBase && x.subBase + C2 <= |T| {
      forall j | 0 <= j < C2
        ensures TreeCount(T', Child(x, j)) == TreeCount(T, Child(x, j))
      {
        var d := Child(x, j);
        assert P[d] == c;
        forall e | 0 <= e < |T| && Below(P, e, d)
          ensures T'[e] == T[e]
        {
          BelowThrough(P, e, d, c);
        }
        TreeCountFrame(T, T', P, d);
      }
      assert Sizes(T', c) == Sizes(T, c);
    }
  }

  /**
   * When only the tables below an active table `t` change, the size of every
   * table above `t` changes by exactly as much as the size of `t`.
   */
  lemma {:induction false} TreeCountChange(T: seq<Table>, T': seq<Table>, P: seq<int>, t: int, a: int)
    requires TreeOk(T, P) && |T'| == |T| && 0 <= t < |T| && Active(T, P, t)
    requires forall c :: 0 <= c < |T| && !Below(P, c, t) ==> T'[c] == T[c]
    requires 0 <= a < |T| && Below(P, t, a)
    ensures TreeCount(T', a) - TreeCount(T, a) == TreeCount(T', t) - TreeCount(T, t)
    decreases t - a, 1
  {
    if a != t {
      BelowLe(P, t, a);
      var r := Top(P, t, a);
      TopLinked(T, P, t, a);
      var x := T[a];
      assert SubsOk(T, a);
      NotBelow(P, a, t);
      assert T'[a] == x;
      var delta := TreeCount(T', t) - TreeCount(T, t);
      var k := r - x.subBase;
      forall j | 0 <= j < C2
        ensures Sizes(T', a)[j] == Sizes(T, a)[k := Sizes(T, a)[k] + delta][j]
      {
        SubCountStep(T, T', P, t, a, j);
      }
      assert Sizes(T', a) == Sizes(T, a)[k := Sizes(T, a)[k] + delta];
      SumUpdate(Sizes(T, a), k, Sizes(T, a)[k] + delta);
    }
  }

  /** The size of sub-map `j` of `a` changes only if it is the one `t` lies below, and then as `t`'s does. */
  lemma {:induction false} SubCountStep(T: seq<Table>, T': seq<Table>, P: seq<int>, t: int, a: int, j: int)
    requires TreeOk(T, P) && |T'| == |T| && 0 <= t < |T| && Active(T, P, t)
    requires forall c :: 0 <= c < |T| && !Below(P, c, t) ==> T'[c] == T[c]
    requires 0 <= a < t && Below(P, t, a)
    requires a < T[a].subBase && T[a].subBase + C2 <= |T| && 0 <= j < C2
    ensures TreeCount(T', Child(T[a], j)) - TreeCount(T, Child(T[a], j)) ==
      if Top(P, t, a) == Child(T[a], j) then TreeCount(T', t) - TreeCount(T, t) else 0
    decreases t - a, 0
  {
    var d := Child(T[a], j);
    assert P[d] == a;
    if d == Top(P, t, a) {
      BelowLe(P, t, d);
      TreeCountChange(T, T', P, t, d);
    } else {
      SiblingFrame(T, T', P, t, a, d);
    }
  }

  /** The size of a sub-map of `a` other than the one `t` lies below does not change. */
  lemma SiblingFrame(T: seq<Table>, T': seq<Table>, P: seq<int>, t: int, a: int, d: int)
    requires TreeOk(T, P) && |T'| == |T| && 0 <= t < |T|
    requires forall c :: 0 <= c < |T| && !Below(P, c, t) ==> T'[c] == T[c]
    requires 0 <= a < t && Below(P, t, a)
    requires a < d < |T| && P[d] == a && d != Top(P, t, a)
    ensures TreeCount(T', d) == TreeCount(T, d)
  {
    forall e | 0 <= e < |T| && Below(P, e, d)
      ensures T'[e] == T[e]
    {
      SiblingDisjoint(P, t, a, d, e);
    }
    TreeCountFrame(T, T', P, d);
  }

  /** Nothing below a sub-map of `a` other than the one `t` lies below is below `t`. */
  lemma SiblingDisjoint(P: seq<int>, t: int, a: int, d: int, e: int)
    requires 0 <= a < t < |P| && Below(P, t, a)
    requires a < d < |P| && P[d] == a && d != Top(P, t, a)
    requires 0 <= e < |P| && Below(P, e, d)
    ensures !Below(P, e, t)
  {
    if Below(P, e, t) {
      BelowLine(P, e, d, t);
      if Below(P, d, t) {
        assert d != t;
        NotBelow(P, a, t);
      } else {
        TopUnique(P, t, a, d);
      }
    }
  }

  /** An ancestor of a table is not below it. */
  lemma NotBelow(P: seq<int>, a: int, t: int)
    requires 0 <= a < t < |P| && 0 <= t
    ensures !Below(P, a, t)
  {
    if Below(P, a, t) {
      BelowLe(P, a, t);
    }
  }

  /**
   * `size()` of table `t`: its entry count unless it uses sub-maps, in which
   * case the sum of their sizes.
   */
  method SizeOf(T: seq<Table>, ghost P: seq<int>, t: int) returns (n: int)
    requires TreeOk(T, P) && 0 <= t < |T|
    ensures n == TreeCount(T, t)
    decreases |T| - t
  {
    var x := T[t];
    if !x.useSubMaps {
      return x.entryCount;
    }
    assert SubsOk(T, t);
    ghost var sizes := Sizes(T, t);
    n := 0;
    var i := 0;
    while i < C2
      invariant 0 <= i <= C2 && n == Sum(sizes[..i])
    {
      var m := SizeOf(T, P, Child(x, i));
      assert sizes[..i + 1][..i] == sizes[..i];
      n := n + m;
      i := i + 1;
    }
    assert sizes[..C2] == sizes;
  }

  /** After `clearTables()` of the map itself, its size is zero. */
  lemma ClearedCount(T: seq<Table>, P: seq<int>, T': seq<Table>)
    requires TreeOk(T, P) && |T'| == |T|
    requires forall c :: 0 <= c < |T| ==> T'[c] == if Below(P, c, 0) then Cleared(T[c]) else T[c]
    ensures TreeCount(T', 0) == 0
  {
    BelowRoot(T, P, 0);
  }

  /** `newSubMaps(capacity)`: C2 empty sub-maps of `capacity` slots, with key shift B2 more than their creator's. */
  method NewSubMaps(capacity: int, keyShift: nat) returns (kids: seq<Table>)
    requires capacity > 0
    ensures |kids| == C2
    ensures forall j :: 0 <= j < C2 ==> Blank(kids[j]) && |kids[j].slots| == capacity
    ensures forall j :: 0 <= j < C2 ==> kids[j].keyShift == keyShift + B2 && kids[j].subBase == -1
  {
    kids := [];
    var empty := ListSpec.Repeat(EMPTY, capacity);
    for i := 0 to C2
      invariant |kids| == i
      invariant forall j :: 0 <= j < i ==> kids[j] == Table(empty, 0, 0, keyShift + B2, false, -1)
    {
      kids := kids + [Table(empty, 0, 0, keyShift + B2, false, -1)];
    }
  }

  /** The entry counts of the tables `kids`. */
  function EntryCounts(kids: seq<Table>): (r: seq<int>)
    ensures |r| == |kids|
  {
    seq(|kids|, j requires 0 <= j < |kids| => kids[j].entryCount)
  }

  /**
   * A sub-map `y` that started out as the blank table `y0` and has had
   * entries mapped into it: only its slots and entry count differ, it holds
   * `entryCount` entries and no tombstones, every entry is reachable, and it
   * is still less than half full.
   */
  ghost predicate KidOk(y: Table, y0: Table, hashes: seq<int>)
  {
    && Blank(y0) && Filled(y, y0)
    && y.nullCount == 0 && !y.useSubMaps
    && |y.slots| == |y0.slots| > 0
    && y.entryCount == Holding(y.slots) == Occupied(y.slots)
    && 2 * y.entryCount < |y.slots|
    && Reachable(y.slots, hashes, y.keyShift)
  }

  /** `y` differs from `y0` at most in its slots and entry count, and has as many slots. */
  predicate Filled(y: Table, y0: Table)
  {
    y.(slots := y0.slots, entryCount := y0.entryCount) == y0 && |y.slots| == |y0.slots|
  }

  /**
   * What the split loop of `resizeTable` has done once it has gone through
   * `from[..i]`, the slots of table `x`: each sub-map is in order, together
   * they hold as many entries as `from[..i]`, every entry they hold came
   * from `from[..i]` (slot `q` of sub-map `j` from `from[src[j][q]]`) and
   * sits in the sub-map its hash selects, every entry of `from[..i]` is
   * where `w` says, and `w` has changed only for entries moved.
   */
  ghost predicate Mapped(from: seq<int>, i: int, kids: seq<Table>, kids0: seq<Table>, x: Table,
                         hashes: seq<int>, w0: seq<int>, src: seq<seq<int>>, w: seq<int>)
  {
    && 0 <= i <= |from| && |kids| == |kids0| == |src| == C2 && |w| == |w0|
    && (forall j :: 0 <= j < C2 ==> KidOk(kids[j], kids0[j], hashes) && |src[j]| == |kids[j].slots|)
    && Sum(EntryCounts(kids)) == Holding(from[..i])
    && MappedFrom(from, i, kids, x, hashes, src, w)
    && MappedTo(from, i, kids, x, hashes, w)
    && Moved(kids, x, hashes, w0, w)
  }

  /** Every entry in a sub-map came from `from[..i]`, belongs to that sub-map, and `w` records its slot. */
  ghost predicate MappedFrom(from: seq<int>, i: int, kids: seq<Table>, x: Table, hashes: seq<int>,
                             src: seq<seq<int>>, w: seq<int>)
    requires 0 <= i <= |from| && |kids| == |src| == C2
    requires forall j :: 0 <= j < C2 ==> |src[j]| == |kids[j].slots|
  {
    forall j, q :: 0 <= j < C2 && 0 <= q < |kids[j].slots| && kids[j].slots[q] >= 0 ==>
      && 0 <= src[j][q] < i && from[src[j][q]] == kids[j].slots[q]
      && kids[j].slots[q] < |hashes| && Select(x, hashes[kids[j].slots[q]]) == j
      && kids[j].slots[q] < |w| && w[kids[j].slots[q]] == q
  }

  /** Every entry of `from[..i]` sits in the sub-map its hash selects, at the slot `w` records. */
  ghost predicate MappedTo(from: seq<int>, i: int, kids: seq<Table>, x: Table, hashes: seq<int>, w: seq<int>)
    requires 0 <= i <= |from| && |kids| == C2
  {
    forall p :: 0 <= p < i && from[p] >= 0 ==> Holds(kids, x, hashes, w, from[p])
  }

  /** Entry `e` is in the sub-map its hash selects, at slot `w[e]`. */
  ghost predicate Holds(kids: seq<Table>, x: Table, hashes: seq<int>, w: seq<int>, e: int)
    requires |kids| == C2
  {
    && 0 <= e < |hashes| && e < |w|
    && 0 <= w[e] < |kids[Select(x, hashes[e])].slots| && kids[Select(x, hashes[e])].slots[w[e]] == e
  }

  /** `w` has changed only for entries the sub-maps hold. */
  ghost predicate Moved(kids: seq<Table>, x: Table, hashes: seq<int>, w0: seq<int>, w: seq<int>)
    requires |kids| == C2 && |w| == |w0|
  {
    forall e :: 0 <= e < |w| && w[e] != w0[e] ==> Holds(kids, x, hashes, w, e)
  }

  /**
   * The split loop of `resizeTable`: each entry of the slots `from` of table
   * `x` (`null` slots and tombstones are skipped) is mapped into the sub-map
   * `(hash >> keyShift) & 63` of `kids0`, and the loop gives up (`ok` false)
   * as soon as a sub-map becomes half full.  When it does not give up, the
   * sub-maps hold exactly the entries of `from`, each where its hash selects.
   */
  method MapEntries(from: seq<int>, kids0: seq<Table>, x: Table, hashes: seq<int>, ghost w0: seq<int>)
    returns (ok: bool, kids: seq<Table>, ghost src: seq<seq<int>>, ghost w: seq<int>)
    requires |kids0| == C2 && forall j :: 0 <= j < C2 ==> Blank(kids0[j]) && |kids0[j].slots| > 0
    requires forall p :: 0 <= p < |from| ==> from[p] < |hashes| && from[p] < |w0|
    requires Unique(from)
    ensures ok ==> Mapped(from, |from|, kids, kids0, x, hashes, w0, src, w)
  {
    kids, w := kids0, w0;
    src := seq(C2, j requires 0 <= j < C2 => kids0[j].slots);
    forall j | 0 <= j < C2
      ensures KidOk(kids0[j], kids0[j], hashes)
    {
      CountsOfEmpty(|kids0[j].slots|);
      EmptyReachable(|kids0[j].slots|, hashes, kids0[j].keyShift);
    }
    SumZero(EntryCounts(kids0));
    assert from[..0] == [];
    var i := 0;
    while i < |from|
      invariant Mapped(from, i, kids, kids0, x, hashes, w0, src, w)
    {
      ok, kids, src, w := MapOne(from, i, kids, kids0, x, hashes, w0, src, w);
      if !ok {
        return;
      }
      i := i + 1;
    }
    assert from[..i] == from;
    ok := true;
  }

  /**
   * One round of the split loop: `from[i]`, unless it holds no entry, is
   * mapped into its sub-map (`mapEntry`); `ok` is false when that sub-map
   * is now half full.
   */
  method MapOne(from: seq<int>, i: int, kids0: seq<Table>, k0: seq<Table>, x: Table, hashes: seq<int>,
                ghost w0: seq<int>, ghost src0: seq<seq<int>>, ghost v0: seq<int>)
    returns (ok: bool, kids: seq<Table>, ghost src: seq<seq<int>>, ghost v: seq<int>)
    requires 0 <= i < |from| && Mapped(from, i, kids0, k0, x, hashes, w0, src0, v0)
    requires forall p :: 0 <= p < |from| ==> from[p] < |hashes| && from[p] < |w0|
    requires Unique(from)
    ensures ok ==> Mapped(from, i + 1, kids, k0, x, hashes, w0, src, v)
  {
    HoldingStep(from, i);
    var e := from[i];
    if e < 0 {
      ok, kids, src, v := true, kids0, src0, v0;
      return;
    }
    var j := Select(x, hashes[e]);
    var y := kids0[j];
    assert KidOk(y, k0[j], hashes);
    var q := FirstEmpty(y.slots, hashes[e], y.keyShift);
    var y' := MapEntry(y, e, q);
    kids, src, v := kids0[j := y'], src0[j := src0[j][q := i]], v0[e := q];
    ok := 2 * (y'.entryCount + y'.nullCount) < |y'.slots|;
    if ok {
      MappedWrite(from, i, kids0, k0, x, hashes, w0, src0, v0, q);
    }
  }

  /** `mapEntry`: the entry goes to the free slot `q` the probe found, and the entry count grows by one. */
  function MapEntry(y: Table, e: int, q: int): (y': Table)
    requires 0 <= q < |y.slots| && y.slots[q] == EMPTY && e >= 0
    ensures y'.(slots := y.slots, entryCount := y.entryCount) == y
    ensures y'.slots == y.slots[q := e] && Holding(y'.slots) == Holding(y.slots) + 1
    ensures y'.entryCount == y.entryCount + 1
  {
    WriteCounts(y.slots, q, e);
    y.(slots := y.slots[q := e], entryCount := y.entryCount + 1)
  }

  /** Placing `from[i]` at the free slot `q` of its sub-map extends what `Mapped` says by one slot. */
  lemma MappedWrite(from: seq<int>, i: int, kids0: seq<Table>, k0: seq<Table>, x: Table, hashes: seq<int>,
                    w0: seq<int>, src0: seq<seq<int>>, v0: seq<int>, q: int)
    requires 0 <= i < |from| && Mapped(from, i, kids0, k0, x, hashes, w0, src0, v0)
    requires forall p :: 0 <= p < |from| ==> from[p] < |hashes| && from[p] < |w0|
    requires Unique(from) && from[i] >= 0
    requires Holding(from[..i + 1]) == Holding(from[..i]) + 1
    requires 0 <= q < |kids0[Select(x, hashes[from[i]])].slots|
    requires kids0[Select(x, hashes[from[i]])].slots[q] == EMPTY
    requires PathFull(kids0[Select(x, hashes[from[i]])].slots,
                      Home(hashes[from[i]], kids0[Select(x, hashes[from[i]])].keyShift, |kids0[Select(x, hashes[from[i]])].slots|), q)
    requires 2 * (kids0[Select(x, hashes[from[i]])].entryCount + 1) < |kids0[Select(x, hashes[from[i]])].slots|
    ensures Mapped(from, i + 1, kids0[Select(x, hashes[from[i]]) := MapEntry(kids0[Select(x, hashes[from[i]])], from[i], q)],
                   k0, x, hashes, w0,
                   src0[Select(x, hashes[from[i]]) := src0[Select(x, hashes[from[i]])][q := i]], v0[from[i] := q])
  {
    var e := from[i];
    var j := Select(x, hashes[e]);
    var y := kids0[j];
    var y' := MapEntry(y, e, q);
    var kids, src, v := kids0[j := y'], src0[j := src0[j][q := i]], v0[e := q];
    assert KidOk(y, k0[j], hashes);
    WriteCounts(y.slots, q, e);
    WriteKeepsReachable(y.slots, hashes, y.keyShift, q, e);
    assert KidOk(y', k0[j], hashes);
    assert EntryCounts(kids) == EntryCounts(kids0)[j := y'.entryCount];
    SumUpdate(EntryCounts(kids0), j, y'.entryCount);
    NotMappedYet(from, i, kids0, x, hashes, src0, v0);
    MappedFromWrite(from, i, kids0, x, hashes, src0, v0, q);
    MappedToWrite(from, i, kids0, x, hashes, v0, q);
    MovedWrite(from, i, kids0, x, hashes, w0, v0, q);
  }

  /** An entry not mapped yet is in no sub-map. */
  lemma NotMappedYet(from: seq<int>, i: int, kids: seq<Table>, x: Table, hashes: seq<int>, src: seq<seq<int>>, w: seq<int>)
    requires 0 <= i < |from| && |kids| == |src| == C2 && forall j :: 0 <= j < C2 ==> |src[j]| == |kids[j].slots|
    requires MappedFrom(from, i, kids, x, hashes, src, w) && Unique(from) && from[i] >= 0
    ensures forall j, q :: 0 <= j < C2 && 0 <= q < |kids[j].slots| ==> kids[j].slots[q] != from[i]
  {
    forall j, q | 0 <= j < C2 && 0 <= q < |kids[j].slots| && kids[j].slots[q] >= 0
      ensures kids[j].slots[q] != from[i]
    {
      assert from[src[j][q]] == kids[j].slots[q] && src[j][q] < i;
    }
  }

  lemma MappedFromWrite(from: seq<int>, i: int, kids0: seq<Table>, x: Table, hashes: seq<int>,
                        src0: seq<seq<int>>, v0: seq<int>, q: int)
    requires 0 <= i < |from| && |kids0| == |src0| == C2 && forall j :: 0 <= j < C2 ==> |src0[j]| == |kids0[j].slots|
    requires MappedFrom(from, i, kids0, x, hashes, src0, v0) && from[i] >= 0
    requires from[i] < |hashes| && from[i] < |v0|
    requires forall j, q :: 0 <= j < C2 && 0 <= q < |kids0[j].slots| ==> kids0[j].slots[q] != from[i]
    requires 0 <= q < |kids0[Select(x, hashes[from[i]])].slots| && kids0[Select(x, hashes[from[i]])].slots[q] == EMPTY
    ensures MappedFrom(from, i + 1, kids0[Select(x, hashes[from[i]]) := MapEntry(kids0[Select(x, hashes[from[i]])], from[i], q)],
                       x, hashes, src0[Select(x, hashes[from[i]]) := src0[Select(x, hashes[from[i]])][q := i]], v0[from[i] := q])
  {
  }

  lemma MappedToWrite(from: seq<int>, i: int, kids0: seq<Table>, x: Table, hashes: seq<int>, v0: seq<int>, q: int)
    requires 0 <= i < |from| && |kids0| == C2 && MappedTo(from, i, kids0, x, hashes, v0) && Unique(from) && from[i] >= 0
    requires from[i] < |hashes| && from[i] < |v0|
    requires 0 <= q < |kids0[Select(x, hashes[from[i]])].slots| && kids0[Select(x, hashes[from[i]])].slots[q] == EMPTY
    ensures MappedTo(from, i + 1, kids0[Select(x, hashes[from[i]]) := MapEntry(kids0[Select(x, hashes[from[i]])], from[i], q)],
                     x, hashes, v0[from[i] := q])
  {
    var e := from[i];
    var j := Select(x, hashes[e]);
    var kids := kids0[j := MapEntry(kids0[j], e, q)];
    var v := v0[e := q];
    forall p | 0 <= p < i + 1 && from[p] >= 0
      ensures Holds(kids, x, hashes, v, from[p])
    {
      if p < i {
        assert from[p] != e;
        assert Holds(kids0, x, hashes, v0, from[p]);
      }
    }
  }

  lemma MovedWrite(from: seq<int>, i: int, kids0: seq<Table>, x: Table, hashes: seq<int>, w0: seq<int>, v0: seq<int>, q: int)
    requires 0 <= i < |from| && |kids0| == C2 && |v0| == |w0| && Moved(kids0, x, hashes, w0, v0) && from[i] >= 0
    requires from[i] < |hashes| && from[i] < |v0|
    requires forall j, q :: 0 <= j < C2 && 0 <= q < |kids0[j].slots| ==> kids0[j].slots[q] != from[i]
    requires 0 <= q < |kids0[Select(x, hashes[from[i]])].slots| && kids0[Select(x, hashes[from[i]])].slots[q] == EMPTY
    ensures Moved(kids0[Select(x, hashes[from[i]]) := MapEntry(kids0[Select(x, hashes[from[i]])], from[i], q)],
                  x, hashes, w0, v0[from[i] := q])
  {
    var e := from[i];
    var j := Select(x, hashes[e]);
    var kids := kids0[j := MapEntry(kids0[j], e, q)];
    var v := v0[e := q];
    forall d | 0 <= d < |v| && v[d] != w0[d]
      ensures Holds(kids, x, hashes, v, d)
    {
      if d != e {
        assert Holds(kids0, x, hashes, v0, d);
      }
    }
  }

  /**
   * Writing a leaf that routing reaches: with its key shift kept, still a
   * leaf, a power-of-two length and its sub-map array kept or dropped, the
   * tree keeps its shape and no hash is routed elsewhere.
   */
  lemma LeafWriteTreeOk(T: seq<Table>, P: seq<int>, t: int, y: Table)
    requires TreeOk(T, P) && 0 <= t < |T| && Active(T, P, t) && !T[t].useSubMaps
    requires !y.useSubMaps && y.keyShift == T[t].keyShift && IsPow2(|y.slots|)
    requires y.subBase == T[t].subBase || y.subBase == -1
    ensures TreeOk(T[t := y], P) && Active(T[t := y], P, t)
    ensures forall h :: Route(T[t := y], 0, h) == Route(T, 0, h)
  {
    var T' := T[t := y];
    LeafWriteTables(T, t, y);
    LeafWriteChildren(T, P, t, y);
    LeafWriteUnlinked(T, P, t, y);
    ActiveFrame(T, T', P, P, t);
    RouteAfterWrite(T, t, y);
  }

  lemma LeafWriteTables(T: seq<Table>, t: int, y: Table)
    requires TablesOk(T) && 0 <= t < |T| && !T[t].useSubMaps
    requires !y.useSubMaps && IsPow2(|y.slots|) && (y.subBase == T[t].subBase || y.subBase == -1)
    ensures TablesOk(T[t := y])
  {
    assert SubsOk(T, t);
  }

  lemma LeafWriteChildren(T: seq<Table>, P: seq<int>, t: int, y: Table)
    requires |P| == |T| && ChildrenOk(T, P) && 0 <= t < |T| && y.keyShift == T[t].keyShift
    requires y.subBase == T[t].subBase || y.subBase == -1
    ensures ChildrenOk(T[t := y], P)
  {
    var T' := T[t := y];
    forall u, j | 0 <= u < |T'| && T'[u].subBase >= 0 && 0 <= j < C2
      ensures 0 <= Child(T'[u], j) < |T'| && P[Child(T'[u], j)] == u && T'[Child(T'[u], j)].keyShift == T'[u].keyShift + B2
    {
      assert Child(T'[u], j) == Child(T[u], j);
    }
  }

  lemma LeafWriteUnlinked(T: seq<Table>, P: seq<int>, t: int, y: Table)
    requires |P| == |T| && ParentsOk(P) && UnlinkedBlank(T, P) && 0 <= t < |T| && Active(T, P, t)
    requires !T[t].useSubMaps && !y.useSubMaps
    ensures UnlinkedBlank(T[t := y], P)
  {
    var T' := T[t := y];
    if t != 0 {
      assert Linked(T, P, t);
      assert T'[P[t]] == T[P[t]];
      assert Linked(T', P, t);
    }
    forall c | 1 <= c < |T'| && !Linked(T', P, c)
      ensures Blank(T'[c])
    {
      assert T'[P[c]].useSubMaps == T[P[c]].useSubMaps;
      assert !Linked(T, P, c);
    }
  }

  /** Whether a table is active depends only on the parents and on the tables before it. */
  lemma {:induction false} ActiveFrame(T: seq<Table>, T': seq<Table>, P: seq<int>, P': seq<int>, c: int)
    requires |P| == |T| && |T'| == |P'| && 0 <= c < |T| && c < |T'| && Active(T, P, c)
    requires forall d :: 0 <= d <= c ==> P'[d] == P[d]
    requires forall d :: 0 <= d < c ==> T'[d] == T[d]
    ensures Active(T', P', c)
    decreases c
  {
    if c != 0 {
      ActiveFrame(T, T', P, P', P[c]);
    }
  }

  /** Tables appended to the arena change no size. */
  lemma {:induction false} TreeCountPrefix(T: seq<Table>, T': seq<Table>, P: seq<int>, c: int)
    requires TreeOk(T, P) && |T'| >= |T| && 0 <= c < |T|
    requires forall d :: 0 <= d < |T| ==> T'[d] == T[d]
    ensures TreeCount(T', c) == TreeCount(T, c)
    decreases |T| - c
  {
    var x := T[c];
    assert SubsOk(T, c);
    if x.useSubMaps {
      forall j | 0 <= j < C2
        ensures TreeCount(T', Child(x, j)) == TreeCount(T, Child(x, j))
      {
        TreeCountPrefix(T, T', P, Child(x, j));
      }
      assert Sizes(T', c) == Sizes(T, c);
    }
  }

  /**
   * Appending the C2 blank sub-maps `newSubMaps` creates for table `t`,
   * which has none yet, keeps the shape of the tree.
   */
  lemma ExtendTreeOk(T: seq<Table>, P: seq<int>, t: int, kids: seq<Table>)
    requires TreeOk(T, P) && 0 <= t < |T| && T[t].subBase == -1 && |kids| == C2
    requires forall j :: 0 <= j < C2 ==> Blank(kids[j]) && IsPow2(|kids[j].slots|)
    requires forall j :: 0 <= j < C2 ==> kids[j].keyShift == T[t].keyShift + B2 && kids[j].subBase == -1
    ensures TreeOk(T + kids, P + ListSpec.Repeat(t, C2))
  {
    var T', P' := T + kids, P + ListSpec.Repeat(t, C2);
    forall c | 0 <= c < |T'|
      ensures IsPow2(|T'[c].slots|) && SubsOk(T', c)
    {
      if c < |T| {
        assert SubsOk(T, c);
      } else {
        assert T'[c] == kids[c - |T|];
      }
    }
    forall c | 1 <= c < |T'|
      ensures 0 <= P'[c] < c
    {
      if c >= |T| {
        assert P'[c] == t;
      }
    }
    forall u, j | 0 <= u < |T'| && T'[u].subBase >= 0 && 0 <= j < C2
      ensures P'[Child(T'[u], j)] == u && T'[Child(T'[u], j)].keyShift == T'[u].keyShift + B2
    {
      assert SubsOk(T, u);
    }
    forall c | 1 <= c < |T'| && !Linked(T', P', c)
      ensures Blank(T'[c])
    {
      if c >= |T| {
        assert T'[c] == kids[c - |T|];
      } else {
        assert T'[P'[c]] == T[P[c]];
      }
    }
  }

  /**
   * The arena after a split of table `t` succeeds: its sub-maps at `base`
   * are the filled `kids`, and `t` dispatches to them (its own slots and
   * entry count stay as they were, its tombstone count is zero).
   */
  function Installed(T: seq<Table>, t: int, base: int, kids: seq<Table>): (T': seq<Table>)
    requires 0 <= t < |T| && |kids| == C2 && t < base && base + C2 <= |T|
    ensures |T'| == |T| && T'[t] == T[t].(nullCount := 0, useSubMaps := true, subBase := base)
    ensures forall j :: 0 <= j < C2 ==> T'[base + j] == kids[j]
    ensures forall c :: 0 <= c < |T| && c != t && !(base <= c < base + C2) ==> T'[c] == T[c]
  {
    seq(|T|, c requires 0 <= c < |T| =>
      if base <= c < base + C2 then kids[c - base]
      else if c == t then T[t].(nullCount := 0, useSubMaps := true, subBase := base)
      else T[c])
  }

  /** Arena index `base + j`. */
  function Offset(base: int, j: int): int
  {
    base + j
  }

  /** Installing the filled sub-maps of a split keeps the shape of the tree. */
  lemma InstallTreeOk(T: seq<Table>, P: seq<int>, t: int, base: int, kids: seq<Table>)
    requires TreeOk(T, P) && 0 <= t < |T| && Active(T, P, t) && !T[t].useSubMaps
    requires t < base && base + C2 <= |T| && (T[t].subBase == -1 || T[t].subBase == base) && |kids| == C2
    requires forall j :: 0 <= j < C2 ==> P[Offset(base, j)] == t && T[Offset(base, j)].keyShift == T[t].keyShift + B2
    requires forall j :: 0 <= j < C2 ==> Blank(T[Offset(base, j)]) && Filled(kids[j], T[Offset(base, j)])
    ensures TreeOk(Installed(T, t, base, kids), P) && Active(Installed(T, t, base, kids), P, t)
  {
    var T' := Installed(T, t, base, kids);
    InstalledFacts(T, t, base, kids);
    InstallTables(T, t, base, T');
    InstallChildren(T, P, t, base, T');
    InstallUnlinked(T, P, t, base, T');
    ActiveFrame(T, T', P, P, t);
  }

  /** What installing the filled sub-maps changes in each table. */
  lemma InstalledFacts(T: seq<Table>, t: int, base: int, kids: seq<Table>)
    requires 0 <= t < |T| && t < base && base + C2 <= |T| && |kids| == C2
    requires forall j :: 0 <= j < C2 ==> Blank(T[Offset(base, j)]) && Filled(kids[j], T[Offset(base, j)])
    ensures var T' := Installed(T, t, base, kids);
      forall c :: 0 <= c < |T| ==>
        && T'[c].keyShift == T[c].keyShift && |T'[c].slots| == |T[c].slots|
        && (c != t ==> T'[c].subBase == T[c].subBase && T'[c].useSubMaps == T[c].useSubMaps)
        && ((c == t || base <= c < base + C2) || T'[c] == T[c])
  {
    var T' := Installed(T, t, base, kids);
    forall c | 0 <= c < |T|
      ensures T'[c].keyShift == T[c].keyShift && |T'[c].slots| == |T[c].slots|
      ensures c != t ==> T'[c].subBase == T[c].subBase && T'[c].useSubMaps == T[c].useSubMaps
      ensures (c == t || base <= c < base + C2) || T'[c] == T[c]
    {
      if base <= c < base + C2 {
        var j := c - base;
        assert Offset(base, j) == c;
        assert Blank(T[c]) && Filled(kids[j], T[c]);
      }
    }
  }

  lemma InstallTables(T: seq<Table>, t: int, base: int, T': seq<Table>)
    requires TablesOk(T) && 0 <= t < |T| && t < base && base + C2 <= |T| && |T'| == |T|
    requires forall c :: 0 <= c < |T| ==> |T'[c].slots| == |T[c].slots|
    requires forall c :: 0 <= c < |T| && c != t ==> T'[c].subBase == T[c].subBase && T'[c].useSubMaps == T[c].useSubMaps
    requires T'[t].subBase == base
    ensures TablesOk(T')
  {
    forall c | 0 <= c < |T'|
      ensures IsPow2(|T'[c].slots|) && SubsOk(T', c)
    {
      assert SubsOk(T, c);
    }
  }

  lemma InstallChildren(T: seq<Table>, P: seq<int>, t: int, base: int, T': seq<Table>)
    requires |P| == |T| == |T'| && ChildrenOk(T, P) && 0 <= t < |T| && 0 <= base && base + C2 <= |T|
    requires forall c :: 0 <= c < |T| ==> T'[c].keyShift == T[c].keyShift
    requires forall c :: 0 <= c < |T| && c != t ==> T'[c].subBase == T[c].subBase
    requires T'[t].subBase == base
    requires forall j :: 0 <= j < C2 ==> P[Offset(base, j)] == t && T[Offset(base, j)].keyShift == T[t].keyShift + B2
    ensures ChildrenOk(T', P)
  {
    forall u, j | 0 <= u < |T'| && T'[u].subBase >= 0 && 0 <= j < C2
      ensures 0 <= Child(T'[u], j) < |T'| && P[Child(T'[u], j)] == u && T'[Child(T'[u], j)].keyShift == T'[u].keyShift + B2
    {
      if u == t {
        assert Child(T'[u], j) == Offset(base, j);
      } else {
        assert Child(T'[u], j) == Child(T[u], j);
      }
    }
  }

  lemma InstallUnlinked(T: seq<Table>, P: seq<int>, t: int, base: int, T': seq<Table>)
    requires |P| == |T| == |T'| && ParentsOk(P) && UnlinkedBlank(T, P) && 0 <= t < |T| && Active(T, P, t)
    requires !T[t].useSubMaps && T'[t].useSubMaps && T'[t].subBase == base && t < base && base + C2 <= |T|
    requires forall j :: 0 <= j < C2 ==> P[Offset(base, j)] == t
    requires forall c :: 0 <= c < |T| && c != t ==> T'[c].useSubMaps == T[c].useSubMaps
    requires forall c :: 0 <= c < |T| && c != t && T[c].useSubMaps ==> T'[c].subBase == T[c].subBase
    requires forall c :: 0 <= c < |T| ==> (c == t || base <= c < base + C2) || T'[c] == T[c]
    ensures UnlinkedBlank(T', P)
  {
    if t != 0 {
      assert Linked(T, P, t);
      assert T'[P[t]] == T[P[t]];
      assert Linked(T', P, t);
    }
    forall c | base <= c < base + C2
      ensures Linked(T', P, c)
    {
      var j := c - base;
      assert Offset(base, j) == c;
      assert P[c] == t;
    }
    forall c | 1 <= c < |T'| && !Linked(T', P, c) && !(base <= c < base + C2) && c != t
      ensures Blank(T'[c])
    {
      var p := P[c];
      if p != t && T[p].useSubMaps {
        assert T'[p].subBase == T[p].subBase;
      }
      assert !Linked(T, P, c);
    }
  }

  /**
   * After table `t`, a leaf, splits into the sub-maps at `base`, a hash that
   * was routed to `t` is routed to the sub-map `(h >> keyShift) & 63` of
   * `t`, and every other hash is routed as before.
   */
  lemma {:induction false} RouteSplit(T: seq<Table>, P: seq<int>, T': seq<Table>, t: int, base: int, c: int, h: int)
    requires TreeOk(T, P) && 0 <= c < |T| && 0 <= t < |T| && |T'| >= |T| && !T[t].useSubMaps
    requires T'[t].useSubMaps && T'[t].subBase == base && T'[t].keyShift == T[t].keyShift
    requires t < base && base + C2 <= |T'|
    requires forall j :: 0 <= j < C2 ==> !T'[Offset(base, j)].useSubMaps
    requires forall d :: 0 <= d < |T| && d != t ==> SameShape(T[d], T'[d])
    ensures Route(T', c, h) == if Route(T, c, h) == t then Offset(base, Select(T[t], h)) else Route(T, c, h)
    decreases |T| - c
  {
    var x := T[c];
    assert SubsOk(T, c);
    if c == t {
      var k := Offset(base, Select(T[t], h));
      assert !T'[k].useSubMaps;
    } else if x.useSubMaps {
      assert SameShape(x, T'[c]);
      RouteSplit(T, P, T', t, base, Child(x, Select(x, h)), h);
    } else {
      assert SameShape(x, T'[c]);
    }
  }

  /** The size of a table that dispatches to leaves is the sum of their entry counts. */
  lemma SizesOfKids(T: seq<Table>, t: int, kids: seq<Table>)
    requires 0 <= t < |T| && t < T[t].subBase && T[t].subBase + C2 <= |T| && |kids| == C2
    requires forall j :: 0 <= j < C2 ==> T[Child(T[t], j)] == kids[j] && !kids[j].useSubMaps
    ensures Sizes(T, t) == EntryCounts(kids)
  {
    forall j | 0 <= j < C2
      ensures Sizes(T, t)[j] == EntryCounts(kids)[j]
    {
      assert T[Child(T[t], j)] == kids[j];
    }
  }

  /** After a split, table `t` counts the entries of its filled sub-maps. */
  lemma SplitLocal(T: seq<Table>, t: int, base: int, kids: seq<Table>)
    requires 0 <= t < |T| && t < base && base + C2 <= |T| && |kids| == C2
    requires forall j :: 0 <= j < C2 ==> Blank(T[Offset(base, j)]) && Filled(kids[j], T[Offset(base, j)])
    ensures TreeCount(Installed(T, t, base, kids), t) == Sum(EntryCounts(kids))
  {
    var T' := Installed(T, t, base, kids);
    forall j | 0 <= j < C2
      ensures T'[Child(T'[t], j)] == kids[j] && !kids[j].useSubMaps
    {
      assert Offset(base, j) == Child(T'[t], j);
      assert Blank(T[Offset(base, j)]) && Filled(kids[j], T[Offset(base, j)]);
    }
    SizesOfKids(T', t, kids);
  }

  /** A split changes only tables below `t`: `t` itself and its sub-maps. */
  lemma SplitFrame(T: seq<Table>, P: seq<int>, t: int, base: int, kids: seq<Table>)
    requires |P| == |T| && 0 <= t < |T| && t < base && base + C2 <= |T| && |kids| == C2
    requires forall j :: 0 <= j < C2 ==> P[Offset(base, j)] == t
    ensures forall c :: 0 <= c < |T| && !Below(P, c, t) ==> Installed(T, t, base, kids)[c] == T[c]
  {
    forall c | base <= c < base + C2
      ensures Below(P, c, t)
    {
      assert P[Offset(base, c - base)] == t;
      assert Below(P, t, t);
    }
  }

  /**
   * A split that moves every entry of table `t` into its sub-maps leaves the
   * size of the map unchanged.
   */
  lemma SplitCount(T: seq<Table>, P: seq<int>, t: int, base: int, kids: seq<Table>)
    requires TreeOk(T, P) && 0 <= t < |T| && Active(T, P, t) && !T[t].useSubMaps
    requires t < base && base + C2 <= |T| && |kids| == C2
    requires forall j :: 0 <= j < C2 ==> P[Offset(base, j)] == t
    requires forall j :: 0 <= j < C2 ==> Blank(T[Offset(base, j)]) && Filled(kids[j], T[Offset(base, j)])
    requires Sum(EntryCounts(kids)) == T[t].entryCount
    ensures TreeCount(Installed(T, t, base, kids), 0) == TreeCount(T, 0)
  {
    var T' := Installed(T, t, base, kids);
    SplitLocal(T, t, base, kids);
    SplitFrame(T, P, t, base, kids);
    BelowRoot(T, P, t);
    TreeCountChange(T, T', P, t, 0);
  }

  /** Whether a table is active depends only on the shapes of the tables. */
  lemma {:induction false} ActiveShapes(T: seq<Table>, T': seq<Table>, P: seq<int>, c: int)
    requires |T'| == |T| == |P| && 0 <= c < |T|
    requires forall d :: 0 <= d < |T| ==> SameShape(T[d], T'[d])
    ensures Active(T', P, c) == Active(T, P, c)
    decreases c
  {
    if 0 < c && 0 <= P[c] < c {
      assert SameShape(T[P[c]], T'[P[c]]);
      ActiveShapes(T, T', P, P[c]);
    }
  }

  /** Tables appended to the arena move no hash. */
  lemma {:induction false} RouteExtend(T: seq<Table>, T': seq<Table>, P: seq<int>, t: int, h: int)
    requires TreeOk(T, P) && |T'| >= |T| && 0 <= t < |T|
    requires forall d :: 0 <= d < |T| ==> T'[d] == T[d]
    ensures Route(T', t, h) == Route(T, t, h)
    decreases |T| - t
  {
    var x := T[t];
    assert SubsOk(T, t);
    if x.useSubMaps {
      RouteExtend(T, T', P, Child(x, Select(x, h)), h);
    }
  }

  /** A table active after appended sub-maps that nobody dispatches to was active before. */
  lemma {:induction false} ActiveBeforeExtend(T: seq<Table>, P: seq<int>, T': seq<Table>, P': seq<int>, c: int)
    requires |P| == |T| && |T'| == |P'| >= |T| && 0 <= c < |T'|
    requires forall d :: 0 <= d < |T| ==> T'[d] == T[d] && P'[d] == P[d]
    requires forall d :: |T| <= d < |T'| ==> 0 <= P'[d] < |T| && !T[P'[d]].useSubMaps
    requires Active(T', P', c)
    ensures c < |T| && Active(T, P, c)
    decreases c
  {
    if c != 0 {
      ActiveBeforeExtend(T, P, T', P', P'[c]);
    }
  }

  /** A table active after a split was installed, other than the split table and its sub-maps, was active before. */
  lemma {:induction false} ActiveBeforeInstall(T: seq<Table>, P: seq<int>, t: int, base: int, kids: seq<Table>, c: int)
    requires 0 <= t < |T| && t < base && base + C2 <= |T| && |kids| == C2 && |P| == |T|
    requires forall j :: 0 <= j < C2 ==> !kids[j].useSubMaps
    requires 0 <= c < |T| && c != t && !(base <= c < base + C2)
    requires Active(Installed(T, t, base, kids), P, c)
    ensures Active(T, P, c)
    decreases c
  {
    if c != 0 {
      var T' := Installed(T, t, base, kids);
      var d := P[c];
      assert d != t && !(base <= d < base + C2);
      ActiveBeforeInstall(T, P, t, base, kids, d);
    }
  }
}
