/**
 * FastSequence: a doubly-linked list whose nodes are pooled.  The nodes are
 * kept in one chain `head, live nodes..., tail, free nodes...`; adding at the
 * end writes the value into the `tail` node and advances `tail`, and nodes
 * that are removed go back to the pool right after `tail`, so the list
 * allocates only when the pool is empty (four nodes at a time).
 *
 * Nodes are indices into the arena sequences `next`, `prev` and `value` (the
 * `_next`, `_previous` and `_value` fields of the Java `Node` objects);
 * `NIL` is the `null` link and the value `nil` given at construction stands
 * for a `null` value.  Values are compared with `==` (the default value
 * comparator on well-behaved elements).
 */
module FastSequences {
  import opened JavaLang
  import opened NodeChains
  import ListSpec
  import UnmodifiableViews

  const DEFAULT_CAPACITY: int := 4

  /** The values the `n` nodes after the first node of `chain` hold, in order. */
  function Values<E>(value: seq<E>, chain: seq<int>, n: nat): (r: seq<E>)
    requires n < |chain| && forall i :: 0 <= i < |chain| ==> 0 <= chain[i] < |value|
    ensures |r| == n
    ensures forall i :: 0 <= i < n ==> r[i] == value[chain[i + 1]]
  {
    seq(n, i requires 0 <= i < n => value[chain[i + 1]])
  }

  /**
   * The chain is linked, `head` is its first node and `tail` the node
   * `size + 1` places further, and neither the sentinels nor the free
   * nodes hold a value.
   */
  ghost predicate Inv<E>(next: seq<int>, prev: seq<int>, value: seq<E>, chain: seq<int>,
                         head: int, tail: int, size: int, nil: E)
  {
    && Linked(next, prev, chain)
    && |value| == |next|
    && 0 <= size && size + 2 <= |chain|
    && chain[0] == head && chain[size + 1] == tail
    && value[head] == nil
    && (forall i :: size + 1 <= i < |chain| ==> value[chain[i]] == nil)
  }

  /** `addBefore` keeps the invariant and inserts the value at index `k - 1`. */
  lemma InsertKeepsInv<E>(next0: seq<int>, prev0: seq<int>, value0: seq<E>, chain0: seq<int>,
                          head: int, tail: int, n: nat, nil: E, k: nat, v: E,
                          next: seq<int>, prev: seq<int>, chain: seq<int>)
    requires Inv(next0, prev0, value0, chain0, head, tail, n, nil) && 1 <= k <= n + 1 && n + 3 <= |chain0|
    requires Linked(next, prev, chain) && |next| == |next0|
    requires |chain| == |chain0| && forall i :: 0 <= i < |chain| ==> chain[i] == chain0[InsertSource(i, k, n)]
    ensures Inv(next, prev, value0[chain0[n + 2] := v], chain, head, tail, n + 1, nil)
    ensures Values(value0[chain0[n + 2] := v], chain, n + 1)
      == ListSpec.InsertAt(Values(value0, chain0, n), k - 1, [v])
  {
    InsertedValues(value0, chain0, n, k, v, nil, value0[chain0[n + 2] := v], chain);
  }

  /** Writing into a live node keeps the invariant and replaces the element at index `i - 1`. */
  lemma SetKeepsInv<E>(next: seq<int>, prev: seq<int>, value: seq<E>, chain: seq<int>,
                       head: int, tail: int, n: nat, nil: E, i: nat, v: E)
    requires Inv(next, prev, value, chain, head, tail, n, nil) && 1 <= i <= n
    ensures Inv(next, prev, value[chain[i] := v], chain, head, tail, n, nil)
    ensures Values(value[chain[i] := v], chain, n) == Values(value, chain, n)[i - 1 := v]
  {
    forall j | 0 <= j < |chain| && j != i
      ensures value[chain[i] := v][chain[j]] == value[chain[j]]
    {
      assert chain[j] != chain[i];
    }
  }

  /** `delete` keeps the invariant and removes the value at index `k - 1`. */
  lemma DeleteKeepsInv<E>(next0: seq<int>, prev0: seq<int>, value0: seq<E>, chain0: seq<int>,
                          head: int, tail: int, n: nat, nil: E, k: nat,
                          next: seq<int>, prev: seq<int>, chain: seq<int>)
    requires Inv(next0, prev0, value0, chain0, head, tail, n, nil) && 1 <= k <= n
    requires Linked(next, prev, chain) && |next| == |next0|
    requires |chain| == |chain0| && forall i :: 0 <= i < |chain| ==> chain[i] == chain0[DeleteSource(i, k, n)]
    ensures Inv(next, prev, value0[chain0[k] := nil], chain, head, tail, n - 1, nil)
    ensures Values(value0[chain0[k] := nil], chain, n - 1)
      == ListSpec.RemoveSlice(Values(value0, chain0, n), k - 1, k)
  {
    DeletedValues(value0, chain0, n, k, nil, value0[chain0[k] := nil], chain);
  }

  /**
   * The values after `InsertLinked` moved the first free node (now holding
   * `v`) before position `k`: `v` is inserted at index `k - 1`, and the nodes
   * from the new tail on still hold `nil`.
   */
  lemma InsertedValues<E>(value0: seq<E>, chain0: seq<int>, n: nat, k: nat, v: E, nil: E, value: seq<E>, chain: seq<int>)
    requires 1 <= k <= n + 1 && n + 3 <= |chain0| && Distinct(chain0)
    requires forall i :: 0 <= i < |chain0| ==> 0 <= chain0[i] < |value0|
    requires forall i :: n + 1 <= i < |chain0| ==> value0[chain0[i]] == nil
    requires |chain| == |chain0| && forall i :: 0 <= i < |chain| ==> chain[i] == chain0[InsertSource(i, k, n)]
    requires value == value0[chain0[n + 2] := v]
    ensures forall i :: 0 <= i < |chain| ==> 0 <= chain[i] < |value|
    ensures Values(value, chain, n + 1) == ListSpec.InsertAt(Values(value0, chain0, n), k - 1, [v])
    ensures forall i :: n + 2 <= i < |chain| ==> value[chain[i]] == nil
    ensures value[chain[0]] == value0[chain0[0]]
  {
    forall i | n + 2 <= i < |chain|
      ensures value[chain[i]] == nil
    {
      assert InsertSource(i, k, n) != n + 2;
    }
    var r, s := Values(value, chain, n + 1), Values(value0, chain0, n);
    var index, xs := k - 1, [v];
    forall j | 0 <= j < |r|
      ensures r[j] == (if j < index then s[j] else if j < index + |xs| then xs[j - index] else s[j - |xs|])
    {
      if j < k - 1 {
        assert r[j] == value[chain0[j + 1]] && chain0[j + 1] != chain0[n + 2];
      } else if j == k - 1 {
        assert r[j] == value[chain0[n + 2]];
      } else {
        assert r[j] == value[chain0[j]] && chain0[j] != chain0[n + 2];
      }
    }
    ListSpec.InsertAtPointwise(r, s, index, xs);
  }

  /**
   * The values after `DeleteLinked` moved the node at position `k` (whose
   * value became `nil`) after the tail: index `k - 1` is removed, and the
   * nodes from the new tail on hold `nil`.
   */
  lemma DeletedValues<E>(value0: seq<E>, chain0: seq<int>, n: nat, k: nat, nil: E, value: seq<E>, chain: seq<int>)
    requires 1 <= k <= n && n + 2 <= |chain0| && Distinct(chain0)
    requires forall i :: 0 <= i < |chain0| ==> 0 <= chain0[i] < |value0|
    requires forall i :: n + 1 <= i < |chain0| ==> value0[chain0[i]] == nil
    requires |chain| == |chain0| && forall i :: 0 <= i < |chain| ==> chain[i] == chain0[DeleteSource(i, k, n)]
    requires value == value0[chain0[k] := nil]
    ensures forall i :: 0 <= i < |chain| ==> 0 <= chain[i] < |value|
    ensures Values(value, chain, n - 1) == ListSpec.RemoveSlice(Values(value0, chain0, n), k - 1, k)
    ensures forall i :: n <= i < |chain| ==> value[chain[i]] == nil
    ensures value[chain[0]] == value0[chain0[0]]
  {
    var r, s := Values(value, chain, n - 1), Values(value0, chain0, n);
    forall j | 0 <= j < |r|
      ensures r[j] == (if j < k - 1 then s[j] else s[j + 1])
    {
      if j < k - 1 {
        assert r[j] == value[chain0[j + 1]] && chain0[j + 1] != chain0[k];
      } else {
        assert r[j] == value[chain0[j + 2]] && chain0[j + 2] != chain0[k];
      }
    }
    ListSpec.RemoveSlicePointwise(r, s, k - 1, k);
  }

  class FastSequence<E(==)> {
    var next: seq<int>
    var prev: seq<int>
    var value: seq<E>
    var head: int
    var tail: int
    var size: int
    const nil: E
    ghost var Chain: seq<int>

    /**
     * The chain is linked, `head` is its first node and `tail` the node
     * `size + 1` places further, and neither the sentinels nor the free
     * nodes hold a value.
     */
    ghost predicate Valid()
      reads this
    {
      Inv(next, prev, value, Chain, head, tail, size, nil)
    }

    /** The list's elements: the values of the nodes strictly between `head` and `tail`. */
    ghost function Elements(): (r: seq<E>)
      reads this
      requires Valid()
      ensures |r| == size
      ensures forall i :: 0 <= i < size ==> r[i] == value[Chain[i + 1]]
    {
      Values(value, Chain, size)
    }

    /** Live nodes plus free nodes: the number of elements the list holds without allocating. */
    ghost function Capacity(): int
      reads this
    {
      |Chain| - 2
    }

    /**
     * `FastSequence(capacity)`: the two sentinels linked together, followed
     * by `capacity` preallocated free nodes.
     */
    constructor (capacity: int, nil: E)
      ensures Valid() && Elements() == []
      ensures Capacity() == if capacity < 0 then 0 else capacity
    {
      this.nil := nil;
      next, prev, value := [1, NIL], [NIL, 0], [nil, nil];
      head, tail, size := 0, 1, 0;
      Chain := [0, 1];
      new;
      var previous := tail;
      var i := 0;
      while i < capacity
        invariant Valid() && size == 0 && Elements() == []
        invariant 0 <= i <= (if capacity < 0 then 0 else capacity) && Capacity() == i
        invariant previous == Chain[|Chain| - 1]
      {
        previous := AppendNode(previous);
        i := i + 1;
      }
    }

    /** `FastSequence()`: the default capacity of four nodes. */
    static method Create(nil: E) returns (list: FastSequence<E>)
      ensures fresh(list) && list.Valid() && list.Elements() == []
      ensures list.Capacity() == DEFAULT_CAPACITY
    {
      list := new FastSequence(DEFAULT_CAPACITY, nil);
    }

    /** `newNode()` linked after `last`, the last node of the chain. */
    method AppendNode(last: int) returns (x: int)
      requires Valid() && last == Chain[|Chain| - 1]
      modifies this
      ensures Valid() && Elements() == old(Elements())
      ensures x == old(|next|) && Chain == old(Chain) + [x] && |next| == x + 1
      ensures head == old(head) && tail == old(tail) && size == old(size)
    {
      x := |next|;
      AppendLinked(next, prev, Chain);
      next := (next + [NIL])[last := x];
      prev := (prev + [NIL])[x := last];
      value := value + [nil];
      Chain := Chain + [x];
    }

    /** `increaseCapacity()`: four fresh nodes chained after the tail, which was the last node. */
    method IncreaseCapacity()
      requires Valid() && next[tail] == NIL
      modifies this
      ensures Valid() && Elements() == old(Elements())
      ensures Capacity() == old(Capacity()) + 4
      ensures forall i :: 0 <= i < old(|Chain|) ==> Chain[i] == old(Chain[i])
      ensures head == old(head) && tail == old(tail) && size == old(size)
    {
      LastOfChain(next, prev, Chain, size + 1);
      var node0 := AppendNode(tail);
      var node1 := AppendNode(node0);
      var node2 := AppendNode(node1);
      var _ := AppendNode(node2);
    }

    /**
     * `addLast(value)`: the value goes into the tail node, which becomes a
     * live node, and the next free node becomes the tail.  Nothing is
     * allocated while a free node is left.
     */
    method AddLast(v: E)
      requires Valid()
      modifies this
      ensures Valid() && Elements() == old(Elements()) + [v]
      ensures old(size) < old(Capacity()) ==> Chain == old(Chain) && next == old(next) && prev == old(prev)
      ensures old(size) == old(Capacity()) ==> Capacity() == old(Capacity()) + 4
      ensures forall i :: 0 <= i <= size ==> Chain[i] == old(Chain[i])
    {
      LastOfChain(next, prev, Chain, size + 1);
      if next[tail] == NIL {
        IncreaseCapacity();
      }
      LastOfChain(next, prev, Chain, size + 1);
      value := value[tail := v];
      tail := next[tail];
      size := size + 1;
      assert Chain[size + 1] == tail;
      assert forall i :: size + 1 <= i < |Chain| ==> Chain[i] != Chain[size];
    }

    /**
     * `addBefore(next, value)`: the first free node is detached from the pool
     * (allocating four when there is none) and linked in before the node at
     * position `k` of the chain, a live node or the tail; the value lands at
     * index `k - 1`.
     */
    method AddBefore(at: int, v: E, ghost k: int)
      requires Valid() && 1 <= k <= size + 1 && Chain[k] == at
      modifies this
      ensures Valid() && Elements() == ListSpec.InsertAt(old(Elements()), k - 1, [v])
      ensures |Chain| >= old(|Chain|) && forall i :: 0 <= i < k ==> Chain[i] == old(Chain[i])
      ensures forall i :: k < i <= size + 1 ==> Chain[i] == old(Chain[i - 1])
      ensures Capacity() == old(Capacity()) || Capacity() == old(Capacity()) + 4
    {
      LastOfChain(next, prev, Chain, size + 1);
      if next[tail] == NIL {
        IncreaseCapacity();
      }
      LastOfChain(next, prev, Chain, size + 1);
      InsertFree(at, v, k);
    }

    /** `addBefore` once a free node exists. */
    method InsertFree(at: int, v: E, ghost k: int)
      requires Valid() && 1 <= k <= size + 1 && Chain[k] == at && size + 3 <= |Chain|
      modifies this
      ensures Valid() && Elements() == ListSpec.InsertAt(old(Elements()), k - 1, [v])
      ensures |Chain| == old(|Chain|) && forall i :: 0 <= i < k ==> Chain[i] == old(Chain[i])
      ensures forall i :: k < i <= size + 1 ==> Chain[i] == old(Chain[i - 1])
    {
      ghost var n, value0, chain0 := size, value, Chain;
      assert old(Elements()) == Values(value0, chain0, n);
      ghost var next0, prev0 := next, prev;
      var node := LinkBefore(at, k, size);
      InsertKeepsInv(next0, prev0, value0, chain0, head, tail, n, nil, k, v, next, prev, Chain);
      value := value[node := v];
      size := size + 1;
    }

    /**
     * The link updates of `addBefore`: `tail.next = node.next`,
     * `tailNext.prev = tail` (when not null), `previous.next = node`,
     * `next.prev = node`, `node.next = next`, `node.prev = previous`, where
     * `node` is the first free node.
     */
    method LinkBefore(at: int, ghost k: int, ghost n: int) returns (node: int)
      requires Linked(next, prev, Chain) && 1 <= k <= n + 1 && n + 3 <= |Chain|
      requires Chain[k] == at && Chain[n + 1] == tail
      modifies this
      ensures node == old(Chain[n + 2])
      ensures |Chain| == old(|Chain|) && forall i :: 0 <= i < |Chain| ==> Chain[i] == old(Chain[InsertSource(i, k, n)])
      ensures Linked(next, prev, Chain) && |next| == old(|next|)
      ensures value == old(value) && head == old(head) && tail == old(tail) && size == old(size)
    {
      ghost var chain0 := Chain;
      var next', prev' := next, prev;
      node := next'[tail];
      assert node == Chain[n + 2];
      var tailNext := next'[node];
      assert n + 3 < |Chain| ==> tailNext == Chain[n + 3];
      assert n + 3 == |Chain| ==> tailNext == NIL;
      next' := next'[tail := tailNext];
      if tailNext != NIL {
        prev' := prev'[tailNext := tail];
      }
      assert tailNext != at;
      var previous := prev'[at];
      assert previous == Chain[k - 1];
      next' := next'[previous := node];
      prev' := prev'[at := node];
      next' := next'[node := at];
      prev' := prev'[node := previous];
      InsertLinks(next, prev, chain0, n, k);
      assert next' == InsertNextLinks(next, prev, chain0, n, k);
      assert prev' == InsertPrevLinks(next, prev, chain0, n, k);
      ghost var chain' := chain0[..k] + [node] + chain0[k..n + 2] + chain0[n + 3..];
      InsertedChain(chain0, n, k, chain');
      next, prev, Chain := next', prev', chain';
    }

    /**
     * `delete(node)` for the live node at position `k`: the value is cleared,
     * the node unlinked and given back to the pool right after the tail.
     */
    method Delete(node: int, ghost k: int)
      requires Valid() && 1 <= k <= size && Chain[k] == node
      modifies this
      ensures Valid() && Elements() == ListSpec.RemoveSlice(old(Elements()), k - 1, k)
      ensures Capacity() == old(Capacity()) && forall i :: 0 <= i < k ==> Chain[i] == old(Chain[i])
      ensures forall i :: k <= i <= size + 1 ==> Chain[i] == old(Chain[i + 1])
    {
      ghost var n, value0, chain0 := size, value, Chain;
      assert old(Elements()) == Values(value0, chain0, n);
      ghost var next0, prev0 := next, prev;
      Unlink(node, k, n);
      DeleteKeepsInv(next0, prev0, value0, chain0, head, tail, n, nil, k, next, prev, Chain);
      size := size - 1;
      value := value[node := nil];
    }

    /**
     * The link updates of `delete`: `node.previous.next = node.next`,
     * `node.next.previous = node.previous`, then the node goes after the
     * tail: `node.previous = tail`, `node.next = tail.next`, `tail.next = node`
     * and, when not null, the old `tail.next.previous = node`.
     */
    method Unlink(node: int, ghost k: int, ghost n: int)
      requires Linked(next, prev, Chain) && 1 <= k <= n && n + 2 <= |Chain|
      requires Chain[k] == node && Chain[n + 1] == tail
      modifies this
      ensures |Chain| == old(|Chain|) && forall i :: 0 <= i < |Chain| ==> Chain[i] == old(Chain[DeleteSource(i, k, n)])
      ensures Linked(next, prev, Chain) && |next| == old(|next|)
      ensures value == old(value) && head == old(head) && tail == old(tail) && size == old(size)
    {
      ghost var next0, prev0, chain0 := next, prev, Chain;
      var previous, following := prev[node], next[node];
      assert previous == Chain[k - 1] && following == Chain[k + 1];
      next := next[previous := following];
      prev := prev[following := previous];
      assert previous != tail;
      var tailNext := next[tail];
      assert n + 2 < |Chain| ==> tailNext == Chain[n + 2];
      assert n + 2 == |Chain| ==> tailNext == NIL;
      prev := prev[node := tail];
      next := next[node := tailNext];
      next := next[tail := node];
      if tailNext != NIL {
        prev := prev[tailNext := node];
      }
      DeleteLinked(next0, prev0, chain0, n, k, next, prev);
      Chain := chain0[..k] + chain0[k + 1..n + 2] + [node] + chain0[n + 2..];
      DeletedChain(chain0, n, k, Chain);
    }

    /**
     * `nodeAt(index)`: the node reached from `head` after `index + 1` steps,
     * which is the node of element `index`, or `tail` when `index == size`.
     */
    method NodeAt(index: int) returns (r: int)
      requires Valid() && 0 <= index <= size
      ensures r == Chain[index + 1]
    {
      r := head;
      var i := index;
      while i >= 0
        invariant -1 <= i <= index && r == Chain[index - i]
      {
        i := i - 1;
        r := next[r];
      }
    }

    method Size() returns (n: int)
      requires Valid()
      ensures n == |Elements()|
    {
      return size;
    }

    method IsEmpty() returns (b: bool)
      requires Valid()
      ensures b <==> Elements() == []
    {
      return size == 0;
    }

    /** `get(index)`. */
    method Get(index: int) returns (r: Result<E>)
      requires Valid()
      ensures 0 <= index < size ==> r == Ok(Elements()[index])
      ensures !(0 <= index < size) ==> r == Throw(IndexOutOfBounds)
    {
      if index < 0 || index >= size {
        return Throw(IndexOutOfBounds);
      }
      var node := NodeAt(index);
      return Ok(value[node]);
    }

    /** `set(index, value)`: returns the value it replaces. */
    method Set(index: int, v: E) returns (r: Result<E>)
      requires Valid()
      modifies this
      ensures Valid() && Chain == old(Chain) && size == old(size)
      ensures 0 <= index < size ==> r == Ok(old(Elements())[index]) && Elements() == ListSpec.SetAt(old(Elements()), index, v)
      ensures !(0 <= index < size) ==> r == Throw(IndexOutOfBounds) && Elements() == old(Elements())
    {
      if index < 0 || index >= size {
        return Throw(IndexOutOfBounds);
      }
      var node := NodeAt(index);
      var previous := value[node];
      SetValue(node, v, index + 1);
      return Ok(previous);
    }

    /** `node._value = v` on the live node at chain position `i`. */
    method SetValue(node: int, v: E, ghost i: int)
      requires Valid() && 1 <= i <= size && node == Chain[i]
      modifies this
      ensures Valid() && Chain == old(Chain) && size == old(size) && head == old(head) && tail == old(tail)
      ensures next == old(next) && prev == old(prev)
      ensures Elements() == old(Elements())[i - 1 := v]
    {
      SetKeepsInv(next, prev, value, Chain, head, tail, size, nil, i, v);
      value := value[node := v];
    }

    /** `add(index, value)`. */
    method AddAt(index: int, v: E) returns (r: Result<()>)
      requires Valid()
      modifies this
      ensures Valid()
      ensures 0 <= index <= old(size) ==> r == Ok(()) && Elements() == ListSpec.InsertAt(old(Elements()), index, [v])
      ensures !(0 <= index <= old(size)) ==> r == Throw(IndexOutOfBounds) && Elements() == old(Elements())
    {
      if index < 0 || index > size {
        return Throw(IndexOutOfBounds);
      }
      var node := NodeAt(index);
      AddBefore(node, v, index + 1);
      return Ok(());
    }

    /** `remove(index)`: returns the value removed. */
    method RemoveAt(index: int) returns (r: Result<E>)
      requires Valid()
      modifies this
      ensures Valid()
      ensures 0 <= index < old(size) ==>
        r == Ok(old(Elements())[index]) && Elements() == ListSpec.RemoveSlice(old(Elements()), index, index + 1)
      ensures !(0 <= index < old(size)) ==> r == Throw(IndexOutOfBounds) && Elements() == old(Elements())
    {
      if index < 0 || index >= size {
        return Throw(IndexOutOfBounds);
      }
      var node := NodeAt(index);
      var previous := value[node];
      Delete(node, index + 1);
      return Ok(previous);
    }

    /** `addAll(index, values)`: the values inserted, in order, before the element at `index`. */
    method AddAllAt(index: int, values: seq<E>) returns (r: Result<bool>)
      requires Valid()
      modifies this
      ensures Valid()
      ensures 0 <= index <= old(size) ==>
        r == Ok(|values| != 0) && Elements() == ListSpec.InsertAt(old(Elements()), index, values)
      ensures !(0 <= index <= old(size)) ==> r == Throw(IndexOutOfBounds) && Elements() == old(Elements())
    {
      if index < 0 || index > size {
        return Throw(IndexOutOfBounds);
      }
      var indexNode := NodeAt(index);
      InsertAllBefore(indexNode, values, index + 1, 0, size + 1);
      return Ok(|values| != 0);
    }

    /**
     * `addBefore(node, v)` for each of `values` in turn, `node` being at chain
     * position `k`.  The node at position `a` before the insertion point keeps
     * its place and the node at position `b` from it on moves `|values|`
     * places further.
     */
    method InsertAllBefore(node: int, values: seq<E>, ghost k: int, ghost a: int, ghost b: int)
      requires Valid() && 1 <= k <= size + 1 && Chain[k] == node
      requires 0 <= a < k <= b <= size + 1
      modifies this
      ensures Valid() && size == old(size) + |values|
      ensures Elements() == ListSpec.InsertAt(old(Elements()), k - 1, values)
      ensures Chain[a] == old(Chain[a]) && Chain[b + |values|] == old(Chain[b])
    {
      ghost var s0, n0, anode, bnode := Elements(), size, Chain[a], Chain[b];
      var j := 0;
      while j < |values|
        invariant 0 <= j <= |values| && Valid() && size == n0 + j
        invariant Chain[k + j] == node && Chain[a] == anode && Chain[b + j] == bnode
        invariant Elements() == ListSpec.InsertAt(s0, k - 1, values[..j])
      {
        AddBeforeTracking(node, values[j], k + j, a, b + j);
        ListSpec.InsertAtAppend(s0, k - 1, values, j);
        j := j + 1;
      }
      assert values[..j] == values;
    }

    /** `addBefore`, following the node at `a` before the insertion point and the node at `q` from it on. */
    method AddBeforeTracking(at: int, v: E, ghost p: int, ghost a: int, ghost q: int)
      requires Valid() && 0 <= a < p <= q <= size + 1 && Chain[p] == at
      modifies this
      ensures Valid() && size == old(size) + 1 && Elements() == ListSpec.InsertAt(old(Elements()), p - 1, [v])
      ensures Chain[p + 1] == at && Chain[a] == old(Chain[a]) && Chain[q + 1] == old(Chain[q])
    {
      AddBefore(at, v, p);
    }

    /** `addAll(values)`: appends the values. */
    method AddAll(values: seq<E>) returns (changed: bool)
      requires Valid()
      modifies this
      ensures Valid() && Elements() == old(Elements()) + values
      ensures changed <==> values != []
    {
      var r := AddAllAt(size, values);
      assert ListSpec.InsertAt(old(Elements()), old(size), values) == old(Elements()) + values;
      return r.value;
    }

    /** `add(value)`. */
    method Add(v: E) returns (changed: bool)
      requires Valid()
      modifies this
      ensures Valid() && Elements() == old(Elements()) + [v] && changed
    {
      AddLast(v);
      return true;
    }

    /** `addFirst(value)`: inserted before the first node (the tail when empty). */
    method AddFirst(v: E)
      requires Valid()
      modifies this
      ensures Valid() && Elements() == [v] + old(Elements())
    {
      AddBefore(next[head], v, 1);
      assert ListSpec.InsertAt(old(Elements()), 0, [v]) == [v] + old(Elements());
    }

    /** `getFirst()`. */
    method GetFirst() returns (r: Result<E>)
      requires Valid()
      ensures size > 0 ==> r == Ok(Elements()[0])
      ensures size == 0 ==> r == Throw(NoSuchElement)
    {
      var node := next[head];
      assert node == Chain[1];
      if node == tail {
        return Throw(NoSuchElement);
      }
      return Ok(value[node]);
    }

    /** `getLast()`. */
    method GetLast() returns (r: Result<E>)
      requires Valid()
      ensures size > 0 ==> r == Ok(Elements()[size - 1])
      ensures size == 0 ==> r == Throw(NoSuchElement)
    {
      var node := prev[tail];
      assert node == Chain[size];
      if node == head {
        return Throw(NoSuchElement);
      }
      return Ok(value[node]);
    }

    /** `removeFirst()`. */
    method RemoveFirst() returns (r: Result<E>)
      requires Valid()
      modifies this
      ensures Valid()
      ensures old(size) > 0 ==> r == Ok(old(Elements())[0]) && Elements() == old(Elements())[1..]
      ensures old(size) == 0 ==> r == Throw(NoSuchElement) && Elements() == old(Elements())
    {
      var first := next[head];
      assert first == Chain[1];
      if first == tail {
        return Throw(NoSuchElement);
      }
      var previous := value[first];
      Delete(first, 1);
      assert ListSpec.RemoveSlice(old(Elements()), 0, 1) == old(Elements())[1..];
      return Ok(previous);
    }

    /**
     * `removeLast()`: the tail steps back one node, whose value is cleared;
     * no link changes.
     */
    method RemoveLast() returns (r: Result<E>)
      requires Valid()
      modifies this
      ensures Valid() && Chain == old(Chain) && next == old(next) && prev == old(prev)
      ensures old(size) > 0 ==> r == Ok(old(Elements())[old(size) - 1]) && Elements() == old(Elements())[..old(size) - 1]
      ensures old(size) == 0 ==> r == Throw(NoSuchElement) && Elements() == old(Elements())
    {
      if size == 0 {
        return Throw(NoSuchElement);
      }
      size := size - 1;
      var last := prev[tail];
      assert last == Chain[size + 1];
      var previous := value[last];
      tail := last;
      value := value[last := nil];
      return Ok(previous);
    }

    /** `clear()`: every value is cleared and every node becomes free (`tail = head.next`). */
    method Clear()
      requires Valid()
      modifies this
      ensures Valid() && Elements() == []
      ensures Chain == old(Chain) && next == old(next) && prev == old(prev)
    {
      ghost var n := size;
      size := 0;
      var node, end := next[head], tail;
      assert node == Chain[1];
      ghost var j := 1;
      while node != end
        invariant Chain == old(Chain) && next == old(next) && prev == old(prev)
        invariant head == old(head) && tail == old(tail) && size == 0
        invariant 1 <= j <= n + 1 && node == Chain[j]
        invariant |value| == |next| && value[head] == nil
        invariant forall i :: 1 <= i < j || n + 1 <= i < |Chain| ==> value[Chain[i]] == nil
        decreases n + 1 - j
      {
        value := value[node := nil];
        node := next[node];
        j := j + 1;
      }
      tail := next[head];
      assert tail == Chain[1];
    }

    /** `indexOf(o)`: walks forward from the first node. */
    method IndexOf(o: E) returns (r: int)
      requires Valid()
      ensures r == ListSpec.IndexOf(Elements(), o)
    {
      var index := 0;
      var node := next[head];
      while node != tail
        invariant 0 <= index <= size && node == Chain[index + 1]
        invariant forall j :: 0 <= j < index ==> Elements()[j] != o
        decreases size - index
      {
        if value[node] == o {
          ListSpec.IndexOfIsFirst(Elements(), o, index);
          return index;
        }
        index := index + 1;
        node := next[node];
      }
      ListSpec.NotFoundIndexOf(Elements(), o);
      return -1;
    }

    /** `lastIndexOf(o)`: walks backward from the last node. */
    method LastIndexOf(o: E) returns (r: int)
      requires Valid()
      ensures r == ListSpec.LastIndexOf(Elements(), o)
    {
      var index := size - 1;
      var node := prev[tail];
      while node != head
        invariant -1 <= index < size && node == Chain[index + 1]
        invariant forall j :: index < j < size ==> Elements()[j] != o
        decreases index
      {
        if value[node] == o {
          ListSpec.LastIndexOfIsLast(Elements(), o, index);
          return index;
        }
        index := index - 1;
        node := prev[node];
      }
      ListSpec.NotFoundLastIndexOf(Elements(), o);
      return -1;
    }

    /** `contains(o)`. */
    method Contains(o: E) returns (b: bool)
      requires Valid()
      ensures b <==> o in Elements()
    {
      var index := IndexOf(o);
      return index >= 0;
    }

    /** `remove(o)`: removes the first occurrence. */
    method Remove(o: E) returns (b: bool)
      requires Valid()
      modifies this
      ensures Valid() && (b <==> o in old(Elements()))
      ensures b ==> var i := ListSpec.IndexOf(old(Elements()), o);
        Elements() == ListSpec.RemoveSlice(old(Elements()), i, i + 1)
      ensures !b ==> Elements() == old(Elements())
    {
      ghost var s := Elements();
      var index := IndexOf(o);
      if index < 0 {
        assert o !in s;
        return false;
      }
      assert s[index] == o && index == ListSpec.IndexOf(s, o);
      var _ := RemoveAt(index);
      return true;
    }

    /** `writeObject`: the values written after the size, walking from the head. */
    method WriteObject() returns (out: seq<E>)
      requires Valid()
      ensures out == Elements()
    {
      out := [];
      var node := head;
      var i := size;
      while i != 0
        invariant 0 <= i <= size && node == Chain[size - i]
        invariant out == Elements()[..size - i]
      {
        i := i - 1;
        node := next[node];
        assert node == Chain[size - i];
        out := out + [value[node]];
      }
    }

    /** `readObject`: two fresh sentinels, then every value read replayed through `addLast`. */
    static method ReadObject(values: seq<E>, nil: E) returns (list: FastSequence<E>)
      ensures fresh(list) && list.Valid() && list.Elements() == values
    {
      list := new FastSequence(0, nil);
      var i := 0;
      while i < |values|
        invariant 0 <= i <= |values| && list.Valid() && list.Elements() == values[..i]
        modifies list
      {
        list.AddLast(values[i]);
        assert values[..i + 1] == values[..i] + [values[i]];
        i := i + 1;
      }
      assert values[..i] == values;
    }

    /** `FastSequence(values)`: `FastSequence(values.size())`, then `addAll(values)`. */
    static method CopyOf(values: seq<E>, nil: E) returns (list: FastSequence<E>)
      ensures fresh(list) && list.Valid() && list.Elements() == values
      ensures list.Capacity() >= |values|
    {
      list := new FastSequence(|values|, nil);
      var _ := list.AddAll(values);
    }

    /**
     * `unmodifiable()`: a new list built from the unmodifiable view of this
     * one, that is, a separate and modifiable copy of the elements.
     */
    method Unmodifiable() returns (list: FastSequence<E>)
      requires Valid()
      ensures fresh(list) && list.Valid() && list.Elements() == Elements()
    {
      var values := WriteObject();
      list := CopyOf(values, nil);
    }

    /**
     * The read-only view `unmodifiable()` is documented to return: it reads
     * the list's elements, and every mutator called on it throws
     * UnsupportedOperationException and leaves it as it was.
     */
    method UnmodifiableView() returns (v: UnmodifiableViews.View<E>)
      requires Valid()
      ensures v.fc == Elements()
      ensures forall ms: seq<UnmodifiableViews.Mutation<E>> ::
        UnmodifiableViews.MutateAll(v, ms).0.fc == Elements() && |UnmodifiableViews.MutateAll(v, ms).1| == |ms|
        && forall i :: 0 <= i < |ms| ==> UnmodifiableViews.MutateAll(v, ms).1[i] == UnsupportedOperation
    {
      var values := WriteObject();
      v := UnmodifiableViews.View(values);
      forall ms: seq<UnmodifiableViews.Mutation<E>>
        ensures UnmodifiableViews.MutateAll(v, ms).0.fc == Elements() && |UnmodifiableViews.MutateAll(v, ms).1| == |ms|
        ensures forall i :: 0 <= i < |ms| ==> UnmodifiableViews.MutateAll(v, ms).1[i] == UnsupportedOperation
      {
        UnmodifiableViews.MutatorsChangeNothing(v, ms);
      }
    }

    /** `shared()`: likewise a separate copy, built from the shared view. */
    method Shared() returns (list: FastSequence<E>)
      requires Valid()
      ensures fresh(list) && list.Valid() && list.Elements() == Elements()
    {
      var values := WriteObject();
      list := CopyOf(values, nil);
    }

    /** `reset()`: `clear()`; the value comparator it also resets is not modelled. */
    method Reset()
      requires Valid()
      modifies this
      ensures Valid() && Elements() == []
    {
      Clear();
    }

    /** `listIterator(index)`: positioned before the element at `index`. */
    method ListIterator(index: int) returns (r: Result<FastListIterator<E>>)
      requires Valid()
      ensures r.Ok? <==> 0 <= index <= size
      ensures r.Throw? ==> r.ex == IndexOutOfBounds
      ensures r.Ok? ==> (fresh(r.value) && r.value.Valid() && r.value.list == this
                         && r.value.Window() == Elements() && r.value.nextIndex == index)
    {
      if index < 0 || index > size {
        return Throw(IndexOutOfBounds);
      }
      var node := NodeAt(index);
      var it := new FastListIterator(this, node, index, size, 0);
      return Ok(it);
    }

    /** `subList(fromIndex, toIndex)`: a view delimited by the node before `fromIndex` and the node at `toIndex`. */
    method SubList(fromIndex: int, toIndex: int) returns (r: Result<SubList<E>>)
      requires Valid()
      ensures r.Ok? <==> 0 <= fromIndex <= toIndex <= size
      ensures r.Throw? ==> r.ex == IndexOutOfBounds
      ensures r.Ok? ==> (fresh(r.value) && r.value.Valid() && r.value.list == this
                         && r.value.View() == Elements()[fromIndex..toIndex])
    {
      if fromIndex < 0 || toIndex > size || fromIndex > toIndex {
        return Throw(IndexOutOfBounds);
      }
      var first := NodeAt(fromIndex);
      var last := NodeAt(toIndex);
      assert prev[first] == Chain[fromIndex];
      var view := new SubList(this, prev[first], last, toIndex - fromIndex, fromIndex, Elements()[fromIndex..toIndex]);
      return Ok(view);
    }
  }

  /**
   * `unmodifiable()` as written: the list it returns is a copy that accepts
   * `addLast`, after which it no longer reads as the list it came from.
   */
  method ModifiableCopy() returns (list: FastSequence<int>, u: FastSequence<int>)
    ensures list.Valid() && u.Valid() && list.Elements() == [1] && u.Elements() == [1, 2]
  {
    list := new FastSequence(0, 0);
    list.AddLast(1);
    u := list.Unmodifiable();
    u.AddLast(2);
  }

  /**
   * `FastSequence.SubList`: the elements strictly between the node `head`
   * and the node `tail` of the backing list, `size` of them.  `start` is the
   * chain position of `head`.
   */
  class SubList<E(==)> {
    const list: FastSequence<E>
    var head: int
    var tail: int
    var size: int
    ghost var start: int

    ghost predicate Valid()
      reads this, list
    {
      && list.Valid() && 0 <= start && 0 <= size && start + size <= list.size
      && head == list.Chain[start] && tail == list.Chain[start + size + 1]
    }

    /** The elements the view shows. */
    ghost function View(): (r: seq<E>)
      reads this, list
      requires Valid()
      ensures |r| == size
    {
      list.Elements()[start..start + size]
    }

    /** `SubList.valueOf(list, head, tail, size)`. */
    constructor (list: FastSequence<E>, head: int, tail: int, size: int, ghost start: int, ghost elements: seq<E>)
      requires list.Valid() && 0 <= start && 0 <= size && start + size <= list.size
      requires head == list.Chain[start] && tail == list.Chain[start + size + 1]
      requires elements == list.Elements()[start..start + size]
      ensures Valid() && this.list == list && this.start == start && this.size == size
      ensures View() == elements
    {
      this.list := list;
      this.head, this.tail, this.size := head, tail, size;
      this.start := start;
    }

    /**
     * `nodeAt(index)`: walks forward from `head` when `index` is in the first
     * half of the view and backward from `tail` otherwise; either way the
     * node is the one `FastSequence.nodeAt(start + index)` returns.
     */
    method NodeAt(index: int) returns (r: int)
      requires Valid() && 0 <= index <= size
      ensures r == list.Chain[start + index + 1]
    {
      if index <= size / 2 {
        r := head;
        var i := index;
        while i >= 0
          invariant -1 <= i <= index && r == list.Chain[start + index - i]
        {
          i := i - 1;
          r := list.next[r];
        }
        return r;
      }
      r := tail;
      var i := size - index;
      while i > 0
        invariant 0 <= i <= size - index && r == list.Chain[start + index + 1 + i]
      {
        i := i - 1;
        r := list.prev[r];
      }
    }

    method Size() returns (n: int)
      requires Valid()
      ensures n == |View()|
    {
      return size;
    }

    /** `get(index)`. */
    method Get(index: int) returns (r: Result<E>)
      requires Valid()
      ensures 0 <= index < size ==> r == Ok(View()[index])
      ensures !(0 <= index < size) ==> r == Throw(IndexOutOfBounds)
    {
      if index < 0 || index >= size {
        return Throw(IndexOutOfBounds);
      }
      var node := NodeAt(index);
      return Ok(list.value[node]);
    }

    /** `set(index, value)`: writes through to the backing list. */
    method Set(index: int, v: E) returns (r: Result<E>)
      requires Valid()
      modifies list
      ensures Valid() && list.Chain == old(list.Chain) && list.size == old(list.size)
      ensures 0 <= index < size ==> (r == Ok(old(View())[index])
                                     && list.Elements() == ListSpec.SetAt(old(list.Elements()), start + index, v)
                                     && View() == ListSpec.SetAt(old(View()), index, v))
      ensures !(0 <= index < size) ==> r == Throw(IndexOutOfBounds) && list.Elements() == old(list.Elements())
    {
      if index < 0 || index >= size {
        return Throw(IndexOutOfBounds);
      }
      var node := NodeAt(index);
      var previous := list.value[node];
      list.SetValue(node, v, start + index + 1);
      return Ok(previous);
    }

    /**
     * `add(index, element)` as written: the element goes into the backing
     * list before the node at `index`, but `_size` keeps its old value, so
     * `head` and `tail` now enclose `size + 1` elements and the view is no
     * longer consistent.
     */
    method AddAsWritten(index: int, element: E) returns (r: Result<()>)
      requires Valid()
      modifies list
      ensures list.Valid()
      ensures 0 <= index <= size ==>
        r == Ok(()) && list.Elements() == ListSpec.InsertAt(old(list.Elements()), start + index, [element])
        && tail == list.Chain[start + size + 2] && !Valid()
      ensures !(0 <= index <= size) ==> r == Throw(IndexOutOfBounds) && list.Elements() == old(list.Elements())
    {
      if index < 0 || index > size {
        return Throw(IndexOutOfBounds);
      }
      var node := NodeAt(index);
      list.AddBefore(node, element, start + index + 1);
      assert tail == list.Chain[start + size + 2];
      assert list.Chain[start + size + 2] != list.Chain[start + size + 1];
      return Ok(());
    }

    /**
     * `remove(index)` as written: the node is deleted from the backing list
     * but `_size` is left unchanged, so `head` and `tail` now enclose
     * `size - 1` elements.
     */
    method RemoveAsWritten(index: int) returns (r: Result<E>)
      requires Valid()
      modifies list
      ensures list.Valid()
      ensures 0 <= index < size ==>
        r == Ok(old(View())[index])
        && list.Elements() == ListSpec.RemoveSlice(old(list.Elements()), start + index, start + index + 1)
        && tail == list.Chain[start + size] && !Valid()
      ensures !(0 <= index < size) ==> r == Throw(IndexOutOfBounds) && list.Elements() == old(list.Elements())
    {
      if index < 0 || index >= size {
        return Throw(IndexOutOfBounds);
      }
      var node := NodeAt(index);
      var previous := list.value[node];
      list.Delete(node, start + index + 1);
      assert tail == list.Chain[start + size];
      assert list.Chain[start + size] != list.Chain[start + size + 1];
      return Ok(previous);
    }

    /**
     * `addAll(index, values)` as written: the values go into the backing
     * list before the node at `index`, but `_size` keeps its old value, so
     * once a value was added `head` and `tail` enclose more than `size`
     * elements and the view is no longer consistent.
     */
    method AddAllAsWritten(index: int, values: seq<E>) returns (r: Result<bool>)
      requires Valid()
      modifies list
      ensures list.Valid() && size == old(size)
      ensures 0 <= index <= size ==>
        r == Ok(|values| != 0) && list.Elements() == ListSpec.InsertAt(old(list.Elements()), start + index, values)
        && tail == list.Chain[start + size + 1 + |values|] && (|values| > 0 ==> !Valid())
      ensures !(0 <= index <= size) ==> r == Throw(IndexOutOfBounds) && list.Elements() == old(list.Elements())
    {
      if index < 0 || index > size {
        return Throw(IndexOutOfBounds);
      }
      var indexNode := NodeAt(index);
      ghost var last := start + size + 1;
      list.InsertAllBefore(indexNode, values, start + index + 1, start, last);
      assert tail == list.Chain[last + |values|];
      assert |values| > 0 ==> list.Chain[last + |values|] != list.Chain[last];
      return Ok(|values| != 0);
    }

    /** `add(index, element)` with the view's size kept up to date. */
    method AddAt(index: int, element: E) returns (r: Result<()>)
      requires Valid()
      modifies this, list
      ensures Valid() && start == old(start)
      ensures 0 <= index <= old(size) ==>
        r == Ok(()) && size == old(size) + 1
        && list.Elements() == ListSpec.InsertAt(old(list.Elements()), start + index, [element])
      ensures !(0 <= index <= old(size)) ==>
        r == Throw(IndexOutOfBounds) && size == old(size) && list.Elements() == old(list.Elements())
    {
      if index < 0 || index > size {
        return Throw(IndexOutOfBounds);
      }
      var node := NodeAt(index);
      InsertBefore(node, element, index);
      return Ok(());
    }

    /** `_list.addBefore(node, v)` for the node at view index `i`, counting the new element in the view. */
    method InsertBefore(node: int, v: E, ghost i: int)
      requires Valid() && 0 <= i <= size && node == list.Chain[start + i + 1]
      modifies this, list
      ensures Valid() && start == old(start) && size == old(size) + 1
      ensures node == list.Chain[start + i + 2]
      ensures list.Elements() == ListSpec.InsertAt(old(list.Elements()), start + i, [v])
    {
      list.AddBefore(node, v, start + i + 1);
      size := size + 1;
    }

    /** `remove(index)` with the view's size kept up to date. */
    method RemoveAt(index: int) returns (r: Result<E>)
      requires Valid()
      modifies this, list
      ensures Valid() && start == old(start)
      ensures 0 <= index < old(size) ==>
        r == Ok(old(View())[index]) && size == old(size) - 1
        && list.Elements() == ListSpec.RemoveSlice(old(list.Elements()), start + index, start + index + 1)
      ensures !(0 <= index < old(size)) ==>
        r == Throw(IndexOutOfBounds) && size == old(size) && list.Elements() == old(list.Elements())
    {
      if index < 0 || index >= size {
        return Throw(IndexOutOfBounds);
      }
      var node := NodeAt(index);
      var previous := list.value[node];
      assert previous == list.Elements()[start + index] == View()[index];
      list.Delete(node, start + index + 1);
      assert tail == list.Chain[start + size];
      size := size - 1;
      return Ok(previous);
    }

    /** `addAll(index, values)` with the view's size kept up to date. */
    method AddAllAt(index: int, values: seq<E>) returns (r: Result<bool>)
      requires Valid()
      modifies this, list
      ensures Valid() && start == old(start)
      ensures 0 <= index <= old(size) ==>
        r == Ok(|values| != 0) && size == old(size) + |values|
        && list.Elements() == ListSpec.InsertAt(old(list.Elements()), start + index, values)
      ensures !(0 <= index <= old(size)) ==>
        r == Throw(IndexOutOfBounds) && size == old(size) && list.Elements() == old(list.Elements())
    {
      if index < 0 || index > size {
        return Throw(IndexOutOfBounds);
      }
      var indexNode := NodeAt(index);
      ghost var last := start + size + 1;
      list.InsertAllBefore(indexNode, values, start + index + 1, start, last);
      assert list.Chain[last + |values|] == old(list.Chain[last]) == tail;
      size := size + |values|;
      return Ok(|values| != 0);
    }

    /** `indexOf(value)`: walks forward from `head` to `tail`. */
    method IndexOf(o: E) returns (r: int)
      requires Valid()
      ensures r == ListSpec.IndexOf(View(), o)
    {
      var index := 0;
      var node := list.next[head];
      assert node == list.Chain[start + 1];
      while node != tail
        invariant 0 <= index <= size && node == list.Chain[start + index + 1]
        invariant forall j :: 0 <= j < index ==> View()[j] != o
        decreases size - index
      {
        if list.value[node] == o {
          ListSpec.IndexOfIsFirst(View(), o, index);
          return index;
        }
        index := index + 1;
        node := list.next[node];
      }
      ListSpec.NotFoundIndexOf(View(), o);
      return -1;
    }

    /** `lastIndexOf(value)`: walks backward from `tail` to `head`. */
    method LastIndexOf(o: E) returns (r: int)
      requires Valid()
      ensures r == ListSpec.LastIndexOf(View(), o)
    {
      var index := size - 1;
      var node := list.prev[tail];
      assert node == list.Chain[start + size];
      while node != head
        invariant -1 <= index < size && node == list.Chain[start + index + 1]
        invariant forall j :: index < j < size ==> View()[j] != o
        decreases index
      {
        if list.value[node] == o {
          ListSpec.LastIndexOfIsLast(View(), o, index);
          return index;
        }
        index := index - 1;
        node := list.prev[node];
      }
      ListSpec.NotFoundLastIndexOf(View(), o);
      return -1;
    }

    /** `listIterator(index)`: an iterator over the backing list confined to the view. */
    method ListIterator(index: int) returns (r: Result<FastListIterator<E>>)
      requires Valid()
      ensures r.Ok? <==> 0 <= index <= size
      ensures r.Throw? ==> r.ex == IndexOutOfBounds
      ensures r.Ok? ==> (fresh(r.value) && r.value.Valid() && r.value.list == list
                         && r.value.Window() == View() && r.value.nextIndex == index)
    {
      if index >= 0 && index <= size {
        var node := NodeAt(index);
        var it := new FastListIterator(list, node, index, size, start);
        return Ok(it);
      }
      return Throw(IndexOutOfBounds);
    }

    /** `subList(fromIndex, toIndex)` of the view. */
    method SubList(fromIndex: int, toIndex: int) returns (r: Result<SubList<E>>)
      requires Valid()
      ensures r.Ok? <==> 0 <= fromIndex <= toIndex <= size
      ensures r.Throw? ==> r.ex == IndexOutOfBounds
      ensures r.Ok? ==> (fresh(r.value) && r.value.Valid() && r.value.list == list
                         && r.value.View() == old(View())[fromIndex..toIndex])
    {
      if fromIndex < 0 || toIndex > size || fromIndex > toIndex {
        return Throw(IndexOutOfBounds);
      }
      ghost var w := View()[fromIndex..toIndex];
      ListSpec.SliceOfSlice(list.Elements(), start, start + size, fromIndex, toIndex);
      var first := NodeAt(fromIndex);
      var last := NodeAt(toIndex);
      assert list.prev[first] == list.Chain[start + fromIndex];
      var view := new SubList(list, list.prev[first], last, toIndex - fromIndex, start + fromIndex, w);
      return Ok(view);
    }
  }

  /**
   * `FastSequence.FastListIterator`: `nextNode` is the node of the element
   * `next()` returns, `currentNode` the node last returned (`NIL` once it is
   * removed or after `add`), over a window of `length` elements of the list
   * starting at element `base` (the whole list, or a sub list's view).
   */
  class FastListIterator<E(==)> {
    const list: FastSequence<E>
    var nextNode: int
    var currentNode: int
    var length: int
    var nextIndex: int
    ghost var base: int

    ghost predicate Valid()
      reads this, list
    {
      && list.Valid() && 0 <= base && 0 <= nextIndex <= length && base + length <= list.size
      && nextNode == list.Chain[base + nextIndex + 1]
      && (|| currentNode == NIL
          || (0 < nextIndex && currentNode == list.Chain[base + nextIndex])
          || (nextIndex < length && currentNode == nextNode))
    }

    /** The elements the iterator ranges over. */
    ghost function Window(): (r: seq<E>)
      reads this, list
      requires Valid()
      ensures |r| == length
    {
      list.Elements()[base..base + length]
    }

    /** Index in the window of the element last returned. */
    ghost function Current(): int
      reads this, list
      requires Valid() && currentNode != NIL
    {
      if currentNode == nextNode then nextIndex else nextIndex - 1
    }

    /** `FastListIterator.valueOf(list, nextNode, nextIndex, size)`. */
    constructor (list: FastSequence<E>, nextNode: int, nextIndex: int, length: int, ghost base: int)
      requires list.Valid() && 0 <= base && 0 <= nextIndex <= length && base + length <= list.size
      requires nextNode == list.Chain[base + nextIndex + 1]
      ensures Valid() && this.list == list && this.nextIndex == nextIndex && this.length == length
      ensures this.base == base && currentNode == NIL
    {
      this.list := list;
      this.nextNode, this.nextIndex, this.length := nextNode, nextIndex, length;
      this.currentNode := NIL;
      this.base := base;
    }

    method HasNext() returns (b: bool)
      requires Valid()
      ensures b <==> nextIndex < length
    {
      return nextIndex != length;
    }

    /** `next()`. */
    method Next() returns (r: Result<E>)
      requires Valid()
      modifies this
      ensures Valid() && length == old(length) && base == old(base)
      ensures old(nextIndex) < length ==>
        r == Ok(Window()[old(nextIndex)]) && nextIndex == old(nextIndex) + 1
        && currentNode != NIL && Current() == old(nextIndex)
      ensures old(nextIndex) == length ==> r == Throw(NoSuchElement) && nextIndex == old(nextIndex)
    {
      if nextIndex == length {
        return Throw(NoSuchElement);
      }
      nextIndex := nextIndex + 1;
      currentNode := nextNode;
      nextNode := list.next[nextNode];
      assert nextNode == list.Chain[base + nextIndex + 1];
      return Ok(list.value[currentNode]);
    }

    method NextIndex() returns (i: int)
      requires Valid()
      ensures i == nextIndex
    {
      return nextIndex;
    }

    method HasPrevious() returns (b: bool)
      requires Valid()
      ensures b <==> nextIndex > 0
    {
      return nextIndex != 0;
    }

    /** `previous()`. */
    method Previous() returns (r: Result<E>)
      requires Valid()
      modifies this
      ensures Valid() && length == old(length) && base == old(base)
      ensures old(nextIndex) > 0 ==>
        r == Ok(Window()[old(nextIndex) - 1]) && nextIndex == old(nextIndex) - 1
        && currentNode != NIL && Current() == nextIndex
      ensures old(nextIndex) == 0 ==> r == Throw(NoSuchElement) && nextIndex == 0
    {
      if nextIndex == 0 {
        return Throw(NoSuchElement);
      }
      nextIndex := nextIndex - 1;
      nextNode := list.prev[nextNode];
      currentNode := nextNode;
      assert nextNode == list.Chain[base + nextIndex + 1];
      assert Window()[nextIndex] == list.value[currentNode];
      return Ok(list.value[currentNode]);
    }

    method PreviousIndex() returns (i: int)
      requires Valid()
      ensures i == nextIndex - 1
    {
      return nextIndex - 1;
    }

    /** `add(o)`: inserted before `nextNode`, so a later `next()` is unaffected. */
    method Add(o: E)
      requires Valid()
      modifies this, list
      ensures Valid() && base == old(base) && currentNode == NIL
      ensures nextIndex == old(nextIndex) + 1 && length == old(length) + 1
      ensures list.Elements() == ListSpec.InsertAt(old(list.Elements()), base + old(nextIndex), [o])
    {
      ghost var k := base + nextIndex + 1;
      list.AddBefore(nextNode, o, k);
      currentNode := NIL;
      length := length + 1;
      nextIndex := nextIndex + 1;
    }

    /** `set(o)`: writes into the node last returned. */
    method Set(o: E) returns (r: Result<()>)
      requires Valid()
      modifies list
      ensures Valid() && list.Chain == old(list.Chain) && list.size == old(list.size)
      ensures old(currentNode) == NIL ==> r == Throw(IllegalState) && list.Elements() == old(list.Elements())
      ensures old(currentNode) != NIL ==>
        r == Ok(()) && list.Elements() == ListSpec.SetAt(old(list.Elements()), base + old(Current()), o)
        && Window() == ListSpec.SetAt(old(Window()), old(Current()), o)
    {
      if currentNode == NIL {
        return Throw(IllegalState);
      }
      ghost var i := base + Current();
      assert currentNode == list.Chain[i + 1];
      list.SetValue(currentNode, o, i + 1);
      return Ok(());
    }

    /** `remove()`: deletes the node last returned; `IllegalState` when there is none. */
    method Remove() returns (r: Result<()>)
      requires Valid()
      modifies this, list
      ensures Valid() && base == old(base)
      ensures old(currentNode) == NIL ==>
        r == Throw(IllegalState) && list.Elements() == old(list.Elements())
        && length == old(length) && nextIndex == old(nextIndex)
      ensures old(currentNode) != NIL ==>
        r == Ok(()) && currentNode == NIL && length == old(length) - 1
        && nextIndex == old(Current())
        && list.Elements() == ListSpec.RemoveSlice(old(list.Elements()), base + nextIndex, base + nextIndex + 1)
    {
      if currentNode == NIL {
        return Throw(IllegalState);
      }
      ghost var c := Current();
      ghost var k := base + c + 1;
      var node := currentNode;
      assert node == list.Chain[k];
      if nextNode == node {
        nextNode := list.next[nextNode];
      } else {
        nextIndex := nextIndex - 1;
      }
      assert nextIndex == c && nextNode == list.Chain[k + 1];
      currentNode := NIL;
      length := length - 1;
      list.Delete(node, k);
      assert nextNode == list.Chain[k];
      r := Ok(());
    }
  }
}
