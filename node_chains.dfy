/**
 * The pooled doubly-linked node chains shared by FastSequence (its nodes) and
 * FastMap (its entries).  Nodes are indices into arena sequences `next` and
 * `prev`; `NIL` stands for the `null` link.  Both structures keep ONE chain
 *
 *     head, live nodes..., tail, free nodes...
 *
 * whose last node has a null `next`: the live nodes sit between the `head`
 * node and the `tail` node, the nodes after `tail` are the pool of free nodes
 * that `addLast`/`put` and `addBefore` draw from and that `delete`/`remove`
 * give back to.
 */
module NodeChains {

  const NIL: int := -1

  predicate Distinct(s: seq<int>)
  {
    forall i, j :: 0 <= i < j < |s| ==> s[i] != s[j]
  }

  /**
   * `chain` lists distinct nodes of the arena, each node's `next` is the node
   * after it and each node's `prev` the node before it, and the last node's
   * `next` is null.
   */
  ghost predicate Linked(next: seq<int>, prev: seq<int>, chain: seq<int>)
  {
    && |next| == |prev|
    && |chain| >= 1
    && Distinct(chain)
    && (forall i :: 0 <= i < |chain| ==> 0 <= chain[i] < |next|)
    && (forall i :: 0 <= i < |chain| - 1 ==> next[chain[i]] == chain[i + 1])
    && (forall i :: 0 <= i < |chain| - 1 ==> prev[chain[i + 1]] == chain[i])
    && next[chain[|chain| - 1]] == NIL
  }

  /** In a linked chain, a node has a null `next` exactly when it is the last one. */
  lemma LastOfChain(next: seq<int>, prev: seq<int>, chain: seq<int>, i: int)
    requires Linked(next, prev, chain) && 0 <= i < |chain|
    ensures next[chain[i]] == NIL <==> i == |chain| - 1
  {
    if i < |chain| - 1 {
      assert next[chain[i]] == chain[i + 1] >= 0;
    }
  }

  /**
   * A fresh node `x` (the next arena index) linked after the last node of the
   * chain: its `prev` is that node, whose `next` becomes `x`.
   */
  lemma AppendLinked(next: seq<int>, prev: seq<int>, chain: seq<int>)
    requires Linked(next, prev, chain)
    ensures var x, last := |next|, chain[|chain| - 1];
      Linked((next + [NIL])[last := x], (prev + [NIL])[x := last], chain + [x])
  {
    var x, last := |next|, chain[|chain| - 1];
    var n', p', c' := (next + [NIL])[last := x], (prev + [NIL])[x := last], chain + [x];
    forall i | 0 <= i < |c'| - 1
      ensures n'[c'[i]] == c'[i + 1] && p'[c'[i + 1]] == c'[i]
    {
      if i < |chain| - 1 {
        assert c'[i] == chain[i] != last;
      }
    }
  }

  /**
   * `addBefore(next, value)` relinking: the first free node (the one after the
   * tail, at position `n + 2`) is detached from the pool and linked in before
   * the node at position `k` (a live node or the tail).  Afterwards `tail.next`
   * is the node that followed the detached one, whose `prev` is the tail; the
   * previous node of `at` and `at` point at the inserted node, and it at them.
   */
  lemma InsertLinked(next: seq<int>, prev: seq<int>, chain: seq<int>, n: nat, k: nat,
                     next': seq<int>, prev': seq<int>)
    requires Linked(next, prev, chain) && 1 <= k <= n + 1 && n + 3 <= |chain|
    requires |next'| == |next| && |prev'| == |prev|
    requires forall x :: 0 <= x < |next| && x != chain[n + 1] && x != chain[k - 1] && x != chain[n + 2] ==>
      next'[x] == next[x]
    requires next'[chain[n + 1]] == next[chain[n + 2]]
    requires next'[chain[k - 1]] == chain[n + 2] && next'[chain[n + 2]] == chain[k]
    requires forall x :: 0 <= x < |prev| && !(n + 3 < |chain| && x == chain[n + 3]) && x != chain[k] && x != chain[n + 2] ==>
      prev'[x] == prev[x]
    requires n + 3 < |chain| ==> prev'[chain[n + 3]] == chain[n + 1]
    requires prev'[chain[k]] == chain[n + 2] && prev'[chain[n + 2]] == chain[k - 1]
    ensures Linked(next', prev', chain[..k] + [chain[n + 2]] + chain[k..n + 2] + chain[n + 3..])
  {
    var c' := chain[..k] + [chain[n + 2]] + chain[k..n + 2] + chain[n + 3..];
    assert |c'| == |chain|;
    assert forall i :: 0 <= i < |c'| ==> c'[i] == chain[InsertSource(i, k, n)];
    InsertDistinct(chain, c', n, k);
    InsertNext(next, prev, chain, n, k, next', c');
    InsertPrev(next, prev, chain, n, k, prev', c');
  }

  lemma InsertNext(next: seq<int>, prev: seq<int>, chain: seq<int>, n: nat, k: nat, next': seq<int>, c': seq<int>)
    requires Linked(next, prev, chain) && 1 <= k <= n + 1 && n + 3 <= |chain|
    requires |next'| == |next|
    requires forall x :: 0 <= x < |next| && x != chain[n + 1] && x != chain[k - 1] && x != chain[n + 2] ==>
      next'[x] == next[x]
    requires next'[chain[n + 1]] == next[chain[n + 2]]
    requires next'[chain[k - 1]] == chain[n + 2] && next'[chain[n + 2]] == chain[k]
    requires |c'| == |chain| && forall i :: 0 <= i < |c'| ==> c'[i] == chain[InsertSource(i, k, n)]
    ensures forall i :: 0 <= i < |c'| ==> 0 <= c'[i] < |next'|
    ensures forall i :: 0 <= i < |c'| - 1 ==> next'[c'[i]] == c'[i + 1]
    ensures next'[c'[|c'| - 1]] == NIL
  {
    forall i | 0 <= i < |c'| - 1
      ensures next'[c'[i]] == c'[i + 1]
    {
      var a, b := InsertSource(i, k, n), InsertSource(i + 1, k, n);
      if i < k - 1 || i > n + 2 || k < i < n + 2 {
        assert b == a + 1 && a != n + 1 && a != k - 1 && a != n + 2;
      } else if i == n + 2 {
        assert n + 3 < |chain| && next[chain[n + 2]] == chain[n + 3];
      }
    }
    if n + 3 == |chain| {
      assert c'[|c'| - 1] == chain[n + 1];
    }
  }

  lemma InsertPrev(next: seq<int>, prev: seq<int>, chain: seq<int>, n: nat, k: nat, prev': seq<int>, c': seq<int>)
    requires Linked(next, prev, chain) && 1 <= k <= n + 1 && n + 3 <= |chain|
    requires |prev'| == |prev|
    requires forall x :: 0 <= x < |prev| && !(n + 3 < |chain| && x == chain[n + 3]) && x != chain[k] && x != chain[n + 2] ==>
      prev'[x] == prev[x]
    requires n + 3 < |chain| ==> prev'[chain[n + 3]] == chain[n + 1]
    requires prev'[chain[k]] == chain[n + 2] && prev'[chain[n + 2]] == chain[k - 1]
    requires |c'| == |chain| && forall i :: 0 <= i < |c'| ==> c'[i] == chain[InsertSource(i, k, n)]
    ensures forall i :: 0 <= i < |c'| ==> 0 <= c'[i] < |prev'|
    ensures forall i :: 0 <= i < |c'| - 1 ==> prev'[c'[i + 1]] == c'[i]
  {
    forall i | 0 <= i < |c'| - 1
      ensures prev'[c'[i + 1]] == c'[i]
    {
      var a, b := InsertSource(i, k, n), InsertSource(i + 1, k, n);
      if i < k - 1 || i > n + 2 || k < i < n + 2 {
        assert b == a + 1 && b != n + 3 && b != k && b != n + 2;
      }
    }
  }

  /**
   * The `next` links after `addBefore` moved the first free node (position
   * `n + 2`) before position `k`, updated in the order the code writes them:
   * the tail's, then the one of the node before position `k`, then the
   * inserted node's.
   */
  ghost function InsertNextLinks(next: seq<int>, prev: seq<int>, chain: seq<int>, n: nat, k: nat): (r: seq<int>)
    requires Linked(next, prev, chain) && 1 <= k <= n + 1 && n + 3 <= |chain|
    ensures |r| == |next|
  {
    next[chain[n + 1] := next[chain[n + 2]]][chain[k - 1] := chain[n + 2]][chain[n + 2] := chain[k]]
  }

  /**
   * The `prev` links after the same move: the one of the node that followed
   * the inserted node in the pool (position `n + 3`, if any), then the one of the node at
   * position `k`, then the inserted node's.
   */
  ghost function InsertPrevLinks(next: seq<int>, prev: seq<int>, chain: seq<int>, n: nat, k: nat): (r: seq<int>)
    requires Linked(next, prev, chain) && 1 <= k <= n + 1 && n + 3 <= |chain|
    ensures |r| == |prev|
  {
    var p := if n + 3 < |chain| then prev[chain[n + 3] := chain[n + 1]] else prev;
    p[chain[k] := chain[n + 2]][chain[n + 2] := chain[k - 1]]
  }

  /** The links `addBefore` writes link the chain with the free node moved to position `k`. */
  lemma InsertLinks(next: seq<int>, prev: seq<int>, chain: seq<int>, n: nat, k: nat)
    requires Linked(next, prev, chain) && 1 <= k <= n + 1 && n + 3 <= |chain|
    ensures Linked(InsertNextLinks(next, prev, chain, n, k), InsertPrevLinks(next, prev, chain, n, k),
                   chain[..k] + [chain[n + 2]] + chain[k..n + 2] + chain[n + 3..])
  {
    assert chain[k - 1] != chain[n + 1] && chain[k - 1] != chain[n + 2] && chain[n + 1] != chain[n + 2];
    assert chain[k] != chain[n + 2];
    if n + 3 < |chain| {
      assert next[chain[n + 2]] == chain[n + 3];
      assert chain[n + 3] != chain[k] && chain[n + 3] != chain[n + 2];
    }
    InsertLinked(next, prev, chain, n, k, InsertNextLinks(next, prev, chain, n, k), InsertPrevLinks(next, prev, chain, n, k));
  }

  /** Position in the old chain of the node at position `i` after `InsertLinked`. */
  function InsertSource(i: int, k: int, n: int): int
  {
    if i < k then i else if i == k then n + 2 else if i <= n + 2 then i - 1 else i
  }

  lemma InsertDistinct(chain: seq<int>, c': seq<int>, n: nat, k: nat)
    requires Distinct(chain) && 1 <= k <= n + 1 && n + 3 <= |chain| && |c'| == |chain|
    requires forall i :: 0 <= i < |c'| ==> c'[i] == chain[InsertSource(i, k, n)]
    ensures Distinct(c')
  {
    forall i, j | 0 <= i < j < |c'|
      ensures c'[i] != c'[j]
    {
      assert InsertSource(i, k, n) != InsertSource(j, k, n);
    }
  }

  /**
   * `delete(node)` relinking: the live node at position `k` is unlinked (its
   * neighbours point at each other) and given back to the pool right after the
   * tail: its `prev` becomes the tail, its `next` the node that followed the
   * tail (whose `prev` becomes the deleted node), and `tail.next` the deleted node.
   */
  lemma DeleteLinked(next: seq<int>, prev: seq<int>, chain: seq<int>, n: nat, k: nat,
                     next': seq<int>, prev': seq<int>)
    requires Linked(next, prev, chain) && 1 <= k <= n && n + 2 <= |chain|
    requires |next'| == |next| && |prev'| == |prev|
    requires forall x :: 0 <= x < |next| && x != chain[k - 1] && x != chain[k] && x != chain[n + 1] ==>
      next'[x] == next[x]
    requires next'[chain[k - 1]] == chain[k + 1] && next'[chain[k]] == next[chain[n + 1]]
    requires next'[chain[n + 1]] == chain[k]
    requires forall x :: 0 <= x < |prev| && x != chain[k + 1] && x != chain[k] && !(n + 2 < |chain| && x == chain[n + 2]) ==>
      prev'[x] == prev[x]
    requires prev'[chain[k + 1]] == chain[k - 1] && prev'[chain[k]] == chain[n + 1]
    requires n + 2 < |chain| ==> prev'[chain[n + 2]] == chain[k]
    ensures Linked(next', prev', chain[..k] + chain[k + 1..n + 2] + [chain[k]] + chain[n + 2..])
  {
    var c' := chain[..k] + chain[k + 1..n + 2] + [chain[k]] + chain[n + 2..];
    assert |c'| == |chain|;
    assert forall i :: 0 <= i < |c'| ==> c'[i] == chain[DeleteSource(i, k, n)];
    DeleteDistinct(chain, c', n, k);
    DeleteNext(next, prev, chain, n, k, next', c');
    DeletePrev(next, prev, chain, n, k, prev', c');
  }

  /** Position in the old chain of the node at position `i` after `DeleteLinked`. */
  function DeleteSource(i: int, k: int, n: int): int
  {
    if i < k then i else if i <= n then i + 1 else if i == n + 1 then k else i
  }

  lemma DeleteDistinct(chain: seq<int>, c': seq<int>, n: nat, k: nat)
    requires Distinct(chain) && 1 <= k <= n && n + 2 <= |chain| && |c'| == |chain|
    requires forall i :: 0 <= i < |c'| ==> c'[i] == chain[DeleteSource(i, k, n)]
    ensures Distinct(c')
  {
    forall i, j | 0 <= i < j < |c'|
      ensures c'[i] != c'[j]
    {
      assert DeleteSource(i, k, n) != DeleteSource(j, k, n);
    }
  }

  lemma DeleteNext(next: seq<int>, prev: seq<int>, chain: seq<int>, n: nat, k: nat, next': seq<int>, c': seq<int>)
    requires Linked(next, prev, chain) && 1 <= k <= n && n + 2 <= |chain|
    requires |next'| == |next|
    requires forall x :: 0 <= x < |next| && x != chain[k - 1] && x != chain[k] && x != chain[n + 1] ==>
      next'[x] == next[x]
    requires next'[chain[k - 1]] == chain[k + 1] && next'[chain[k]] == next[chain[n + 1]]
    requires next'[chain[n + 1]] == chain[k]
    requires |c'| == |chain| && forall i :: 0 <= i < |c'| ==> c'[i] == chain[DeleteSource(i, k, n)]
    ensures forall i :: 0 <= i < |c'| ==> 0 <= c'[i] < |next'|
    ensures forall i :: 0 <= i < |c'| - 1 ==> next'[c'[i]] == c'[i + 1]
    ensures next'[c'[|c'| - 1]] == NIL
  {
    forall i | 0 <= i < |c'| - 1
      ensures next'[c'[i]] == c'[i + 1]
    {
      var a, b := DeleteSource(i, k, n), DeleteSource(i + 1, k, n);
      if i < k - 1 || i > n + 1 || k <= i < n {
        assert b == a + 1 && a != k - 1 && a != k && a != n + 1;
      } else if i == n + 1 {
        assert next[chain[n + 1]] == chain[n + 2];
      }
    }
    if n + 2 == |chain| {
      assert c'[|c'| - 1] == chain[k];
    }
  }

  lemma DeletePrev(next: seq<int>, prev: seq<int>, chain: seq<int>, n: nat, k: nat, prev': seq<int>, c': seq<int>)
    requires Linked(next, prev, chain) && 1 <= k <= n && n + 2 <= |chain|
    requires |prev'| == |prev|
    requires forall x :: 0 <= x < |prev| && x != chain[k + 1] && x != chain[k] && !(n + 2 < |chain| && x == chain[n + 2]) ==>
      prev'[x] == prev[x]
    requires prev'[chain[k + 1]] == chain[k - 1] && prev'[chain[k]] == chain[n + 1]
    requires n + 2 < |chain| ==> prev'[chain[n + 2]] == chain[k]
    requires |c'| == |chain| && forall i :: 0 <= i < |c'| ==> c'[i] == chain[DeleteSource(i, k, n)]
    ensures forall i :: 0 <= i < |c'| ==> 0 <= c'[i] < |prev'|
    ensures forall i :: 0 <= i < |c'| - 1 ==> prev'[c'[i + 1]] == c'[i]
  {
    forall i | 0 <= i < |c'| - 1
      ensures prev'[c'[i + 1]] == c'[i]
    {
      var a, b := DeleteSource(i, k, n), DeleteSource(i + 1, k, n);
      if i < k - 1 || i > n + 1 || k <= i < n {
        assert b == a + 1 && b != k + 1 && b != k && b != n + 2;
      }
    }
  }

  /** The chain after `InsertLinked`, position by position. */
  lemma InsertedChain(chain0: seq<int>, n: nat, k: nat, chain: seq<int>)
    requires 1 <= k <= n + 1 && n + 3 <= |chain0|
    requires chain == chain0[..k] + [chain0[n + 2]] + chain0[k..n + 2] + chain0[n + 3..]
    ensures |chain| == |chain0| && forall i :: 0 <= i < |chain| ==> chain[i] == chain0[InsertSource(i, k, n)]
  {
  }

  /** The chain after `DeleteLinked`, position by position. */
  lemma DeletedChain(chain0: seq<int>, n: nat, k: nat, chain: seq<int>)
    requires 1 <= k <= n && n + 2 <= |chain0|
    requires chain == chain0[..k] + chain0[k + 1..n + 2] + [chain0[k]] + chain0[n + 2..]
    ensures |chain| == |chain0| && forall i :: 0 <= i < |chain| ==> chain[i] == chain0[DeleteSource(i, k, n)]
  {
  }
}
