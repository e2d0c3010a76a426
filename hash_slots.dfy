/**
 * The open-addressing slot tables of FastMap, as values.  A table is a
 * sequence of slots whose length is a power of two; a slot is `EMPTY` (a
 * `null` array element), `TOMBSTONE` (the shared `Entry.NULL` marker a
 * removal leaves behind) or the index of an entry.  An entry whose key hash is
 * `h` is looked for from its home slot `(h >> shift) & (length - 1)` on, one
 * slot at a time and wrapping around, until an `EMPTY` slot ends the probe.
 *
 * `i & (length - 1)` is the Euclidean remainder `i % length` for a
 * power-of-two length, negative `i` included; the probe position is counted
 * here with unbounded integers, which wrap-around of the Java `int` counter
 * cannot change since the length divides 2^32.
 */
module HashSlots {
  import opened JavaLang
  import ListSpec

  const EMPTY: int := -1
  const TOMBSTONE: int := -2

  /** Maximum table length before a FastMap splits into sub-maps (C1). */
  const C1: int := 1024

  /** Java's `h >> s` on an `int` (an arithmetic shift, `s < 32`): floor division by 2^s. */
  function Shr(h: int, s: nat): int
  {
    h / Pow2(s)
  }

  /** Euclidean division is determined by its defining equation. */
  lemma DivUnique(x: int, d: int, q: int, r: int)
    requires d > 0 && x == d * q + r && 0 <= r < d
    ensures x / d == q && x % d == r
  {
    var q0, r0 := x / d, x % d;
    assert x == d * q0 + r0;
    if q > q0 {
      MulStep(d, q0, q - q0);
    } else if q < q0 {
      MulStep(d, q, q0 - q);
    }
  }

  /** `d * (a + m)` is at least `d * a + d` when `m >= 1`. */
  lemma MulStep(d: int, a: int, m: int)
    requires d > 0 && m >= 1
    ensures d * (a + m) >= d * a + d
  {
    assert d * (a + m) == d * a + d * m;
    assert d * m >= d * 1;
  }

  lemma DivDiv(x: int, b: int, c: int)
    requires b > 0 && c > 0
    ensures (x / b) / c == x / (b * c)
  {
    var q, r := x / b, x % b;
    var q2, r2 := q / c, q % c;
    Regroup(b, c, q2, r2);
    assert x == (b * c) * q2 + (b * r2 + r);
    DivUnique(x, b * c, q2, b * r2 + r);
  }

  /** `b * (c * q + r) == (b * c) * q + b * r`, and `b * r < b * c` for `0 <= r < c`. */
  lemma Regroup(b: int, c: int, q: int, r: int)
    requires b > 0 && 0 <= r < c
    ensures b * (c * q + r) == (b * c) * q + b * r
    ensures 0 <= b * r <= b * c - b
  {
    assert b * (c * q + r) == b * (c * q) + b * r;
    assert b * (c * q) == (b * c) * q;
    assert b * r <= b * (c - 1);
  }

  /** Shifting right by `a` then by `b` is shifting right by `a + b`. */
  lemma ShrShr(h: int, a: nat, b: nat)
    ensures Shr(Shr(h, a), b) == Shr(h, a + b)
  {
    Pow2Add(a, b);
    DivDiv(h, Pow2(a), Pow2(b));
  }

  ghost predicate IsPow2(n: int)
  {
    exists k: nat {:trigger Pow2(k)} :: Pow2(k) == n
  }

  /** The slot `d` places after `home`, wrapping around a table of `len` slots. */
  function Slot(home: int, d: int, len: int): int
  {
    if home + d < len then home + d else home + d - len
  }

  /** How many places after `home` the slot `p` is, wrapping around. */
  function Dist(home: int, p: int, len: int): int
  {
    if home <= p then p - home else p + len - home
  }

  lemma SlotOfDist(home: int, p: int, len: int)
    requires 0 <= home < len && 0 <= p < len
    ensures 0 <= Dist(home, p, len) < len && Slot(home, Dist(home, p, len), len) == p
  {
  }

  lemma DistOfSlot(home: int, d: int, len: int)
    requires 0 <= home < len && 0 <= d < len
    ensures 0 <= Slot(home, d, len) < len && Dist(home, Slot(home, d, len), len) == d
  {
  }

  /** Doubling a power of two gives a power of two. */
  lemma DoubledPow2(n: int)
    requires IsPow2(n)
    ensures IsPow2(2 * n)
  {
    var k: nat :| Pow2(k) == n;
    assert Pow2(k + 1) == 2 * n;
  }

  /**
   * The sub-map length `(2 * n) >> 5` of a table of `n > 512` slots is a
   * power of two of at least 64.
   */
  lemma SubLengthPow2(n: int)
    requires IsPow2(n) && n > 512
    ensures IsPow2(2 * n / 32) && 2 * n / 32 >= 64
  {
    var k: nat :| Pow2(k) == n;
    if k < 10 {
      Pow2Below(k);
    }
    Pow2Add(k - 4, 4);
    assert Pow2(4) == 16;
    assert 2 * n == 32 * Pow2(k - 4);
    Pow2Add(6, k - 10);
    assert Pow2(6) == 64;
  }

  lemma Pow2Below(k: nat)
    requires k < 10
    ensures Pow2(k) <= 512
  {
    Pow2Add(k, 9 - k);
    assert Pow2(9) == 512;
  }

  /** The probe counter `i` after `d + 1` steps addresses the slot `d + 1` places after home. */
  lemma NextSlot(i: int, home: int, d: int, len: int)
    requires 0 <= home < len && 0 <= d && d + 1 < len && i % len == Slot(home, d, len)
    ensures (i + 1) % len == Slot(home, d + 1, len)
  {
    var q, r := i / len, i % len;
    if r + 1 < len {
      DivUnique(i + 1, len, q, r + 1);
    } else {
      DivUnique(i + 1, len, q + 1, 0);
    }
  }

  /** Number of slots that are not `EMPTY`. */
  function Occupied(s: seq<int>): (n: nat)
    ensures n <= |s|
  {
    if |s| == 0 then 0 else Occupied(s[..|s| - 1]) + (if s[|s| - 1] != EMPTY then 1 else 0)
  }

  /** Number of slots that hold an entry. */
  function Holding(s: seq<int>): (n: nat)
    ensures n <= |s|
  {
    if |s| == 0 then 0 else Holding(s[..|s| - 1]) + (if s[|s| - 1] >= 0 then 1 else 0)
  }

  lemma {:induction false} HoldingOccupied(s: seq<int>)
    ensures Holding(s) <= Occupied(s)
  {
    if |s| > 0 {
      HoldingOccupied(s[..|s| - 1]);
    }
  }

  /** The counts after one slot is overwritten. */
  lemma {:induction false} WriteCounts(s: seq<int>, p: int, x: int)
    requires 0 <= p < |s|
    ensures Occupied(s[p := x]) == Occupied(s) - (if s[p] != EMPTY then 1 else 0) + (if x != EMPTY then 1 else 0)
    ensures Holding(s[p := x]) == Holding(s) - (if s[p] >= 0 then 1 else 0) + (if x >= 0 then 1 else 0)
  {
    var s' := s[p := x];
    var n := |s| - 1;
    if p < n {
      assert s'[..n] == s[..n][p := x];
      WriteCounts(s[..n], p, x);
    } else {
      assert s'[..n] == s[..n];
    }
  }

  lemma {:induction false} HoldingPrefix(s: seq<int>, i: int)
    requires 0 <= i <= |s|
    ensures Holding(s[..i]) <= Holding(s)
    decreases |s| - i
  {
    if i < |s| {
      HoldingPrefix(s, i + 1);
      assert s[..i + 1][..i] == s[..i];
    } else {
      assert s[..i] == s;
    }
  }

  lemma HoldingStep(s: seq<int>, i: int)
    requires 0 <= i < |s|
    ensures Holding(s[..i + 1]) == Holding(s[..i]) + (if s[i] >= 0 then 1 else 0)
  {
    assert s[..i + 1][..i] == s[..i];
  }

  /** A table with fewer occupied slots than slots has an `EMPTY` slot. */
  lemma {:induction false} FreeSlot(s: seq<int>) returns (q: int)
    requires Occupied(s) < |s|
    ensures 0 <= q < |s| && s[q] == EMPTY
  {
    var n := |s| - 1;
    if s[n] == EMPTY {
      q := n;
    } else {
      q := FreeSlot(s[..n]);
    }
  }

  lemma {:induction false} CountsOfEmpty(n: nat)
    ensures Occupied(ListSpec.Repeat(EMPTY, n)) == 0 && Holding(ListSpec.Repeat(EMPTY, n)) == 0
  {
    if n > 0 {
      assert ListSpec.Repeat(EMPTY, n)[..n - 1] == ListSpec.Repeat(EMPTY, n - 1);
      CountsOfEmpty(n - 1);
    }
  }

  /** The home slot of hash `h` in a table of `len` slots searched with `shift`. */
  function Home(h: int, shift: nat, len: int): int
    requires len > 0
  {
    Shr(h, shift) % len
  }

  /** No slot from `home` up to (not including) `p` is `EMPTY`: a probe from `home` reaches `p`. */
  ghost predicate PathFull(s: seq<int>, home: int, p: int)
  {
    && 0 <= home < |s| && 0 <= p < |s|
    && forall d :: 0 <= d < Dist(home, p, |s|) ==> s[Slot(home, d, |s|)] != EMPTY
  }

  /** Every entry of the table is reached by a probe from its home slot. */
  ghost predicate Reachable(s: seq<int>, hashes: seq<int>, shift: nat)
  {
    && |s| > 0
    && forall p :: 0 <= p < |s| && 0 <= s[p] < |hashes| ==> PathFull(s, Home(hashes[s[p]], shift, |s|), p)
  }

  /**
   * A probe from `home` that meets an `EMPTY` slot `d` places on has passed
   * every slot that a full path from `home` leads to.
   */
  lemma ProbePassed(s: seq<int>, home: int, d: int, p: int)
    requires PathFull(s, home, p) && s[p] != EMPTY && 0 <= d < |s|
    requires s[Slot(home, d, |s|)] == EMPTY
    ensures Dist(home, p, |s|) < d && Slot(home, Dist(home, p, |s|), |s|) == p
  {
    SlotOfDist(home, p, |s|);
  }

  /** Writing a slot keeps every other path full, and the written entry reachable when its own path is full. */
  lemma WriteKeepsReachable(s: seq<int>, hashes: seq<int>, shift: nat, q: int, x: int)
    requires Reachable(s, hashes, shift) && 0 <= q < |s| && x != EMPTY
    requires 0 <= x < |hashes| ==> PathFull(s, Home(hashes[x], shift, |s|), q)
    ensures Reachable(s[q := x], hashes, shift)
  {
    var s' := s[q := x];
    forall p | 0 <= p < |s'| && 0 <= s'[p] < |hashes|
      ensures PathFull(s', Home(hashes[s'[p]], shift, |s'|), p)
    {
      var home := Home(hashes[s'[p]], shift, |s|);
      assert PathFull(s, home, p);
      forall d | 0 <= d < Dist(home, p, |s|)
        ensures s'[Slot(home, d, |s|)] != EMPTY
      {
        assert s[Slot(home, d, |s|)] != EMPTY;
      }
    }
  }

  /** Reachability depends only on the hashes of the entries the table holds. */
  lemma ReachableSameHashes(s: seq<int>, hashes: seq<int>, hashes': seq<int>, shift: nat)
    requires Reachable(s, hashes, shift)
    requires forall p :: 0 <= p < |s| ==> s[p] < |hashes| && s[p] < |hashes'|
    requires forall p :: 0 <= p < |s| && s[p] >= 0 ==> hashes'[s[p]] == hashes[s[p]]
    ensures Reachable(s, hashes', shift)
  {
  }

  /** An all-`EMPTY` table holds nothing, so every entry in it is reachable. */
  lemma EmptyReachable(n: nat, hashes: seq<int>, shift: nat)
    requires n > 0
    ensures Reachable(ListSpec.Repeat(EMPTY, n), hashes, shift)
  {
  }

  /**
   * The probe loop of `mapEntry` and `copyEntries`: from the home slot of
   * `h` on, the first `EMPTY` slot (which the caller then fills).
   */
  method FirstEmpty(s: seq<int>, h: int, shift: nat) returns (p: int)
    requires |s| > 0 && Occupied(s) < |s|
    ensures 0 <= p < |s| && s[p] == EMPTY && PathFull(s, Home(h, shift, |s|), p)
  {
    var len := |s|;
    var i := Shr(h, shift);
    ghost var home := i % len;
    ghost var q := FreeSlot(s);
    SlotOfDist(home, q, len);
    ghost var d := 0;
    while s[i % len] != EMPTY
      invariant 0 <= d <= Dist(home, q, len) && i % len == Slot(home, d, len)
      invariant forall j :: 0 <= j < d ==> s[Slot(home, j, len)] != EMPTY
      decreases Dist(home, q, len) - d
    {
      NextSlot(i, home, d, len);
      i := i + 1;
      d := d + 1;
    }
    p := i % len;
  }

  /** The entries in `from` (slots holding an entry) are distinct. */
  ghost predicate Unique(from: seq<int>)
  {
    forall p1, p2 :: 0 <= p1 < p2 < |from| && from[p1] >= 0 ==> from[p1] != from[p2]
  }

  /**
   * What `copyEntries` has done once it has copied the first `i` slots of
   * `from` into `to`: each entry of `from[..i]` sits in `to` at `w[e]`, `to`
   * holds nothing else (slot `q` holds `from[src[q]]`) and no tombstone,
   * every entry is reachable, and `w` has changed only for copied entries.
   */
  ghost predicate Copied(from: seq<int>, i: int, to: seq<int>, hashes: seq<int>, shift: nat,
                         w0: seq<int>, src: seq<int>, w: seq<int>)
  {
    && 0 <= i <= |from| && |w| == |w0| && |src| == |to|
    && Holding(to) == Occupied(to) == Holding(from[..i])
    && Reachable(to, hashes, shift)
    && CopiedFrom(from, i, to, src, w)
    && CopiedTo(from, i, to, w)
    && (forall e :: 0 <= e < |w| && w[e] != w0[e] ==> 0 <= w[e] < |to| && to[w[e]] == e)
  }

  /** Every entry in `to` was copied from `from[..i]`, and `w` records its slot. */
  ghost predicate CopiedFrom(from: seq<int>, i: int, to: seq<int>, src: seq<int>, w: seq<int>)
    requires 0 <= i <= |from| && |src| == |to|
  {
    forall q :: 0 <= q < |to| && to[q] >= 0 ==>
      0 <= src[q] < i && from[src[q]] == to[q] && to[q] < |w| && w[to[q]] == q
  }

  /** Every entry of `from[..i]` is in `to` at the slot `w` records. */
  ghost predicate CopiedTo(from: seq<int>, i: int, to: seq<int>, w: seq<int>)
    requires 0 <= i <= |from|
  {
    forall p :: 0 <= p < i && from[p] >= 0 ==> from[p] < |w| && 0 <= w[from[p]] < |to| && to[w[from[p]]] == from[p]
  }

  /**
   * `copyEntries(from, to, count)` into an all-`EMPTY` table `to0`: every
   * entry of `from` (tombstones and `null` slots are skipped) is placed at the
   * first `EMPTY` slot from its home on.  The ghost `w` records where each
   * entry landed, `src` where each came from.
   */
  method CopyEntries(from: seq<int>, to0: seq<int>, hashes: seq<int>, shift: nat, ghost w0: seq<int>)
    returns (to: seq<int>, ghost src: seq<int>, ghost w: seq<int>)
    requires |to0| > 0 && to0 == ListSpec.Repeat(EMPTY, |to0|)
    requires forall p :: 0 <= p < |from| ==> from[p] < |hashes| && from[p] < |w0|
    requires Unique(from) && Holding(from) < |to0|
    ensures |to| == |to0| && Copied(from, |from|, to, hashes, shift, w0, src, w)
  {
    to, src, w := to0, to0, w0;
    CountsOfEmpty(|to0|);
    assert from[..0] == [];
    var i := 0;
    while i < |from|
      invariant |to| == |to0| && Copied(from, i, to, hashes, shift, w0, src, w)
    {
      to, src, w := CopyOne(from, i, to, hashes, shift, w0, src, w);
      i := i + 1;
    }
    assert from[..i] == from;
  }

  /** One round of `copyEntries`: the slot `from[i]` is copied unless it holds no entry. */
  method CopyOne(from: seq<int>, i: int, to0: seq<int>, hashes: seq<int>, shift: nat,
                 ghost w0: seq<int>, ghost src0: seq<int>, ghost v0: seq<int>)
    returns (to: seq<int>, ghost src: seq<int>, ghost v: seq<int>)
    requires 0 <= i < |from| && Copied(from, i, to0, hashes, shift, w0, src0, v0)
    requires forall p :: 0 <= p < |from| ==> from[p] < |hashes| && from[p] < |w0|
    requires Unique(from) && Holding(from) < |to0|
    ensures |to| == |to0| && Copied(from, i + 1, to, hashes, shift, w0, src, v)
  {
    HoldingStep(from, i);
    HoldingPrefix(from, i + 1);
    var e := from[i];
    if e < 0 {
      to, src, v := to0, src0, v0;
      return;
    }
    var p := FirstEmpty(to0, hashes[e], shift);
    to, src, v := to0[p := e], src0[p := i], v0[e := p];
    CopiedWrite(from, i, to0, hashes, shift, w0, src0, v0, p);
  }

  /** Placing `from[i]` at the free slot `p` extends what `Copied` says by one slot. */
  lemma CopiedWrite(from: seq<int>, i: int, to0: seq<int>, hashes: seq<int>, shift: nat,
                    w0: seq<int>, src0: seq<int>, v0: seq<int>, p: int)
    requires 0 <= i < |from| && Copied(from, i, to0, hashes, shift, w0, src0, v0)
    requires forall p :: 0 <= p < |from| ==> from[p] < |hashes| && from[p] < |w0|
    requires Unique(from) && from[i] >= 0
    requires Holding(from[..i + 1]) == Holding(from[..i]) + 1
    requires 0 <= p < |to0| && to0[p] == EMPTY && PathFull(to0, Home(hashes[from[i]], shift, |to0|), p)
    ensures Copied(from, i + 1, to0[p := from[i]], hashes, shift, w0, src0[p := i], v0[from[i] := p])
  {
    var e := from[i];
    var to, src, v := to0[p := e], src0[p := i], v0[e := p];
    WriteCounts(to0, p, e);
    WriteKeepsReachable(to0, hashes, shift, p, e);
    NotCopiedYet(from, i, to0, src0, v0);
    CopiedFromWrite(from, i, to0, src0, v0, p);
    CopiedToWrite(from, i, to0, v0, p);
  }

  /** An entry not copied yet appears nowhere in `to`. */
  lemma NotCopiedYet(from: seq<int>, i: int, to: seq<int>, src: seq<int>, w: seq<int>)
    requires 0 <= i < |from| && |src| == |to| && CopiedFrom(from, i, to, src, w) && Unique(from) && from[i] >= 0
    ensures forall q :: 0 <= q < |to| ==> to[q] != from[i]
  {
    forall q | 0 <= q < |to| && to[q] >= 0
      ensures to[q] != from[i]
    {
      assert from[src[q]] == to[q] && src[q] < i;
    }
  }

  lemma CopiedFromWrite(from: seq<int>, i: int, to0: seq<int>, src0: seq<int>, v0: seq<int>, p: int)
    requires 0 <= i < |from| && |src0| == |to0| && CopiedFrom(from, i, to0, src0, v0) && from[i] >= 0
    requires from[i] < |v0| && 0 <= p < |to0| && to0[p] == EMPTY
    requires forall q :: 0 <= q < |to0| ==> to0[q] != from[i]
    ensures CopiedFrom(from, i + 1, to0[p := from[i]], src0[p := i], v0[from[i] := p])
  {
  }

  lemma CopiedToWrite(from: seq<int>, i: int, to0: seq<int>, v0: seq<int>, p: int)
    requires 0 <= i < |from| && CopiedTo(from, i, to0, v0) && Unique(from) && from[i] >= 0
    requires from[i] < |v0| && 0 <= p < |to0| && to0[p] == EMPTY
    ensures CopiedTo(from, i + 1, to0[p := from[i]], v0[from[i] := p])
  {
    var e := from[i];
    forall p' | 0 <= p' < i + 1 && from[p'] >= 0
      ensures v0[e := p][from[p']] == (if p' == i then p else v0[from[p']])
    {
      if p' < i {
        assert from[p'] != e;
      }
    }
  }

  /**
   * The static `reset(Object[])`: the table is cleared `C1` slots at a time by
   * copying from a block of `null`s.
   */
  method ResetSlots(s: seq<int>) returns (r: seq<int>)
    ensures r == ListSpec.Repeat(EMPTY, |s|)
  {
    r := s;
    var i := 0;
    while i < |r|
      invariant |r| == |s| && 0 <= i <= |r|
      invariant forall j :: 0 <= j < i ==> r[j] == EMPTY
    {
      var count := if |r| - i < C1 then |r| - i else C1;
      r := r[..i] + ListSpec.Repeat(EMPTY, count) + r[i + count..];
      i := i + count;
    }
  }
}
