/**
 * Reference definitions of the java.util.List operations on the sequence of
 * elements a list holds.  Each concrete list of the library (FastTable,
 * FastSequence, CopyOnWriteArrayList, the unmodifiable views) is proved
 * against these.
 */
module ListSpec {

  /** Index of the first element equal to `x`, or -1. */
  function IndexOf<T(==)>(s: seq<T>, x: T): (r: int)
    ensures -1 <= r < |s|
    ensures r >= 0 ==> s[r] == x && forall j :: 0 <= j < r ==> s[j] != x
    ensures r == -1 ==> forall j :: 0 <= j < |s| ==> s[j] != x
  {
    if |s| == 0 then -1
    else if s[0] == x then 0
    else
      var k := IndexOf(s[1..], x);
      if k < 0 then -1 else k + 1
  }

  /** Index of the last element equal to `x`, or -1. */
  function LastIndexOf<T(==)>(s: seq<T>, x: T): (r: int)
    ensures -1 <= r < |s|
    ensures r >= 0 ==> s[r] == x && forall j :: r < j < |s| ==> s[j] != x
    ensures r == -1 ==> forall j :: 0 <= j < |s| ==> s[j] != x
  {
    if |s| == 0 then -1
    else if s[|s| - 1] == x then |s| - 1
    else LastIndexOf(s[..|s| - 1], x)
  }

  /** `xs` inserted so that its first element lands at `index`. */
  function InsertAt<T>(s: seq<T>, index: nat, xs: seq<T>): seq<T>
    requires index <= |s|
  {
    s[..index] + xs + s[index..]
  }

  /** `s` without the elements at positions `from` (inclusive) to `to` (exclusive). */
  function RemoveSlice<T>(s: seq<T>, from: nat, to: nat): seq<T>
    requires from <= to <= |s|
  {
    s[..from] + s[to..]
  }

  /** `n` copies of `x`. */
  function Repeat<T>(x: T, n: nat): (r: seq<T>)
    ensures |r| == n && forall i :: 0 <= i < n ==> r[i] == x
  {
    seq(n, _ => x)
  }

  /** `s` with the element at `index` replaced by `x`. */
  function SetAt<T>(s: seq<T>, index: nat, x: T): seq<T>
    requires index < |s|
  {
    s[index := x]
  }

  /** Every element of `c` occurs in `s`. */
  predicate ContainsAll<T(==)>(s: seq<T>, c: seq<T>)
  {
    forall i :: 0 <= i < |c| ==> c[i] in s
  }

  predicate Distinct<T(==)>(s: seq<T>)
  {
    forall i, j :: 0 <= i < j < |s| ==> s[i] != s[j]
  }

  /** The elements of `s`, in order, whose membership in `c` is `keep`. */
  function Filter<T(==)>(s: seq<T>, c: seq<T>, keep: bool): (r: seq<T>)
    ensures |r| <= |s|
    ensures |r| == |s| ==> r == s
    ensures forall i :: 0 <= i < |r| ==> r[i] in s && (r[i] in c) == keep
    ensures forall i :: 0 <= i < |s| && (s[i] in c) == keep ==> s[i] in r
  {
    if s == [] then []
    else if (s[0] in c) == keep then [s[0]] + Filter(s[1..], c, keep)
    else Filter(s[1..], c, keep)
  }

  /**
   * The elements of `c`, in order, that are not in `s` and do not repeat an
   * earlier element of `c`.
   */
  function NewElements<T(==)>(s: seq<T>, c: seq<T>): (r: seq<T>)
    ensures |r| <= |c|
  {
    if c == [] then []
    else
      var r := NewElements(s, c[..|c| - 1]);
      var x := c[|c| - 1];
      if x in s || x in r then r else r + [x]
  }

  /**
   * What `NewElements` gathers: only elements of `c` missing from `s`, every
   * such element, and none of them twice.
   */
  lemma {:induction false} NewElementsSpec<T>(s: seq<T>, c: seq<T>)
    ensures var r := NewElements(s, c);
      && (forall i :: 0 <= i < |r| ==> r[i] in c && r[i] !in s)
      && (forall i :: 0 <= i < |c| && c[i] !in s ==> c[i] in r)
      && Distinct(r)
  {
    if c != [] {
      var c', x := c[..|c| - 1], c[|c| - 1];
      NewElementsSpec(s, c');
      assert forall i :: 0 <= i < |c'| ==> c'[i] == c[i];
      assert c == c' + [x];
    }
  }

  lemma IndexOfIsFirst<T>(s: seq<T>, x: T, i: int)
    requires 0 <= i < |s| && s[i] == x && forall j :: 0 <= j < i ==> s[j] != x
    ensures IndexOf(s, x) == i
  {
  }

  lemma NotFoundIndexOf<T>(s: seq<T>, x: T)
    requires forall j :: 0 <= j < |s| ==> s[j] != x
    ensures IndexOf(s, x) == -1
  {
  }

  lemma LastIndexOfIsLast<T>(s: seq<T>, x: T, i: int)
    requires 0 <= i < |s| && s[i] == x && forall j :: i < j < |s| ==> s[j] != x
    ensures LastIndexOf(s, x) == i
  {
  }

  lemma NotFoundLastIndexOf<T>(s: seq<T>, x: T)
    requires forall j :: 0 <= j < |s| ==> s[j] != x
    ensures LastIndexOf(s, x) == -1
  {
  }

  /** A sequence that agrees with an insertion at every index is that insertion. */
  lemma InsertAtPointwise<T>(r: seq<T>, s: seq<T>, index: nat, xs: seq<T>)
    requires index <= |s| && |r| == |s| + |xs|
    requires forall k {:trigger r[k]} :: 0 <= k < |r| ==>
      r[k] == (if k < index then s[k] else if k < index + |xs| then xs[k - index] else s[k - |xs|])
    ensures r == InsertAt(s, index, xs)
  {
    var t := InsertAt(s, index, xs);
    forall k | 0 <= k < |r|
      ensures r[k] == t[k]
    {
      var a, c := s[..index], s[index..];
      assert t == a + xs + c && |a| == index;
      if k < index {
        assert t[k] == a[k] == s[k];
      } else if k < index + |xs| {
        assert t[k] == xs[k - index];
      } else {
        assert t[k] == c[k - index - |xs|] == s[k - |xs|];
      }
    }
  }

  /** A sequence that agrees with a removal at every index is that removal. */
  lemma RemoveSlicePointwise<T>(r: seq<T>, s: seq<T>, from: nat, to: nat)
    requires from <= to <= |s| && |r| == |s| - (to - from)
    requires forall k {:trigger r[k]} :: 0 <= k < |r| ==> r[k] == (if k < from then s[k] else s[k + (to - from)])
    ensures r == RemoveSlice(s, from, to)
  {
    var t := RemoveSlice(s, from, to);
    forall k | 0 <= k < |r|
      ensures r[k] == t[k]
    {
      var a, c := s[..from], s[to..];
      assert t == a + c && |a| == from;
      if k < from {
        assert t[k] == a[k] == s[k];
      } else {
        assert t[k] == c[k - from] == s[k + (to - from)];
      }
    }
  }

  /**
   * Inserting the first `j` of `xs` and then the next one right after them
   * inserts the first `j + 1`.
   */
  lemma InsertAtAppend<T>(s: seq<T>, index: nat, xs: seq<T>, j: nat)
    requires index <= |s| && j < |xs|
    ensures InsertAt(InsertAt(s, index, xs[..j]), index + j, [xs[j]]) == InsertAt(s, index, xs[..j + 1])
  {
    var t := InsertAt(s, index, xs[..j]);
    assert t[..index + j] == s[..index] + xs[..j];
    assert t[index + j..] == s[index..];
    assert xs[..j + 1] == xs[..j] + [xs[j]];
  }

  /** A slice of a slice is a slice of the original. */
  lemma SliceOfSlice<T>(s: seq<T>, lo: nat, hi: nat, i: nat, j: nat)
    requires lo <= hi <= |s| && i <= j <= hi - lo
    ensures s[lo..hi][i..j] == s[lo + i..lo + i + (j - i)]
  {
    var a, b := s[lo..hi][i..j], s[lo + i..lo + i + (j - i)];
    assert |a| == |b|;
    forall k | 0 <= k < |a|
      ensures a[k] == b[k]
    {
      assert a[k] == s[lo..hi][i + k] == s[lo + i + k];
    }
  }
}
