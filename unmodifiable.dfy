/**
 * The unmodifiable list views UnmodifiableCollectionImpl and its template
 * twin FastUnmodifiableCollection.  Both hold a wrapped list `fc`; every
 * mutator throws UnsupportedOperationException and every read is answered
 * by `fc`.  The wrapped list is given by its elements, and its reads by the
 * reference definitions of ListSpec.  Records (`head`, `tail`, `valueOf`) are
 * positions: `head` is just before the first element, `tail` just after the
 * last.
 */
module UnmodifiableViews {
  import opened JavaLang
  import ListSpec

  datatype View<E> = View(fc: seq<E>)

  /** The mutators of the view, with their arguments. */
  datatype Mutation<E> =
    | Add(e: E)
    | AddAt(index: int, e: E)
    | AddAll(c: seq<E>)
    | AddAllAt(index: int, c: seq<E>)
    | Clear
    | Delete(record: int)
    | RemoveAt(index: int)
    | RemoveValue(e: E)
    | RemoveAll(c: seq<E>)
    | Reset
    | RetainAll(c: seq<E>)
    | Set(index: int, e: E)

  /** A mutator call: what it throws, and the view afterwards. */
  function Mutate<E>(v: View<E>, m: Mutation<E>): (r: (Exception, View<E>))
    ensures r.0 == UnsupportedOperation && r.1.fc == v.fc
  {
    (UnsupportedOperation, v)
  }

  function Contains<E(==)>(v: View<E>, x: E): (b: bool)
    ensures b <==> exists i :: 0 <= i < |v.fc| && v.fc[i] == x
  {
    x in v.fc
  }

  function ContainsAll<E(==)>(v: View<E>, c: seq<E>): (b: bool)
    ensures b <==> forall j :: 0 <= j < |c| ==> c[j] in v.fc
  {
    ListSpec.ContainsAll(v.fc, c)
  }

  function Get<E>(v: View<E>, index: int): (r: Result<E>)
    ensures r.Ok? <==> 0 <= index < |v.fc|
    ensures r.Ok? ==> r.value == v.fc[index]
    ensures r.Throw? ==> r.ex == IndexOutOfBounds
  {
    if 0 <= index < |v.fc| then Ok(v.fc[index]) else Throw(IndexOutOfBounds)
  }

  /** `head()`: the record just before the first element. */
  function Head<E>(v: View<E>): (record: int)
    ensures record + 1 == 0
  {
    -1
  }

  /** `tail()`: the record just after the last element. */
  function Tail<E>(v: View<E>): (record: int)
    ensures record == |v.fc|
  {
    |v.fc|
  }

  function IndexOf<E(==)>(v: View<E>, x: E): (r: int)
    ensures r >= 0 ==> r < |v.fc| && v.fc[r] == x && x !in v.fc[..r]
    ensures r < 0 <==> x !in v.fc
  {
    var k := ListSpec.IndexOf(v.fc, x);
    assert k >= 0 ==> v.fc[k] == x;
    k
  }

  function LastIndexOf<E(==)>(v: View<E>, x: E): (r: int)
    ensures r >= 0 ==> r < |v.fc| && v.fc[r] == x && x !in v.fc[r + 1..]
    ensures r < 0 <==> x !in v.fc
  {
    var k := ListSpec.LastIndexOf(v.fc, x);
    assert k >= 0 ==> v.fc[k] == x;
    k
  }

  function IsEmpty<E>(v: View<E>): (b: bool)
    ensures b <==> Size(v) == 0
  {
    |v.fc| == 0
  }

  function Size<E>(v: View<E>): (n: nat)
    ensures n == |v.fc|
  {
    |v.fc|
  }

  function ToArray<E>(v: View<E>): (a: seq<E>)
    ensures |a| == Size(v) && forall i :: 0 <= i < |a| ==> Get(v, i) == Ok(a[i])
  {
    v.fc
  }

  /** `valueOf(record)`: the element at a record between `head()` and `tail()`. */
  function ValueOf<E>(v: View<E>, record: int): (r: Result<E>)
    ensures r.Ok? <==> Head(v) < record < Tail(v)
    ensures r.Ok? ==> r == Get(v, record)
  {
    Get(v, record)
  }

  /** `listIterator()`, `listIterator(index)` and `subList(from, to)` always throw. */
  function ListIterator<E>(v: View<E>, index: Option<int>): (ex: Exception)
    ensures ex == UnsupportedOperation
  {
    UnsupportedOperation
  }

  function SubList<E>(v: View<E>, from: int, to: int): (r: Result<View<E>>)
    ensures r == Throw(UnsupportedOperation)
  {
    Throw(UnsupportedOperation)
  }

  // ------------------------------------------------------------------
  // The read-only iterator over the wrapped list.
  // ------------------------------------------------------------------

  datatype Iter<E> = Iter(elems: seq<E>, cursor: nat)

  function Iterator<E>(v: View<E>): (it: Iter<E>)
    ensures it.elems == v.fc && it.cursor == 0
  {
    Iter(v.fc, 0)
  }

  function HasNext<E>(it: Iter<E>): bool
  {
    it.cursor < |it.elems|
  }

  /** `next()`: the next element, NoSuchElementException past the end. */
  function Next<E>(it: Iter<E>): (r: Result<(E, Iter<E>)>)
    ensures r.Ok? <==> HasNext(it)
    ensures r.Ok? ==> r.value.0 == it.elems[it.cursor] && r.value.1 == it.(cursor := it.cursor + 1)
    ensures r.Throw? ==> r.ex == NoSuchElement
  {
    if it.cursor < |it.elems| then Ok((it.elems[it.cursor], it.(cursor := it.cursor + 1)))
    else Throw(NoSuchElement)
  }

  /** The iterator's `remove()` always throws. */
  function IterRemove<E>(it: Iter<E>): (r: Result<Iter<E>>)
    ensures r == Throw(UnsupportedOperation)
  {
    Throw(UnsupportedOperation)
  }

  /** The elements `next()` returns, in order, until `hasNext()` is false. */
  function Drain<E>(it: Iter<E>): seq<E>
    decreases |it.elems| - it.cursor
  {
    match Next(it)
    case Throw(_) => []
    case Ok((e, rest)) => [e] + Drain(rest)
  }

  lemma {:induction false} DrainFrom<E>(it: Iter<E>)
    requires it.cursor <= |it.elems|
    ensures Drain(it) == it.elems[it.cursor..]
    decreases |it.elems| - it.cursor
  {
    if it.cursor < |it.elems| {
      DrainFrom(it.(cursor := it.cursor + 1));
    }
  }

  // ------------------------------------------------------------------
  // What both view classes promise, stated over whole call sequences.
  // ------------------------------------------------------------------

  /** The view after a sequence of mutator calls, with what each one threw. */
  function MutateAll<E>(v: View<E>, ms: seq<Mutation<E>>): (View<E>, seq<Exception>)
  {
    if ms == [] then (v, [])
    else
      var (ex, v') := Mutate(v, ms[0]);
      var (w, exs) := MutateAll(v', ms[1..]);
      (w, [ex] + exs)
  }

  /** Whatever mutators are called, each throws and the wrapped list keeps its elements. */
  lemma {:induction false} MutatorsChangeNothing<E>(v: View<E>, ms: seq<Mutation<E>>)
    ensures MutateAll(v, ms).0 == v
    ensures |MutateAll(v, ms).1| == |ms|
    ensures forall i :: 0 <= i < |ms| ==> MutateAll(v, ms).1[i] == UnsupportedOperation
  {
    if ms != [] {
      MutatorsChangeNothing(v, ms[1..]);
    }
  }

  /** Every read of the view is the wrapped list's own answer. */
  lemma ReadsAreTheWrappedList<E>(v: View<E>, x: E, c: seq<E>, index: int)
    ensures Contains(v, x) == (x in v.fc)
    ensures ContainsAll(v, c) == ListSpec.ContainsAll(v.fc, c)
    ensures Get(v, index) == (if 0 <= index < |v.fc| then Ok(v.fc[index]) else Throw(IndexOutOfBounds))
    ensures IndexOf(v, x) == ListSpec.IndexOf(v.fc, x)
    ensures LastIndexOf(v, x) == ListSpec.LastIndexOf(v.fc, x)
    ensures IsEmpty(v) == (|v.fc| == 0) && Size(v) == |v.fc| && ToArray(v) == v.fc
    ensures ValueOf(v, index) == Get(v, index)
  {
  }

  /** The view's iterator yields the wrapped list's elements, in order. */
  lemma IteratorYieldsWrappedList<E>(v: View<E>)
    ensures Drain(Iterator(v)) == v.fc
  {
    DrainFrom(Iterator(v));
  }
}
