/**
 * CopyOnWriteArrayList: a list whose every mutator builds a new array and
 * installs it in `arr` (the `_array` field), never writing into an array it
 * has already published.  Iterators and sub lists keep a reference to the
 * array they started from.  Sequential behaviour only: the monitor locks
 * are not modelled.
 *
 * Elements are compared with `==`, which stands for
 * `o1 == o2 || o1 != null && o1.equals(o2)` on well-behaved elements; the
 * default value of `T` stands for the `null` a fresh `Object[]` holds.
 *
 * Every mutator may change only the `arr` field (`modifies this`), so the
 * array a snapshot holds is never written: each one also states it, as
 * `old(arr)[..] == old(arr[..])`.
 */
module CopyOnWrite {
  import opened JavaLang
  import ListSpec

  /** `rangeCheck(index, length)`. */
  function RangeCheck(index: int, length: int): (r: Result<()>)
    ensures r.Ok? <==> 0 <= index < length
    ensures r.Throw? ==> r.ex == IndexOutOfBounds
  {
    if index >= length || index < 0 then Throw(IndexOutOfBounds) else Ok(())
  }

  class CopyOnWriteArrayList<T(0,==)> {
    var arr: array<T>

    ghost function Elements(): seq<T>
      reads this, arr
    {
      arr[..]
    }

    constructor ()
      ensures fresh(arr) && Elements() == []
    {
      arr := new T[0];
    }

    /** The list holding the elements of collection `c`, in iteration order. */
    constructor FromCollection(c: seq<T>)
      ensures fresh(arr) && Elements() == c
    {
      var a := new T[|c|];
      FillFrom(c, a, 0);
      arr := a;
    }

    /**
     * `copyIn(toCopyIn, first, n)`.  The new array is installed before the
     * copy, so a copy out of bounds leaves `n` default elements behind.
     */
    method CopyIn(toCopyIn: array<T>, first: int, n: int) returns (r: Result<()>)
      modifies this
      ensures old(arr)[..] == old(arr[..])
      ensures n < 0 ==> r == Throw(NegativeArraySize) && arr == old(arr)
      ensures n >= 0 ==> fresh(arr) && arr.Length == n
      ensures n >= 0 && (first < 0 || first + n > toCopyIn.Length) ==> r == Throw(IndexOutOfBounds)
      ensures n >= 0 && 0 <= first && first + n <= toCopyIn.Length ==> (
        r == Ok(()) && Elements() == old(toCopyIn[first..first + n]))
    {
      if n < 0 {
        return Throw(NegativeArraySize);
      }
      arr := new T[n];
      if first < 0 || first + n > toCopyIn.Length {
        return Throw(IndexOutOfBounds);
      }
      ArrayCopy(toCopyIn, first, arr, 0, n);
      return Ok(());
    }

    method Size() returns (n: nat)
      ensures n == |Elements()|
    {
      return arr.Length;
    }

    method IsEmpty() returns (b: bool)
      ensures b <==> Elements() == []
    {
      return arr.Length == 0;
    }

    /** The static `indexOf(elem, elementData, len)`: the first match among the first `len` cells. */
    static method IndexIn(x: T, a: array<T>, len: nat) returns (r: int)
      requires len <= a.Length
      ensures r == ListSpec.IndexOf(a[..len], x)
    {
      var i := 0;
      while i < len
        invariant 0 <= i <= len
        invariant forall j :: 0 <= j < i ==> a[j] != x
      {
        if a[i] == x {
          ListSpec.IndexOfIsFirst(a[..len], x, i);
          return i;
        }
        i := i + 1;
      }
      ListSpec.NotFoundIndexOf(a[..len], x);
      return -1;
    }

    /** The static `lastIndexOf(elem, elementData, len)`: the last match among the first `len` cells. */
    static method LastIndexIn(x: T, a: array<T>, len: nat) returns (r: int)
      requires len <= a.Length
      ensures r == ListSpec.LastIndexOf(a[..len], x)
    {
      var i := len - 1;
      while i >= 0
        invariant -1 <= i < len
        invariant forall j :: i < j < len ==> a[j] != x
      {
        if a[i] == x {
          ListSpec.LastIndexOfIsLast(a[..len], x, i);
          return i;
        }
        i := i - 1;
      }
      ListSpec.NotFoundLastIndexOf(a[..len], x);
      return -1;
    }

    method Contains(x: T) returns (b: bool)
      ensures b <==> x in Elements()
    {
      var i := IndexIn(x, arr, arr.Length);
      assert arr[..arr.Length] == Elements();
      b := i >= 0;
      if b {
        assert Elements()[i] == x;
      }
    }

    method IndexOf(x: T) returns (r: int)
      ensures r == ListSpec.IndexOf(Elements(), x)
    {
      r := IndexIn(x, arr, arr.Length);
      assert arr[..arr.Length] == Elements();
    }

    method LastIndexOf(x: T) returns (r: int)
      ensures r == ListSpec.LastIndexOf(Elements(), x)
    {
      r := LastIndexIn(x, arr, arr.Length);
      assert arr[..arr.Length] == Elements();
    }

    /**
     * `indexOf(elem, index)`: the first match at or after `index`.  A negative
     * `index` reads outside the array and throws.
     */
    method IndexOfFrom(x: T, index: int) returns (r: Result<int>)
      ensures index < 0 <==> r.Throw?
      ensures r.Throw? ==> r.ex == IndexOutOfBounds
      ensures r.Ok? && r.value >= 0 ==> (
        index <= r.value < |Elements()| && Elements()[r.value] == x &&
        forall j :: index <= j < r.value ==> Elements()[j] != x)
      ensures r.Ok? && r.value < 0 ==> (r.value == -1 &&
        forall j :: index <= j < |Elements()| ==> Elements()[j] != x)
    {
      if index < 0 {
        return Throw(IndexOutOfBounds);
      }
      var i := index;
      while i < arr.Length
        invariant index <= i
        invariant forall j :: index <= j < i && j < arr.Length ==> arr[j] != x
      {
        if arr[i] == x {
          return Ok(i);
        }
        i := i + 1;
      }
      return Ok(-1);
    }

    /**
     * `lastIndexOf(elem, index)`: the last match at or before `index`.  An
     * `index` at or past the end reads outside the array and throws.
     */
    method LastIndexOfFrom(x: T, index: int) returns (r: Result<int>)
      ensures 0 <= |Elements()| <= index <==> r.Throw?
      ensures r.Throw? ==> r.ex == IndexOutOfBounds
      ensures r.Ok? && r.value >= 0 ==> (
        r.value <= index && r.value < |Elements()| && Elements()[r.value] == x &&
        forall j :: r.value < j <= index ==> Elements()[j] != x)
      ensures r.Ok? && r.value < 0 ==> (r.value == -1 &&
        forall j :: 0 <= j <= index ==> Elements()[j] != x)
    {
      if index >= arr.Length {
        return Throw(IndexOutOfBounds);
      }
      var i := index;
      while i >= 0
        invariant i <= index && (-1 <= i || i == index)
        invariant forall j :: i < j <= index ==> arr[j] != x
      {
        if arr[i] == x {
          return Ok(i);
        }
        i := i - 1;
      }
      return Ok(-1);
    }

    /** `clone()`: a new list over its own copy of the array. */
    method Clone() returns (c: CopyOnWriteArrayList<T>)
      ensures fresh(c) && fresh(c.arr) && c.Elements() == Elements()
    {
      c := new CopyOnWriteArrayList();
      var a := new T[arr.Length];
      ArrayCopy(arr, 0, a, 0, arr.Length);
      c.arr := a;
    }

    method ToArray() returns (a: array<T>)
      ensures fresh(a) && a[..] == Elements()
    {
      a := new T[arr.Length];
      ArrayCopy(arr, 0, a, 0, arr.Length);
    }

    method Get(index: int) returns (r: Result<T>)
      ensures r.Ok? <==> 0 <= index < |Elements()|
      ensures r.Ok? ==> r.value == Elements()[index]
      ensures r.Throw? ==> r.ex == IndexOutOfBounds
    {
      var check := RangeCheck(index, arr.Length);
      if check.Throw? {
        return Throw(check.ex);
      }
      return Ok(arr[index]);
    }

    /**
     * `set(index, element)`: the previous element; a new array only when
     * the element differs from the one it replaces.
     */
    method Set(index: int, e: T) returns (r: Result<T>)
      modifies this
      ensures old(arr)[..] == old(arr[..])
      ensures r.Ok? <==> 0 <= index < |old(Elements())|
      ensures r.Throw? ==> r.ex == IndexOutOfBounds && arr == old(arr)
      ensures r.Ok? ==> (r.value == old(Elements())[index] &&
        Elements() == old(Elements())[index := e])
      ensures r.Ok? && r.value == e ==> arr == old(arr)
      ensures r.Ok? && r.value != e ==> fresh(arr)
    {
      var len := arr.Length;
      var check := RangeCheck(index, len);
      if check.Throw? {
        return Throw(check.ex);
      }
      var oldValue := arr[index];
      if oldValue != e {
        var newArray := new T[len];
        ArrayCopy(arr, 0, newArray, 0, len);
        newArray[index] := e;
        arr := newArray;
      }
      return Ok(oldValue);
    }

    method Add(e: T) returns (b: bool)
      modifies this
      ensures old(arr)[..] == old(arr[..])
      ensures b && fresh(arr) && Elements() == old(Elements()) + [e]
    {
      var len := arr.Length;
      var newArray := new T[len + 1];
      ArrayCopy(arr, 0, newArray, 0, len);
      newArray[len] := e;
      arr := newArray;
      return true;
    }

    method AddAt(index: int, e: T) returns (r: Result<()>)
      modifies this
      ensures old(arr)[..] == old(arr[..])
      ensures r.Ok? <==> 0 <= index <= |old(Elements())|
      ensures r.Throw? ==> r.ex == IndexOutOfBounds && arr == old(arr)
      ensures r.Ok? ==> fresh(arr) && Elements() == ListSpec.InsertAt(old(Elements()), index, [e])
    {
      var len := arr.Length;
      if index > len || index < 0 {
        return Throw(IndexOutOfBounds);
      }
      var newArray := new T[len + 1];
      ArrayCopy(arr, 0, newArray, 0, index);
      newArray[index] := e;
      ArrayCopy(arr, index, newArray, index + 1, len - index);
      arr := newArray;
      return Ok(());
    }

    method RemoveAt(index: int) returns (r: Result<T>)
      modifies this
      ensures old(arr)[..] == old(arr[..])
      ensures r.Ok? <==> 0 <= index < |old(Elements())|
      ensures r.Throw? ==> r.ex == IndexOutOfBounds && arr == old(arr)
      ensures r.Ok? ==> (fresh(arr) && r.value == old(Elements())[index] &&
        Elements() == ListSpec.RemoveSlice(old(Elements()), index, index + 1))
    {
      var len := arr.Length;
      var check := RangeCheck(index, len);
      if check.Throw? {
        return Throw(check.ex);
      }
      var oldValue := arr[index];
      var newArray := new T[len - 1];
      ArrayCopy(arr, 0, newArray, 0, index);
      var numMoved := len - index - 1;
      if numMoved > 0 {
        ArrayCopy(arr, index + 1, newArray, index, numMoved);
      }
      arr := newArray;
      return Ok(oldValue);
    }

    /**
     * `remove(element)`: copies while searching; on a match the rest is
     * copied one cell down and the copy installed, otherwise it is dropped.
     */
    method RemoveValue(e: T) returns (b: bool)
      modifies this
      ensures old(arr)[..] == old(arr[..])
      ensures b <==> e in old(Elements())
      ensures !b ==> arr == old(arr)
      ensures b ==> (fresh(arr) &&
        var i := ListSpec.IndexOf(old(Elements()), e);
        Elements() == ListSpec.RemoveSlice(old(Elements()), i, i + 1))
    {
      var len := arr.Length;
      if len == 0 {
        return false;
      }
      var newlen := len - 1;
      var newArray := new T[newlen];
      var i := 0;
      while i < newlen
        invariant 0 <= i <= newlen
        invariant arr == old(arr)
        invariant forall j :: 0 <= j < i ==> arr[j] != e
        invariant newArray[..i] == arr[..i]
      {
        if e == arr[i] {
          ShiftCopy(arr, newArray, i);
          ListSpec.IndexOfIsFirst(arr[..], e, i);
          arr := newArray;
          return true;
        }
        newArray[i] := arr[i];
        i := i + 1;
      }
      if e == arr[newlen] {
        ListSpec.IndexOfIsFirst(arr[..], e, newlen);
        assert newArray[..] == arr[..newlen];
        arr := newArray;
        return true;
      }
      assert forall j :: 0 <= j < len ==> arr[j] != e;
      return false;
    }

    /**
     * The inner loop of `remove(o)`: once `o` is found at `i`, the elements
     * after it are copied one place down, behind the `i` already copied.
     */
    static method ShiftCopy(src: array<T>, dst: array<T>, i: nat)
      requires i < src.Length && dst.Length == src.Length - 1 && src != dst
      requires dst[..i] == src[..i]
      modifies dst
      ensures dst[..] == ListSpec.RemoveSlice(src[..], i, i + 1)
    {
      var len := src.Length;
      var k := i + 1;
      while k < len
        invariant i + 1 <= k <= len
        invariant dst[..i] == src[..i]
        invariant dst[i..k - 1] == src[i + 1..k]
      {
        dst[k - 1] := src[k];
        k := k + 1;
      }
      forall j | 0 <= j < dst.Length
        ensures dst[j] == (if j < i then src[j] else src[j + 1])
      {
        if j < i {
          assert dst[j] == dst[..i][j];
        } else {
          assert dst[j] == dst[i..len - 1][j - i];
        }
      }
      ListSpec.RemoveSlicePointwise(dst[..], src[..], i, i + 1);
    }

    /**
     * `removeRange(fromIndex, toIndex)`.  `fromIndex == size()` throws even
     * for an empty range.
     */
    method RemoveRange(from: int, to: int) returns (r: Result<()>)
      modifies this
      ensures old(arr)[..] == old(arr[..])
      ensures r.Ok? <==> 0 <= from < |old(Elements())| && from <= to <= |old(Elements())|
      ensures r.Throw? ==> r.ex == IndexOutOfBounds && arr == old(arr)
      ensures r.Ok? ==> fresh(arr) && Elements() == ListSpec.RemoveSlice(old(Elements()), from, to)
    {
      var len := arr.Length;
      if from < 0 || from >= len || to > len || to < from {
        return Throw(IndexOutOfBounds);
      }
      var numMoved := len - to;
      var newlen := len - (to - from);
      var newArray := new T[newlen];
      ArrayCopy(arr, 0, newArray, 0, from);
      ArrayCopy(arr, to, newArray, from, numMoved);
      arr := newArray;
      return Ok(());
    }

    /** `addIfAbsent(element)`: copies while checking; appends only when absent. */
    method AddIfAbsent(e: T) returns (b: bool)
      modifies this
      ensures old(arr)[..] == old(arr[..])
      ensures b <==> e !in old(Elements())
      ensures !b ==> arr == old(arr)
      ensures b ==> fresh(arr) && Elements() == old(Elements()) + [e]
    {
      var len := arr.Length;
      var newArray := new T[len + 1];
      var i := 0;
      while i < len
        invariant 0 <= i <= len
        invariant arr == old(arr)
        invariant forall j :: 0 <= j < i ==> arr[j] != e
        invariant newArray[..i] == arr[..i]
      {
        if e == arr[i] {
          return false;
        }
        newArray[i] := arr[i];
        i := i + 1;
      }
      newArray[len] := e;
      assert newArray[..] == arr[..] + [e];
      arr := newArray;
      return true;
    }

    method ContainsAll(c: seq<T>) returns (b: bool)
      ensures b <==> ListSpec.ContainsAll(Elements(), c)
    {
      var i := 0;
      while i < |c|
        invariant 0 <= i <= |c|
        invariant forall j :: 0 <= j < i ==> c[j] in Elements()
      {
        var k := IndexIn(c[i], arr, arr.Length);
        assert arr[..arr.Length] == Elements();
        if k < 0 {
          return false;
        }
        i := i + 1;
      }
      return true;
    }

    /**
     * `removeAll(c)` (`keep == false`) and `retainAll(c)` (`keep == true`):
     * the kept elements are gathered in a scratch array and a new array is
     * installed only when something was dropped.
     */
    method FilterBy(c: seq<T>, keep: bool) returns (b: bool)
      modifies this
      ensures old(arr)[..] == old(arr[..])
      ensures Elements() == ListSpec.Filter(old(Elements()), c, keep)
      ensures b <==> Elements() != old(Elements())
      ensures !b ==> arr == old(arr)
      ensures b ==> fresh(arr)
    {
      var len := arr.Length;
      if len == 0 {
        return false;
      }
      var temp, newlen := GatherKept(arr, c, keep);
      if newlen == len {
        return false;
      }
      var newArray := new T[newlen];
      ArrayCopy(temp, 0, newArray, 0, newlen);
      arr := newArray;
      return true;
    }

    /** The loop of `batchRemove`: the elements of `elementData` that `FilterBy` keeps, in a scratch array. */
    static method GatherKept(elementData: array<T>, c: seq<T>, keep: bool) returns (temp: array<T>, newlen: nat)
      ensures fresh(temp) && temp.Length == elementData.Length
      ensures newlen <= temp.Length && temp[..newlen] == ListSpec.Filter(elementData[..], c, keep)
    {
      var len := elementData.Length;
      ghost var data := elementData[..];
      temp := new T[len];
      newlen := 0;
      var i := 0;
      while i < len
        invariant 0 <= i <= len && 0 <= newlen <= i
        invariant elementData[..] == data
        invariant temp[..newlen] == ListSpec.Filter(data[..i], c, keep)
      {
        var element := elementData[i];
        ghost var kept := temp[..newlen];
        FilterStep(data, i, c, keep);
        if (element in c) == keep {
          temp[newlen] := element;
          newlen := newlen + 1;
          assert temp[..newlen] == kept + [element];
        }
        i := i + 1;
      }
      assert data[..i] == data;
    }

    method RemoveAll(c: seq<T>) returns (b: bool)
      modifies this
      ensures old(arr)[..] == old(arr[..])
      ensures Elements() == ListSpec.Filter(old(Elements()), c, false)
      ensures b <==> exists i :: 0 <= i < |old(Elements())| && old(Elements())[i] in c
      ensures !b ==> arr == old(arr)
    {
      b := FilterBy(c, false);
      FilterDropsExactly(old(Elements()), c, false);
    }

    method RetainAll(c: seq<T>) returns (b: bool)
      modifies this
      ensures old(arr)[..] == old(arr[..])
      ensures Elements() == ListSpec.Filter(old(Elements()), c, true)
      ensures b <==> exists i :: 0 <= i < |old(Elements())| && old(Elements())[i] !in c
      ensures !b ==> arr == old(arr)
    {
      b := FilterBy(c, true);
      FilterDropsExactly(old(Elements()), c, true);
    }

    /**
     * `addAllAbsent(c)`: appends, in iteration order, the elements of `c`
     * that are neither in the list nor repeated earlier in `c`; returns how
     * many it appended.
     */
    method AddAllAbsent(c: seq<T>) returns (added: int)
      modifies this
      ensures old(arr)[..] == old(arr[..])
      ensures Elements() == old(Elements()) + ListSpec.NewElements(old(Elements()), c)
      ensures added == |ListSpec.NewElements(old(Elements()), c)|
      ensures added == 0 ==> arr == old(arr)
      ensures added > 0 ==> fresh(arr)
    {
      var numNew := |c|;
      if numNew == 0 {
        return 0;
      }
      var elementData := arr;
      var len := elementData.Length;
      var temp;
      temp, added := GatherAbsent(elementData, c);
      if added == 0 {
        return 0;
      }
      ghost var data, gathered := elementData[..], temp[..added];
      var newArray := new T[len + added];
      ArrayCopy(elementData, 0, newArray, 0, len);
      assert newArray[..len] == data;
      ArrayCopy(temp, 0, newArray, len, added);
      assert newArray[..] == data + gathered;
      arr := newArray;
    }

    method Clear()
      modifies this
      ensures old(arr)[..] == old(arr[..])
      ensures fresh(arr) && Elements() == []
    {
      arr := new T[0];
    }

    /** `addAll(c)`: nothing happens for an empty `c`. */
    method AddAll(c: seq<T>) returns (b: bool)
      modifies this
      ensures old(arr)[..] == old(arr[..])
      ensures b <==> c != []
      ensures !b ==> arr == old(arr)
      ensures b ==> fresh(arr)
      ensures Elements() == old(Elements()) + c
    {
      var numNew := |c|;
      if numNew == 0 {
        return false;
      }
      var len := arr.Length;
      var newArray := new T[len + numNew];
      ArrayCopy(arr, 0, newArray, 0, len);
      FillFrom(c, newArray, len);
      arr := newArray;
      return true;
    }

    /** `addAll(index, c)`: the bounds are checked before `c` is looked at. */
    method AddAllAt(index: int, c: seq<T>) returns (r: Result<bool>)
      modifies this
      ensures old(arr)[..] == old(arr[..])
      ensures r.Ok? <==> 0 <= index <= |old(Elements())|
      ensures r.Throw? ==> r.ex == IndexOutOfBounds
      ensures r.Ok? ==> (r.value <==> c != []) && Elements() == ListSpec.InsertAt(old(Elements()), index, c)
      ensures !(r.Ok? && r.value) ==> arr == old(arr)
      ensures r.Ok? && r.value ==> fresh(arr)
    {
      var len := arr.Length;
      if index > len || index < 0 {
        return Throw(IndexOutOfBounds);
      }
      var numNew := |c|;
      if numNew == 0 {
        return Ok(false);
      }
      var newArray := new T[len + numNew];
      ArrayCopy(arr, 0, newArray, 0, len);
      var numMoved := len - index;
      if numMoved > 0 {
        ArrayCopy(arr, index, newArray, index + numNew, numMoved);
      }
      ghost var moved := newArray[..];
      assert moved[..index] == arr[..index];
      assert moved[index + numNew..] == arr[index..];
      FillFrom(c, newArray, index);
      assert newArray[..] == moved[..index] + c + moved[index + numNew..];
      arr := newArray;
      return Ok(true);
    }

    /**
     * The loop of `addAllAbsent`: the elements of `c`, in order, that are
     * in neither `elementData` nor the scratch array gathered so far.
     */
    static method GatherAbsent(elementData: array<T>, c: seq<T>) returns (temp: array<T>, added: nat)
      ensures fresh(temp) && temp.Length == |c| && added <= |c|
      ensures temp[..added] == ListSpec.NewElements(elementData[..], c)
    {
      var len := elementData.Length;
      ghost var data := elementData[..];
      temp := new T[|c|];
      added := 0;
      var i := 0;
      while i < |c|
        invariant 0 <= i <= |c| && 0 <= added <= i
        invariant elementData[..] == data
        invariant temp[..added] == ListSpec.NewElements(data, c[..i])
      {
        added := GatherOne(elementData, len, temp, added, c, i);
        i := i + 1;
      }
      assert c[..i] == c;
    }

    /**
     * One round of the loop of `addAllAbsent`: `c[i]` is stored at
     * `temp[added]` unless `elementData` or the part of `temp` gathered so
     * far already holds it, which keeps `temp[..added]` the new elements of
     * the prefix of `c` looked at.
     */
    static method GatherOne(elementData: array<T>, len: int, temp: array<T>, added: nat, c: seq<T>, i: nat)
      returns (count: nat)
      requires len == elementData.Length && added <= i < |c| && temp.Length == |c| && temp != elementData
      requires temp[..added] == ListSpec.NewElements(elementData[..], c[..i])
      modifies temp
      ensures count <= i + 1
      ensures temp[..count] == ListSpec.NewElements(elementData[..], c[..i + 1])
    {
      var element := c[i];
      ghost var gathered := temp[..added];
      NewElementsStep(elementData[..], c, i);
      count := added;
      var inList := IndexIn(element, elementData, len);
      assert elementData[..len] == elementData[..];
      if inList < 0 {
        var inTemp := IndexIn(element, temp, added);
        if inTemp < 0 {
          temp[added] := element;
          count := added + 1;
          assert temp[..count] == gathered + [element];
        } else {
          assert gathered[inTemp] == element;
        }
      } else {
        assert elementData[inList] == element;
      }
    }

    /** The iterator loops of `addAll`: the elements of `c` stored from `dst[at]` on. */
    static method FillFrom(c: seq<T>, dst: array<T>, at: nat)
      requires at + |c| <= dst.Length
      modifies dst
      ensures dst[..] == old(dst[..at]) + c + old(dst[at + |c|..])
    {
      var i := 0;
      while i < |c|
        invariant 0 <= i <= |c|
        invariant dst[..at] == old(dst[..at])
        invariant dst[at + |c|..] == old(dst[at + |c|..])
        invariant dst[at..at + i] == c[..i]
      {
        dst[at + i] := c[i];
        i := i + 1;
      }
      SplitThree(dst[..], at, at + |c|);
    }

    /** `iterator()` / `listIterator()`: an iterator over the current array. */
    method Iterator() returns (it: COWIterator<T>)
      ensures fresh(it) && it.snapshot == arr && it.cursor == 0
    {
      it := new COWIterator(arr, 0);
    }

    method ListIterator(index: int) returns (r: Result<COWIterator<T>>)
      ensures r.Ok? <==> 0 <= index <= arr.Length
      ensures r.Throw? ==> r.ex == IndexOutOfBounds
      ensures r.Ok? ==> fresh(r.value) && r.value.snapshot == arr && r.value.cursor == index
    {
      if index < 0 || index > arr.Length {
        return Throw(IndexOutOfBounds);
      }
      var it := new COWIterator(arr, index);
      return Ok(it);
    }

    method SubList(from: int, to: int) returns (r: Result<COWSubList<T>>)
      ensures r.Ok? <==> 0 <= from <= to <= |Elements()|
      ensures r.Throw? ==> r.ex == IndexOutOfBounds
      ensures r.Ok? ==> (fresh(r.value) && r.value.Valid() && r.value.list == this &&
        r.value.expectedArray == arr && r.value.offset == from && r.value.size == to - from)
    {
      if from < 0 || to > arr.Length || from > to {
        return Throw(IndexOutOfBounds);
      }
      var sub := new COWSubList(this, from, to);
      return Ok(sub);
    }
  }

  /**
   * COWIterator: a list iterator over the array that was current when it was
   * created.  `next` and `previous` move the cursor before the array access
   * that may fail, so a failed call still moves it.
   */
  class COWIterator<T> {
    const snapshot: array<T>
    var cursor: int

    constructor (elementArray: array<T>, initialCursor: int)
      ensures snapshot == elementArray && cursor == initialCursor
    {
      snapshot := elementArray;
      cursor := initialCursor;
    }

    method HasNext() returns (b: bool)
      ensures b <==> cursor < snapshot.Length
    {
      return cursor < snapshot.Length;
    }

    method HasPrevious() returns (b: bool)
      ensures b <==> cursor > 0
    {
      return cursor > 0;
    }

    method Next() returns (r: Result<T>)
      modifies this
      ensures cursor == old(cursor) + 1
      ensures r.Ok? <==> 0 <= old(cursor) < snapshot.Length
      ensures r.Ok? ==> r.value == snapshot[old(cursor)]
      ensures r.Throw? ==> r.ex == NoSuchElement
    {
      var i := cursor;
      cursor := cursor + 1;
      if 0 <= i < snapshot.Length {
        return Ok(snapshot[i]);
      }
      return Throw(NoSuchElement);
    }

    method Previous() returns (r: Result<T>)
      modifies this
      ensures cursor == old(cursor) - 1
      ensures r.Ok? <==> 0 <= cursor < snapshot.Length
      ensures r.Ok? ==> r.value == snapshot[cursor]
      ensures r.Throw? ==> r.ex == NoSuchElement
    {
      cursor := cursor - 1;
      if 0 <= cursor < snapshot.Length {
        return Ok(snapshot[cursor]);
      }
      return Throw(NoSuchElement);
    }

    method NextIndex() returns (i: int)
      ensures i == cursor
    {
      return cursor;
    }

    method PreviousIndex() returns (i: int)
      ensures i == cursor - 1
    {
      return cursor - 1;
    }

    /** `remove()` is not supported. */
    method Remove() returns (r: Result<()>)
      ensures r == Throw(UnsupportedOperation)
    {
      return Throw(UnsupportedOperation);
    }

    /** `set(o)` is not supported. */
    method Set(e: T) returns (r: Result<()>)
      ensures r == Throw(UnsupportedOperation)
    {
      return Throw(UnsupportedOperation);
    }

    /** `add(o)` is not supported. */
    method Add(e: T) returns (r: Result<()>)
      ensures r == Throw(UnsupportedOperation)
    {
      return Throw(UnsupportedOperation);
    }
  }

  /**
   * COWSubList: the slice `[offset, offset + size)` of `list`, valid while
   * `list` still holds `expectedArray`.
   */
  class COWSubList<T(0,==)> {
    const list: CopyOnWriteArrayList<T>
    const offset: int
    var size: int
    var expectedArray: array<T>

    ghost predicate Valid()
      reads this, list
    {
      0 <= offset && 0 <= size &&
      (expectedArray == list.arr ==> offset + size <= list.arr.Length)
    }

    /** The slice of the backing list, while no one else has replaced its array. */
    ghost function Elements(): seq<T>
      reads this, list, list.arr
      requires Valid() && expectedArray == list.arr
    {
      list.arr[offset..offset + size]
    }

    constructor (l: CopyOnWriteArrayList<T>, from: int, to: int)
      requires 0 <= from <= to <= l.arr.Length
      ensures Valid() && list == l && expectedArray == l.arr && offset == from && size == to - from
    {
      list := l;
      expectedArray := l.arr;
      offset := from;
      size := to - from;
    }

    /** `checkForComodification()`. */
    function CheckForComodification(): (r: Result<()>)
      reads this, list
      ensures r.Ok? <==> list.arr == expectedArray
      ensures r.Throw? ==> r.ex == ConcurrentModification
    {
      if list.arr != expectedArray then Throw(ConcurrentModification) else Ok(())
    }

    /** The sub list's own `rangeCheck(index)`. */
    function SubRangeCheck(index: int): (r: Result<()>)
      reads this
      ensures r.Ok? <==> 0 <= index < size
      ensures r.Throw? ==> r.ex == IndexOutOfBounds
    {
      if index < 0 || index >= size then Throw(IndexOutOfBounds) else Ok(())
    }

    method Set(index: int, e: T) returns (r: Result<T>)
      requires Valid()
      modifies this, list
      ensures Valid()
      ensures !(0 <= index < old(size)) ==> r == Throw(IndexOutOfBounds)
      ensures 0 <= index < old(size) && old(list.arr) != old(expectedArray) ==> r == Throw(ConcurrentModification)
      ensures r.Throw? ==> list.arr == old(list.arr) && expectedArray == old(expectedArray)
      ensures r.Ok? <==> 0 <= index < old(size) && old(list.arr) == old(expectedArray)
      ensures r.Ok? ==> (r.value == old(list.Elements())[offset + index] &&
        list.Elements() == old(list.Elements())[offset + index := e] &&
        expectedArray == list.arr && size == old(size))
    {
      var check := SubRangeCheck(index);
      if check.Throw? {
        return Throw(check.ex);
      }
      check := CheckForComodification();
      if check.Throw? {
        return Throw(check.ex);
      }
      r := list.Set(index + offset, e);
      expectedArray := list.arr;
    }

    method Get(index: int) returns (r: Result<T>)
      requires Valid()
      ensures !(0 <= index < size) ==> r == Throw(IndexOutOfBounds)
      ensures 0 <= index < size && list.arr != expectedArray ==> r == Throw(ConcurrentModification)
      ensures r.Ok? <==> 0 <= index < size && list.arr == expectedArray
      ensures r.Ok? ==> r.value == list.Elements()[offset + index]
    {
      var check := SubRangeCheck(index);
      if check.Throw? {
        return Throw(check.ex);
      }
      check := CheckForComodification();
      if check.Throw? {
        return Throw(check.ex);
      }
      r := list.Get(index + offset);
    }

    method Size() returns (r: Result<int>)
      requires Valid()
      ensures r.Ok? <==> list.arr == expectedArray
      ensures r.Ok? ==> r.value == size
      ensures r.Throw? ==> r.ex == ConcurrentModification
    {
      var check := CheckForComodification();
      if check.Throw? {
        return Throw(check.ex);
      }
      return Ok(size);
    }

    method AddAt(index: int, e: T) returns (r: Result<()>)
      requires Valid()
      modifies this, list
      ensures Valid()
      ensures old(list.arr) != old(expectedArray) ==> r == Throw(ConcurrentModification)
      ensures old(list.arr) == old(expectedArray) && !(0 <= index <= old(size)) ==> r == Throw(IndexOutOfBounds)
      ensures r.Throw? ==> list.arr == old(list.arr) && expectedArray == old(expectedArray) && size == old(size)
      ensures r.Ok? <==> old(list.arr) == old(expectedArray) && 0 <= index <= old(size)
      ensures r.Ok? ==> (list.Elements() == ListSpec.InsertAt(old(list.Elements()), offset + index, [e]) &&
        expectedArray == list.arr && size == old(size) + 1)
    {
      var check := CheckForComodification();
      if check.Throw? {
        return Throw(check.ex);
      }
      if index < 0 || index > size {
        return Throw(IndexOutOfBounds);
      }
      r := list.AddAt(index + offset, e);
      expectedArray := list.arr;
      size := size + 1;
    }

    method RemoveAt(index: int) returns (r: Result<T>)
      requires Valid()
      modifies this, list
      ensures Valid()
      ensures !(0 <= index < old(size)) ==> r == Throw(IndexOutOfBounds)
      ensures 0 <= index < old(size) && old(list.arr) != old(expectedArray) ==> r == Throw(ConcurrentModification)
      ensures r.Throw? ==> list.arr == old(list.arr) && expectedArray == old(expectedArray) && size == old(size)
      ensures r.Ok? <==> 0 <= index < old(size) && old(list.arr) == old(expectedArray)
      ensures r.Ok? ==> (r.value == old(list.Elements())[offset + index] &&
        list.Elements() == ListSpec.RemoveSlice(old(list.Elements()), offset + index, offset + index + 1) &&
        expectedArray == list.arr && size == old(size) - 1)
    {
      var check := SubRangeCheck(index);
      if check.Throw? {
        return Throw(check.ex);
      }
      check := CheckForComodification();
      if check.Throw? {
        return Throw(check.ex);
      }
      r := list.RemoveAt(index + offset);
      expectedArray := list.arr;
      size := size - 1;
    }

    /** `listIterator(index)` of a sub list: an iterator of the backing list placed at `offset + index`. */
    method ListIterator(index: int) returns (r: Result<COWSubListIterator<T>>)
      requires Valid()
      ensures list.arr != expectedArray ==> r == Throw(ConcurrentModification)
      ensures r.Ok? <==> list.arr == expectedArray && 0 <= index <= size
      ensures r.Throw? && list.arr == expectedArray ==> r.ex == IndexOutOfBounds
      ensures r.Ok? ==> (fresh(r.value) && fresh(r.value.inner) && r.value.sub == this &&
        r.value.inner.snapshot == list.arr && r.value.inner.cursor == offset + index)
    {
      var check := CheckForComodification();
      if check.Throw? {
        return Throw(check.ex);
      }
      if index < 0 || index > size {
        return Throw(IndexOutOfBounds);
      }
      var inner := list.ListIterator(index + offset);
      var it := new COWSubListIterator(this, inner.value);
      return Ok(it);
    }

    /** `iterator()` of a sub list: the list iterator at index 0. */
    method Iterator() returns (r: Result<COWSubListIterator<T>>)
      requires Valid()
      ensures r.Ok? <==> list.arr == expectedArray
      ensures r.Throw? ==> r.ex == ConcurrentModification
      ensures r.Ok? ==> (fresh(r.value) && fresh(r.value.inner) && r.value.sub == this &&
        r.value.inner.snapshot == list.arr && r.value.inner.cursor == offset)
    {
      var check := CheckForComodification();
      if check.Throw? {
        return Throw(check.ex);
      }
      var inner := list.ListIterator(offset);
      var it := new COWSubListIterator(this, inner.value);
      return Ok(it);
    }

    /**
     * `subList(fromIndex, toIndex)` of a sub list, with the `fromIndex >
     * toIndex` test the code leaves out (see SubSubListSizeAsWritten).
     */
    method SubList(from: int, to: int) returns (r: Result<COWSubList<T>>)
      requires Valid()
      ensures list.arr != expectedArray ==> r == Throw(ConcurrentModification)
      ensures r.Ok? <==> list.arr == expectedArray && 0 <= from <= to <= size
      ensures r.Throw? && list.arr == expectedArray ==> r.ex == IndexOutOfBounds
      ensures r.Ok? ==> (fresh(r.value) && r.value.Valid() && r.value.list == list &&
        r.value.expectedArray == list.arr && r.value.offset == offset + from &&
        r.value.size == to - from && r.value.Elements() == Elements()[from..to])
    {
      var check := CheckForComodification();
      if check.Throw? {
        return Throw(check.ex);
      }
      if from < 0 || to > size || from > to {
        return Throw(IndexOutOfBounds);
      }
      var sub := new COWSubList(list, from + offset, to + offset);
      return Ok(sub);
    }
  }

  /**
   * COWSubListIterator: an iterator of the backing list, bounded by the
   * sub list's current size and reporting indices relative to its offset.
   */
  class COWSubListIterator<T(0,==)> {
    const sub: COWSubList<T>
    const inner: COWIterator<T>

    constructor (s: COWSubList<T>, i: COWIterator<T>)
      ensures sub == s && inner == i
    {
      sub := s;
      inner := i;
    }

    method NextIndex() returns (i: int)
      ensures i == inner.cursor - sub.offset
    {
      i := inner.NextIndex();
      i := i - sub.offset;
    }

    method PreviousIndex() returns (i: int)
      ensures i == inner.cursor - 1 - sub.offset
    {
      i := inner.PreviousIndex();
      i := i - sub.offset;
    }

    method HasNext() returns (b: bool)
      ensures b <==> inner.cursor - sub.offset < sub.size
    {
      var i := NextIndex();
      return i < sub.size;
    }

    method HasPrevious() returns (b: bool)
      ensures b <==> inner.cursor - 1 - sub.offset >= 0
    {
      var i := PreviousIndex();
      return i >= 0;
    }

    /** `next()`: refused at the end of the sub list, otherwise the backing iterator's `next()`. */
    method Next() returns (r: Result<T>)
      modifies inner
      ensures old(inner.cursor) - sub.offset >= sub.size ==>
        r == Throw(NoSuchElement) && inner.cursor == old(inner.cursor)
      ensures old(inner.cursor) - sub.offset < sub.size ==> (
        inner.cursor == old(inner.cursor) + 1 &&
        (r.Ok? <==> 0 <= old(inner.cursor) < inner.snapshot.Length) &&
        (r.Ok? ==> r.value == inner.snapshot[old(inner.cursor)]) &&
        (r.Throw? ==> r.ex == NoSuchElement))
    {
      var b := HasNext();
      if b {
        r := inner.Next();
      } else {
        r := Throw(NoSuchElement);
      }
    }

    /** `previous()`: refused at the start of the sub list, otherwise the backing iterator's `previous()`. */
    method Previous() returns (r: Result<T>)
      modifies inner
      ensures old(inner.cursor) - 1 - sub.offset < 0 ==>
        r == Throw(NoSuchElement) && inner.cursor == old(inner.cursor)
      ensures old(inner.cursor) - 1 - sub.offset >= 0 ==> (
        inner.cursor == old(inner.cursor) - 1 &&
        (r.Ok? <==> 0 <= inner.cursor < inner.snapshot.Length) &&
        (r.Ok? ==> r.value == inner.snapshot[inner.cursor]) &&
        (r.Throw? ==> r.ex == NoSuchElement))
    {
      var b := HasPrevious();
      if b {
        r := inner.Previous();
      } else {
        r := Throw(NoSuchElement);
      }
    }

    /** `remove()` is not supported. */
    method Remove() returns (r: Result<()>)
      ensures r == Throw(UnsupportedOperation)
    {
      return Throw(UnsupportedOperation);
    }

    /** `set(o)` is not supported. */
    method Set(e: T) returns (r: Result<()>)
      ensures r == Throw(UnsupportedOperation)
    {
      return Throw(UnsupportedOperation);
    }

    /** `add(o)` is not supported. */
    method Add(e: T) returns (r: Result<()>)
      ensures r == Throw(UnsupportedOperation)
    {
      return Throw(UnsupportedOperation);
    }
  }

  /**
   * The size of the sub list `subList(from, to)` of a sub list of size
   * `size` returns, as the code is written: only `from < 0` and
   * `to > size` are refused.
   */
  function SubSubListSizeAsWritten(size: int, from: int, to: int): (r: Result<int>)
    ensures r.Ok? <==> 0 <= from && to <= size
    ensures r.Ok? ==> r.value == to - from
  {
    if from < 0 || to > size then Throw(IndexOutOfBounds) else Ok(to - from)
  }

  /** A sub list of size 3 hands out a sub list of size -1 for `subList(2, 1)`. */
  lemma SubSubListNegativeSize()
    ensures SubSubListSizeAsWritten(3, 2, 1) == Ok(-1)
  {
  }

  // ------------------------------------------------------------------
  // Facts about the reference definitions the loops above rely on.
  // ------------------------------------------------------------------

  lemma NewElementsSnoc<T>(s: seq<T>, c: seq<T>, x: T)
    ensures ListSpec.NewElements(s, c + [x]) ==
      var r := ListSpec.NewElements(s, c);
      if x in s || x in r then r else r + [x]
  {
    assert (c + [x])[..|c|] == c;
  }

  /** `NewElementsSnoc` for the prefix of `c` that grows by `c[i]`. */
  lemma NewElementsStep<T>(s: seq<T>, c: seq<T>, i: nat)
    requires i < |c|
    ensures ListSpec.NewElements(s, c[..i + 1]) ==
      var r := ListSpec.NewElements(s, c[..i]);
      if c[i] in s || c[i] in r then r else r + [c[i]]
  {
    assert c[..i + 1] == c[..i] + [c[i]];
    NewElementsSnoc(s, c[..i], c[i]);
  }

  lemma SplitThree<T>(a: seq<T>, i: int, j: int)
    requires 0 <= i <= j <= |a|
    ensures a == a[..i] + a[i..j] + a[j..]
  {
  }

  lemma {:induction false} FilterSnoc<T>(s: seq<T>, x: T, c: seq<T>, keep: bool)
    ensures ListSpec.Filter(s + [x], c, keep) ==
      ListSpec.Filter(s, c, keep) + (if (x in c) == keep then [x] else [])
  {
    if s == [] {
      assert ([] + [x])[1..] == [];
    } else {
      assert (s + [x])[1..] == s[1..] + [x];
      FilterSnoc(s[1..], x, c, keep);
    }
  }

  /** `FilterSnoc` for the prefix of `s` that grows by `s[i]`. */
  lemma FilterStep<T>(s: seq<T>, i: nat, c: seq<T>, keep: bool)
    requires i < |s|
    ensures ListSpec.Filter(s[..i + 1], c, keep) ==
      ListSpec.Filter(s[..i], c, keep) + (if (s[i] in c) == keep then [s[i]] else [])
  {
    assert s[..i + 1] == s[..i] + [s[i]];
    FilterSnoc(s[..i], s[i], c, keep);
  }

  /** The filter changes a sequence exactly when it holds an element to drop. */
  lemma {:induction false} FilterDropsExactly<T>(s: seq<T>, c: seq<T>, keep: bool)
    ensures ListSpec.Filter(s, c, keep) != s <==> exists i :: 0 <= i < |s| && (s[i] in c) != keep
  {
    if s != [] {
      FilterDropsExactly(s[1..], c, keep);
      if (s[0] in c) == keep {
        if exists i :: 0 <= i < |s[1..]| && (s[1..][i] in c) != keep {
          var i :| 0 <= i < |s[1..]| && (s[1..][i] in c) != keep;
          assert (s[i + 1] in c) != keep;
        }
        if exists i :: 0 <= i < |s| && (s[i] in c) != keep {
          var i :| 0 <= i < |s| && (s[i] in c) != keep;
          assert i > 0 && s[1..][i - 1] == s[i];
        }
      } else {
        assert (s[0] in c) != keep;
      }
    }
  }
}
