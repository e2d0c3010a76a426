/**
 * FastTable: a random-access list stored in blocks.  Up to 1024 elements
 * live in the low block `low`; beyond that, `high` holds 1024-element
 * blocks and element `i` lives at `high[i >> 10][i & 1023]` (`high[0]` is
 * always `low`).  Growth copies the low block while the capacity is below
 * 1024 (16, 32, ..., 1024) and otherwise adds one block, doubling only the
 * block table when it is full.
 *
 * For a non-negative index, Java's `i >> 10` and `i & 1023` are
 * `i / 1024` and `i % 1024`.  `nil` stands for `null`; values are compared
 * with `==` (the default value comparator on well-behaved elements).
 */
module FastTables {
  import opened JavaLang
  import ListSpec
  import UnmodifiableViews

  /** Initial capacity. */
  const C0: int := 16
  /**
   * Low block maximum capacity, and the size of every high block.  Index
   * arithmetic below writes the literal 1024 for it.
   */
  const C1: int := 1024

  class FastTable<E(==, !new)> {
    var low: array<E>
    var high: array<array?<E>>
    var capacity: int
    var size: int
    const nil: E
    /** The content of every slot of the blocks in use, slot `i` at index `i`. */
    ghost var Slots: seq<E>
    ghost var Repr: set<object>
    ghost var Blocks: seq<array<E>>

    /** The number of blocks in use. */
    ghost function BlockCount(): int
      reads this`capacity
    {
      if capacity <= C1 then 1 else capacity / 1024
    }

    /** The length every block in use has. */
    ghost function BlockLength(): int
      reads this`capacity
    {
      if capacity <= C1 then capacity else C1
    }

    /**
     * The blocks in use are distinct arrays of `BlockLength()` slots,
     * `high[0]` is `low`, and slot `i` of the table is `Slots[i]`.
     */
    ghost predicate Shape()
      reads this`low, this`high, this`capacity, this`Slots, this`Blocks, this`Repr, Repr
    {
      && high in Repr && this !in Repr && C0 <= capacity && |Slots| == capacity
      && (if capacity < C1 then capacity in {16, 32, 64, 128, 256, 512} else capacity % 1024 == 0)
      && |Blocks| == BlockCount() <= high.Length && Blocks[0] == low
      && (forall b :: 0 <= b < |Blocks| ==> Blocks[b] in Repr && Blocks[b].Length == BlockLength() && high[b] == Blocks[b])
      && (forall b :: 0 <= b < |Blocks| ==> Blocks[b] as object != high)
      && (forall b, c :: 0 <= b < c < |Blocks| ==> Blocks[b] != Blocks[c])
      && (forall b, o :: 0 <= b < |Blocks| && 0 <= o < BlockLength() ==> Blocks[b][o] == Slots[b * 1024 + o])
    }

    /** The shape holds, `size` slots are in use and every slot from `size` on is `null`. */
    ghost predicate Valid()
      reads this, Repr
    {
      Shape() && 0 <= size <= capacity && forall i :: size <= i < capacity ==> Slots[i] == nil
    }

    /** The elements of the table. */
    ghost function Elements(): (r: seq<E>)
      reads this`Slots, this`size
      requires 0 <= size <= |Slots|
      ensures |r| == size
    {
      Slots[..size]
    }

    /**
     * `FastTable()` (`capacity <= 16`) and `FastTable(capacity)`: a low block
     * of 16 slots, then `increaseCapacity` until `capacity` slots exist.
     */
    constructor (capacity: int, nil: E)
      ensures Valid() && fresh(Repr) && Elements() == []
      ensures this.capacity >= capacity && this.capacity >= C0
      ensures capacity <= C0 ==> this.capacity == C0
    {
      this.nil := nil;
      var block := new E[C0](_ => nil);
      low := block;
      high := new array?<E>[1](_ => block);
      this.capacity, size := C0, 0;
      Slots := ListSpec.Repeat(nil, C0);
      Repr := {block, high};
      Blocks := [block];
      new;
      while capacity > this.capacity
        invariant Valid() && fresh(Repr) && Elements() == [] && this.capacity >= C0
        invariant capacity <= C0 ==> this.capacity == C0
        decreases capacity - this.capacity
      {
        IncreaseCapacity();
      }
    }

    /** `FastTable()`. */
    static method Create(nil: E) returns (t: FastTable<E>)
      ensures fresh(t) && fresh(t.Repr) && t.Valid() && t.Elements() == [] && t.capacity == C0
    {
      t := new FastTable(0, nil);
    }

    /** `_high[i >> B1][i & M1] = v`: one slot is written, nothing else changes. */
    method Store(i: int, v: E)
      requires Shape() && 0 <= i < capacity
      modifies this`Slots, high[i / 1024]
      ensures Shape() && Slots == old(Slots)[i := v]
    {
      high[i / 1024][i % 1024] := v;
      Slots := Slots[i := v];
    }

    /** `_high[i >> B1][i & M1]`. */
    method Load(i: int) returns (v: E)
      requires Shape() && 0 <= i < capacity
      ensures v == Slots[i]
    {
      v := high[i / 1024][i % 1024];
    }

    /**
     * `increaseCapacity()`: below 1024 slots the low block is replaced by
     * one twice as long holding the first `size` slots; from 1024 slots on a
     * fresh block is added, the block table doubling first when it is full.
     */
    method IncreaseCapacity()
      requires Valid()
      modifies this, Repr
      ensures Valid() && fresh(Repr - old(Repr)) && size == old(size)
      ensures capacity > old(capacity) && Slots == old(Slots) + ListSpec.Repeat(nil, capacity - old(capacity))
      ensures old(capacity) < C1 ==> capacity == 2 * old(capacity) && high == old(high) && fresh(low)
      ensures old(capacity) < C1 ==> old(low) !in Repr && old(low)[..] == old(low[..])
      ensures old(capacity) >= C1 ==> capacity == old(capacity) + C1 && low == old(low)
    {
      if capacity < C1 {
        GrowLow();
      } else {
        AddBlock();
      }
    }

    /** `increaseCapacity()` below 1024 slots: the low block doubles. */
    method GrowLow()
      requires Valid() && capacity < C1
      modifies this, Repr
      ensures Valid() && fresh(Repr - old(Repr)) && size == old(size)
      ensures capacity == 2 * old(capacity) && Slots == old(Slots) + ListSpec.Repeat(nil, old(capacity))
      ensures high == old(high) && fresh(low) && old(low) !in Repr && old(low)[..] == old(low[..])
    {
      var tmp := CopyLow();
      Repr := Repr - {low} + {tmp};
      capacity := capacity * 2;
      low := tmp;
      high[0] := tmp;
      Blocks := [tmp];
      Slots := tmp[..];
    }

    /**
     * `tmp = new Object[_capacity << 1]` and the first `size` slots of the
     * low block copied into it.
     */
    method CopyLow() returns (tmp: array<E>)
      requires Valid() && capacity < C1
      ensures fresh(tmp) && tmp[..] == Slots + ListSpec.Repeat(nil, capacity)
    {
      tmp := new E[capacity * 2](_ => nil);
      ArrayCopy(low, 0, tmp, 0, size);
      forall i | 0 <= i < capacity * 2
        ensures tmp[i] == (Slots + ListSpec.Repeat(nil, capacity))[i]
      {
        assert tmp[i] == tmp[..][i];
        if i < size {
          assert low[i] == Slots[0 * 1024 + i];
        }
      }
    }

    /** `increaseCapacity()` from 1024 slots on: one more block. */
    method AddBlock()
      requires Valid() && capacity >= C1
      modifies this, Repr
      ensures Valid() && fresh(Repr - old(Repr)) && size == old(size) && low == old(low)
      ensures capacity == old(capacity) + C1 && Slots == old(Slots) + ListSpec.Repeat(nil, C1)
    {
      if capacity / 1024 >= high.Length {
        GrowHigh();
      }
      InstallBlock();
    }

    /** `_high[j] = new Object[C1]; _capacity += C1` with `j = _capacity >> B1`. */
    method InstallBlock()
      requires Valid() && capacity >= C1 && capacity / 1024 < high.Length
      modifies high, this`Repr, this`Blocks, this`capacity, this`Slots
      ensures Valid() && fresh(Repr - old(Repr))
      ensures capacity == old(capacity) + C1 && Slots == old(Slots) + ListSpec.Repeat(nil, C1)
    {
      var j := capacity / 1024;
      var block := NewBlock(C1);
      high[j] := block;
      Repr := Repr + {block};
      Blocks := Blocks + [block];
      capacity := capacity + C1;
      Slots := Slots + ListSpec.Repeat(nil, C1);
      forall b, o | 0 <= b < |Blocks| && 0 <= o < 1024
        ensures Blocks[b][o] == Slots[b * 1024 + o]
      {
        if b == j {
          assert b * 1024 + o == old(capacity) + o;
        } else {
          assert Blocks[b] == old(Blocks)[b] && b * 1024 + o < old(capacity);
        }
      }
    }

    /** `new Object[n]`: `n` slots holding `null`. */
    method NewBlock(n: nat) returns (block: array<E>)
      ensures fresh(block) && block[..] == ListSpec.Repeat(nil, n)
    {
      block := new E[n](_ => nil);
    }

    /** The block table doubles, keeping every block in use. */
    method GrowHigh()
      requires Valid() && capacity >= C1
      modifies this, Repr
      ensures Valid() && fresh(Repr - old(Repr)) && high.Length > capacity / 1024
      ensures size == old(size) && low == old(low) && capacity == old(capacity) && Slots == old(Slots)
    {
      var tmp := new array?<E>[high.Length * 2](_ => null);
      ArrayCopy(high, 0, tmp, 0, high.Length);
      forall b | 0 <= b < |Blocks| ensures tmp[b] == Blocks[b] {
        assert tmp[b] == tmp[..][b];
      }
      Repr := Repr - {high} + {tmp};
      high := tmp;
    }

    method Size() returns (n: int)
      requires Valid()
      ensures n == |Elements()|
    {
      return size;
    }

    method IsEmpty() returns (b: bool)
      requires Valid()
      ensures b <==> Elements() == []
    {
      return size == 0;
    }

    /**
     * `get(index)`: an index at or past `size` is refused; a negative one
     * fails on the array access (`ArrayIndexOutOfBoundsException`, an
     * `IndexOutOfBoundsException`).
     */
    method Get(index: int) returns (r: Result<E>)
      requires Valid()
      ensures 0 <= index < size ==> r == Ok(Elements()[index])
      ensures !(0 <= index < size) ==> r == Throw(IndexOutOfBounds)
    {
      if index >= size {
        return Throw(IndexOutOfBounds);
      }
      if index < 0 {
        return Throw(IndexOutOfBounds);
      }
      if index < C1 {
        assert low[index] == Slots[0 * 1024 + index];
        return Ok(low[index]);
      }
      var v := Load(index);
      return Ok(v);
    }

    /** `set(index, value)`: returns the value it replaces. */
    method Set(index: int, v: E) returns (r: Result<E>)
      requires Valid()
      modifies this`Slots, Repr
      ensures Valid()
      ensures 0 <= index < size ==> r == Ok(old(Elements())[index]) && Elements() == ListSpec.SetAt(old(Elements()), index, v)
      ensures !(0 <= index < size) ==> r == Throw(IndexOutOfBounds) && Elements() == old(Elements())
    {
      if index >= size {
        return Throw(IndexOutOfBounds);
      }
      if index < 0 {
        return Throw(IndexOutOfBounds);
      }
      var previous := Load(index);
      Store(index, v);
      assert Elements() == old(Elements())[index := v];
      return Ok(previous);
    }

    /** `add(o)`: appended at index `size`, growing first when the table is full. */
    method Add(o: E) returns (changed: bool)
      requires Valid()
      modifies this, Repr
      ensures Valid() && fresh(Repr - old(Repr)) && changed
      ensures Elements() == old(Elements()) + [o]
      ensures old(size) < old(capacity) ==> capacity == old(capacity)
    {
      if size >= capacity {
        IncreaseCapacity();
      }
      ghost var s := Slots;
      Store(size, o);
      size := size + 1;
      Appended(old(Elements()), s, Slots, size - 1, o);
      return true;
    }

    /** `addLast(value)`. */
    method AddLast(v: E)
      requires Valid()
      modifies this, Repr
      ensures Valid() && fresh(Repr - old(Repr))
      ensures Elements() == old(Elements()) + [v]
      ensures old(size) < old(capacity) ==> capacity == old(capacity)
    {
      var _ := Add(v);
    }

    /**
     * `shiftRight(index, shift)`: grows until `size + shift < capacity`, then
     * moves the elements from `index` on `shift` places up, last first.  The
     * slots between are left as they were.
     */
    method ShiftRight(index: int, shift: int)
      requires Valid() && 0 <= index <= size && 0 <= shift
      modifies this, Repr
      ensures Shape() && fresh(Repr - old(Repr)) && size == old(size) && size + shift < capacity
      ensures forall k :: 0 <= k < index ==> Slots[k] == old(Elements())[k]
      ensures forall k :: index + shift <= k < size + shift ==> Slots[k] == old(Elements())[k - shift]
      ensures forall k :: size + shift <= k < capacity ==> Slots[k] == nil
      ensures low != old(low) ==> old(low) !in Repr && old(low)[..] == old(low[..])
      ensures old(capacity) < C1 && capacity != old(capacity) ==> low != old(low)
    {
      GrowFor(shift);
      MoveUp(index, shift);
    }

    /** The capacity loop of `shiftRight`: `increaseCapacity()` while `size + shift >= capacity`. */
    method GrowFor(shift: int)
      requires Valid() && 0 <= shift
      modifies this, Repr
      ensures Valid() && fresh(Repr - old(Repr)) && size == old(size) && Elements() == old(Elements())
      ensures size + shift < capacity && capacity >= old(capacity)
      ensures low != old(low) ==> old(low) !in Repr && old(low)[..] == old(low[..])
      ensures old(capacity) < C1 && capacity != old(capacity) ==> low != old(low)
    {
      while size + shift >= capacity
        invariant Valid() && fresh(Repr - old(Repr)) && size == old(size) && Elements() == old(Elements())
        invariant capacity >= old(capacity)
        invariant low != old(low) ==> old(low) !in Repr && old(low)[..] == old(low[..])
        invariant old(capacity) < C1 && capacity != old(capacity) ==> low != old(low)
        decreases size + shift - capacity
      {
        IncreaseCapacity();
      }
    }

    /** The copy loop of `shiftRight`, from `i = size - 1` down to `index`. */
    method MoveUp(index: int, shift: int)
      requires Valid() && 0 <= index <= size && 0 <= shift && size + shift < capacity
      modifies this`Slots, Repr
      ensures Shape()
      ensures forall k :: 0 <= k < index ==> Slots[k] == old(Elements())[k]
      ensures forall k :: index + shift <= k < size + shift ==> Slots[k] == old(Elements())[k - shift]
      ensures forall k :: size + shift <= k < capacity ==> Slots[k] == nil
    {
      var i := size;
      while i > index
        invariant index <= i <= size && Shape() && |Slots| == |old(Slots)|
        invariant forall k :: 0 <= k < i + shift && k < |Slots| ==> Slots[k] == old(Slots)[k]
        invariant forall k :: i + shift <= k < size + shift ==> Slots[k] == old(Slots)[k - shift]
        invariant forall k :: size + shift <= k < |Slots| ==> Slots[k] == old(Slots)[k]
      {
        i := i - 1;
        var dest := i + shift;
        var x := Load(i);
        Store(dest, x);
      }
    }

    /**
     * `shiftLeft(index, shift)`: moves the elements from `index` on `shift`
     * places down, first first; the last `shift` slots before `size` keep
     * what they held.
     */
    method ShiftLeft(index: int, shift: int)
      requires Valid() && shift <= index <= size && 0 <= shift
      modifies this`Slots, Repr
      ensures Shape() && Slots == ShiftedLeft(old(Slots), index, shift, size)
    {
      var i := index;
      while i < size
        invariant index <= i <= size && Shape()
        invariant forall k :: 0 <= k < index - shift ==> Slots[k] == old(Slots)[k]
        invariant forall k :: index - shift <= k < i - shift ==> Slots[k] == old(Slots)[k + shift]
        invariant forall k :: i - shift <= k < capacity ==> Slots[k] == old(Slots)[k]
      {
        var dest := i - shift;
        var x := Load(i);
        Store(dest, x);
        i := i + 1;
      }
      ShiftedLeftPointwise(old(Slots), Slots, index, shift, size);
    }

    /** `add(index, value)`. */
    method AddAt(index: int, v: E) returns (r: Result<()>)
      requires Valid()
      modifies this, Repr
      ensures Valid() && fresh(Repr - old(Repr))
      ensures 0 <= index <= old(size) ==> r == Ok(()) && Elements() == ListSpec.InsertAt(old(Elements()), index, [v])
      ensures !(0 <= index <= old(size)) ==> r == Throw(IndexOutOfBounds) && Elements() == old(Elements())
      ensures low != old(low) ==> old(low) !in Repr && old(low)[..] == old(low[..])
      ensures 0 <= index <= old(size) && old(size) + 1 >= old(capacity) && old(capacity) < C1 ==> low != old(low)
    {
      if index < 0 || index > size {
        return Throw(IndexOutOfBounds);
      }
      ghost var e := Elements();
      ShiftRight(index, 1);
      Store(index, v);
      size := size + 1;
      ShiftedUp(e, Slots, index, [v]);
      return Ok(());
    }

    /** `addAll(index, values)`: the values written, in order, into the gap `shiftRight` opens. */
    method AddAllAt(index: int, values: seq<E>) returns (r: Result<bool>)
      requires Valid()
      modifies this, Repr
      ensures Valid() && fresh(Repr - old(Repr))
      ensures 0 <= index <= old(size) ==>
        r == Ok(|values| != 0) && Elements() == ListSpec.InsertAt(old(Elements()), index, values)
      ensures !(0 <= index <= old(size)) ==> r == Throw(IndexOutOfBounds) && Elements() == old(Elements())
    {
      if index < 0 || index > size {
        return Throw(IndexOutOfBounds);
      }
      ghost var e := Elements();
      var shift := |values|;
      ShiftRight(index, shift);
      FillGap(index, values);
      size := size + shift;
      ShiftedUp(e, Slots, index, values);
      return Ok(shift != 0);
    }

    /** The loop of `addAll(index, values)` writing the values into slots `index ..`. */
    method FillGap(index: int, values: seq<E>)
      requires Shape() && 0 <= index && index + |values| <= capacity
      modifies this`Slots, Repr
      ensures Shape() && |Slots| == |old(Slots)|
      ensures forall k :: 0 <= k < |Slots| ==>
        Slots[k] == if index <= k < index + |values| then values[k - index] else old(Slots)[k]
    {
      var i := index;
      while i < index + |values|
        invariant index <= i <= index + |values| && Shape() && |Slots| == |old(Slots)|
        invariant forall k :: 0 <= k < |Slots| ==>
          Slots[k] == if index <= k < i then values[k - index] else old(Slots)[k]
      {
        Store(i, values[i - index]);
        i := i + 1;
      }
    }

    /** `addAll(values)`: `addAll(size, values)`. */
    method AddAll(values: seq<E>) returns (changed: bool)
      requires Valid()
      modifies this, Repr
      ensures Valid() && fresh(Repr - old(Repr)) && (changed <==> values != [])
      ensures Elements() == old(Elements()) + values
    {
      var r := AddAllAt(size, values);
      assert ListSpec.InsertAt(old(Elements()), old(size), values) == old(Elements()) + values;
      return r.value;
    }

    /** `remove(index)`: `get(index)`, then the elements after it shift down and the freed slot is cleared. */
    method RemoveAt(index: int) returns (r: Result<E>)
      requires Valid()
      modifies this`Slots, this`size, Repr
      ensures Valid()
      ensures 0 <= index < old(size) ==>
        r == Ok(old(Elements())[index]) && Elements() == ListSpec.RemoveSlice(old(Elements()), index, index + 1)
      ensures !(0 <= index < old(size)) ==> r == Throw(IndexOutOfBounds) && Elements() == old(Elements())
    {
      var previous := Get(index);
      if previous.Throw? {
        return previous;
      }
      ghost var e, s0 := Elements(), Slots;
      ShiftLeft(index + 1, 1);
      ghost var s1 := Slots;
      size := size - 1;
      Store(size, nil);
      ShiftedDownOne(e, s0, s1, Slots, size, index, nil);
      return previous;
    }

    /** `removeRange(fromIndex, toIndex)`. */
    method RemoveRange(fromIndex: int, toIndex: int) returns (r: Result<()>)
      requires Valid()
      modifies this`Slots, this`size, Repr
      ensures Valid()
      ensures 0 <= fromIndex <= toIndex <= old(size) ==>
        r == Ok(()) && Elements() == ListSpec.RemoveSlice(old(Elements()), fromIndex, toIndex)
      ensures !(0 <= fromIndex <= toIndex <= old(size)) ==> r == Throw(IndexOutOfBounds) && Elements() == old(Elements())
    {
      if fromIndex < 0 || toIndex < 0 || fromIndex > toIndex || toIndex > size {
        return Throw(IndexOutOfBounds);
      }
      ghost var e, s0 := Elements(), Slots;
      var shift := toIndex - fromIndex;
      ShiftLeft(toIndex, shift);
      ghost var s1 := Slots;
      size := size - shift;
      ClearSlots(size, size + shift);
      ShiftedDown(e, s0, s1, Slots, size, fromIndex, toIndex, nil);
      return Ok(());
    }

    /** `removeLast()`. */
    method RemoveLast() returns (r: Result<E>)
      requires Valid()
      modifies this`Slots, this`size, Repr
      ensures Valid()
      ensures old(size) == 0 ==> r == Throw(NoSuchElement) && Elements() == old(Elements())
      ensures old(size) > 0 ==> r == Ok(old(Elements())[old(size) - 1]) && Elements() == old(Elements())[..old(size) - 1]
    {
      if size == 0 {
        return Throw(NoSuchElement);
      }
      size := size - 1;
      var previous := Load(size);
      Store(size, nil);
      assert Elements() == old(Elements())[..old(size) - 1];
      return Ok(previous);
    }

    /** `getFirst()`: the first slot of the low block. */
    method GetFirst() returns (r: Result<E>)
      requires Valid()
      ensures size == 0 ==> r == Throw(NoSuchElement)
      ensures size > 0 ==> r == Ok(Elements()[0])
    {
      if size == 0 {
        return Throw(NoSuchElement);
      }
      assert low[0] == Slots[0 * 1024 + 0];
      return Ok(low[0]);
    }

    /** `getLast()`: `get(size - 1)`. */
    method GetLast() returns (r: Result<E>)
      requires Valid()
      ensures size == 0 ==> r == Throw(NoSuchElement)
      ensures size > 0 ==> r == Ok(Elements()[size - 1])
    {
      if size == 0 {
        return Throw(NoSuchElement);
      }
      r := Get(size - 1);
    }

    /** `clear()`: each block in use has its first `min(size - i, 1024)` slots cleared. */
    method Clear()
      requires Valid()
      modifies this`Slots, this`size, Repr
      ensures Valid() && Elements() == []
    {
      var i := 0;
      while i < size
        invariant 0 <= i && (i < size ==> i % 1024 == 0) && Shape() && size == old(size)
        invariant forall k :: (0 <= k < i && k < size) || size <= k < capacity ==> Slots[k] == nil
      {
        var count := if size - i < C1 then size - i else C1;
        ClearSlots(i, i + count);
        i := i + C1;
      }
      size := 0;
    }

    /**
     * Slots `from .. to` set to `null`: the loop of `removeRange`, and in
     * `clear()` the copy of `NULL_BLOCK` into the front of one block.
     */
    method ClearSlots(from: int, to: int)
      requires Shape() && 0 <= from <= to <= capacity
      modifies this`Slots, Repr
      ensures Shape() && |Slots| == |old(Slots)|
      ensures forall k :: 0 <= k < |Slots| ==> Slots[k] == if from <= k < to then nil else old(Slots)[k]
    {
      var i := from;
      while i < to
        invariant from <= i <= to && Shape() && |Slots| == |old(Slots)|
        invariant forall k :: 0 <= k < |Slots| ==> Slots[k] == if from <= k < i then nil else old(Slots)[k]
      {
        Store(i, nil);
        i := i + 1;
      }
    }

    /**
     * `indexOf(o)`: block by block, each block scanned over its first
     * `min(length, size - i)` slots.
     */
    method IndexOf(o: E) returns (r: int)
      requires Valid()
      ensures r == ListSpec.IndexOf(Elements(), o)
    {
      var i := 0;
      while i < size
        invariant 0 <= i <= size && (i < size ==> i % 1024 == 0)
        invariant forall k :: 0 <= k < i ==> Slots[k] != o
      {
        var block := high[i / 1024];
        var count := if block.Length < size - i then block.Length else size - i;
        var j := 0;
        while j < count
          invariant 0 <= j <= count
          invariant forall k :: 0 <= k < i + j ==> Slots[k] != o
        {
          assert block[j] == Slots[i / 1024 * 1024 + j];
          if block[j] == o {
            ListSpec.IndexOfIsFirst(Elements(), o, i + j);
            return i + j;
          }
          j := j + 1;
        }
        i := i + count;
      }
      ListSpec.NotFoundIndexOf(Elements(), o);
      return -1;
    }

    /**
     * `lastIndexOf(o)`: from the last element down, block by block, each
     * block scanned from offset `i & 1023` down to 0.
     */
    method LastIndexOf(o: E) returns (r: int)
      requires Valid()
      ensures r == ListSpec.LastIndexOf(Elements(), o)
    {
      var i := size - 1;
      while i >= 0
        invariant -1 <= i < size
        invariant forall k :: i < k < size ==> Slots[k] != o
      {
        var block := high[i / 1024];
        var count := i % 1024 + 1;
        var j := count;
        while j > 0
          invariant 0 <= j <= count
          invariant forall k :: i - count + 1 + j <= k < size ==> Slots[k] != o
        {
          j := j - 1;
          assert block[j] == Slots[i / 1024 * 1024 + j];
          if block[j] == o {
            ListSpec.LastIndexOfIsLast(Elements(), o, i + j - count + 1);
            return i + j - count + 1;
          }
        }
        i := i - count;
      }
      ListSpec.NotFoundLastIndexOf(Elements(), o);
      return -1;
    }

    /** `contains(o)`: `indexOf(o) >= 0`. */
    method Contains(o: E) returns (b: bool)
      requires Valid()
      ensures b <==> o in Elements()
    {
      var index := IndexOf(o);
      return index >= 0;
    }

    /** `remove(o)`: the first equal element is removed. */
    method Remove(o: E) returns (changed: bool)
      requires Valid()
      modifies this`Slots, this`size, Repr
      ensures Valid()
      ensures changed <==> o in old(Elements())
      ensures changed ==> Elements() == ListSpec.RemoveSlice(old(Elements()), ListSpec.IndexOf(old(Elements()), o), ListSpec.IndexOf(old(Elements()), o) + 1)
      ensures !changed ==> Elements() == old(Elements())
    {
      var index := IndexOf(o);
      if index < 0 {
        return false;
      }
      ghost var e := Elements();
      var _ := RemoveAt(index);
      assert Elements() == ListSpec.RemoveSlice(e, index, index + 1);
      return true;
    }

    /**
     * `setSize(n)`: `null` appended while `size < n`, the last element
     * removed while `size > n`.  For a negative `n` the table is emptied and
     * the `removeLast` on the empty table throws `NoSuchElementException`.
     */
    method SetSize(n: int) returns (r: Result<()>)
      requires Valid()
      modifies this, Repr
      ensures Valid() && fresh(Repr - old(Repr))
      ensures n >= old(size) ==> r == Ok(()) && Elements() == old(Elements()) + ListSpec.Repeat(nil, n - old(size))
      ensures 0 <= n < old(size) ==> r == Ok(()) && Elements() == old(Elements())[..n]
      ensures n < 0 ==> r == Throw(NoSuchElement) && Elements() == []
    {
      ghost var e := Elements();
      while size < n
        invariant Valid() && fresh(Repr - old(Repr))
        invariant |e| <= size && (size <= n || size == |e|)
        invariant Elements() == e + ListSpec.Repeat(nil, size - |e|)
        decreases n - size
      {
        AddLast(nil);
      }
      while size > n
        invariant Valid() && fresh(Repr - old(Repr)) && n <= size
        invariant n <= |e| ==> size <= |e| && Elements() == e[..size]
        invariant n > |e| ==> size == n && Elements() == e + ListSpec.Repeat(nil, n - |e|)
      {
        var last := RemoveLast();
        if last.Throw? {
          return Throw(last.ex);
        }
      }
      return Ok(());
    }

    /** `trimToSize()`: trailing high blocks are dropped while more than 1024 slots are free. */
    method TrimToSize()
      requires Valid()
      modifies this`capacity, this`Slots, this`Blocks, high
      ensures Valid() && Elements() == old(Elements()) && Repr == old(Repr)
      ensures capacity - size <= C1 && size <= capacity <= old(capacity)
    {
      while capacity - size > C1
        invariant Valid() && Elements() == old(Elements()) && capacity <= old(capacity)
        decreases capacity
      {
        capacity := capacity - C1;
        high[capacity / 1024] := null;
        Blocks := Blocks[..|Blocks| - 1];
        Slots := Slots[..capacity];
      }
    }

    /** `writeObject`: the elements, written in index order through `get`. */
    method WriteObject() returns (out: seq<E>)
      requires Valid()
      ensures out == Elements()
    {
      out := [];
      var i := 0;
      while i < size
        invariant 0 <= i <= size && out == Elements()[..i]
      {
        var x := Get(i);
        out := out + [x.value];
        i := i + 1;
      }
    }

    /**
     * `readObject`: a table of capacity 16 (the pre-sizing loop compares the
     * capacity with the field `_size`, still 0, so it never runs) to which
     * every value read is appended with `addLast`.
     */
    static method ReadObject(values: seq<E>, nil: E) returns (t: FastTable<E>)
      ensures fresh(t) && fresh(t.Repr) && t.Valid() && t.Elements() == values
    {
      t := Create(nil);
      var i := 0;
      while i < |values|
        invariant 0 <= i <= |values| && fresh(t) && fresh(t.Repr) && t.Valid()
        invariant t.Elements() == values[..i]
      {
        t.AddLast(values[i]);
        i := i + 1;
      }
    }

    /** `FastTable(values)`: `FastTable(values.size())`, then `addAll(values)`. */
    static method CopyOf(values: seq<E>, nil: E) returns (t: FastTable<E>)
      ensures fresh(t) && fresh(t.Repr) && t.Valid() && t.Elements() == values
      ensures |values| <= t.capacity
    {
      t := new FastTable(|values|, nil);
      var _ := t.AddAll(values);
    }

    /**
     * `unmodifiable()`: a new table built from the unmodifiable view of this
     * one, that is, a separate and modifiable copy of the elements.
     */
    method Unmodifiable() returns (t: FastTable<E>)
      requires Valid()
      ensures fresh(t) && fresh(t.Repr) && t.Valid() && t.Elements() == Elements()
    {
      var values := WriteObject();
      t := CopyOf(values, nil);
    }

    /**
     * The read-only view `unmodifiable()` is documented to return: it reads
     * the table's elements, and every mutator called on it throws
     * UnsupportedOperationException and leaves it as it was.
     */
    method UnmodifiableView() returns (v: UnmodifiableViews.View<E>)
      requires Valid()
      ensures v.fc == Elements()
      ensures forall ms: seq<UnmodifiableViews.Mutation<E>> ::
        UnmodifiableViews.MutateAll(v, ms).0.fc == Elements() && |UnmodifiableViews.MutateAll(v, ms).1| == |ms|
        && forall i :: 0 <= i < |ms| ==> UnmodifiableViews.MutateAll(v, ms).1[i] == UnsupportedOperation
    {
      var values := WriteObject();
      v := UnmodifiableViews.View(values);
      forall ms: seq<UnmodifiableViews.Mutation<E>>
        ensures UnmodifiableViews.MutateAll(v, ms).0.fc == Elements() && |UnmodifiableViews.MutateAll(v, ms).1| == |ms|
        ensures forall i :: 0 <= i < |ms| ==> UnmodifiableViews.MutateAll(v, ms).1[i] == UnsupportedOperation
      {
        UnmodifiableViews.MutatorsChangeNothing(v, ms);
      }
    }

    /** `shared()`: likewise a separate copy, built from the shared view. */
    method Shared() returns (t: FastTable<E>)
      requires Valid()
      ensures fresh(t) && fresh(t.Repr) && t.Valid() && t.Elements() == Elements()
    {
      var values := WriteObject();
      t := CopyOf(values, nil);
    }

    /**
     * `sort()`: quicksort of the whole table with the value comparator
     * `cmp`, smallest first.
     */
    method Sort(cmp: (E, E) -> int)
      requires Valid() && TotalPreorder(cmp)
      modifies this`Slots, Repr
      ensures Valid() && |Elements()| == |old(Elements())|
      ensures multiset(Elements()) == multiset(old(Elements()))
      ensures SortedBetween(Elements(), 0, size, cmp)
    {
      if size > 1 {
        Quicksort(0, size - 1, cmp);
        assert Elements() == Slots[0..size - 1 + 1];
      }
    }

    /**
     * `quicksort(first, last, cmp)`: slots `first ..= last` are sorted in
     * place, and no other slot changes.
     */
    method Quicksort(first: int, last: int, cmp: (E, E) -> int)
      requires Shape() && 0 <= first <= last + 1 <= size <= capacity && TotalPreorder(cmp)
      modifies this`Slots, Repr
      ensures Shape() && SortedPermutation(old(Slots), Slots, first, last + 1, cmp)
      decreases last - first
    {
      if first < last {
        ghost var s0 := Slots;
        TotalPreorderIsReflexive(cmp);
        var p := Partition(first, last, cmp);
        ghost var s1 := Slots;
        Quicksort(first, p - 1, cmp);
        ghost var s2 := Slots;
        Quicksort(p + 1, last, cmp);
        QuicksortStep(s0, s1, s2, Slots, first, p, last, cmp);
      }
    }

    /**
     * `partition(f, l, cmp)`: the pivot `get(f)` ends at the returned index
     * with the slots before it not above it and the slots after it above
     * it.  Inside the range, `get`/`set` are plain slot accesses.
     */
    method Partition(f: int, l: int, cmp: (E, E) -> int) returns (p: int)
      requires Shape() && 0 <= f < l < capacity && Reflexive(cmp)
      modifies this`Slots, Repr
      ensures Shape() && Permuted(old(Slots), Slots, f, l + 1) && PivotAt(Slots, f, l, p, cmp)
    {
      var piv := Load(f);
      var up, down := PartitionRounds(f, l, piv, cmp);
      ghost var s := Slots;
      Swap(f, down);
      PivotPlaced(old(Slots), s, Slots, f, l, up, down, piv, cmp);
      return down;
    }

    /** The `do ... while (down > up)` loop of `partition`, from `up == f` and `down == l`. */
    method PartitionRounds(f: int, l: int, piv: E, cmp: (E, E) -> int) returns (up: int, down: int)
      requires Shape() && 0 <= f < l < capacity && Reflexive(cmp) && Slots[f] == piv
      modifies this`Slots, Repr
      ensures Shape() && Permuted(old(Slots), Slots, f, l + 1) && Split(Slots, f, l, up, down, piv, cmp) && down <= up
    {
      ghost var s0 := Slots;
      up, down := PartitionRound(s0, f, l, piv, f, l, cmp);
      while down > up
        invariant Shape() && Permuted(s0, Slots, f, l + 1) && Split(Slots, f, l, up, down, piv, cmp)
        invariant cmp(piv, piv) <= 0
        decreases down - up
      {
        up, down := PartitionRound(s0, f, l, piv, up, down, cmp);
      }
    }

    /**
     * One round of the `do ... while (down > up)` loop of `partition`: `up`
     * moves past the values not above the pivot, `down` back over the
     * values above it, and the two are swapped while `up < down`.
     */
    method PartitionRound(ghost s0: seq<E>, f: int, l: int, piv: E, up0: int, down0: int, cmp: (E, E) -> int) returns (up: int, down: int)
      requires Shape() && l < capacity && cmp(piv, piv) <= 0
      requires Permuted(s0, Slots, f, l + 1) && Split(Slots, f, l, up0, down0, piv, cmp) && up0 < down0
      modifies this`Slots, Repr
      ensures Shape() && Permuted(s0, Slots, f, l + 1) && Split(Slots, f, l, up, down, piv, cmp)
      ensures up0 < up && down <= down0
    {
      ghost var s := Slots;
      var x, y;
      up, x := ScanUp(l, piv, up0, cmp);
      down, y := ScanDown(f, piv, down0, cmp);
      if up < down {
        Swap(up, down);
      }
      RoundSplit(s, Slots, f, l, up0, down0, up, down, piv, cmp);
      RoundPermutes(s0, s, Slots, f, l, up, down);
    }

    /**
     * `temp = get(i); set(i, get(j)); set(j, temp)`, and the closing
     * `set(f, get(down)); set(down, piv)` of `partition`, where `piv` is
     * the value at `f`.
     */
    method Swap(i: int, j: int)
      requires Shape() && 0 <= i < capacity && 0 <= j < capacity
      modifies this`Slots, Repr
      ensures Shape() && Slots == old(Slots)[i := old(Slots)[j]][j := old(Slots)[i]]
    {
      var x := Load(i);
      var y := Load(j);
      Store(i, y);
      Store(j, x);
    }

    /** `while (cmp.compare(get(up), piv) <= 0 && up < l) ++up;` */
    method ScanUp(l: int, piv: E, up0: int, cmp: (E, E) -> int) returns (up: int, x: E)
      requires Shape() && 0 <= up0 < l < capacity && cmp(Slots[up0], piv) <= 0
      ensures up0 < up <= l && x == Slots[up]
      ensures forall k :: up0 <= k < up ==> cmp(Slots[k], piv) <= 0
      ensures up < l ==> cmp(x, piv) > 0
    {
      up := up0;
      x := Load(up);
      while cmp(x, piv) <= 0 && up < l
        invariant up0 <= up <= l && x == Slots[up]
        invariant forall k :: up0 <= k < up ==> cmp(Slots[k], piv) <= 0
        invariant up == up0 ==> cmp(x, piv) <= 0
        decreases l - up
      {
        up := up + 1;
        x := Load(up);
      }
    }

    /** `while (cmp.compare(get(down), piv) > 0 && down > f) --down;` */
    method ScanDown(f: int, piv: E, down0: int, cmp: (E, E) -> int) returns (down: int, y: E)
      requires Shape() && 0 <= f <= down0 < capacity && cmp(piv, piv) <= 0 && Slots[f] == piv
      ensures f <= down <= down0 && y == Slots[down] && cmp(y, piv) <= 0
      ensures forall k :: down < k <= down0 ==> cmp(Slots[k], piv) > 0
    {
      down := down0;
      y := Load(down);
      while cmp(y, piv) > 0 && down > f
        invariant f <= down <= down0 && y == Slots[down]
        invariant forall k :: down < k <= down0 ==> cmp(Slots[k], piv) > 0
        decreases down
      {
        down := down - 1;
        y := Load(down);
      }
    }

    /** `listIterator(index)`: an iterator over the whole table, positioned before `index`. */
    method ListIterator(index: int) returns (r: Result<FastTableIterator<E>>)
      requires Valid()
      ensures !(0 <= index <= size) ==> r == Throw(IndexOutOfBounds)
      ensures 0 <= index <= size ==>
        && r.Ok? && fresh(r.value) && r.value.Valid() && r.value.table == this
        && r.value.start == 0 && r.value.end == size && r.value.nextIndex == index && r.value.currentIndex == -1
    {
      if index < 0 || index > size {
        return Throw(IndexOutOfBounds);
      }
      var it := new FastTableIterator(this, index, 0, size);
      return Ok(it);
    }

    /** `iterator()` and `listIterator()`: an iterator positioned before the first element. */
    method Iterator() returns (it: FastTableIterator<E>)
      requires Valid()
      ensures fresh(it) && it.Valid() && it.table == this
      ensures it.start == 0 && it.end == size && it.nextIndex == 0 && it.currentIndex == -1
    {
      it := new FastTableIterator(this, 0, 0, size);
    }

    /** `subList(from, to)`: a view of the elements `from .. to`. */
    method SubList(from: int, to: int) returns (r: Result<SubTable<E>>)
      requires Valid()
      ensures !(0 <= from <= to <= size) ==> r == Throw(IndexOutOfBounds)
      ensures 0 <= from <= to <= size ==>
        && r.Ok? && fresh(r.value) && r.value.table == this && r.value.Valid()
        && r.value.offset + r.value.size <= size && r.value.View() == Elements()[from..to]
    {
      if from < 0 || to > size || from > to {
        return Throw(IndexOutOfBounds);
      }
      var sub := new SubTable(this, from, to - from);
      return Ok(sub);
    }

    /** `reset()`: `clear()`; the value comparator is not part of this model. */
    method Reset()
      requires Valid()
      modifies this`Slots, this`size, Repr
      ensures Valid() && Elements() == []
    {
      Clear();
    }
  }

  /**
   * `SubTable`: the view `subList` returns, `size` elements of `table` from
   * `offset` on.  Reads and `set` go to the table; insertion and deletion
   * are refused.  The view is not tied to the table's size: once the table
   * has shrunk below it, the table's own `get` refuses the index.
   */
  class SubTable<E(==, !new)> {
    const table: FastTable<E>
    const offset: int
    const size: int

    /** `SubTable.valueOf(table, offset, size)`. */
    constructor (table: FastTable<E>, offset: int, size: int)
      requires 0 <= offset && 0 <= size
      ensures this.table == table && this.offset == offset && this.size == size
    {
      this.table, this.offset, this.size := table, offset, size;
    }

    ghost predicate Valid()
      reads this, table, table.Repr
    {
      table.Valid() && 0 <= offset && 0 <= size
    }

    /** The elements of the view, while it lies inside the table. */
    ghost function View(): (v: seq<E>)
      reads this, table, table.Repr
      requires Valid() && offset + size <= table.size
      ensures |v| == size
    {
      table.Elements()[offset..offset + size]
    }

    /** The part of the view that lies inside the table. */
    ghost function Reach(): (v: seq<E>)
      reads this, table, table.Repr
      requires Valid()
    {
      var n := table.size;
      table.Elements()[if offset <= n then offset else n .. if offset + size <= n then offset + size else n]
    }

    method Size() returns (n: int)
      ensures n == size
    {
      return size;
    }

    /** `get(index)`: refused outside `0 .. size`, then `table.get(index + offset)`. */
    method Get(index: int) returns (r: Result<E>)
      requires Valid()
      ensures !(0 <= index < size && offset + index < table.size) ==> r == Throw(IndexOutOfBounds)
      ensures 0 <= index < size && offset + index < table.size ==> r == Ok(table.Elements()[offset + index])
      ensures offset + size <= table.size && 0 <= index < size ==> r == Ok(View()[index])
    {
      if index < 0 || index >= size {
        return Throw(IndexOutOfBounds);
      }
      r := table.Get(index + offset);
    }

    /** `set(index, value)`: refused outside `0 .. size`, then `table.set(index + offset, value)`. */
    method Set(index: int, v: E) returns (r: Result<E>)
      requires Valid()
      modifies table`Slots, table.Repr
      ensures Valid()
      ensures 0 <= index < size && offset + index < old(table.size) ==>
        r == Ok(old(table.Elements())[offset + index]) && table.Elements() == ListSpec.SetAt(old(table.Elements()), offset + index, v)
      ensures !(0 <= index < size && offset + index < old(table.size)) ==>
        r == Throw(IndexOutOfBounds) && table.Elements() == old(table.Elements())
    {
      if index < 0 || index >= size {
        return Throw(IndexOutOfBounds);
      }
      r := table.Set(index + offset, v);
    }

    /** `add(index, element)`: insertion is not supported. */
    method AddAt(index: int, e: E) returns (r: Result<()>)
      ensures r == Throw(UnsupportedOperation)
    {
      return Throw(UnsupportedOperation);
    }

    /** `addAll(index, values)`: insertion is not supported. */
    method AddAllAt(index: int, values: seq<E>) returns (r: Result<bool>)
      ensures r == Throw(UnsupportedOperation)
    {
      return Throw(UnsupportedOperation);
    }

    /** `remove(index)`: deletion is not supported. */
    method RemoveAt(index: int) returns (r: Result<E>)
      ensures r == Throw(UnsupportedOperation)
    {
      return Throw(UnsupportedOperation);
    }

    /** `delete(record)`: deletion is not supported. */
    method Delete(record: int) returns (r: Result<()>)
      ensures r == Throw(UnsupportedOperation)
    {
      return Throw(UnsupportedOperation);
    }

    /**
     * `indexOf(value)`: the view scanned upwards through `table.get`; the
     * scan fails on the first index past the end of the table.
     */
    method IndexOf(o: E) returns (r: Result<int>)
      requires Valid()
      ensures ListSpec.IndexOf(Reach(), o) >= 0 ==> r == Ok(ListSpec.IndexOf(Reach(), o))
      ensures ListSpec.IndexOf(Reach(), o) < 0 && offset + size <= table.size ==> r == Ok(-1)
      ensures ListSpec.IndexOf(Reach(), o) < 0 && offset + size > table.size && size > 0 ==> r == Throw(IndexOutOfBounds)
    {
      var i := 0;
      while i < size
        invariant 0 <= i <= size
        invariant i <= |Reach()|
        invariant forall k :: 0 <= k < i ==> Reach()[k] != o
      {
        var x := table.Get(i + offset);
        if x.Throw? {
          ListSpec.NotFoundIndexOf(Reach(), o);
          return Throw(x.ex);
        }
        if x.value == o {
          ListSpec.IndexOfIsFirst(Reach(), o, i);
          return Ok(i);
        }
        i := i + 1;
      }
      ListSpec.NotFoundIndexOf(Reach(), o);
      return Ok(-1);
    }

    /**
     * `lastIndexOf(value)`: the view scanned downwards through
     * `table.get`; its first access fails when the view ends past the table.
     */
    method LastIndexOf(o: E) returns (r: Result<int>)
      requires Valid()
      ensures size > 0 && offset + size > table.size ==> r == Throw(IndexOutOfBounds)
      ensures size == 0 || offset + size <= table.size ==> r == Ok(ListSpec.LastIndexOf(Reach(), o))
    {
      var i := size;
      while i > 0
        invariant 0 <= i <= size
        invariant i < size ==> offset + size <= table.size
        invariant forall k :: i <= k < size ==> Reach()[k] != o
      {
        i := i - 1;
        var x := table.Get(i + offset);
        if x.Throw? {
          return Throw(x.ex);
        }
        if x.value == o {
          ListSpec.LastIndexOfIsLast(Reach(), o, i);
          return Ok(i);
        }
      }
      ListSpec.NotFoundLastIndexOf(Reach(), o);
      return Ok(-1);
    }

    /** `listIterator(index)`: a table iterator over `offset .. offset + size`. */
    method ListIterator(index: int) returns (r: Result<FastTableIterator<E>>)
      requires Valid()
      ensures !(0 <= index <= size) ==> r == Throw(IndexOutOfBounds)
      ensures 0 <= index <= size ==>
        && r.Ok? && fresh(r.value) && r.value.table == table && r.value.nextIndex == offset + index
        && r.value.start == offset && r.value.end == offset + size && r.value.currentIndex == -1
        && (offset + size <= table.size ==> r.value.Valid())
    {
      if index >= 0 && index <= size {
        var it := new FastTableIterator(table, index + offset, offset, offset + size);
        return Ok(it);
      }
      return Throw(IndexOutOfBounds);
    }

    /** `subList(from, to)`: a sub-table of the same table, `from .. to` of this view. */
    method SubList(from: int, to: int) returns (r: Result<SubTable<E>>)
      requires Valid()
      ensures !(0 <= from <= to <= size) ==> r == Throw(IndexOutOfBounds)
      ensures 0 <= from <= to <= size ==>
        && r.Ok? && fresh(r.value) && r.value.table == table && r.value.Valid()
        && r.value.offset == offset + from && r.value.size == to - from
        && (offset + size <= table.size ==> r.value.View() == View()[from..to])
    {
      if from < 0 || to > size || from > to {
        return Throw(IndexOutOfBounds);
      }
      var sub := new SubTable(table, offset + from, to - from);
      return Ok(sub);
    }
  }

  /**
   * `FastTableIterator`: a list iterator over `start .. end` of `table`.
   * It keeps its own references to the table's `_low` and `_high` arrays,
   * taken when it was created, and reads elements through them.
   */
  class FastTableIterator<E(==, !new)> {
    const table: FastTable<E>
    var currentIndex: int
    const start: int
    var end: int
    var nextIndex: int
    var low: array<E>
    var high: array<array?<E>>

    /** `FastTableIterator.valueOf(table, nextIndex, start, end)`. */
    constructor (table: FastTable<E>, nextIndex: int, start: int, end: int)
      ensures this.table == table && this.nextIndex == nextIndex && this.start == start && this.end == end
      ensures currentIndex == -1 && low == table.low && high == table.high
    {
      this.table, this.start, this.end, this.nextIndex := table, start, end, nextIndex;
      low, high := table.low, table.high;
      currentIndex := -1;
    }

    /**
     * The positions lie inside the table, the last element returned (if any)
     * is inside `start .. end`, and the cached arrays are the table's own.
     */
    ghost predicate Valid()
      reads this, table, table.Repr
    {
      && table.Valid() && this !in table.Repr
      && 0 <= start <= nextIndex <= end <= table.size
      && (currentIndex == -1 || start <= currentIndex < end)
      && low == table.low && high == table.high
    }

    /** `i < C1 ? _low[i] : _high[i >> B1][i & M1]`, with Java's array faults. */
    method Read(i: int) returns (r: Result<E>)
      requires 0 <= i
      ensures i < C1 ==> r == if i < low.Length then Ok(low[i]) else Throw(IndexOutOfBounds)
      ensures Valid() && i < table.size ==> r == Ok(table.Elements()[i])
    {
      if i < C1 {
        if i >= low.Length {
          return Throw(IndexOutOfBounds);
        }
        return Ok(low[i]);
      }
      if i / 1024 >= high.Length {
        return Throw(IndexOutOfBounds);
      }
      var block := high[i / 1024];
      if block == null {
        return Throw(NullPointer);
      }
      if i % 1024 >= block.Length {
        return Throw(IndexOutOfBounds);
      }
      return Ok(block[i % 1024]);
    }

    method HasNext() returns (b: bool)
      ensures b <==> nextIndex != end
    {
      return nextIndex != end;
    }

    method HasPrevious() returns (b: bool)
      ensures b <==> nextIndex != start
    {
      return nextIndex != start;
    }

    method NextIndex() returns (i: int)
      ensures i == nextIndex
    {
      return nextIndex;
    }

    method PreviousIndex() returns (i: int)
      ensures i == nextIndex - 1
    {
      return nextIndex - 1;
    }

    /** `next()`: the element at `nextIndex`, read through the cached arrays. */
    method Next() returns (r: Result<E>)
      requires 0 <= start <= nextIndex <= end
      modifies this`currentIndex, this`nextIndex
      ensures old(nextIndex) == end ==> r == Throw(NoSuchElement) && unchanged(this)
      ensures old(nextIndex) < end ==> currentIndex == old(nextIndex) && nextIndex == old(nextIndex) + 1
      ensures old(nextIndex) < end && old(nextIndex) < C1 ==>
        r == if old(nextIndex) < low.Length then Ok(low[old(nextIndex)]) else Throw(IndexOutOfBounds)
      ensures old(Valid()) ==> Valid()
      ensures old(Valid()) && old(nextIndex) < end ==> r == Ok(table.Elements()[old(nextIndex)])
    {
      if nextIndex == end {
        return Throw(NoSuchElement);
      }
      var i := nextIndex;
      currentIndex, nextIndex := i, i + 1;
      r := Read(i);
    }

    /** `previous()`: the element before `nextIndex`, read through the cached arrays. */
    method Previous() returns (r: Result<E>)
      requires 0 <= start <= nextIndex <= end
      modifies this`currentIndex, this`nextIndex
      ensures old(nextIndex) == start ==> r == Throw(NoSuchElement) && unchanged(this)
      ensures old(nextIndex) > start ==> currentIndex == nextIndex == old(nextIndex) - 1
      ensures old(Valid()) ==> Valid()
      ensures old(Valid()) && old(nextIndex) > start ==> r == Ok(table.Elements()[old(nextIndex) - 1])
    {
      if nextIndex == start {
        return Throw(NoSuchElement);
      }
      nextIndex := nextIndex - 1;
      currentIndex := nextIndex;
      r := Read(nextIndex);
    }

    /** `set(o)`: replaces the element last returned; refused when there is none. */
    method Set(o: E) returns (r: Result<()>)
      requires Valid()
      modifies table`Slots, table.Repr
      ensures Valid()
      ensures currentIndex >= 0 ==> r == Ok(()) && table.Elements() == ListSpec.SetAt(old(table.Elements()), currentIndex, o)
      ensures currentIndex < 0 ==> r == Throw(IllegalState) && table.Elements() == old(table.Elements())
    {
      if currentIndex >= 0 {
        var _ := table.Set(currentIndex, o);
        return Ok(());
      }
      return Throw(IllegalState);
    }

    /** `remove()`: removes the element last returned; refused when there is none. */
    method Remove() returns (r: Result<()>)
      requires Valid()
      modifies this`currentIndex, this`end, this`nextIndex, table`Slots, table`size, table.Repr
      ensures Valid() && currentIndex == -1
      ensures old(currentIndex) >= 0 ==>
        && r == Ok(()) && table.Elements() == ListSpec.RemoveSlice(old(table.Elements()), old(currentIndex), old(currentIndex) + 1)
        && end == old(end) - 1 && nextIndex == (if old(currentIndex) < old(nextIndex) then old(nextIndex) - 1 else old(nextIndex))
      ensures old(currentIndex) < 0 ==> r == Throw(IllegalState) && table.Elements() == old(table.Elements()) && unchanged(this)
    {
      if currentIndex >= 0 {
        var _ := table.RemoveAt(currentIndex);
        end := end - 1;
        if currentIndex < nextIndex {
          nextIndex := nextIndex - 1;
        }
        currentIndex := -1;
        return Ok(());
      }
      return Throw(IllegalState);
    }

    /**
     * `add(o)` with the iterator's cached arrays taken again from the table
     * after the insertion, so that later reads see the grown table.
     */
    method Add(o: E)
      requires Valid()
      modifies this`currentIndex, this`end, this`nextIndex, this`low, this`high, table, table.Repr
      ensures Valid() && fresh(table.Repr - old(table.Repr))
      ensures table.Elements() == ListSpec.InsertAt(old(table.Elements()), old(nextIndex), [o])
      ensures nextIndex == old(nextIndex) + 1 && end == old(end) + 1 && currentIndex == -1
    {
      var _ := table.AddAt(nextIndex, o);
      nextIndex, end, currentIndex := nextIndex + 1, end + 1, -1;
      low, high := table.low, table.high;
    }

    /**
     * `add(o)` as written: `_table.add(_nextIndex++, o)` and the cached
     * arrays are kept.  When the insertion made the table copy its low
     * block, the cache still holds the old block with the old contents.
     */
    method AddAsWritten(o: E)
      requires Valid()
      modifies this`currentIndex, this`end, this`nextIndex, table, table.Repr
      ensures table.Valid() && fresh(table.Repr - old(table.Repr)) && this !in table.Repr
      ensures table.Elements() == ListSpec.InsertAt(old(table.Elements()), old(nextIndex), [o])
      ensures nextIndex == old(nextIndex) + 1 && end == old(end) + 1 && currentIndex == -1
      ensures low == old(low) && high == old(high) && 0 <= start <= nextIndex <= end
      ensures table.low == low && table.high == high ==> Valid()
      ensures table.low != low ==> low !in table.Repr && low[..] == old(low[..])
      ensures old(table.size) + 1 >= old(table.capacity) && old(table.capacity) < C1 ==> table.low != low
    {
      var _ := table.AddAt(nextIndex, o);
      nextIndex, end, currentIndex := nextIndex + 1, end + 1, -1;
    }
  }

  /** A fresh table of the 16 values 1 .. 16, added one by one: its capacity is still 16. */
  method OneToSixteen() returns (t: FastTable<int>)
    ensures fresh(t) && fresh(t.Repr) && t.Valid() && t.capacity == C0
    ensures t.Elements() == seq(16, k => k + 1)
  {
    t := FastTable<int>.Create(0);
    var i := 0;
    while i < 16
      invariant 0 <= i <= 16 && t.Valid() && fresh(t) && fresh(t.Repr) && t.capacity == C0
      invariant t.Elements() == seq(i, k => k + 1)
    {
      t.AddLast(i + 1);
      i := i + 1;
    }
  }

  /**
   * The table 1 .. 16 (capacity 16), an iterator before the first element,
   * `add(100)` through the iterator as written, then `next()`: the table
   * holds 1 at index 1, but `next()` returns 2, read from the old low block
   * the iterator still refers to.
   */
  method StaleLowBlock() returns (seen: Result<int>, actual: Result<int>)
    ensures seen == Ok(2) && actual == Ok(1)
  {
    var t := OneToSixteen();
    var it := t.Iterator();
    assert t.low[1] == t.Slots[0 * 1024 + 1];
    it.AddAsWritten(100);
    seen := it.Next();
    actual := t.Get(1);
    assert t.Elements()[1] == 1;
  }

  /** The same calls with `add` taking the arrays again: `next()` returns 1. */
  method FreshLowBlock() returns (seen: Result<int>, actual: Result<int>)
    ensures seen == Ok(1) && actual == Ok(1)
  {
    var t := OneToSixteen();
    var it := t.Iterator();
    it.Add(100);
    seen := it.Next();
    actual := t.Get(1);
    assert t.Elements()[1] == 1;
  }

  /**
   * `unmodifiable()` as written: the table it returns is a copy that accepts
   * `add`, after which it no longer reads as the table it came from.
   */
  method ModifiableCopy() returns (t: FastTable<int>, u: FastTable<int>)
    ensures t.Valid() && u.Valid() && t.Elements() == [1] && u.Elements() == [1, 2]
  {
    t := FastTable<int>.Create(0);
    t.AddLast(1);
    u := t.Unmodifiable();
    u.AddLast(2);
  }

  /**
   * The slots after `shiftRight` opened a gap of `|xs|` at `index` and the
   * gap was filled with `xs`: their first `|e| + |xs|` are `xs` inserted
   * into the elements `e`.
   */
  lemma ShiftedUp<E>(e: seq<E>, slots: seq<E>, index: int, xs: seq<E>)
    requires 0 <= index <= |e| && |e| + |xs| <= |slots|
    requires forall k :: 0 <= k < index ==> slots[k] == e[k]
    requires forall k :: index <= k < index + |xs| ==> slots[k] == xs[k - index]
    requires forall k :: index + |xs| <= k < |e| + |xs| ==> slots[k] == e[k - |xs|]
    ensures slots[..|e| + |xs|] == ListSpec.InsertAt(e, index, xs)
  {
    ListSpec.InsertAtPointwise(slots[..|e| + |xs|], e, index, xs);
  }

  /**
   * The slots `s2` after `shiftLeft(to, to - from)` turned `s0`, holding the
   * elements `e`, into `s1` and the slots from the new size `n` up to `|e|`
   * were cleared: the first `n` are `e` without its elements `from .. to`,
   * and the rest are `null`.
   */
  lemma ShiftedDown<E>(e: seq<E>, s0: seq<E>, s1: seq<E>, s2: seq<E>, n: int, from: int, to: int, nil: E)
    requires 0 <= from <= to <= |e| <= |s0| && n == |e| - (to - from) && e == s0[..|e|]
    requires |s2| == |s0|
    requires forall k :: |e| <= k < |s0| ==> s0[k] == nil
    requires s1 == ShiftedLeft(s0, to, to - from, |e|)
    requires forall k :: 0 <= k < |s2| ==> s2[k] == if n <= k < |e| then nil else s1[k]
    ensures s2[..n] == ListSpec.RemoveSlice(e, from, to)
    ensures forall k :: n <= k < |s2| ==> s2[k] == nil
  {
    ShiftedLeftAt(s0, s1, to, to - from, |e|);
    ListSpec.RemoveSlicePointwise(s2[..n], e, from, to);
  }

  /** `ShiftedDown` for one element, the freed slot cleared by a single store. */
  lemma ShiftedDownOne<E>(e: seq<E>, s0: seq<E>, s1: seq<E>, s2: seq<E>, n: int, index: int, nil: E)
    requires 0 <= index < |e| <= |s0| && n == |e| - 1 && e == s0[..|e|]
    requires forall k :: |e| <= k < |s0| ==> s0[k] == nil
    requires s1 == ShiftedLeft(s0, index + 1, 1, |e|) && s2 == s1[n := nil]
    ensures s2[..n] == ListSpec.RemoveSlice(e, index, index + 1)
    ensures forall k :: n <= k < |s2| ==> s2[k] == nil
  {
    ShiftedDown(e, s0, s1, s2, n, index, index + 1, nil);
  }

  /** Writing `o` to the first free slot appends it to the elements. */
  lemma Appended<E>(e: seq<E>, s: seq<E>, t: seq<E>, n: int, o: E)
    requires 0 <= n < |s| && s[..n] == e && t == s[n := o]
    ensures t[..n + 1] == e + [o]
  {
    assert t[..n + 1] == s[..n] + [o];
  }

  /**
   * The slots after `shiftLeft(index, shift)` over the first `n`: those
   * `index .. n` moved down by `shift`, the rest as they were.
   */
  ghost function ShiftedLeft<E>(s: seq<E>, index: int, shift: int, n: int): (r: seq<E>)
    requires 0 <= shift <= index <= n <= |s|
    ensures |r| == |s|
  {
    s[..index - shift] + s[index..n] + s[n - shift..]
  }

  lemma ShiftedLeftPointwise<E>(s: seq<E>, t: seq<E>, index: int, shift: int, n: int)
    requires 0 <= shift <= index <= n <= |s| == |t|
    requires forall k :: 0 <= k < index - shift ==> t[k] == s[k]
    requires forall k :: index - shift <= k < n - shift ==> t[k] == s[k + shift]
    requires forall k :: n - shift <= k < |s| ==> t[k] == s[k]
    ensures t == ShiftedLeft(s, index, shift, n)
  {
    var r := ShiftedLeft(s, index, shift, n);
    forall k | 0 <= k < |s|
      ensures t[k] == r[k]
    {
      assert r == s[..index - shift] + s[index..n] + s[n - shift..];
    }
  }

  lemma ShiftedLeftAt<E>(s: seq<E>, t: seq<E>, index: int, shift: int, n: int)
    requires 0 <= shift <= index <= n <= |s| && t == ShiftedLeft(s, index, shift, n)
    ensures forall k :: 0 <= k < index - shift ==> t[k] == s[k]
    ensures forall k :: index - shift <= k < n - shift ==> t[k] == s[k + shift]
    ensures forall k :: n - shift <= k < |s| ==> t[k] == s[k]
  {
    assert t == s[..index - shift] + s[index..n] + s[n - shift..];
  }

  /** `cmp` is a total preorder: any two values compare, and `<= 0` is transitive. */
  ghost predicate TotalPreorder<E(!new)>(cmp: (E, E) -> int)
  {
    && (forall a, b :: cmp(a, b) <= 0 || cmp(b, a) <= 0)
    && (forall a, b, c {:trigger cmp(a, b), cmp(b, c), cmp(a, c)} :: cmp(a, b) <= 0 && cmp(b, c) <= 0 ==> cmp(a, c) <= 0)
  }

  /**
   * The state of `partition` between rounds: the pivot at `f`, the values
   * before `up` not above it, those after `down` above it, and the value
   * at `up` (while `up < down`) or at `down` (once `down <= up`) not above it.
   */
  ghost predicate Split<E>(s: seq<E>, f: int, l: int, up: int, down: int, piv: E, cmp: (E, E) -> int)
  {
    && 0 <= f <= up <= l < |s| && f <= down <= l && s[f] == piv
    && (forall k :: f <= k < up ==> cmp(s[k], piv) <= 0)
    && (forall k :: down < k <= l ==> cmp(s[k], piv) > 0)
    && (up < down ==> cmp(s[up], piv) <= 0)
    && (down <= up ==> cmp(s[down], piv) <= 0)
  }

  /** A round of `partition` keeps `f ..= l` a permutation of `s0[f ..= l]`. */
  lemma RoundPermutes<E>(s0: seq<E>, s: seq<E>, t: seq<E>, f: int, l: int, up: int, down: int)
    requires Permuted(s0, s, f, l + 1) && f <= up <= l && f <= down <= l
    requires t == if up < down then s[up := s[down]][down := s[up]] else s
    ensures Permuted(s0, t, f, l + 1)
  {
    if up < down {
      SwapKeepsPermuted(s0, s, up, down, f, l + 1);
    }
  }

  /** Swapping two values of `s[lo..hi]` keeps it a permutation of `s0[lo..hi]`. */
  lemma SwapKeepsPermuted<E>(s0: seq<E>, s: seq<E>, i: int, j: int, lo: int, hi: int)
    requires Permuted(s0, s, lo, hi) && lo <= i < hi && lo <= j < hi
    ensures Permuted(s0, s[i := s[j]][j := s[i]], lo, hi)
  {
    SwapPermuted(s, i, j, lo, hi);
    PermutedTrans(s0, s, s[i := s[j]][j := s[i]], lo, hi);
  }

  /** What one round of `partition` leaves: the next `Split`. */
  lemma RoundSplit<E>(s: seq<E>, t: seq<E>, f: int, l: int, up0: int, down0: int, up: int, down: int, piv: E, cmp: (E, E) -> int)
    requires Split(s, f, l, up0, down0, piv, cmp) && up0 < down0
    requires up0 < up <= l && f <= down <= down0
    requires forall k :: up0 <= k < up ==> cmp(s[k], piv) <= 0
    requires up < l ==> cmp(s[up], piv) > 0
    requires cmp(s[down], piv) <= 0
    requires forall k :: down < k <= down0 ==> cmp(s[k], piv) > 0
    requires t == if up < down then s[up := s[down]][down := s[up]] else s
    ensures Split(t, f, l, up, down, piv, cmp)
  {
  }

  /**
   * The closing `set(f, get(down)); set(down, piv)` of `partition` leaves
   * the pivot at `down` with the range split around it.
   */
  lemma PivotPlaced<E>(s0: seq<E>, s: seq<E>, t: seq<E>, f: int, l: int, up: int, down: int, piv: E, cmp: (E, E) -> int)
    requires Permuted(s0, s, f, l + 1) && Split(s, f, l, up, down, piv, cmp) && down <= up
    requires t == s[f := s[down]][down := s[f]]
    ensures t[down] == piv && PivotAt(t, f, l, down, cmp)
    ensures Permuted(s0, t, f, l + 1)
  {
    SwapKeepsPermuted(s0, s, f, down, f, l + 1);
  }

  /** Every value compares `<= 0` with itself. */
  ghost predicate Reflexive<E(!new)>(cmp: (E, E) -> int)
  {
    forall a :: cmp(a, a) <= 0
  }

  lemma TotalPreorderIsReflexive<E(!new)>(cmp: (E, E) -> int)
    requires TotalPreorder(cmp)
    ensures Reflexive(cmp)
  {
    forall a
      ensures cmp(a, a) <= 0
    {
      assert cmp(a, a) <= 0 || cmp(a, a) <= 0;
    }
  }

  /** `s[lo..hi]` is ordered smallest first by `cmp`. */
  ghost predicate SortedBetween<E>(s: seq<E>, lo: int, hi: int, cmp: (E, E) -> int)
  {
    forall i, j :: lo <= i < j < hi && 0 <= i && j < |s| ==> cmp(s[i], s[j]) <= 0
  }

  /** The value at `p` splits `s[f..=l]`: none before it is above it, every one after it is. */
  ghost predicate PivotAt<E>(s: seq<E>, f: int, l: int, p: int, cmp: (E, E) -> int)
  {
    && 0 <= f <= p <= l < |s|
    && (forall k :: f <= k < p ==> cmp(s[k], s[p]) <= 0)
    && (forall k :: p < k <= l ==> cmp(s[k], s[p]) > 0)
  }

  /** `b[lo..hi]` is `a[lo..hi]` sorted, and `b` is `a` elsewhere. */
  ghost predicate SortedPermutation<E>(a: seq<E>, b: seq<E>, lo: int, hi: int, cmp: (E, E) -> int)
  {
    Permuted(a, b, lo, hi) && SortedBetween(b, lo, hi, cmp)
  }

  /** `b` agrees with `a` outside `lo..hi`, and holds the same multiset of values inside it. */
  ghost predicate Permuted<E>(a: seq<E>, b: seq<E>, lo: int, hi: int)
  {
    && |a| == |b| && 0 <= lo <= hi <= |a|
    && multiset(a[lo..hi]) == multiset(b[lo..hi])
    && forall k :: 0 <= k < |a| && !(lo <= k < hi) ==> a[k] == b[k]
  }

  lemma PermutedTrans<E>(a: seq<E>, b: seq<E>, c: seq<E>, lo: int, hi: int)
    requires Permuted(a, b, lo, hi) && Permuted(b, c, lo, hi)
    ensures Permuted(a, c, lo, hi)
  {
  }

  /** A permutation of a range is one of any wider range. */
  lemma PermutedWiden<E>(a: seq<E>, b: seq<E>, lo: int, hi: int, lo': int, hi': int)
    requires Permuted(a, b, lo, hi) && 0 <= lo' <= lo && hi <= hi' <= |a|
    ensures Permuted(a, b, lo', hi')
  {
    assert a[lo'..hi'] == a[lo'..lo] + a[lo..hi] + a[hi..hi'];
    assert b[lo'..hi'] == b[lo'..lo] + b[lo..hi] + b[hi..hi'];
    assert a[lo'..lo] == b[lo'..lo];
    assert a[hi..hi'] == b[hi..hi'];
  }

  /** Swapping two values inside `lo..hi` permutes that range. */
  lemma SwapPermuted<E>(s: seq<E>, i: int, j: int, lo: int, hi: int)
    requires 0 <= lo <= i < hi <= |s| && lo <= j < hi
    ensures Permuted(s, s[i := s[j]][j := s[i]], lo, hi)
  {
    var t := s[lo..hi];
    assert s[i := s[j]][j := s[i]][lo..hi] == t[i - lo := t[j - lo]][j - lo := t[i - lo]];
  }

  /** A property of every element of `a[lo..hi]` holds for every element of a permutation `b[lo..hi]`. */
  lemma PermutationKeeps<E>(a: seq<E>, b: seq<E>, lo: int, hi: int, P: E -> bool)
    requires 0 <= lo <= hi <= |a| && hi <= |b| && multiset(b[lo..hi]) == multiset(a[lo..hi])
    requires forall k :: lo <= k < hi ==> P(a[k])
    ensures forall k :: lo <= k < hi ==> P(b[k])
  {
    forall k | lo <= k < hi
      ensures P(b[k])
    {
      assert b[lo..hi][k - lo] == b[k];
      assert b[k] in multiset(a[lo..hi]);
      var n :| 0 <= n < hi - lo && a[lo..hi][n] == b[k];
      assert a[lo + n] == b[k];
    }
  }

  /**
   * Two sorted runs either side of a pivot, the left one not above it and
   * the right one above it, make one sorted run.
   */
  lemma SortedAroundPivot<E(!new)>(s: seq<E>, first: int, p: int, last: int, cmp: (E, E) -> int)
    requires TotalPreorder(cmp) && 0 <= first <= p <= last < |s|
    requires forall k :: first <= k < p ==> cmp(s[k], s[p]) <= 0
    requires forall k :: p < k <= last ==> cmp(s[k], s[p]) > 0
    requires SortedBetween(s, first, p, cmp) && SortedBetween(s, p + 1, last + 1, cmp)
    ensures SortedBetween(s, first, last + 1, cmp)
  {
    forall i, j | first <= i < j < last + 1
      ensures cmp(s[i], s[j]) <= 0
    {
      if j < p || i > p || j == p {
      } else {
        assert cmp(s[p], s[j]) <= 0;
      }
    }
  }

  /**
   * After a partition around the pivot at `p` (`s0` to `s1`) and the sorting
   * of both sides (`s1` to `s2` to `s3`), `first ..= last` is a sorted
   * permutation of what it was in `s0`.
   */
  lemma {:induction false} QuicksortStep<E(!new)>(s0: seq<E>, s1: seq<E>, s2: seq<E>, s3: seq<E>, first: int, p: int, last: int, cmp: (E, E) -> int)
    requires TotalPreorder(cmp) && 0 <= first <= p <= last < |s0|
    requires Permuted(s0, s1, first, last + 1) && PivotAt(s1, first, last, p, cmp)
    requires SortedPermutation(s1, s2, first, p - 1 + 1, cmp)
    requires SortedPermutation(s2, s3, p + 1, last + 1, cmp)
    ensures SortedPermutation(s0, s3, first, last + 1, cmp)
  {
    var piv := s1[p];
    assert s3[p] == piv && s2[p] == piv;
    PermutationKeeps(s1, s2, first, p, x => cmp(x, piv) <= 0);
    PermutationKeeps(s2, s3, p + 1, last + 1, x => cmp(x, piv) > 0);
    assert forall k :: first <= k < p ==> s3[k] == s2[k];
    assert forall k :: p < k <= last ==> s2[k] == s1[k];
    SortedAroundPivot(s3, first, p, last, cmp);
    PermutedParts(s0, s1, s2, s3, first, p, last);
  }

  /** Permuting `first..last`, then its part before `p`, then its part after `p`, permutes `first..last`. */
  lemma PermutedParts<E>(s0: seq<E>, s1: seq<E>, s2: seq<E>, s3: seq<E>, first: int, p: int, last: int)
    requires 0 <= first <= p <= last < |s0|
    requires Permuted(s0, s1, first, last + 1) && Permuted(s1, s2, first, p) && Permuted(s2, s3, p + 1, last + 1)
    ensures Permuted(s0, s3, first, last + 1)
  {
    PermutedWiden(s1, s2, first, p, first, last + 1);
    PermutedWiden(s2, s3, p + 1, last + 1, first, last + 1);
    PermutedTrans(s0, s1, s2, first, last + 1);
    PermutedTrans(s0, s2, s3, first, last + 1);
  }
}
