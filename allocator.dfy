/**
 * javolution.context.Allocator: a LIFO queue of recycled objects that `next`
 * serves from before falling back to allocating a new one.
 */
module ContextAllocator {

  /**
   * `T` stands for the Java reference type, and `nil` for the `null` a
   * fresh `Object[]` is filled with.
   */
  class Allocator<T> {
    const nil: T
    var queue: array<T>
    var queueSize: int

    ghost predicate Valid()
      reads this
    {
      0 <= queueSize <= queue.Length
    }

    /** The recycled objects, oldest first; `next` serves the last one. */
    ghost function Queued(): seq<T>
      reads this, queue
      requires Valid()
    {
      queue[..queueSize]
    }

    constructor (nil: T)
      ensures Valid() && fresh(queue) && this.nil == nil
      ensures queue.Length == 16 && queueSize == 0 && Queued() == []
      ensures forall i :: 0 <= i < queue.Length ==> queue[i] == nil
    {
      this.nil := nil;
      queue := new T[16](_ => nil);
      queueSize := 0;
    }

    /**
     * `next()`.  The abstract `allocate()` is outside the class: `newObject`
     * is the object it would return, used only when the queue is empty.
     */
    method Next(newObject: T) returns (r: T)
      requires Valid()
      modifies this`queueSize
      ensures Valid() && queue == old(queue)
      ensures old(queueSize) > 0 ==>
        r == queue[old(queueSize) - 1] && queueSize == old(queueSize) - 1 &&
        Queued() == old(Queued())[..old(queueSize) - 1]
      ensures old(queueSize) == 0 ==> r == newObject && queueSize == 0
    {
      if queueSize > 0 {
        queueSize := queueSize - 1;
        r := queue[queueSize];
      } else {
        r := newObject;
      }
    }

    /** `resize()`: a queue twice as long holding the same objects at the same indices. */
    method Resize()
      requires Valid()
      modifies this`queue
      ensures Valid() && fresh(queue)
      ensures queue.Length == 2 * old(queue.Length)
      ensures queue[..old(queue.Length)] == old(queue[..])
      ensures forall i :: old(queue.Length) <= i < queue.Length ==> queue[i] == nil
      ensures Queued() == old(Queued())
    {
      var tmp := new T[2 * queue.Length](_ => nil);
      ghost var was := queue[..];
      var i := 0;
      while i < queue.Length
        invariant queue == old(queue) && 0 <= i <= queue.Length && tmp.Length == 2 * queue.Length
        invariant tmp[..i] == queue[..i]
        invariant forall j :: queue.Length <= j < tmp.Length ==> tmp[j] == nil
      {
        tmp[i] := queue[i];
        i := i + 1;
      }
      assert tmp[..queue.Length] == queue[..] == was;
      queue := tmp;
    }
  }
}
