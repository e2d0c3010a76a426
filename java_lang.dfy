/**
 * The few pieces of the Java platform the collections rely on: unchecked
 * and I/O exceptions (as a result type), 32-bit integer wrap-around and powers of two.
 */
module JavaLang {

  /** Exceptions thrown by the modelled collections; `EndOfFile` is the `EOFException` of a truncated stream. */
  datatype Exception =
    | IndexOutOfBounds
    | NoSuchElement
    | UnsupportedOperation
    | IllegalState
    | ConcurrentModification
    | IllegalArgument
    | NullPointer
    | NegativeArraySize
    | EndOfFile

  /** Outcome of a Java call that may throw. */
  datatype Result<T> = Ok(value: T) | Throw(ex: Exception)

  datatype Option<T> = None | Some(value: T)

  const TWO31: int := 0x8000_0000
  const TWO32: int := 0x1_0000_0000

  predicate IsInt32(x: int) { -TWO31 <= x < TWO31 }

  /** A Java `int`. */
  type Int32 = x: int | -0x8000_0000 <= x < 0x8000_0000

  /** A Java `char`. */
  type Char16 = c: int | 0 <= c < 0x1_0000

  /** The Java `int` that an exact integer wraps to. */
  function Wrap32(x: int): (r: Int32)
    ensures (x - r) % TWO32 == 0
  {
    (x + TWO31) % TWO32 - TWO31
  }

  lemma Wrap32Congruent(a: int, b: int)
    requires (a - b) % TWO32 == 0
    ensures Wrap32(a) == Wrap32(b)
  {
    var k := (a - b) / TWO32;
    assert a + TWO31 == (b + TWO31) + k * TWO32;
  }

  /** Wrapping an intermediate result does not change a wrapped `m * x + c`. */
  lemma Wrap32MulAdd(x: int, m: int, c: int)
    ensures Wrap32(m * Wrap32(x) + c) == Wrap32(m * x + c)
  {
    var w := Wrap32(x);
    var k := (x - w) / TWO32;
    assert x - w == k * TWO32;
    assert (m * x + c) - (m * w + c) == (m * k) * TWO32;
    Wrap32Congruent(m * x + c, m * w + c);
  }

  /** Wrapping the left operand first does not change a wrapped sum. */
  lemma Wrap32Add(x: int, c: int)
    ensures Wrap32(Wrap32(x) + c) == Wrap32(x + c)
  {
    Wrap32MulAdd(x, 1, c);
  }

  /** Adding to a wrapped sum keeps it the wrap of the exact sum. */
  lemma Wrap32Step(h: int, s: int, c: int)
    requires h == Wrap32(s)
    ensures Wrap32(h + c) == Wrap32(s + c)
  {
    Wrap32Add(s, c);
  }

  function Pow2(n: nat): (r: nat)
    ensures r >= 1
  {
    if n == 0 then 1 else 2 * Pow2(n - 1)
  }

  lemma {:induction false} Pow2Add(a: nat, b: nat)
    ensures Pow2(a + b) == Pow2(a) * Pow2(b)
  {
    if a > 0 {
      Pow2Add(a - 1, b);
    }
  }

  /**
   * System.arraycopy: `n` elements of `src` from `srcPos` land in `dst` from
   * `dstPos`, as if copied through a temporary array (so `src` may be `dst`).
   */
  method ArrayCopy<T>(src: array<T>, srcPos: nat, dst: array<T>, dstPos: nat, n: nat)
    requires srcPos + n <= src.Length && dstPos + n <= dst.Length
    modifies dst
    ensures dst[..] == old(dst[..dstPos]) + old(src[srcPos..srcPos + n]) + old(dst[dstPos + n..])
  {
    ghost var s := src[..];
    ghost var d := dst[..];
    if src != dst || dstPos <= srcPos {
      CopyUp(src, srcPos, dst, dstPos, n);
    } else {
      CopyDown(src, srcPos, dst, dstPos, n);
    }
    Splice(dst[..], d, s, dstPos, srcPos, n);
  }

  /** A sequence that agrees with a splice at every index is that splice. */
  lemma Splice<T>(r: seq<T>, d: seq<T>, s: seq<T>, dstPos: nat, srcPos: nat, n: nat)
    requires |r| == |d| && dstPos + n <= |d| && srcPos + n <= |s|
    requires forall k :: 0 <= k < |r| ==>
      r[k] == if dstPos <= k < dstPos + n then s[srcPos + k - dstPos] else d[k]
    ensures r == d[..dstPos] + s[srcPos..srcPos + n] + d[dstPos + n..]
  {
    var a, b, c := d[..dstPos], s[srcPos..srcPos + n], d[dstPos + n..];
    var t := a + b + c;
    assert |t| == |r|;
    forall k | 0 <= k < |r|
      ensures r[k] == t[k]
    {
      if k < dstPos {
        assert t[k] == a[k];
      } else if k < dstPos + n {
        assert t[k] == b[k - dstPos];
      } else {
        assert t[k] == c[k - dstPos - n];
      }
    }
  }

  method CopyUp<T>(src: array<T>, srcPos: nat, dst: array<T>, dstPos: nat, n: nat)
    requires srcPos + n <= src.Length && dstPos + n <= dst.Length
    requires src != dst || dstPos <= srcPos
    modifies dst
    ensures forall k :: 0 <= k < dst.Length ==>
      dst[k] == if dstPos <= k < dstPos + n then old(src[srcPos + k - dstPos]) else old(dst[k])
  {
    ghost var s := src[..];
    ghost var d := dst[..];
    var i := 0;
    while i < n
      invariant 0 <= i <= n
      invariant forall k {:trigger dst[k]} :: 0 <= k < dst.Length ==>
        dst[k] == if dstPos <= k < dstPos + i then s[srcPos + k - dstPos] else d[k]
      invariant src != dst ==> src[..] == s
    {
      dst[dstPos + i] := src[srcPos + i];
      i := i + 1;
    }
  }

  method CopyDown<T>(src: array<T>, srcPos: nat, dst: array<T>, dstPos: nat, n: nat)
    requires srcPos + n <= src.Length && dstPos + n <= dst.Length
    requires src == dst && srcPos < dstPos
    modifies dst
    ensures forall k :: 0 <= k < dst.Length ==>
      dst[k] == if dstPos <= k < dstPos + n then old(src[srcPos + k - dstPos]) else old(dst[k])
  {
    ghost var d := dst[..];
    var i := n;
    while i > 0
      invariant 0 <= i <= n
      invariant forall k {:trigger dst[k]} :: 0 <= k < dst.Length ==>
        dst[k] == if dstPos + i <= k < dstPos + n then d[srcPos + k - dstPos] else d[k]
    {
      i := i - 1;
      dst[dstPos + i] := src[srcPos + i];
    }
  }
}
