/**
 * javolution.util.FastBitSet: a set of non-negative integers kept as a table
 * of 64-bit words.  Only the first `length` words are live; a word at or above
 * `length` reads as zero whatever the array holds there.  Membership, set
 * algebra, counting and searching are stated on the live words through
 * `BitWords.In`.
 */
module BitSets {
  import opened JavaLang
  import opened BitWords

  // ------------------------------------------------------------------
  // Sizes
  // ------------------------------------------------------------------

  /** `(bitSize - 1 >> 6) + 1`, the word count `new FastBitSet(bitSize)` allocates. */
  function InitialWords(bitSize: int): (r: int)
    requires IsInt32(bitSize)
    ensures 1 <= bitSize ==> 1 <= r && 64 * (r - 1) < bitSize <= 64 * r
    ensures -63 <= bitSize <= 0 ==> r == 0
    ensures -TWO31 < bitSize < -63 ==> r < 0
    ensures bitSize == -TWO31 ==> r == 0x200_0000
  {
    Wrap32(bitSize - 1) / 64 + 1
  }

  /**
   * The array length `setLength` grows to: the capacity doubled until it
   * holds `n` words, starting from at least one word.
   */
  function GrownLength(c: nat, n: nat): (r: nat)
    requires 1 <= c
    ensures n <= r && c <= r
    ensures c < n ==> r < 2 * n
    decreases n - c
  {
    if n <= c then c else GrownLength(2 * c, n)
  }

  /**
   * The doubling loop of `setLength` as written, run for at most `fuel`
   * rounds: `None` when it has not finished by then.
   */
  function DoubledAsWritten(c: nat, n: nat, fuel: nat): (r: Option<nat>)
    ensures r.Some? ==> n <= r.value
    decreases fuel
  {
    if n <= c then Some(c) else if fuel == 0 then None else DoubledAsWritten(2 * c, n, fuel - 1)
  }

  /** From an empty array the doubling loop never ends, however long it runs. */
  lemma {:induction false} DoublingFromEmpty(n: nat, fuel: nat)
    requires 1 <= n
    ensures DoubledAsWritten(0, n, fuel) == None
  {
    if fuel > 0 {
      DoublingFromEmpty(n, fuel - 1);
    }
  }

  // ------------------------------------------------------------------
  // What the mutators do to the live words
  // ------------------------------------------------------------------

  /** `set(b)`: grow to reach word `b / 64`, then set the bit. */
  function Added(words: seq<bv64>, b: nat): (r: seq<bv64>)
    ensures |r| == if |words| <= b / 64 then b / 64 + 1 else |words|
  {
    SetWords(Widened(words, b / 64 + 1), b)
  }

  /** `clear(b)`: a bit in a word beyond the live ones is already clear. */
  function Removed(words: seq<bv64>, b: nat): (r: seq<bv64>)
    ensures |r| == |words|
  {
    if b / 64 < |words| then ClearWords(words, b) else words
  }

  /** `flip(b)`, growing (never shrinking) to reach word `b / 64`. */
  function Flipped(words: seq<bv64>, b: nat): (r: seq<bv64>)
    ensures |r| == if |words| <= b / 64 then b / 64 + 1 else |words|
  {
    FlipWords(Widened(words, b / 64 + 1), b)
  }

  /** `set(from, to)`, growing (never shrinking) to reach word `to / 64`. */
  function RangeAdded(words: seq<bv64>, from: nat, to: nat): (r: seq<bv64>)
    ensures |r| == if |words| <= to / 64 then to / 64 + 1 else |words|
  {
    OrRangeWords(Widened(words, to / 64 + 1), from, to)
  }

  /** `flip(from, to)`, growing (never shrinking) to reach word `to / 64`. */
  function RangeFlipped(words: seq<bv64>, from: nat, to: nat): (r: seq<bv64>)
    ensures |r| == if |words| <= to / 64 then to / 64 + 1 else |words|
  {
    XorRangeWords(Widened(words, to / 64 + 1), from, to)
  }

  /** `set(b)` adds `b` and nothing else. */
  lemma AddedIn(words: seq<bv64>, b: nat, c: int)
    ensures In(Added(words, b), c) <==> In(words, c) || c == b
  {
    SetWordsIn(Widened(words, b / 64 + 1), b, c);
    WidenedIn(words, b / 64 + 1, c);
  }

  /** `clear(b)` removes `b` and nothing else. */
  lemma RemovedIn(words: seq<bv64>, b: nat, c: int)
    ensures In(Removed(words, b), c) <==> In(words, c) && c != b
  {
    if b / 64 < |words| {
      ClearWordsIn(words, b, c);
    } else if c == b {
      Beyond(words, b);
    }
  }

  /** `flip(b)` toggles `b` and nothing else. */
  lemma FlippedIn(words: seq<bv64>, b: nat, c: int)
    ensures In(Flipped(words, b), c) <==> In(words, c) != (c == b)
  {
    FlipWordsIn(Widened(words, b / 64 + 1), b, c);
    WidenedIn(words, b / 64 + 1, c);
  }

  /** `set(from, to)` adds exactly the indices in `[from, to)`. */
  lemma RangeAddedIn(words: seq<bv64>, from: nat, to: nat, c: int)
    ensures In(RangeAdded(words, from, to), c) <==> In(words, c) || from <= c < to
  {
    var v := Widened(words, to / 64 + 1);
    OrRangeWordsIn(v, from, to, c);
    WidenedIn(words, to / 64 + 1, c);
    assert c < to ==> c < 64 * |v|;
  }

  /** `flip(from, to)` toggles exactly the indices in `[from, to)`. */
  lemma RangeFlippedIn(words: seq<bv64>, from: nat, to: nat, c: int)
    ensures In(RangeFlipped(words, from, to), c) <==> In(words, c) != (from <= c < to)
  {
    var v := Widened(words, to / 64 + 1);
    XorRangeWordsIn(v, from, to, c);
    WidenedIn(words, to / 64 + 1, c);
    assert c < to ==> c < 64 * |v|;
  }

  // ------------------------------------------------------------------
  // The code as written, where it differs from what it documents
  // ------------------------------------------------------------------

  /** `flip(b)` as written: `setLength(b / 64 + 1)` also shrinks the live words. */
  function FlippedAsWritten(words: seq<bv64>, b: nat): (r: seq<bv64>)
    ensures |r| == b / 64 + 1
  {
    FlipWords(Resized(words, b / 64 + 1), b)
  }

  /** `set(from, to)` as written: `setLength(to / 64 + 1)` also shrinks the live words. */
  function RangeAddedAsWritten(words: seq<bv64>, from: nat, to: nat): (r: seq<bv64>)
    ensures |r| == to / 64 + 1
  {
    OrRangeWords(Resized(words, to / 64 + 1), from, to)
  }

  /** `flip(from, to)` as written: `setLength(to / 64 + 1)` also shrinks the live words. */
  function RangeFlippedAsWritten(words: seq<bv64>, from: nat, to: nat): (r: seq<bv64>)
    ensures |r| == to / 64 + 1
  {
    XorRangeWords(Resized(words, to / 64 + 1), from, to)
  }

  /**
   * On the set {64}, `flip(0)`, `set(0, 1)` and `flip(0, 1)` as written lose
   * the member 64, where the intended operations keep it.
   */
  lemma ShrinkingDropsMembers()
    ensures In([0, 1], 64)
    ensures !In(FlippedAsWritten([0, 1], 0), 64) && In(Flipped([0, 1], 0), 64)
    ensures !In(RangeAddedAsWritten([0, 1], 0, 1), 64) && In(RangeAdded([0, 1], 0, 1), 64)
    ensures !In(RangeFlippedAsWritten([0, 1], 0, 1), 64) && In(RangeFlipped([0, 1], 0, 1), 64)
  {
    var w: seq<bv64> := [0, 1];
    assert At(w, 1) == 1;
    InPos(w, 64, 0);
    BitOne();
    Beyond(FlippedAsWritten(w, 0), 64);
    Beyond(RangeAddedAsWritten(w, 0, 1), 64);
    Beyond(RangeFlippedAsWritten(w, 0, 1), 64);
    FlippedIn(w, 0, 64);
    RangeAddedIn(w, 0, 1, 64);
    RangeFlippedIn(w, 0, 1, 64);
  }

  /** Java's `x << d` on an `int`: the shift distance taken modulo 32, the result wrapped. */
  function ShlInt(x: int, d: int): (r: Int32)
    ensures 0 <= d % 32 < 32
  {
    Wrap32(x * Pow2(d % 32))
  }

  /**
   * `length()` as written on the first `n` live words: for the highest
   * non-zero word `i`, `i << 6 + 64 - numberOfTrailingZeros(l)`, which Java
   * parses as `i << (70 - numberOfTrailingZeros(l))`.
   */
  function LengthAsWritten(words: seq<bv64>, n: nat): (r: Int32)
    requires n <= |words|
  {
    if n == 0 then 0
    else if words[n - 1] != 0 then ShlInt(n - 1, 70 - TrailingZeros(words[n - 1]))
    else LengthAsWritten(words, n - 1)
  }

  /** On the set {0}, `length()` as written is 0, though the highest member plus one is 1. */
  lemma LengthMissesLowWord()
    ensures In([1], 0) && HighestPlusOne([1], 64) == 1
    ensures LengthAsWritten([1], 1) == 0
  {
    var w: seq<bv64> := [1];
    InPos(w, 0, 0);
    BitOne();
    HighestIs(w, 64, 1);
  }

  /**
   * The loop of `hashCode` as written, `i = nextSetBit(i)`, run for at most
   * `fuel` rounds from index `i` with sum `h`: `None` when it has not ended.
   */
  function HashAsWritten(words: seq<bv64>, i: int, h: int, fuel: nat): (r: Option<int>)
    decreases fuel
  {
    if i < 0 then Some(h)
    else if fuel == 0 then None
    else HashAsWritten(words, NextSet(words, i), Wrap32(h + i), fuel - 1)
  }

  /** Once the loop as written reaches a member it stays there: it never ends on a non-empty set. */
  lemma {:induction false} HashNeverEnds(words: seq<bv64>, i: int, h: int, fuel: nat)
    requires In(words, i)
    ensures HashAsWritten(words, i, h, fuel) == None
    decreases fuel
  {
    if fuel > 0 {
      NextSetIs(words, i, i);
      HashNeverEnds(words, i, Wrap32(h + i), fuel - 1);
    }
  }

  /** The members of `get(from, to)`: the first `n` live words, cleared below `from` and from `to`. */
  lemma {:induction false} SliceIn(words: seq<bv64>, n: nat, from: nat, to: nat, s: seq<bv64>, b: int)
    requires n <= |words| && (n == |words| || to < 64 * n) && from <= to
    requires s == (if to < 64 * n then AndKeepWords(AndKeepWords(words[..n], 0, from), to, 64 * n)
      else AndKeepWords(words[..n], 0, from))
    ensures In(s, b) <==> In(words, b) && from <= b < to
  {
    var v := words[..n];
    assert v == Resized(words, n);
    ResizedIn(words, n, b);
    AndKeepWordsIn(v, 0, from, b);
    if to < 64 * n {
      AndKeepWordsIn(AndKeepWords(v, 0, from), to, 64 * n, b);
    } else if In(words, b) {
      BeyondWordsContra(words, b);
    }
  }

  // ------------------------------------------------------------------
  // The bit set
  // ------------------------------------------------------------------

  /** The members below the first one sum to zero. */
  lemma SumStart(words: seq<bv64>, i: int)
    requires i == NextSet(words, 0)
    ensures i == -1 || (0 <= i < 64 * |words| && In(words, i))
    ensures SumBelow(words, if i < 0 then 64 * |words| else i) == 0
  {
    if i < 0 {
      SumGap(words, 0, 64 * |words|);
    } else {
      BeyondWordsContra(words, i);
      SumGap(words, 0, i);
    }
  }

  /** Moving from one member to the next adds the first to the sum. */
  lemma SumNext(words: seq<bv64>, i: int, j: int)
    requires 0 <= i && In(words, i) && j == NextSet(words, i + 1)
    ensures j == -1 || (i < j < 64 * |words| && In(words, j))
    ensures SumBelow(words, if j < 0 then 64 * |words| else j) == SumBelow(words, i) + i
  {
    if j >= 0 {
      BeyondWordsContra(words, j);
    }
    SumGap(words, i + 1, if j < 0 then 64 * |words| else j);
    SumStep(words, i);
  }

  class FastBitSet {
    /** The words; index `b` is bit `b % 64` of word `b / 64`. */
    var bits: array<bv64>
    /** The number of live words (`_length`). */
    var length: int

    ghost predicate Valid()
      reads this
    {
      0 <= length <= bits.Length
    }

    /** The live words. */
    ghost function Words(): seq<bv64>
      reads this, bits
      requires Valid()
    {
      bits[..length]
    }

    /** `new FastBitSet()`, that is `new FastBitSet(64)`: one clear live word. */
    constructor ()
      ensures Valid() && fresh(bits) && bits.Length == 1 && Words() == [0]
    {
      bits := new bv64[1](_ => 0);
      length := 1;
    }

    /** A set of `n` clear live words in an array of exactly `n` words. */
    constructor OfWords(n: nat)
      ensures Valid() && fresh(bits) && bits.Length == n && Words() == seq(n, _ => 0 as bv64)
    {
      bits := new bv64[n](_ => 0);
      length := n;
    }

    /**
     * `new FastBitSet(bitSize)`: `InitialWords(bitSize)` clear words, or a
     * `NegativeArraySizeException` when that count is negative.
     */
    static method Create(bitSize: int) returns (r: Result<FastBitSet>)
      requires IsInt32(bitSize)
      ensures r.Throw? <==> InitialWords(bitSize) < 0
      ensures r.Throw? ==> r.ex == NegativeArraySize
      ensures r.Ok? ==> (fresh(r.value) && fresh(r.value.bits) && r.value.Valid() &&
        r.value.Words() == seq(InitialWords(bitSize), _ => 0 as bv64))
    {
      var n := InitialWords(bitSize);
      if n < 0 {
        return Throw(NegativeArraySize);
      }
      var s := new FastBitSet.OfWords(n);
      r := Ok(s);
    }

    /**
     * `setLength(n)`: keeps the first `n` live words and zero-fills new ones;
     * a too-small array is replaced by one whose length is doubled until it
     * holds `n` words, counting an empty array as one word.
     */
    method SetLength(n: nat)
      requires Valid()
      modifies this, bits
      ensures Valid() && Words() == Resized(old(Words()), n)
      ensures n <= old(bits.Length) ==> bits == old(bits)
      ensures old(bits.Length) < n ==> (fresh(bits) &&
        bits.Length == GrownLength(if old(bits.Length) == 0 then 1 else old(bits.Length), n))
    {
      ghost var w := Words();
      var a := bits;
      if a.Length < n {
        a := GrowArray(a, length, n);
      }
      ZeroFill(a, length, n);
      forall q | 0 <= q < n
        ensures a[q] == At(w, q)
      {
        if q < length {
          assert a[q] == a[..length][q];
        }
      }
      assert a[..n] == Resized(w, n);
      bits := a;
      length := n;
    }

    /**
     * The array `setLength` moves to: twice as long, again and again, until it
     * holds `n` words, with the `live` words copied over.
     */
    static method GrowArray(a: array<bv64>, live: nat, n: nat) returns (tmp: array<bv64>)
      requires live <= a.Length < n
      ensures fresh(tmp) && tmp.Length == GrownLength(if a.Length == 0 then 1 else a.Length, n)
      ensures tmp[..live] == a[..live]
    {
      var len := if a.Length == 0 then 1 else a.Length;
      ghost var target := GrownLength(len, n);
      while len < n
        invariant 1 <= len && GrownLength(len, n) == target
        decreases n - len
      {
        len := 2 * len;
      }
      tmp := new bv64[len](_ => 0);
      ArrayCopy(a, 0, tmp, 0, live);
    }

    /** The zero-filling loop of `setLength`: words `live` to `n` become zero. */
    static method ZeroFill(a: array<bv64>, live: nat, n: nat)
      requires live <= a.Length && n <= a.Length
      modifies a
      ensures a[..live] == old(a[..live])
      ensures forall q :: live <= q < n ==> a[q] == 0
    {
      var i := live;
      while i < n
        invariant live <= i <= a.Length
        invariant a[..live] == old(a[..live])
        invariant forall q :: live <= q < i ==> a[q] == 0
      {
        a[i] := 0;
        i := i + 1;
      }
    }

    /** `bits[q] &= mask` in `clear(from, to)`, for the first or last word of the range. */
    static method AndKeepEdge(a: array<bv64>, ghost w: seq<bv64>, from: nat, to: nat, q: nat)
      requires q < a.Length && q < |w| && a[q] == w[q]
      modifies a
      ensures a[q] == AndKeepWords(w, from, to)[q]
      ensures forall p :: 0 <= p < a.Length && p != q ==> a[p] == old(a[p])
    {
      var x := a[q];
      AndKeepAt(w, from, to, q, x);
      a[q] := x & KeepWord(q, from / 64, PosOf(from), to / 64, PosOf(to));
    }

    /** `bits[q] |= mask` in `set(from, to)`, for the first or last word of the range. */
    static method OrRangeEdge(a: array<bv64>, ghost w: seq<bv64>, from: nat, to: nat, q: nat)
      requires q < a.Length && q < |w| && a[q] == w[q]
      modifies a
      ensures a[q] == OrRangeWords(w, from, to)[q]
      ensures forall p :: 0 <= p < a.Length && p != q ==> a[p] == old(a[p])
    {
      var x := a[q];
      OrRangeAt(w, from, to, q, x);
      a[q] := x | RangeWord(q, from / 64, PosOf(from), to / 64, PosOf(to));
    }

    /** `bits[q] ^= mask` in `flip(from, to)`, for the first or last word of the range. */
    static method XorRangeEdge(a: array<bv64>, ghost w: seq<bv64>, from: nat, to: nat, q: nat)
      requires q < a.Length && q < |w| && a[q] == w[q]
      modifies a
      ensures a[q] == XorRangeWords(w, from, to)[q]
      ensures forall p :: 0 <= p < a.Length && p != q ==> a[p] == old(a[p])
    {
      var x := a[q];
      XorRangeAt(w, from, to, q, x);
      a[q] := x ^ RangeWord(q, from / 64, PosOf(from), to / 64, PosOf(to));
    }

    /** The loop of `flip(from, to)` that complements the words `lo` to `hi` (exclusive). */
    static method Complement(a: array<bv64>, lo: nat, hi: int)
      requires lo <= hi <= a.Length
      modifies a
      ensures forall q :: lo <= q < hi ==> a[q] == old(a[q]) ^ ALL_ONES
      ensures forall q :: 0 <= q < a.Length && !(lo <= q < hi) ==> a[q] == old(a[q])
    {
      var k := lo;
      while k < hi
        invariant lo <= k <= hi
        invariant forall q :: lo <= q < k ==> a[q] == old(a[q]) ^ ALL_ONES
        invariant forall q :: 0 <= q < a.Length && !(lo <= q < k) ==> a[q] == old(a[q])
      {
        a[k] := a[k] ^ ALL_ONES;
        k := k + 1;
      }
    }

    /** The word updates of `set(from, to)` on the first `n` words of `a`, which reach word `to / 64`. */
    static method OrRangeInPlace(a: array<bv64>, n: nat, from: nat, to: nat)
      requires from <= to && to / 64 < n <= a.Length
      modifies a
      ensures a[..n] == OrRangeWords(old(a[..n]), from, to)
    {
      ghost var w := a[..n];
      var i := from / 64;
      var j := to / 64;
      OrRangeEdge(a, w, from, to, i);
      if i == j {
        OrRangeAssembled(w, from, to, a[..n]);
        return;
      }
      OrRangeEdge(a, w, from, to, j);
      Fill(a, i + 1, j, ALL_ONES);
      OrRangeAssembled(w, from, to, a[..n]);
    }

    /** The word updates of `flip(from, to)` on the first `n` words of `a`, which reach word `to / 64`. */
    static method XorRangeInPlace(a: array<bv64>, n: nat, from: nat, to: nat)
      requires from <= to && to / 64 < n <= a.Length
      modifies a
      ensures a[..n] == XorRangeWords(old(a[..n]), from, to)
    {
      ghost var w := a[..n];
      var i := from / 64;
      var j := to / 64;
      XorRangeEdge(a, w, from, to, i);
      if i == j {
        XorRangeAssembled(w, from, to, a[..n]);
        return;
      }
      XorRangeEdge(a, w, from, to, j);
      Complement(a, i + 1, j);
      XorRangeAssembled(w, from, to, a[..n]);
    }

    /**
     * The loops of `and`, `andNot`, `or` and `xor`: each of the words `0` to
     * `n` of `a` combined with the same word of `c` by `f`.  Every word is
     * read before it is written, so the result is the same when `c` is `a`.
     */
    static method Combine(a: array<bv64>, c: array<bv64>, n: nat, f: (bv64, bv64) -> bv64)
      requires n <= a.Length && n <= c.Length
      modifies a
      ensures forall q :: 0 <= q < n ==> a[q] == f(old(a[q]), old(c[q]))
      ensures forall q :: n <= q < a.Length ==> a[q] == old(a[q])
    {
      var i := n;
      while i > 0
        invariant 0 <= i <= n
        invariant forall q :: i <= q < n ==> a[q] == f(old(a[q]), old(c[q]))
        invariant forall q :: (0 <= q < i || n <= q < a.Length) ==> a[q] == old(a[q])
        invariant forall q :: 0 <= q < i ==> c[q] == old(c[q])
      {
        i := i - 1;
        a[i] := f(a[i], c[i]);
      }
    }

    /** The loops that give the words `lo` to `hi` (exclusive) one value. */
    static method Fill(a: array<bv64>, lo: nat, hi: int, v: bv64)
      requires lo <= hi <= a.Length
      modifies a
      ensures forall q :: lo <= q < hi ==> a[q] == v
      ensures forall q :: 0 <= q < a.Length && !(lo <= q < hi) ==> a[q] == old(a[q])
    {
      var k := lo;
      while k < hi
        invariant lo <= k <= hi
        invariant forall q :: lo <= q < k ==> a[q] == v
        invariant forall q :: 0 <= q < a.Length && !(lo <= q < k) ==> a[q] == old(a[q])
      {
        a[k] := v;
        k := k + 1;
      }
    }

    /** `get(b)`: whether `b` is a member; an index in no live word is not. */
    method Get(b: int) returns (r: Result<bool>)
      requires Valid()
      ensures r == if b < 0 then Throw(IndexOutOfBounds) else Ok(In(Words(), b))
      ensures 0 <= b && length <= b / 64 ==> r == Ok(false)
    {
      if b < 0 {
        return Throw(IndexOutOfBounds);
      }
      var i := b / 64;
      if i >= length {
        Beyond(Words(), b);
        return Ok(false);
      }
      r := Ok(bits[i] & OneBit(PosOf(b)) != 0);
      MaskTest(bits[i], PosOf(b));
      InPos(Words(), b, PosOf(b));
    }

    /** `set(b)`: adds `b`, growing the live words to reach it. */
    method SetBit(b: int) returns (r: Result<()>)
      requires Valid()
      modifies this, bits
      ensures Valid()
      ensures r == if b < 0 then Throw(IndexOutOfBounds) else Ok(())
      ensures Words() == if b < 0 then old(Words()) else Added(old(Words()), b)
    {
      if b < 0 {
        return Throw(IndexOutOfBounds);
      }
      var i := b / 64;
      if i >= length {
        SetLength(i + 1);
      }
      ghost var w := Words();
      assert w == Widened(old(Words()), i + 1);
      var x := bits[i];
      SetWordsUpdate(w, b, x);
      bits[i] := x | OneBit(PosOf(b));
      r := Ok(());
    }

    /** `clear(b)`: removes `b`. */
    method ClearBit(b: int) returns (r: Result<()>)
      requires Valid()
      modifies bits
      ensures Valid()
      ensures r == if b < 0 then Throw(IndexOutOfBounds) else Ok(())
      ensures Words() == if b < 0 then old(Words()) else Removed(old(Words()), b)
    {
      if b < 0 {
        return Throw(IndexOutOfBounds);
      }
      var i := b / 64;
      if i >= length {
        return Ok(());
      }
      ghost var w := Words();
      var z := bits[i] & !OneBit(PosOf(b));
      bits[i] := z;
      r := Ok(());
      assert Words() == w[i := z];
      assert Words() == ClearWords(w, b);
    }

    /** `set(b, value)`: `set(b)` when `value` holds, `clear(b)` otherwise. */
    method SetBitValue(b: int, value: bool) returns (r: Result<()>)
      requires Valid()
      modifies this, bits
      ensures Valid()
      ensures r == if b < 0 then Throw(IndexOutOfBounds) else Ok(())
      ensures Words() == if b < 0 then old(Words())
        else if value then Added(old(Words()), b) else Removed(old(Words()), b)
    {
      if value {
        r := SetBit(b);
      } else {
        r := ClearBit(b);
      }
    }

    /** `flip(b)`: toggles `b`, growing the live words to reach it when needed. */
    method Flip(b: int) returns (r: Result<()>)
      requires Valid()
      modifies this, bits
      ensures Valid()
      ensures r == if b < 0 then Throw(IndexOutOfBounds) else Ok(())
      ensures Words() == if b < 0 then old(Words()) else Flipped(old(Words()), b)
    {
      if b < 0 {
        return Throw(IndexOutOfBounds);
      }
      var i := b / 64;
      if i >= length {
        SetLength(i + 1);
      }
      ghost var w := Words();
      assert w == Widened(old(Words()), i + 1);
      var x := bits[i];
      FlipWordsUpdate(w, b, x);
      bits[i] := x ^ OneBit(PosOf(b));
      r := Ok(());
    }

    /**
     * `clear(from, to)`: removes every index in `[from, to)`; a range that
     * starts beyond the live words changes nothing.
     */
    method ClearRange(from: int, to: int) returns (r: Result<()>)
      requires Valid()
      modifies bits
      ensures Valid()
      ensures r == if from < 0 || to < from then Throw(IndexOutOfBounds) else Ok(())
      ensures Words() == if from < 0 || to < from then old(Words()) else AndKeepWords(old(Words()), from, to)
    {
      if from < 0 || to < from {
        return Throw(IndexOutOfBounds);
      }
      r := Ok(());
      ghost var w := Words();
      var i := from / 64;
      if i >= length {
        AndKeepBeyond(w, from, to);
        return;
      }
      var j := to / 64;
      AndKeepEdge(bits, w, from, to, i);
      if i == j {
        AndKeepAssembled(w, from, to, Words());
        return;
      }
      if j < length {
        AndKeepEdge(bits, w, from, to, j);
      }
      Fill(bits, i + 1, if j < length then j else length, 0);
      AndKeepAssembled(w, from, to, Words());
    }

    /** `set(from, to)`: adds every index in `[from, to)`, growing the live words to reach word `to / 64`. */
    method SetRange(from: int, to: int) returns (r: Result<()>)
      requires Valid()
      modifies this, bits
      ensures Valid()
      ensures r == if from < 0 || to < from then Throw(IndexOutOfBounds) else Ok(())
      ensures Words() == if from < 0 || to < from then old(Words()) else RangeAdded(old(Words()), from, to)
    {
      if from < 0 || to < from {
        return Throw(IndexOutOfBounds);
      }
      r := Ok(());
      var j := to / 64;
      if j >= length {
        SetLength(j + 1);
      }
      assert Words() == Widened(old(Words()), j + 1);
      OrRangeInPlace(bits, length, from, to);
    }

    /** `flip(from, to)`: toggles every index in `[from, to)`, growing the live words to reach word `to / 64`. */
    method FlipRange(from: int, to: int) returns (r: Result<()>)
      requires Valid()
      modifies this, bits
      ensures Valid()
      ensures r == if from < 0 || to < from then Throw(IndexOutOfBounds) else Ok(())
      ensures Words() == if from < 0 || to < from then old(Words()) else RangeFlipped(old(Words()), from, to)
    {
      if from < 0 || to < from {
        return Throw(IndexOutOfBounds);
      }
      r := Ok(());
      var j := to / 64;
      if j >= length {
        SetLength(j + 1);
      }
      assert Words() == Widened(old(Words()), j + 1);
      XorRangeInPlace(bits, length, from, to);
    }

    /** `set(from, to, value)`: `set(from, to)` when `value` holds, `clear(from, to)` otherwise. */
    method SetRangeValue(from: int, to: int, value: bool) returns (r: Result<()>)
      requires Valid()
      modifies this, bits
      ensures Valid()
      ensures r == if from < 0 || to < from then Throw(IndexOutOfBounds) else Ok(())
      ensures Words() == if from < 0 || to < from then old(Words())
        else if value then RangeAdded(old(Words()), from, to) else AndKeepWords(old(Words()), from, to)
    {
      if value {
        r := SetRange(from, to);
      } else {
        r := ClearRange(from, to);
      }
    }

    /** `and(that)`: keeps the members of both sets; the live words shrink to the shorter count. */
    method And(that: FastBitSet)
      requires Valid() && that.Valid()
      requires that == this || that.bits != bits
      modifies this, bits
      ensures Valid() && that.Valid() && bits == old(bits)
      ensures Words() == AndWords(old(Words()), old(that.Words()))
      ensures that != this ==> that.Words() == old(that.Words())
    {
      ghost var w, c := Words(), that.Words();
      var n := if length < that.length then length else that.length;
      Combine(bits, that.bits, n, (x: bv64, y: bv64) => x & y);
      length := n;
      AndAssembled(w, c, Words());
    }

    /** `andNot(that)`: removes the members of `that`. */
    method AndNot(that: FastBitSet)
      requires Valid() && that.Valid()
      requires that == this || that.bits != bits
      modifies bits
      ensures Valid() && that.Valid()
      ensures Words() == AndNotWords(old(Words()), old(that.Words()))
      ensures that != this ==> that.Words() == old(that.Words())
    {
      ghost var w, c := Words(), that.Words();
      var n := if length < that.length then length else that.length;
      Combine(bits, that.bits, n, (x: bv64, y: bv64) => x & !y);
      AndNotAssembled(w, c, Words());
    }

    /** `or(that)`: adds the members of `that`, growing the live words to its count. */
    method Or(that: FastBitSet)
      requires Valid() && that.Valid()
      requires that == this || that.bits != bits
      modifies this, bits
      ensures Valid() && that.Valid()
      ensures Words() == OrWords(old(Words()), old(that.Words()))
      ensures that != this ==> that.Words() == old(that.Words())
    {
      ghost var w, c := Words(), that.Words();
      if that.length > length {
        SetLength(that.length);
      }
      ghost var v := Words();
      Combine(bits, that.bits, that.length, (x: bv64, y: bv64) => x | y);
      OrAssembled(w, c, v, Words());
    }

    /** `xor(that)`: toggles the members of `that`, growing the live words to its count. */
    method Xor(that: FastBitSet)
      requires Valid() && that.Valid()
      requires that == this || that.bits != bits
      modifies this, bits
      ensures Valid() && that.Valid()
      ensures Words() == XorWords(old(Words()), old(that.Words()))
      ensures that != this ==> that.Words() == old(that.Words())
    {
      ghost var w, c := Words(), that.Words();
      if that.length > length {
        SetLength(that.length);
      }
      ghost var v := Words();
      Combine(bits, that.bits, that.length, (x: bv64, y: bv64) => x ^ y);
      XorAssembled(w, c, v, Words());
    }

    /**
     * The inner do-while of `nextSetBit` and `nextClearBit`: walks the one-bit
     * mask of `i0` up the word `h` until a position whose bit is `want`, or off
     * the word, in which case `i` is the first index of the next word.
     */
    static method ScanWord(ghost words: seq<bv64>, h: bv64, i0: int, mask0: bv64, want: bool)
      returns (i: int, found: bool)
      requires 0 <= i0 && i0 / 64 < |words| && h == words[i0 / 64] && mask0 == OneBit(PosOf(i0))
      ensures i0 <= i
      ensures found ==> i / 64 == i0 / 64 && In(words, i) == want
      ensures !found ==> i == 64 * (i0 / 64) + 64 && OneBit(PosOf(i)) == 1
      ensures want ==> NextSet(words, i0) == NextSet(words, i)
      ensures !want ==> NextClear(words, i0) == NextClear(words, i)
    {
      i := i0;
      var mask := mask0;
      while true
        invariant i0 <= i && i / 64 == i0 / 64 && mask == OneBit(PosOf(i))
        invariant want ==> NextSet(words, i0) == NextSet(words, i)
        invariant !want ==> NextClear(words, i0) == NextClear(words, i)
        decreases 64 * (i0 / 64) + 64 - i
      {
        if (h & mask != 0) == want {
          ScanTest(words, i, i / 64, PosOf(i), h);
          return i, true;
        }
        ScanStep(words, i, h, mask, want);
        mask := mask << 1;
        i := i + 1;
        if mask == 0 {
          return i, false;
        }
      }
    }

    /**
     * The scan of `nextSetBit(from)` on exact integers: the least member at
     * or above `from`, or -1.  The one-bit mask walks up each live word.
     */
    method ScanSet(from: nat) returns (i: int)
      requires Valid()
      ensures i == NextSet(Words(), from)
    {
      ghost var W := Words();
      i := from;
      var offset := from / 64;
      var mask := OneBit(PosOf(from));
      while offset < length
        invariant from <= i && offset == i / 64 && mask == OneBit(PosOf(i))
        invariant NextSet(W, from) == NextSet(W, i)
        decreases length - offset
      {
        var found;
        i, found := ScanWord(W, bits[offset], i, mask, true);
        if found {
          return i;
        }
        mask := 1;
        offset := offset + 1;
      }
      i := -1;
    }

    /**
     * `nextSetBit(from)`: the least member at or above `from`, -1 when there
     * is none; a negative `from` indexes the array below zero.  The index is
     * the Java `int` that `fromIndex++` leaves, so a member at or above 2^31
     * comes back wrapped to a negative value.
     */
    method NextSetBit(from: int) returns (r: Result<int>)
      requires Valid()
      ensures r == if from < 0 then Throw(IndexOutOfBounds) else Ok(Wrap32(NextSet(Words(), from)))
    {
      if from < 0 {
        return Throw(IndexOutOfBounds);
      }
      var i := ScanSet(from);
      r := Ok(Wrap32(i));
    }

    /**
     * `nextClearBit(from)`: the least index at or above `from` that is not a
     * member.  The scan walks a one-bit mask up each live word; a negative
     * `from` indexes the array below zero.  `fromIndex++` is a Java `int`, so
     * an answer at or above 2^31 comes back wrapped: on the set holding
     * 2^31 - 1, `nextClearBit(2^31 - 1)` is -2^31.
     */
    method NextClearBit(from: int) returns (r: Result<int>)
      requires Valid()
      ensures r == if from < 0 then Throw(IndexOutOfBounds) else Ok(Wrap32(NextClear(Words(), from)))
    {
      if from < 0 {
        return Throw(IndexOutOfBounds);
      }
      ghost var W := Words();
      var i := from;
      var offset := from / 64;
      var mask := OneBit(PosOf(from));
      while offset < length
        invariant from <= i && offset == i / 64 && mask == OneBit(PosOf(i))
        invariant NextClear(W, from) == NextClear(W, i)
        decreases length - offset
      {
        var found;
        i, found := ScanWord(W, bits[offset], i, mask, false);
        if found {
          return Ok(Wrap32(i));
        }
        mask := 1;
        offset := offset + 1;
      }
      r := Ok(Wrap32(i));
    }

    /** `intersects(that)`: whether the two sets have a member in common. */
    method Intersects(that: FastBitSet) returns (r: bool)
      requires Valid() && that.Valid()
      ensures r <==> exists b :: In(Words(), b) && In(that.Words(), b)
    {
      var n := if length < that.length then length else that.length;
      var i := n;
      while i > 0
        invariant 0 <= i <= n
        invariant forall q :: i <= q < n ==> bits[q] & that.bits[q] == 0
      {
        i := i - 1;
        if bits[i] & that.bits[i] != 0 {
          IntersectsFound(that, i);
          return true;
        }
      }
      IntersectsNone(that, n);
      r := false;
    }

    /** No shared live word has a bit in common: no common member. */
    lemma IntersectsNone(that: FastBitSet, n: int)
      requires Valid() && that.Valid() && n == (if length < that.length then length else that.length)
      requires forall q :: 0 <= q < n ==> bits[q] & that.bits[q] == 0
      ensures !exists b :: In(Words(), b) && In(that.Words(), b)
    {
      DisjointWords(Words(), that.Words());
    }

    /** A shared live word with a bit in common: a common member. */
    lemma IntersectsFound(that: FastBitSet, i: int)
      requires Valid() && that.Valid()
      requires 0 <= i < length && i < that.length && bits[i] & that.bits[i] != 0
      ensures exists b :: In(Words(), b) && In(that.Words(), b)
    {
      CommonWord(Words(), that.Words(), i);
    }

    /** `equals(that)` for another bit set: whether the two have the same members. */
    method Equals(that: FastBitSet) returns (r: bool)
      requires Valid() && that.Valid()
      ensures r <==> forall b :: In(Words(), b) <==> In(that.Words(), b)
    {
      ghost var W, C := Words(), that.Words();
      SameMembersIff(W, C);
      var n := if length < that.length then length else that.length;
      var i := 0;
      while i < n
        invariant 0 <= i <= n
        invariant forall q :: 0 <= q < i ==> At(W, q) == At(C, q)
      {
        if bits[i] != that.bits[i] {
          assert At(W, i) != At(C, i);
          return false;
        }
        i := i + 1;
      }
      i := n;
      while i < length
        invariant n <= i <= length
        invariant forall q :: 0 <= q < i ==> At(W, q) == At(C, q)
      {
        if bits[i] != 0 {
          assert At(W, i) != At(C, i);
          return false;
        }
        i := i + 1;
      }
      i := n;
      while i < that.length
        invariant n <= i <= that.length
        invariant forall q :: 0 <= q < length ==> At(W, q) == At(C, q)
        invariant forall q :: 0 <= q < i ==> At(W, q) == At(C, q)
      {
        if that.bits[i] != 0 {
          assert At(W, i) != At(C, i);
          return false;
        }
        i := i + 1;
      }
      r := true;
    }

    /**
     * `cardinality()`: the number of members, counted word by word into a
     * Java `int`, which wraps once the count reaches 2^31.
     */
    method Cardinality() returns (r: Int32)
      requires Valid()
      ensures r == Wrap32(CountBelow(Words(), 64 * length))
    {
      ghost var W := Words();
      r := 0;
      // the exact count of the members below word i, of which r is the Java int
      ghost var c := 0;
      var i := 0;
      while i < length
        invariant 0 <= i <= length
        invariant c == CountBelow(W, 64 * i) && r == Wrap32(c)
      {
        var x := bits[i];
        CountStep(W, i, x);
        r, c := AddInt(r, c, BitCount(x));
        i := i + 1;
      }
    }

    /** `size()`: the number of members, as `cardinality()`. */
    method Size() returns (r: Int32)
      requires Valid()
      ensures r == Wrap32(CountBelow(Words(), 64 * length))
    {
      r := Cardinality();
    }

    /** `clear()`: no live words, so no members. */
    method Clear()
      requires Valid()
      modifies this
      ensures Valid() && Words() == [] && bits == old(bits)
    {
      length := 0;
    }

    /** `reset()`, for reuse from a pool: as `clear()`. */
    method Reset()
      requires Valid()
      modifies this
      ensures Valid() && Words() == [] && bits == old(bits)
    {
      length := 0;
    }

    /** `newInstance()`: a set with no live words (the object pool is not modelled). */
    static method NewInstance() returns (s: FastBitSet)
      ensures fresh(s) && fresh(s.bits) && s.Valid() && s.Words() == [] && s.bits.Length == 1
    {
      s := new FastBitSet();
      s.length := 0;
    }

    /**
     * `length()`, as documented: the highest member plus one, found from the
     * highest non-zero live word as `64 * i + 64 - numberOfLeadingZeros(l)`.
     */
    method Length() returns (r: int)
      requires Valid()
      ensures r == HighestPlusOne(Words(), 64 * length)
    {
      var i := length;
      while i > 0
        invariant 0 <= i <= length
        invariant forall q :: i <= q < length ==> bits[q] == 0
      {
        i := i - 1;
        var l := bits[i];
        if l != 0 {
          LengthFound(i);
          return 64 * i + 64 - LeadingZeros(l);
        }
      }
      LengthNone();
      r := 0;
    }

    lemma LengthFound(i: int)
      requires Valid() && 0 <= i < length && bits[i] != 0
      requires forall q :: i < q < length ==> bits[q] == 0
      ensures HighestPlusOne(Words(), 64 * length) == 64 * i + 64 - LeadingZeros(bits[i])
    {
      HighestInWord(Words(), i);
    }

    lemma LengthNone()
      requires Valid()
      requires forall q :: 0 <= q < length ==> bits[q] == 0
      ensures HighestPlusOne(Words(), 64 * length) == 0
    {
      HighestNone(Words(), 64 * length);
    }

    /**
     * `hashCode()`, as intended: the sum of the members as a Java `int`,
     * stepping from member to member with the exact scan of `nextSetBit(i + 1)`.
     */
    method HashCode() returns (h: Int32)
      requires Valid()
      ensures h == Wrap32(SumBelow(Words(), 64 * length))
    {
      ghost var W := Words();
      h := 0;
      var i := ScanSet(0);
      SumStart(W, i);
      // the exact sum of the members before i, of which h is the Java int
      ghost var s := 0;
      while i >= 0
        invariant i == -1 || (0 <= i < 64 * length && In(W, i))
        invariant s == SumBelow(W, if i < 0 then 64 * length else i)
        invariant h == Wrap32(s)
        decreases if i < 0 then 0 else 64 * length + 1 - i
      {
        var next := ScanSet(i + 1);
        SumNext(W, i, next);
        h, s := AddInt(h, s, i);
        i := next;
      }
    }

    /** `h += i` on a Java int that wraps the exact sum `s`. */
    static method AddInt(h: Int32, ghost s: int, i: int) returns (h': Int32, ghost s': int)
      requires h == Wrap32(s)
      ensures s' == s + i && h' == Wrap32(s')
    {
      Wrap32Step(h, s, i);
      h' := Wrap32(h + i);
      s' := s + i;
    }

    /** `head()`: the record before the first, index -1. */
    method Head() returns (r: int)
      ensures r == -1
    {
      r := -1;
    }

    /** `tail()`: the record after the last, the index equal to the number of members. */
    method Tail() returns (r: Int32)
      requires Valid()
      ensures r == Wrap32(CountBelow(Words(), 64 * length))
    {
      r := Cardinality();
    }

    /**
     * `valueOf(record)`: the member whose rank (the number of members below
     * it) is the record `i`, or none when `i` is past the last member. For a
     * negative record the result is some index exactly when a word is live.
     */
    method ValueOf(i: int) returns (r: Option<int>)
      requires Valid()
      ensures 0 <= i ==> (r.Some? <==> i < CountBelow(Words(), 64 * length))
      ensures 0 <= i && r.Some? ==> In(Words(), r.value) && CountBelow(Words(), r.value) == i
      ensures i < 0 ==> (r.Some? <==> length > 0)
    {
      ghost var W := Words();
      var count := 0;
      var j := 0;
      while j < length
        invariant 0 <= j <= length
        invariant count == CountWords(W, j)
        invariant 0 <= i ==> count <= i
        invariant i < 0 ==> j == 0
      {
        var l := bits[j];
        j := j + 1;
        count := count + BitCount(l);
        if count > i {
          var bitIndex := SelectInWord(l, j * 64, count, i);
          if 0 <= i {
            RankFound(W, j, l, count, i, bitIndex);
          }
          return Some(bitIndex);
        }
      }
      CountWordsBelow(W, length);
      return None;
    }

    /**
     * The inner loop of `valueOf`: `l0` is the word ending at `top`, with
     * `count0` members up to `top`. It strips set positions from the top of
     * the word until `i` members remain below `bitIndex`.
     */
    static method SelectInWord(l0: bv64, top: int, count0: int, i: int) returns (bitIndex: int)
      requires i < count0
      ensures count0 - BitCount(l0) <= i ==>
        top - 64 <= bitIndex < top && BitAt(l0, bitIndex - (top - 64)) &&
        count0 - BitCount(l0) + BitCountBelow(l0, bitIndex - (top - 64)) == i
    {
      ghost var lo := count0 - BitCount(l0);
      ghost var base := top - 64;
      var l := l0;
      bitIndex := top;
      var count := count0;
      ghost var off := 64;
      while count != i
        invariant i <= count <= count0
        invariant bitIndex == base + off
        invariant lo <= i ==> 0 <= off <= 64 && count == lo + BitCountBelow(l0, off)
        invariant lo <= i && count > i ==> l == ShiftLeft(l0, 64 - off)
        invariant lo <= i && count < count0 ==> BitAt(l0, off)
        decreases count - i
      {
        var nlz := LeadingZeros(l);
        var shiftRight := nlz + 1;
        ghost var l1, off1, count1 := l, off, count;
        l := ShlLong(l, shiftRight);
        bitIndex := bitIndex - shiftRight;
        off := off - shiftRight;
        count := count - 1;
        if lo <= i {
          SelectRound(l0, off1, l1, nlz, count1, lo, i, off, l, count);
        }
      }
    }

    /**
     * `delete(record)`: removing a member by record is not supported; it
     * throws when the record names a member (as `valueOf` sees it) and does
     * nothing otherwise.
     */
    method Delete(i: int) returns (r: Result<()>)
      requires Valid()
      ensures r == if (if 0 <= i then i < CountBelow(Words(), 64 * length) else length > 0)
        then Throw(UnsupportedOperation) else Ok(())
    {
      var index := ValueOf(i);
      if index.Some? {
        return Throw(UnsupportedOperation);
      }
      return Ok(());
    }

    /**
     * `get(from, to)`, as intended: a new set holding the members in
     * `[from, to)`; the upper clear is skipped when `to` is past the copied words.
     */
    method GetRange(from: int, to: int) returns (r: Result<FastBitSet>)
      requires Valid()
      ensures r.Throw? <==> from < 0 || to < from
      ensures r.Throw? ==> r.ex == IndexOutOfBounds
      ensures r.Ok? ==> (fresh(r.value) && r.value.Valid() &&
        forall b :: In(r.value.Words(), b) <==> In(Words(), b) && from <= b < to)
    {
      if from < 0 || from > to {
        return Throw(IndexOutOfBounds);
      }
      var n := if length < to / 64 + 1 then length else to / 64 + 1;
      var s := Slice(n, from, to);
      r := Ok(s);
    }

    /**
     * `get(from, to)` as written: it clears `[to, 64 * n)` unconditionally,
     * which throws when `to` is past the `n` copied words.
     */
    method GetRangeAsWritten(from: int, to: int) returns (r: Result<FastBitSet>)
      requires Valid()
      ensures r.Throw? <==> (from < 0 || to < from ||
        64 * (if length < to / 64 + 1 then length else to / 64 + 1) < to)
    {
      if from < 0 || from > to {
        return Throw(IndexOutOfBounds);
      }
      var n := if length < to / 64 + 1 then length else to / 64 + 1;
      var s := NewInstance();
      s.SetLength(n);
      ArrayCopy(bits, 0, s.bits, 0, n);
      var _ := s.ClearRange(0, from);
      var upper := s.ClearRange(to, 64 * n);
      if upper.Throw? {
        return Throw(upper.ex);
      }
      r := Ok(s);
    }

    /** The copy and the two clears of `get(from, to)`, on the first `n` live words. */
    method Slice(n: nat, from: nat, to: nat) returns (s: FastBitSet)
      requires Valid() && n <= length && (n == length || to < 64 * n) && from <= to
      ensures fresh(s) && s.Valid()
      ensures forall b :: In(s.Words(), b) <==> In(Words(), b) && from <= b < to
    {
      s := NewInstance();
      s.SetLength(n);
      ArrayCopy(bits, 0, s.bits, 0, n);
      assert s.Words() == Words()[..n];
      var _ := s.ClearRange(0, from);
      if to < 64 * n {
        var _ := s.ClearRange(to, 64 * n);
      }
      forall b
        ensures In(s.Words(), b) <==> In(Words(), b) && from <= b < to
      {
        SliceIn(Words(), n, from, to, s.Words(), b);
      }
    }

    /** `add(index)`: sets the bit and reports whether it was clear before. */
    method Add(b: int) returns (r: Result<bool>)
      requires Valid()
      modifies this, bits
      ensures Valid()
      ensures r == if b < 0 then Throw(IndexOutOfBounds) else Ok(!In(old(Words()), b))
      ensures Words() == if b < 0 || In(old(Words()), b) then old(Words()) else Added(old(Words()), b)
    {
      var present := Get(b);
      if present.Throw? {
        return Throw(present.ex);
      }
      if present.value {
        return Ok(false);
      }
      var _ := SetBit(b);
      r := Ok(true);
    }
  }
}
