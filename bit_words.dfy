/**
 * The 64-bit words of a FastBitSet and what they mean.  Bit `b` of a bit
 * set lives in word `b / 64` at position `b % 64`; a word at or beyond the
 * logical length counts as zero.  Everything here is about values: the
 * class in fast_bitset.dfy states its methods in these terms.
 *
 * The lemmas come in two layers.  Lemmas about single words take their
 * positions as `Pos` values and never mention an integer index; lemmas
 * about indices relate an index `b` to its word `b / 64` and its position
 * `PosOf(b)` and never look inside a word.
 */
module BitWords {
  import opened JavaLang

  /** A bit position inside a word (the shift distance Java derives from an index). */
  type Pos = k: bv7 | k < 64

  /** `-1L`. */
  const ALL_ONES: bv64 := 0xFFFF_FFFF_FFFF_FFFF

  /** Java masks a `long` shift distance with 63: `1L << i` shifts by `i % 64`. */
  function PosOf(i: int): (k: Pos)
    requires 0 <= i
  {
    (i % 64) as bv7
  }

  predicate WordBit(w: bv64, k: Pos) {
    (w >> k) & 1 == 1
  }

  /** Bit `p` of a word, for an integer position. */
  predicate BitAt(w: bv64, p: int) {
    0 <= p < 64 && WordBit(w, PosOf(p))
  }

  /** Word `k` of `words`, zero at and beyond the logical length. */
  function At(words: seq<bv64>, k: int): bv64 {
    if 0 <= k < |words| then words[k] else 0
  }

  /** Is `b` a member of the bit set whose live words are `words`? */
  predicate In(words: seq<bv64>, b: int) {
    0 <= b && BitAt(At(words, b / 64), b % 64)
  }

  // ------------------------------------------------------------------
  // Positions of indices
  // ------------------------------------------------------------------

  lemma PosRound(a: int)
    requires 0 <= a < 64
    ensures (a as bv7) as int == a
  {
  }

  lemma PosValue(a: int)
    requires 0 <= a
    ensures PosOf(a) as int == a % 64
  {
    PosRound(a % 64);
  }

  /** Two indices in the same word differ exactly when their positions do. */
  lemma PosInjective(a: int, b: int)
    requires 0 <= a && 0 <= b && a / 64 == b / 64
    ensures PosOf(a) == PosOf(b) <==> a == b
  {
    PosValue(a);
    PosValue(b);
  }

  /** Within one word, index order is position order. */
  lemma SameWordOrder(a: int, b: int)
    requires 0 <= a && 0 <= b && a / 64 == b / 64
    ensures PosOf(a) <= PosOf(b) <==> a <= b
    ensures PosOf(a) < PosOf(b) <==> a < b
  {
    PosValue(a);
    PosValue(b);
  }

  lemma PosSucc(a: int)
    requires 0 <= a && a % 64 < 63
    ensures PosOf(a + 1) == PosOf(a) + 1
  {
    var x := a % 64;
    assert (a + 1) % 64 == x + 1;
    PosRound(x);
    PosRound(x + 1);
    var k := x as bv7;
    assert (k + 1) as int == k as int + 1;
  }

  /** Member `64 * k + p` is position `p` of word `k`. */
  lemma InWord(words: seq<bv64>, k: nat, p: int)
    requires 0 <= p < 64
    ensures In(words, 64 * k + p) == BitAt(At(words, k), p)
  {
    var b := 64 * k + p;
    assert b / 64 == k && b % 64 == p % 64;
    assert PosOf(b) == PosOf(p);
  }

  /** `InWord` for an index `b` given with its word and position. */
  lemma InWordAt(words: seq<bv64>, k: nat, p: int, b: int)
    requires 0 <= p < 64 && b == 64 * k + p
    ensures In(words, b) == BitAt(At(words, k), p)
  {
    InWord(words, k, p);
  }

  /** A member seen through its word and position. */
  lemma InPos(words: seq<bv64>, b: int, p: Pos)
    requires 0 <= b && p == PosOf(b)
    ensures In(words, b) == WordBit(At(words, b / 64), p)
  {
  }

  /** The index of position `p` of word `k`. */
  lemma IndexOfPos(k: nat, p: Pos)
    ensures 64 * k + p as int >= 0
    ensures (64 * k + p as int) / 64 == k && PosOf(64 * k + p as int) == p
  {
    var b := 64 * k + p as int;
    assert b / 64 == k && b % 64 == p as int;
  }

  lemma BeyondWords(words: seq<bv64>, b: int)
    requires b >= 64 * |words|
    ensures !In(words, b)
  {
  }

  // ------------------------------------------------------------------
  // Single words
  // ------------------------------------------------------------------

  lemma ZeroWord(k: Pos)
    ensures !WordBit(0, k)
  {
  }

  lemma AllOnesWord(k: Pos)
    ensures WordBit(ALL_ONES, k)
  {
  }

  /** `(h & (1L << k)) != 0` tests bit `k`. */
  lemma MaskTest(h: bv64, k: Pos)
    ensures (h & (1 << k) != 0) <==> WordBit(h, k)
  {
  }

  /** The word 1 has position 0 set and no other. */
  lemma BitOne()
    ensures WordBit(1, 0)
    ensures forall k: Pos :: 0 < k ==> !WordBit(1, k)
  {
  }

  /** `mask <<= 1` moves a one-bit mask up a position, and off the word after bit 63. */
  lemma MaskStep(k: Pos)
    ensures (1 as bv64 << k) << 1 == if k < 63 then 1 as bv64 << (k + 1) else 0
  {
  }

  lemma MaskNonZero(k: Pos)
    ensures 1 as bv64 << k != 0
  {
  }

  lemma SetWordBit(w: bv64, k: Pos, z: bv64, j: Pos)
    requires z == w | OneBit(k)
    ensures WordBit(z, j) <==> WordBit(w, j) || j == k
  {
  }

  lemma ClearWordBit(w: bv64, k: Pos, z: bv64, j: Pos)
    requires z == w & !OneBit(k)
    ensures WordBit(z, j) <==> WordBit(w, j) && j != k
  {
  }

  lemma FlipWordBit(w: bv64, k: Pos, z: bv64, j: Pos)
    requires z == w ^ OneBit(k)
    ensures WordBit(z, j) <==> WordBit(w, j) != (j == k)
  {
  }

  /** `-1L << f`: the positions at and above `f`. */
  function HighMask(f: Pos): bv64 {
    ALL_ONES << f
  }

  /** `(1L << t) - 1`: the positions below `t`. */
  function LowMask(t: Pos): bv64 {
    (1 << t) - 1
  }

  lemma HighMaskBit(f: Pos, j: Pos)
    ensures WordBit(HighMask(f), j) <==> f <= j
  {
  }

  lemma LowMaskBit(t: Pos, j: Pos)
    ensures WordBit(LowMask(t), j) <==> j < t
  {
  }

  lemma AndWordBit(a: bv64, c: bv64, z: bv64, j: Pos)
    requires z == a & c
    ensures WordBit(z, j) <==> WordBit(a, j) && WordBit(c, j)
  {
  }

  lemma OrWordBit(a: bv64, c: bv64, z: bv64, j: Pos)
    requires z == a | c
    ensures WordBit(z, j) <==> WordBit(a, j) || WordBit(c, j)
  {
  }

  lemma XorWordBit(a: bv64, c: bv64, z: bv64, j: Pos)
    requires z == a ^ c
    ensures WordBit(z, j) <==> WordBit(a, j) != WordBit(c, j)
  {
  }

  lemma AndNotWordBit(a: bv64, c: bv64, z: bv64, j: Pos)
    requires z == a & !c
    ensures WordBit(z, j) <==> WordBit(a, j) && !WordBit(c, j)
  {
  }

  /** `(1L << f) - 1 | -1L << t`: the positions below `f` or at and above `t`. */
  lemma KeepMaskBit(f: Pos, t: Pos, j: Pos)
    ensures WordBit(LowMask(f) | HighMask(t), j) <==> j < f || t <= j
  {
    OrWordBit(LowMask(f), HighMask(t), LowMask(f) | HighMask(t), j);
    LowMaskBit(f, j);
    HighMaskBit(t, j);
  }

  /** `-1L << f & (1L << t) - 1`: the positions from `f` up to but excluding `t`. */
  lemma RangeMaskBit(f: Pos, t: Pos, j: Pos)
    ensures WordBit(HighMask(f) & LowMask(t), j) <==> f <= j < t
  {
    AndWordBit(HighMask(f), LowMask(t), HighMask(f) & LowMask(t), j);
    HighMaskBit(f, j);
    LowMaskBit(t, j);
  }

  lemma ShiftStep(x: bv64, k: Pos)
    requires x >> k != 0 && (x >> k) & 1 == 0 && k < 63
    ensures x >> (k + 1) != 0
  {
  }

  lemma TopBit(x: bv64)
    requires x >> 63 != 0
    ensures (x >> 63) & 1 == 1
  {
  }

  /** A set position at or above `k`, in a word with bits at or above `k`. */
  function SomeBit(x: bv64, k: Pos): (r: Pos)
    requires x >> k != 0
    ensures k <= r && WordBit(x, r)
    decreases 64 - k as int
  {
    if k == 63 then TopBit(x); k
    else if (x >> k) & 1 == 1 then k
    else
      ShiftStep(x, k);
      SomeBit(x, k + 1)
  }

  /** A word other than zero has a set position. */
  function SetPos(x: bv64): (r: Pos)
    requires x != 0
    ensures WordBit(x, r)
  {
    assert x >> 0 == x;
    SomeBit(x, 0)
  }

  /** Two different words differ at some position. */
  function DiffPos(a: bv64, c: bv64): (r: Pos)
    requires a != c
    ensures WordBit(a, r) != WordBit(c, r)
  {
    var r := SetPos(a ^ c);
    XorWordBit(a, c, a ^ c, r);
    r
  }

  // ------------------------------------------------------------------
  // Single bits
  // ------------------------------------------------------------------

  /** The word with only position `p` set: Java's `1L << p`. */
  function OneBit(p: Pos): bv64
  {
    1 << p
  }

  /** Two indices are equal exactly when their words and positions are. */
  lemma SameIndex(b: int, c: int)
    requires 0 <= b && 0 <= c
    ensures b == c <==> b / 64 == c / 64 && PosOf(b) == PosOf(c)
  {
    if b / 64 == c / 64 {
      PosInjective(b, c);
    }
  }

  /** `set(b)` on words that reach word `b / 64`: that word or-ed with `1L << b`. */
  function SetWords(words: seq<bv64>, b: nat): (r: seq<bv64>)
    ensures |r| == |words|
  {
    seq(|words|, q => if q == b / 64 then At(words, q) | OneBit(PosOf(b)) else At(words, q))
  }

  lemma SetWordsBit(words: seq<bv64>, b: nat, k: int, p: Pos)
    requires 0 <= k < |words|
    ensures WordBit(SetWords(words, b)[k], p) == (WordBit(words[k], p) || (k == b / 64 && p == PosOf(b)))
  {
    var z := SetWords(words, b)[k];
    if k == b / 64 {
      SetWordBit(words[k], PosOf(b), z, p);
    } else {
      assert z == words[k];
    }
  }

  lemma SetWordsIn(words: seq<bv64>, b: nat, c: int)
    requires b / 64 < |words|
    ensures In(SetWords(words, b), c) <==> In(words, c) || c == b
  {
    if 0 <= c {
      var k, p := c / 64, PosOf(c);
      SameIndex(b, c);
      if k < |words| {
        SetWordsBit(words, b, k, p);
        InPos(SetWords(words, b), c, p);
        InPos(words, c, p);
      } else {
        Beyond(SetWords(words, b), c);
        Beyond(words, c);
      }
    }
  }

  /** `clear(b)` on words that reach word `b / 64`: that word and-ed with `~(1L << b)`. */
  function ClearWords(words: seq<bv64>, b: nat): (r: seq<bv64>)
    ensures |r| == |words|
  {
    seq(|words|, q => if q == b / 64 then At(words, q) & !OneBit(PosOf(b)) else At(words, q))
  }

  lemma ClearWordsBit(words: seq<bv64>, b: nat, k: int, p: Pos)
    requires 0 <= k < |words|
    ensures WordBit(ClearWords(words, b)[k], p) == (WordBit(words[k], p) && !(k == b / 64 && p == PosOf(b)))
  {
    var z := ClearWords(words, b)[k];
    if k == b / 64 {
      ClearWordBit(words[k], PosOf(b), z, p);
    } else {
      assert z == words[k];
    }
  }

  lemma ClearWordsIn(words: seq<bv64>, b: nat, c: int)
    requires b / 64 < |words|
    ensures In(ClearWords(words, b), c) <==> In(words, c) && c != b
  {
    if 0 <= c {
      var k, p := c / 64, PosOf(c);
      SameIndex(b, c);
      if k < |words| {
        ClearWordsBit(words, b, k, p);
        InPos(ClearWords(words, b), c, p);
        InPos(words, c, p);
      } else {
        Beyond(ClearWords(words, b), c);
        Beyond(words, c);
      }
    }
  }

  /** `flip(b)` on words that reach word `b / 64`: that word xor-ed with `1L << b`. */
  function FlipWords(words: seq<bv64>, b: nat): (r: seq<bv64>)
    ensures |r| == |words|
  {
    seq(|words|, q => if q == b / 64 then At(words, q) ^ OneBit(PosOf(b)) else At(words, q))
  }

  lemma FlipWordsBit(words: seq<bv64>, b: nat, k: int, p: Pos)
    requires 0 <= k < |words|
    ensures WordBit(FlipWords(words, b)[k], p) == (WordBit(words[k], p) != (k == b / 64 && p == PosOf(b)))
  {
    var z := FlipWords(words, b)[k];
    if k == b / 64 {
      FlipWordBit(words[k], PosOf(b), z, p);
    } else {
      assert z == words[k];
    }
  }

  lemma FlipWordsIn(words: seq<bv64>, b: nat, c: int)
    requires b / 64 < |words|
    ensures In(FlipWords(words, b), c) <==> In(words, c) != (c == b)
  {
    if 0 <= c {
      var k, p := c / 64, PosOf(c);
      SameIndex(b, c);
      if k < |words| {
        FlipWordsBit(words, b, k, p);
        InPos(FlipWords(words, b), c, p);
        InPos(words, c, p);
      } else {
        Beyond(FlipWords(words, b), c);
        Beyond(words, c);
      }
    }
  }

  /** `SetWords` changes word `b / 64` in place. */
  lemma SetWordsUpdate(words: seq<bv64>, b: nat, x: bv64)
    requires b / 64 < |words| && x == words[b / 64]
    ensures SetWords(words, b) == words[b / 64 := x | OneBit(PosOf(b))]
  {
  }

  /** `FlipWords` changes word `b / 64` in place. */
  lemma FlipWordsUpdate(words: seq<bv64>, b: nat, x: bv64)
    requires b / 64 < |words| && x == words[b / 64]
    ensures FlipWords(words, b) == words[b / 64 := x ^ OneBit(PosOf(b))]
  {
  }

  // ------------------------------------------------------------------
  // Word-by-word combinations, as the boolean operations compute them
  // ------------------------------------------------------------------

  /** `and`: the first `min(|a|, |c|)` words, each `a[k] & c[k]`. */
  function AndWords(a: seq<bv64>, c: seq<bv64>): (r: seq<bv64>)
    ensures |r| == if |a| < |c| then |a| else |c|
  {
    seq(if |a| < |c| then |a| else |c|, k => At(a, k) & At(c, k))
  }

  /** `andNot`: the words of `a`, those below `|c|` masked with `~c[k]`. */
  function AndNotWords(a: seq<bv64>, c: seq<bv64>): (r: seq<bv64>)
    ensures |r| == |a|
  {
    seq(|a|, k => if k < |c| then At(a, k) & !At(c, k) else At(a, k))
  }

  /** `or`: `a` grown to `|c|` words if shorter, those below `|c|` or-ed with `c[k]`. */
  function OrWords(a: seq<bv64>, c: seq<bv64>): (r: seq<bv64>)
    ensures |r| == if |a| < |c| then |c| else |a|
  {
    seq(if |a| < |c| then |c| else |a|, k => if k < |c| then At(a, k) | At(c, k) else At(a, k))
  }

  /** `xor`: `a` grown to `|c|` words if shorter, those below `|c|` xor-ed with `c[k]`. */
  function XorWords(a: seq<bv64>, c: seq<bv64>): (r: seq<bv64>)
    ensures |r| == if |a| < |c| then |c| else |a|
  {
    seq(if |a| < |c| then |c| else |a|, k => if k < |c| then At(a, k) ^ At(c, k) else At(a, k))
  }

  /** `and` word by word: each word is the two inputs' words and-ed. */
  lemma AndAssembled(a: seq<bv64>, c: seq<bv64>, s: seq<bv64>)
    requires |s| == (if |a| < |c| then |a| else |c|)
    requires forall q :: 0 <= q < |s| ==> s[q] == a[q] & c[q]
    ensures s == AndWords(a, c)
  {
  }

  /** `andNot` word by word: the words below `|c|` are masked, the others kept. */
  lemma AndNotAssembled(a: seq<bv64>, c: seq<bv64>, s: seq<bv64>)
    requires |s| == |a|
    requires forall q :: 0 <= q < |s| && q < |c| ==> s[q] == a[q] & !c[q]
    requires forall q :: |c| <= q < |s| ==> s[q] == a[q]
    ensures s == AndNotWords(a, c)
  {
  }

  /** `or` word by word on `v`, the words of `a` grown to at least `|c|`. */
  lemma OrAssembled(a: seq<bv64>, c: seq<bv64>, v: seq<bv64>, s: seq<bv64>)
    requires |s| == |v| == (if |a| < |c| then |c| else |a|)
    requires forall q :: 0 <= q < |v| ==> v[q] == At(a, q)
    requires forall q :: 0 <= q < |c| ==> s[q] == v[q] | c[q]
    requires forall q :: |c| <= q < |s| ==> s[q] == v[q]
    ensures s == OrWords(a, c)
  {
  }

  /** `xor` word by word on `v`, the words of `a` grown to at least `|c|`. */
  lemma XorAssembled(a: seq<bv64>, c: seq<bv64>, v: seq<bv64>, s: seq<bv64>)
    requires |s| == |v| == (if |a| < |c| then |c| else |a|)
    requires forall q :: 0 <= q < |v| ==> v[q] == At(a, q)
    requires forall q :: 0 <= q < |c| ==> s[q] == v[q] ^ c[q]
    requires forall q :: |c| <= q < |s| ==> s[q] == v[q]
    ensures s == XorWords(a, c)
  {
  }

  /** An index at or beyond the words of `c` is not a member of `c`. */
  lemma Beyond(c: seq<bv64>, b: int)
    requires 0 <= b && b / 64 >= |c|
    ensures !In(c, b)
  {
  }

  lemma AndZero(x: bv64)
    ensures x & 0 == 0 && 0 & x == 0
  {
  }

  lemma AndNotZero(x: bv64)
    ensures x & !0 == x && 0 & !x == 0
  {
  }

  lemma OrZero(x: bv64)
    ensures x | 0 == x
  {
  }

  lemma XorZero(x: bv64)
    ensures x ^ 0 == x
  {
  }

  lemma AndAllOnes(x: bv64)
    ensures x & ALL_ONES == x
  {
  }

  lemma OrAllOnes(x: bv64)
    ensures x | ALL_ONES == ALL_ONES
  {
  }

  /** Word `k` of the `and` of two bit sets. */
  lemma AndWordsAt(a: seq<bv64>, c: seq<bv64>, k: int)
    requires 0 <= k
    ensures At(AndWords(a, c), k) == At(a, k) & At(c, k)
  {
    if k < |a| && k < |c| {
      assert AndWords(a, c)[k] == At(a, k) & At(c, k);
    } else if k < |a| {
      AndZero(At(a, k));
    } else {
      AndZero(At(c, k));
    }
  }

  lemma AndNotWordsAt(a: seq<bv64>, c: seq<bv64>, k: int)
    requires 0 <= k
    ensures At(AndNotWords(a, c), k) == At(a, k) & !At(c, k)
  {
    if k < |a| && k < |c| {
      assert AndNotWords(a, c)[k] == At(a, k) & !At(c, k);
    } else if k < |a| {
      assert AndNotWords(a, c)[k] == At(a, k);
      AndNotZero(At(a, k));
    } else {
      AndNotZero(At(c, k));
    }
  }

  lemma OrWordsAt(a: seq<bv64>, c: seq<bv64>, k: int)
    requires 0 <= k
    ensures At(OrWords(a, c), k) == At(a, k) | At(c, k)
  {
    if k < |c| {
      assert OrWords(a, c)[k] == At(a, k) | At(c, k);
    } else if k < |a| {
      assert OrWords(a, c)[k] == At(a, k);
      OrZero(At(a, k));
    } else {
      OrZero(0);
    }
  }

  lemma XorWordsAt(a: seq<bv64>, c: seq<bv64>, k: int)
    requires 0 <= k
    ensures At(XorWords(a, c), k) == At(a, k) ^ At(c, k)
  {
    if k < |c| {
      assert XorWords(a, c)[k] == At(a, k) ^ At(c, k);
    } else if k < |a| {
      assert XorWords(a, c)[k] == At(a, k);
      XorZero(At(a, k));
    } else {
      XorZero(0);
    }
  }

  lemma AndWordsBit(a: seq<bv64>, c: seq<bv64>, k: int, p: Pos)
    requires 0 <= k
    ensures WordBit(At(AndWords(a, c), k), p) == (WordBit(At(a, k), p) && WordBit(At(c, k), p))
  {
    AndWordsAt(a, c, k);
    AndWordBit(At(a, k), At(c, k), At(AndWords(a, c), k), p);
  }

  lemma AndNotWordsBit(a: seq<bv64>, c: seq<bv64>, k: int, p: Pos)
    requires 0 <= k
    ensures WordBit(At(AndNotWords(a, c), k), p) == (WordBit(At(a, k), p) && !WordBit(At(c, k), p))
  {
    AndNotWordsAt(a, c, k);
    AndNotWordBit(At(a, k), At(c, k), At(AndNotWords(a, c), k), p);
  }

  lemma OrWordsBit(a: seq<bv64>, c: seq<bv64>, k: int, p: Pos)
    requires 0 <= k
    ensures WordBit(At(OrWords(a, c), k), p) == (WordBit(At(a, k), p) || WordBit(At(c, k), p))
  {
    OrWordsAt(a, c, k);
    OrWordBit(At(a, k), At(c, k), At(OrWords(a, c), k), p);
  }

  lemma XorWordsBit(a: seq<bv64>, c: seq<bv64>, k: int, p: Pos)
    requires 0 <= k
    ensures WordBit(At(XorWords(a, c), k), p) == (WordBit(At(a, k), p) != WordBit(At(c, k), p))
  {
    XorWordsAt(a, c, k);
    XorWordBit(At(a, k), At(c, k), At(XorWords(a, c), k), p);
  }

  /** `and` is intersection. */
  lemma AndIn(a: seq<bv64>, c: seq<bv64>, b: int)
    ensures In(AndWords(a, c), b) <==> In(a, b) && In(c, b)
  {
    if 0 <= b {
      var k, p := b / 64, PosOf(b);
      AndWordsBit(a, c, k, p);
      InPos(AndWords(a, c), b, p);
      InPos(a, b, p);
      InPos(c, b, p);
    }
  }

  /** `andNot` is difference. */
  lemma AndNotIn(a: seq<bv64>, c: seq<bv64>, b: int)
    ensures In(AndNotWords(a, c), b) <==> In(a, b) && !In(c, b)
  {
    if 0 <= b {
      var k, p := b / 64, PosOf(b);
      AndNotWordsBit(a, c, k, p);
      InPos(AndNotWords(a, c), b, p);
      InPos(a, b, p);
      InPos(c, b, p);
    }
  }

  /** `or` is union. */
  lemma OrIn(a: seq<bv64>, c: seq<bv64>, b: int)
    ensures In(OrWords(a, c), b) <==> In(a, b) || In(c, b)
  {
    if 0 <= b {
      var k, p := b / 64, PosOf(b);
      OrWordsBit(a, c, k, p);
      InPos(OrWords(a, c), b, p);
      InPos(a, b, p);
      InPos(c, b, p);
    }
  }

  /** `xor` is symmetric difference. */
  lemma XorIn(a: seq<bv64>, c: seq<bv64>, b: int)
    ensures In(XorWords(a, c), b) <==> In(a, b) != In(c, b)
  {
    if 0 <= b {
      var k, p := b / 64, PosOf(b);
      XorWordsBit(a, c, k, p);
      InPos(XorWords(a, c), b, p);
      InPos(a, b, p);
      InPos(c, b, p);
    }
  }

  // ------------------------------------------------------------------
  // Ranges of bits
  // ------------------------------------------------------------------

  /**
   * The positions of word `k` inside a range that starts at position `f`
   * of word `i` and ends before position `t` of word `j`: the masks that
   * `set` and `flip` build (`-1L << from & (1L << to) - 1` for a range within
   * one word, `-1L << from` for its first word, `(1L << to) - 1` for its last).
   */
  function RangeWord(k: int, i: int, f: Pos, j: int, t: Pos): bv64 {
    if k < i || k > j then 0
    else if i == j then HighMask(f) & LowMask(t)
    else if k == i then HighMask(f)
    else if k == j then LowMask(t)
    else ALL_ONES
  }

  /**
   * The positions `clear(from, to)` keeps in word `k`: `(1L << from) - 1 |
   * -1L << to` for a range within one word, `(1L << from) - 1` for its
   * first word, `-1L << to` for its last.
   */
  function KeepWord(k: int, i: int, f: Pos, j: int, t: Pos): bv64 {
    if k < i || k > j then ALL_ONES
    else if i == j then LowMask(f) | HighMask(t)
    else if k == i then LowMask(f)
    else if k == j then HighMask(t)
    else 0
  }

  /** Whether position `p` of word `k` lies in the range, as a truth value. */
  predicate RangeBit(k: int, i: int, f: Pos, j: int, t: Pos, p: Pos) {
    if k < i || k > j then false
    else if i == j then f <= p < t
    else if k == i then f <= p
    else if k == j then p < t
    else true
  }

  lemma RangeWordBit(k: int, i: int, f: Pos, j: int, t: Pos, p: Pos)
    ensures WordBit(RangeWord(k, i, f, j, t), p) == RangeBit(k, i, f, j, t, p)
  {
    if k < i || k > j {
      ZeroWord(p);
    } else if i == j {
      RangeMaskBit(f, t, p);
    } else if k == i {
      HighMaskBit(f, p);
    } else if k == j {
      LowMaskBit(t, p);
    } else {
      AllOnesWord(p);
    }
  }

  /** The kept positions are the complement of the range positions. */
  lemma KeepWordBit(k: int, i: int, f: Pos, j: int, t: Pos, p: Pos)
    ensures WordBit(KeepWord(k, i, f, j, t), p) == !RangeBit(k, i, f, j, t, p)
  {
    if k < i || k > j {
      AllOnesWord(p);
    } else if i == j {
      KeepMaskBit(f, t, p);
    } else if k == i {
      LowMaskBit(f, p);
    } else if k == j {
      HighMaskBit(t, p);
    } else {
      ZeroWord(p);
    }
  }

  /** The range positions are exactly the indices of `[from, to)`. */
  lemma RangeBitIn(from: int, to: int, b: int)
    requires 0 <= from && 0 <= to && 0 <= b
    ensures RangeBit(b / 64, from / 64, PosOf(from), to / 64, PosOf(to), PosOf(b)) <==> from <= b < to
  {
    var k, i, j := b / 64, from / 64, to / 64;
    if k == i {
      SameWordOrder(from, b);
    }
    if k == j {
      SameWordOrder(b, to);
    }
  }

  lemma OrRangeBit(x: bv64, z: bv64, k: int, i: int, f: Pos, j: int, t: Pos, p: Pos)
    requires z == x | RangeWord(k, i, f, j, t)
    ensures WordBit(z, p) == (WordBit(x, p) || RangeBit(k, i, f, j, t, p))
  {
    OrWordBit(x, RangeWord(k, i, f, j, t), z, p);
    RangeWordBit(k, i, f, j, t, p);
  }

  /** `set(from, to)` on the words: each word or-ed with its range mask. */
  function OrRangeWords(w: seq<bv64>, from: nat, to: nat): (r: seq<bv64>)
    ensures |r| == |w|
  {
    seq(|w|, q => At(w, q) | RangeWord(q, from / 64, PosOf(from), to / 64, PosOf(to)))
  }

  lemma OrRangeWordsBit(w: seq<bv64>, from: nat, to: nat, k: int, p: Pos)
    requires 0 <= k < |w|
    ensures WordBit(OrRangeWords(w, from, to)[k], p) == (WordBit(w[k], p) || RangeBit(k, from / 64, PosOf(from), to / 64, PosOf(to), p))
  {
    var i, f, j, t := from / 64, PosOf(from), to / 64, PosOf(to);
    OrRangeBit(w[k], OrRangeWords(w, from, to)[k], k, i, f, j, t, p);
  }

  /** Or-ing the range masks adds the range, within the words. */
  lemma OrRangeWordsIn(w: seq<bv64>, from: nat, to: nat, b: int)
    ensures In(OrRangeWords(w, from, to), b) <==> In(w, b) || (from <= b < to && b < 64 * |w|)
  {
    if 0 <= b {
      var k, p := b / 64, PosOf(b);
      if k < |w| {
        OrRangeWordsBit(w, from, to, k, p);
        InPos(OrRangeWords(w, from, to), b, p);
        InPos(w, b, p);
        RangeBitIn(from, to, b);
      } else {
        Beyond(OrRangeWords(w, from, to), b);
        Beyond(w, b);
      }
    }
  }

  lemma XorRangeBit(x: bv64, z: bv64, k: int, i: int, f: Pos, j: int, t: Pos, p: Pos)
    requires z == x ^ RangeWord(k, i, f, j, t)
    ensures WordBit(z, p) == (WordBit(x, p) != RangeBit(k, i, f, j, t, p))
  {
    XorWordBit(x, RangeWord(k, i, f, j, t), z, p);
    RangeWordBit(k, i, f, j, t, p);
  }

  /** `flip(from, to)` on the words: each word xor-ed with its range mask. */
  function XorRangeWords(w: seq<bv64>, from: nat, to: nat): (r: seq<bv64>)
    ensures |r| == |w|
  {
    seq(|w|, q => At(w, q) ^ RangeWord(q, from / 64, PosOf(from), to / 64, PosOf(to)))
  }

  lemma XorRangeWordsBit(w: seq<bv64>, from: nat, to: nat, k: int, p: Pos)
    requires 0 <= k < |w|
    ensures WordBit(XorRangeWords(w, from, to)[k], p) == (WordBit(w[k], p) != RangeBit(k, from / 64, PosOf(from), to / 64, PosOf(to), p))
  {
    var i, f, j, t := from / 64, PosOf(from), to / 64, PosOf(to);
    XorRangeBit(w[k], XorRangeWords(w, from, to)[k], k, i, f, j, t, p);
  }

  /** Xor-ing the range masks toggles the range, within the words. */
  lemma XorRangeWordsIn(w: seq<bv64>, from: nat, to: nat, b: int)
    ensures In(XorRangeWords(w, from, to), b) <==> In(w, b) != (from <= b < to && b < 64 * |w|)
  {
    if 0 <= b {
      var k, p := b / 64, PosOf(b);
      if k < |w| {
        XorRangeWordsBit(w, from, to, k, p);
        InPos(XorRangeWords(w, from, to), b, p);
        InPos(w, b, p);
        RangeBitIn(from, to, b);
      } else {
        Beyond(XorRangeWords(w, from, to), b);
        Beyond(w, b);
      }
    }
  }

  lemma AndKeepBit(x: bv64, z: bv64, k: int, i: int, f: Pos, j: int, t: Pos, p: Pos)
    requires z == x & KeepWord(k, i, f, j, t)
    ensures WordBit(z, p) == (WordBit(x, p) && !RangeBit(k, i, f, j, t, p))
  {
    AndWordBit(x, KeepWord(k, i, f, j, t), z, p);
    KeepWordBit(k, i, f, j, t, p);
  }

  /** `clear(from, to)` on the words: each word and-ed with its keep mask. */
  function AndKeepWords(w: seq<bv64>, from: nat, to: nat): (r: seq<bv64>)
    ensures |r| == |w|
  {
    seq(|w|, q => At(w, q) & KeepWord(q, from / 64, PosOf(from), to / 64, PosOf(to)))
  }

  lemma AndKeepWordsBit(w: seq<bv64>, from: nat, to: nat, k: int, p: Pos)
    requires 0 <= k < |w|
    ensures WordBit(AndKeepWords(w, from, to)[k], p) == (WordBit(w[k], p) && !RangeBit(k, from / 64, PosOf(from), to / 64, PosOf(to), p))
  {
    var i, f, j, t := from / 64, PosOf(from), to / 64, PosOf(to);
    AndKeepBit(w[k], AndKeepWords(w, from, to)[k], k, i, f, j, t, p);
  }

  /** And-ing the keep masks removes the range. */
  lemma AndKeepWordsIn(w: seq<bv64>, from: nat, to: nat, b: int)
    ensures In(AndKeepWords(w, from, to), b) <==> In(w, b) && !(from <= b < to)
  {
    if 0 <= b {
      var k, p := b / 64, PosOf(b);
      if k < |w| {
        AndKeepWordsBit(w, from, to, k, p);
        InPos(AndKeepWords(w, from, to), b, p);
        InPos(w, b, p);
        RangeBitIn(from, to, b);
      } else {
        Beyond(AndKeepWords(w, from, to), b);
        Beyond(w, b);
      }
    }
  }

  /** `clear(from, to)` on word `q`, holding `x`, combines it with the word's mask. */
  lemma AndKeepAt(w: seq<bv64>, from: nat, to: nat, q: int, x: bv64)
    requires 0 <= q < |w| && x == w[q]
    ensures AndKeepWords(w, from, to)[q] == x & KeepWord(q, from / 64, PosOf(from), to / 64, PosOf(to))
  {
  }

  /** `clear(from, to)` on a word strictly inside the range. */
  lemma AndKeepInner(w: seq<bv64>, from: nat, to: nat, q: int, x: bv64)
    requires from / 64 < q < to / 64 && q < |w| && x == w[q]
    ensures AndKeepWords(w, from, to)[q] == 0
  {
    AndZero(x);
  }

  /** `clear(from, to)` leaves a word outside the range alone. */
  lemma AndKeepOutside(w: seq<bv64>, from: nat, to: nat, q: int, x: bv64)
    requires 0 <= q < |w| && (q < from / 64 || to / 64 < q) && x == w[q]
    ensures AndKeepWords(w, from, to)[q] == x
  {
    AndAllOnes(x);
  }

  /** `set(from, to)` on word `q`, holding `x`, combines it with the word's mask. */
  lemma OrRangeAt(w: seq<bv64>, from: nat, to: nat, q: int, x: bv64)
    requires 0 <= q < |w| && x == w[q]
    ensures OrRangeWords(w, from, to)[q] == x | RangeWord(q, from / 64, PosOf(from), to / 64, PosOf(to))
  {
  }

  /** `set(from, to)` on a word strictly inside the range. */
  lemma OrRangeInner(w: seq<bv64>, from: nat, to: nat, q: int, x: bv64)
    requires from / 64 < q < to / 64 && q < |w| && x == w[q]
    ensures OrRangeWords(w, from, to)[q] == ALL_ONES
  {
    OrAllOnes(x);
  }

  /** `set(from, to)` leaves a word outside the range alone. */
  lemma OrRangeOutside(w: seq<bv64>, from: nat, to: nat, q: int, x: bv64)
    requires 0 <= q < |w| && (q < from / 64 || to / 64 < q) && x == w[q]
    ensures OrRangeWords(w, from, to)[q] == x
  {
    OrZero(x);
  }

  /** `flip(from, to)` on word `q`, holding `x`, combines it with the word's mask. */
  lemma XorRangeAt(w: seq<bv64>, from: nat, to: nat, q: int, x: bv64)
    requires 0 <= q < |w| && x == w[q]
    ensures XorRangeWords(w, from, to)[q] == x ^ RangeWord(q, from / 64, PosOf(from), to / 64, PosOf(to))
  {
  }

  /** `flip(from, to)` on a word strictly inside the range. */
  lemma XorRangeInner(w: seq<bv64>, from: nat, to: nat, q: int, x: bv64)
    requires from / 64 < q < to / 64 && q < |w| && x == w[q]
    ensures XorRangeWords(w, from, to)[q] == x ^ ALL_ONES
  {
  }

  /** `flip(from, to)` leaves a word outside the range alone. */
  lemma XorRangeOutside(w: seq<bv64>, from: nat, to: nat, q: int, x: bv64)
    requires 0 <= q < |w| && (q < from / 64 || to / 64 < q) && x == w[q]
    ensures XorRangeWords(w, from, to)[q] == x
  {
    XorZero(x);
  }

  /** `clear(from, to)` on a range that starts beyond the words changes nothing. */
  lemma AndKeepBeyond(w: seq<bv64>, from: nat, to: nat)
    requires |w| <= from / 64
    ensures AndKeepWords(w, from, to) == w
  {
    forall q | 0 <= q < |w|
      ensures AndKeepWords(w, from, to)[q] == w[q]
    {
      AndKeepOutside(w, from, to, q, w[q]);
    }
  }

  /** `set(from, to)` on a range that starts beyond the words changes nothing. */
  lemma OrRangeBeyond(w: seq<bv64>, from: nat, to: nat)
    requires |w| <= from / 64
    ensures OrRangeWords(w, from, to) == w
  {
    forall q | 0 <= q < |w|
      ensures OrRangeWords(w, from, to)[q] == w[q]
    {
      OrRangeOutside(w, from, to, q, w[q]);
    }
  }

  /** `flip(from, to)` on a range that starts beyond the words changes nothing. */
  lemma XorRangeBeyond(w: seq<bv64>, from: nat, to: nat)
    requires |w| <= from / 64
    ensures XorRangeWords(w, from, to) == w
  {
    forall q | 0 <= q < |w|
      ensures XorRangeWords(w, from, to)[q] == w[q]
    {
      XorRangeOutside(w, from, to, q, w[q]);
    }
  }

  /**
   * `clear(from, to)` word by word: the first and last words of the range take
   * their masks, the words between them take their inner value and every
   * other word is left alone.
   */
  lemma AndKeepAssembled(w: seq<bv64>, from: nat, to: nat, s: seq<bv64>)
    requires from <= to && from / 64 < |w| && |s| == |w|
    requires s[from / 64] == AndKeepWords(w, from, to)[from / 64]
    requires to / 64 < |w| ==> s[to / 64] == AndKeepWords(w, from, to)[to / 64]
    requires forall q :: from / 64 < q < to / 64 && q < |s| ==> s[q] == 0
    requires forall q :: 0 <= q < |s| && (q < from / 64 || to / 64 < q) ==> s[q] == w[q]
    ensures s == AndKeepWords(w, from, to)
  {
    forall q | 0 <= q < |s|
      ensures s[q] == AndKeepWords(w, from, to)[q]
    {
      if q == from / 64 || q == to / 64 {
      } else if q < from / 64 || to / 64 < q {
        AndKeepOutside(w, from, to, q, w[q]);
      } else {
        AndKeepInner(w, from, to, q, w[q]);
      }
    }
  }

  /**
   * `set(from, to)` word by word: the first and last words of the range take
   * their masks, the words between them take their inner value and every
   * other word is left alone.
   */
  lemma OrRangeAssembled(w: seq<bv64>, from: nat, to: nat, s: seq<bv64>)
    requires from <= to && from / 64 < |w| && |s| == |w|
    requires s[from / 64] == OrRangeWords(w, from, to)[from / 64]
    requires to / 64 < |w| ==> s[to / 64] == OrRangeWords(w, from, to)[to / 64]
    requires forall q :: from / 64 < q < to / 64 && q < |s| ==> s[q] == ALL_ONES
    requires forall q :: 0 <= q < |s| && (q < from / 64 || to / 64 < q) ==> s[q] == w[q]
    ensures s == OrRangeWords(w, from, to)
  {
    forall q | 0 <= q < |s|
      ensures s[q] == OrRangeWords(w, from, to)[q]
    {
      if q == from / 64 || q == to / 64 {
      } else if q < from / 64 || to / 64 < q {
        OrRangeOutside(w, from, to, q, w[q]);
      } else {
        OrRangeInner(w, from, to, q, w[q]);
      }
    }
  }

  /**
   * `flip(from, to)` word by word: the first and last words of the range take
   * their masks, the words between them take their inner value and every
   * other word is left alone.
   */
  lemma XorRangeAssembled(w: seq<bv64>, from: nat, to: nat, s: seq<bv64>)
    requires from <= to && from / 64 < |w| && |s| == |w|
    requires s[from / 64] == XorRangeWords(w, from, to)[from / 64]
    requires to / 64 < |w| ==> s[to / 64] == XorRangeWords(w, from, to)[to / 64]
    requires forall q :: from / 64 < q < to / 64 && q < |s| ==> s[q] == w[q] ^ ALL_ONES
    requires forall q :: 0 <= q < |s| && (q < from / 64 || to / 64 < q) ==> s[q] == w[q]
    ensures s == XorRangeWords(w, from, to)
  {
    forall q | 0 <= q < |s|
      ensures s[q] == XorRangeWords(w, from, to)[q]
    {
      if q == from / 64 || q == to / 64 {
      } else if q < from / 64 || to / 64 < q {
        XorRangeOutside(w, from, to, q, w[q]);
      } else {
        XorRangeInner(w, from, to, q, w[q]);
      }
    }
  }

  // ------------------------------------------------------------------
  // Searching
  // ------------------------------------------------------------------

  /** `nextSetBit(f)`: the least member at or above `f`, or -1. */
  function NextSet(words: seq<bv64>, f: nat): (r: int)
    ensures r == -1 || (f <= r && In(words, r))
    ensures forall b :: f <= b && (r == -1 || b < r) ==> !In(words, b)
    decreases 64 * |words| - f
  {
    if f >= 64 * |words| then
      assert forall b :: f <= b ==> !In(words, b) by {
        forall b | f <= b {
          BeyondWords(words, b);
        }
      }
      -1
    else if In(words, f) then f
    else NextSet(words, f + 1)
  }

  /** `nextClearBit(f)`: the least index at or above `f` that is not a member. */
  function NextClear(words: seq<bv64>, f: nat): (r: int)
    ensures f <= r && !In(words, r)
    ensures forall b :: f <= b < r ==> In(words, b)
    decreases 64 * |words| - f
  {
    if f >= 64 * |words| then
      BeyondWords(words, f);
      f
    else if !In(words, f) then f
    else NextClear(words, f + 1)
  }

  lemma BeyondWordsContra(words: seq<bv64>, b: int)
    requires In(words, b)
    ensures b < 64 * |words|
  {
    if b >= 64 * |words| {
      BeyondWords(words, b);
    }
  }

  /** The scan's test `(h & mask) != 0`, with `h` the word of `i` and `mask` its one-bit mask. */
  lemma ScanTest(words: seq<bv64>, i: int, k: int, p: Pos, h: bv64)
    requires 0 <= i && k == i / 64 && p == PosOf(i) && k < |words| && h == words[k]
    ensures (h & OneBit(p) != 0) <==> In(words, i)
  {
    MaskTest(h, p);
    InPos(words, i, p);
  }

  /**
   * The scan's step `mask <<= 1; i++`: the mask follows `i` within the word
   * and becomes zero when `i` moves on to the next word, whose mask is 1.
   */
  lemma ScanAdvance(i: int)
    requires 0 <= i
    ensures OneBit(PosOf(i)) << 1 == if i % 64 < 63 then OneBit(PosOf(i + 1)) else 0
    ensures i % 64 < 63 ==> (i + 1) / 64 == i / 64
    ensures i % 64 == 63 ==> (i + 1) / 64 == i / 64 + 1 && OneBit(PosOf(i + 1)) == 1
  {
    MaskStep(PosOf(i));
    PosValue(i);
    if i % 64 < 63 {
      PosSucc(i);
    } else {
      assert (i + 1) % 64 == 0;
    }
  }

  /**
   * One step of the scan past a position whose bit is not `want`: the search
   * from `i` is the search from `i + 1`, and the shifted mask is the mask of
   * `i + 1`, or zero when `i + 1` starts the next word.
   */
  lemma ScanStep(words: seq<bv64>, i: int, h: bv64, mask: bv64, want: bool)
    requires 0 <= i && i / 64 < |words| && h == words[i / 64] && mask == OneBit(PosOf(i))
    requires (h & mask != 0) != want
    ensures mask << 1 == 0 ==> i + 1 == 64 * (i / 64) + 64 && OneBit(PosOf(i + 1)) == 1
    ensures mask << 1 != 0 ==> (i + 1) / 64 == i / 64 && mask << 1 == OneBit(PosOf(i + 1))
    ensures want ==> NextSet(words, i) == NextSet(words, i + 1)
    ensures !want ==> NextClear(words, i) == NextClear(words, i + 1)
  {
    ScanTest(words, i, i / 64, PosOf(i), h);
    ScanAdvance(i);
  }

  /** A member with no member before it, from `f` on, is the one `NextSet` names. */
  lemma {:induction false} NextSetIs(words: seq<bv64>, f: nat, r: int)
    requires f <= r && In(words, r)
    requires forall b :: f <= b < r ==> !In(words, b)
    ensures NextSet(words, f) == r
    decreases r - f
  {
    BeyondWordsContra(words, r);
    if f < r {
      NextSetIs(words, f + 1, r);
    }
  }

  lemma {:induction false} NextClearIs(words: seq<bv64>, f: nat, r: int)
    requires f <= r && !In(words, r)
    requires forall b :: f <= b < r ==> In(words, b)
    ensures NextClear(words, f) == r
    decreases r - f
  {
    if f < r {
      BeyondWordsContra(words, f);
      NextClearIs(words, f + 1, r);
    }
  }

  // ------------------------------------------------------------------
  // Counting and summing
  // ------------------------------------------------------------------

  /** The number of members below `n`. */
  function CountBelow(words: seq<bv64>, n: int): (r: nat)
    ensures n <= 0 ==> r == 0
    decreases n
  {
    if n <= 0 then 0 else CountBelow(words, n - 1) + (if In(words, n - 1) then 1 else 0)
  }

  /** `MathLib.bitCount`: the number of set positions below `n` in a word. */
  function BitCountBelow(w: bv64, n: int): (r: nat)
    requires 0 <= n <= 64
  {
    if n == 0 then 0 else BitCountBelow(w, n - 1) + (if BitAt(w, n - 1) then 1 else 0)
  }

  function BitCount(w: bv64): nat {
    BitCountBelow(w, 64)
  }

  /** Counting a word's members up to index `b`, position `p` of word `k`, is counting its set positions. */
  lemma {:induction false} CountWordPrefix(words: seq<bv64>, k: nat, p: int, b: int)
    requires 0 <= p <= 64 && b == 64 * k + p
    ensures CountBelow(words, b) == CountBelow(words, 64 * k) + BitCountBelow(At(words, k), p)
  {
    if p > 0 {
      CountWordPrefix(words, k, p - 1, b - 1);
      InWordAt(words, k, p - 1, b - 1);
    }
  }

  lemma CountWord(words: seq<bv64>, k: nat)
    ensures CountBelow(words, 64 * (k + 1)) == CountBelow(words, 64 * k) + BitCount(At(words, k))
  {
    CountWordPrefix(words, k, 64, 64 * (k + 1));
  }

  /** `sum += bitCount(x)` for the word `x` at `k` adds the members of word `k`. */
  lemma CountStep(words: seq<bv64>, k: nat, x: bv64)
    requires k < |words| && x == words[k]
    ensures CountBelow(words, 64 * (k + 1)) == CountBelow(words, 64 * k) + BitCount(x)
  {
    CountWord(words, k);
  }

  /** The sum of the members below `n`, as exact integers. */
  function SumBelow(words: seq<bv64>, n: int): int
    decreases n
  {
    if n <= 0 then 0 else SumBelow(words, n - 1) + (if In(words, n - 1) then n - 1 else 0)
  }

  /** A member adds itself to the sum. */
  lemma SumStep(words: seq<bv64>, i: int)
    requires In(words, i)
    ensures SumBelow(words, i + 1) == SumBelow(words, i) + i
  {
  }

  /** No member lies in `[f, g)`, so the sum steps over the gap. */
  lemma {:induction false} SumGap(words: seq<bv64>, f: int, g: int)
    requires 0 <= f <= g
    requires forall b :: f <= b < g ==> !In(words, b)
    ensures SumBelow(words, g) == SumBelow(words, f)
    decreases g - f
  {
    if f < g {
      SumGap(words, f, g - 1);
    }
  }

  // ------------------------------------------------------------------
  // Highest member
  // ------------------------------------------------------------------

  /** The highest member below `n` plus one, or 0 if there is none. */
  function HighestPlusOne(words: seq<bv64>, n: int): (r: int)
    ensures 0 <= r <= (if n < 0 then 0 else n)
    ensures r > 0 ==> In(words, r - 1)
    ensures forall b :: r <= b < n ==> !In(words, b)
    decreases n
  {
    if n <= 0 then 0 else if In(words, n - 1) then n else HighestPlusOne(words, n - 1)
  }

  /** The highest set position below `n` of a word plus one, or 0. */
  function WordHighestPlusOne(w: bv64, n: int): (r: int)
    requires 0 <= n <= 64
    ensures 0 <= r <= n
    ensures r > 0 ==> BitAt(w, r - 1)
    ensures forall p :: r <= p < n ==> !BitAt(w, p)
  {
    if n == 0 then 0 else if BitAt(w, n - 1) then n else WordHighestPlusOne(w, n - 1)
  }

  /** `MathLib.numberOfLeadingZeros`: the clear positions above the highest set one. */
  function LeadingZeros(w: bv64): (r: int)
    ensures 0 <= r <= 64
    ensures r < 64 ==> BitAt(w, 63 - r)
    ensures forall p :: 64 - r <= p < 64 ==> !BitAt(w, p)
  {
    64 - WordHighestPlusOne(w, 64)
  }

  /** `MathLib.numberOfTrailingZeros`: the clear positions below the lowest set one. */
  function TrailingZeros(w: bv64): (r: int)
    ensures 0 <= r <= 64
    ensures r < 64 ==> BitAt(w, r)
    ensures forall p :: 0 <= p < r ==> !BitAt(w, p)
  {
    TrailingFrom(w, 0)
  }

  function TrailingFrom(w: bv64, p: int): (r: int)
    requires 0 <= p <= 64
    ensures p <= r <= 64
    ensures r < 64 ==> BitAt(w, r)
    ensures forall q :: p <= q < r ==> !BitAt(w, q)
    decreases 64 - p
  {
    if p == 64 || BitAt(w, p) then p else TrailingFrom(w, p + 1)
  }

  /** A member with no member above it, below `n`, is the one `HighestPlusOne` names. */
  lemma {:induction false} HighestIs(words: seq<bv64>, n: int, r: int)
    requires 0 < r <= n && In(words, r - 1)
    requires forall b :: r <= b < n ==> !In(words, b)
    ensures HighestPlusOne(words, n) == r
    decreases n
  {
    if n > r {
      HighestIs(words, n - 1, r);
    }
  }

  /** Position `p` of a word, seen as an integer position. */
  lemma PosOfPos(p: Pos)
    ensures 0 <= p as int < 64 && PosOf(p as int) == p
  {
  }

  /** A word other than zero has a highest set position. */
  lemma WordHighestNonZero(w: bv64)
    requires w != 0
    ensures WordHighestPlusOne(w, 64) > 0
  {
    var p := SetPos(w);
    PosOfPos(p);
    assert BitAt(w, p as int);
  }

  /** Above the highest position of word `k`, and in the clear words above it, there is no member. */
  lemma NoneAbove(words: seq<bv64>, k: nat, b: int)
    requires k < |words| && 64 * k + WordHighestPlusOne(words[k], 64) <= b
    requires forall q :: k < q < |words| ==> words[q] == 0
    ensures !In(words, b)
  {
    if b / 64 == k {
      assert b == 64 * k + b % 64;
      InWord(words, k, b % 64);
    } else {
      InPos(words, b, PosOf(b));
      ZeroWord(PosOf(b));
    }
  }

  /** With every word above `k` clear, the highest member lies in word `k`. */
  lemma HighestInWord(words: seq<bv64>, k: nat)
    requires k < |words| && words[k] != 0
    requires forall q :: k < q < |words| ==> words[q] == 0
    ensures HighestPlusOne(words, 64 * |words|) == 64 * k + WordHighestPlusOne(words[k], 64)
  {
    var h := WordHighestPlusOne(words[k], 64);
    WordHighestNonZero(words[k]);
    InWord(words, k, h - 1);
    forall b | 64 * k + h <= b < 64 * |words|
      ensures !In(words, b)
    {
      NoneAbove(words, k, b);
    }
    HighestIs(words, 64 * |words|, 64 * k + h);
  }

  /** With every word clear there is no member. */
  lemma NoneInWords(words: seq<bv64>, b: int)
    requires forall q :: 0 <= q < |words| ==> words[q] == 0
    ensures !In(words, b)
  {
    if 0 <= b {
      ZeroWord(PosOf(b));
    }
  }

  // ------------------------------------------------------------------
  // Logical length
  // ------------------------------------------------------------------

  /**
   * `setLength(n)` seen on the live words: the first `n` words are kept and
   * new ones read as zero.
   */
  function Resized(words: seq<bv64>, n: nat): (r: seq<bv64>)
    ensures |r| == n
    ensures forall k :: 0 <= k < n ==> r[k] == At(words, k)
  {
    seq(n, k => At(words, k))
  }

  /** Resizing keeps the members below the new end and drops the others. */
  lemma ResizedIn(words: seq<bv64>, n: nat, b: int)
    ensures In(Resized(words, n), b) <==> In(words, b) && b < 64 * n
  {
    if b >= 64 * n {
      BeyondWords(Resized(words, n), b);
    }
  }

  /** Growing to at least `n` words, as `setLength` does when asked for more words. */
  function Widened(words: seq<bv64>, n: nat): (r: seq<bv64>)
    ensures |r| == if |words| < n then n else |words|
  {
    Resized(words, if |words| < n then n else |words|)
  }

  /** Growing adds no member. */
  lemma WidenedIn(words: seq<bv64>, n: nat, b: int)
    ensures In(Widened(words, n), b) <==> In(words, b)
  {
    ResizedIn(words, if |words| < n then n else |words|, b);
    if In(words, b) {
      BeyondWordsContra(words, b);
    }
  }

  // ------------------------------------------------------------------
  // Whole sets
  // ------------------------------------------------------------------

  /** A member in a word that is not zero. */
  lemma MemberOfWord(words: seq<bv64>, k: nat) returns (b: int)
    requires k < |words| && words[k] != 0
    ensures In(words, b) && b / 64 == k
  {
    var p := SetPos(words[k]);
    IndexOfPos(k, p);
    b := 64 * k + p as int;
    InPos(words, b, p);
  }

  /** A member lies in a word that is not zero. */
  lemma WordOfMember(words: seq<bv64>, b: int)
    requires In(words, b)
    ensures b / 64 < |words| && words[b / 64] != 0
  {
    BeyondWordsContra(words, b);
    InPos(words, b, PosOf(b));
    if words[b / 64] == 0 {
      ZeroWord(PosOf(b));
    }
  }

  /** A bit set has a member exactly when one of its words is not zero. */
  lemma SomeMemberIff(words: seq<bv64>)
    ensures (exists k :: 0 <= k < |words| && words[k] != 0) <==> (exists b :: In(words, b))
  {
    if k :| 0 <= k < |words| && words[k] != 0 {
      var b := MemberOfWord(words, k);
    }
    if b :| In(words, b) {
      WordOfMember(words, b);
    }
  }

  /** Two sets of words agree word by word exactly when they have the same members. */
  lemma SameMembersIff(a: seq<bv64>, c: seq<bv64>)
    ensures (forall k :: 0 <= k ==> At(a, k) == At(c, k)) <==> (forall b :: In(a, b) <==> In(c, b))
  {
    if forall k :: 0 <= k ==> At(a, k) == At(c, k) {
      forall b | 0 <= b
        ensures In(a, b) <==> In(c, b)
      {
        InPos(a, b, PosOf(b));
        InPos(c, b, PosOf(b));
      }
    } else {
      var k :| 0 <= k && At(a, k) != At(c, k);
      var p := DiffPos(At(a, k), At(c, k));
      IndexOfPos(k, p);
      var b := 64 * k + p as int;
      InPos(a, b, p);
      InPos(c, b, p);
    }
  }

  /** Two sets intersect exactly when some word of their `and` is not zero. */
  lemma IntersectsIff(a: seq<bv64>, c: seq<bv64>)
    ensures (exists k :: 0 <= k < |AndWords(a, c)| && AndWords(a, c)[k] != 0) <==> (exists b :: In(a, b) && In(c, b))
  {
    SomeMemberIff(AndWords(a, c));
    forall b {
      AndIn(a, c, b);
    }
  }

  /** A word the two sets share a bit of gives them a common member. */
  lemma CommonWord(a: seq<bv64>, c: seq<bv64>, q: int)
    requires 0 <= q < |a| && q < |c| && a[q] & c[q] != 0
    ensures exists b :: In(a, b) && In(c, b)
  {
    IntersectsIff(a, c);
    assert AndWords(a, c)[q] != 0;
  }

  /** Sets whose shared words have no bit in common have no common member. */
  lemma DisjointWords(a: seq<bv64>, c: seq<bv64>)
    requires forall q :: 0 <= q < |a| && q < |c| ==> a[q] & c[q] == 0
    ensures !exists b :: In(a, b) && In(c, b)
  {
    IntersectsIff(a, c);
    var s := AndWords(a, c);
    forall k | 0 <= k < |s|
      ensures s[k] == 0
    {
      assert s[k] == a[k] & c[k];
    }
  }

  /** With every word clear, no member is highest. */
  lemma HighestNone(words: seq<bv64>, n: int)
    requires forall q :: 0 <= q < |words| ==> words[q] == 0
    ensures HighestPlusOne(words, n) == 0
  {
    var r := HighestPlusOne(words, n);
    if r > 0 {
      NoneInWords(words, r - 1);
    }
  }

  /** No member lies beyond the words, so counting stops growing there. */
  lemma {:induction false} CountBeyond(words: seq<bv64>, n: int)
    requires n >= 64 * |words|
    ensures CountBelow(words, n) == CountBelow(words, 64 * |words|)
    decreases n
  {
    if n > 64 * |words| {
      BeyondWords(words, n - 1);
      CountBeyond(words, n - 1);
    }
  }

  // ------------------------------------------------------------------
  // Shifting a word left, and selecting a member by rank
  // ------------------------------------------------------------------

  /** `x` shifted left `s` places, one place at a time (zeros come in at the bottom). */
  function ShiftLeft(x: bv64, s: nat): bv64
    decreases s
  {
    if s == 0 then x else ShiftLeft(x, s - 1) << 1
  }

  /** Java's `l << s` on a `long`: the distance is taken modulo 64. */
  function ShlLong(x: bv64, s: int): bv64
    requires 0 <= s
  {
    ShiftLeft(x, s % 64)
  }

  /** Below 64 the Java distance is the distance itself. */
  lemma ShlLongSmall(x: bv64, s: int)
    requires 0 <= s < 64
    ensures ShlLong(x, s) == ShiftLeft(x, s)
  {
    assert s % 64 == s;
  }

  lemma ShlOneBit(y: bv64, k: Pos)
    ensures WordBit(y << 1, k) <==> (1 <= k && WordBit(y, k - 1))
  {
  }

  lemma ShlOneBitAt(z: bv64, y: bv64, p: int, k: Pos, k1: Pos)
    requires z == y << 1
    requires 1 <= p < 64 && k == PosOf(p) && k1 == PosOf(p - 1) && k1 + 1 == k
    ensures BitAt(z, p) <==> BitAt(y, p - 1)
  {
    ShlOneBit(y, k);
  }

  lemma ShlOneBitZero(y: bv64)
    ensures !BitAt(y << 1, 0)
  {
    ShlOneBit(y, 0);
  }

  /** One more place of shift moves each position up by one... */
  lemma ShiftLeftStep(x: bv64, s: nat, p: int, k: Pos, k1: Pos)
    requires 0 < s && 1 <= p < 64 && k == PosOf(p) && k1 == PosOf(p - 1) && k1 + 1 == k
    ensures BitAt(ShiftLeft(x, s), p) <==> BitAt(ShiftLeft(x, s - 1), p - 1)
  {
    ShlOneBitAt(ShiftLeft(x, s), ShiftLeft(x, s - 1), p, k, k1);
  }

  /** ...and leaves position 0 clear. */
  lemma ShiftLeftZero(x: bv64, s: nat)
    requires 0 < s
    ensures !BitAt(ShiftLeft(x, s), 0)
  {
    ShlOneBitZero(ShiftLeft(x, s - 1));
  }

  /** Shifting left by `s` moves position `p - s` to `p`. */
  lemma {:induction false} ShiftLeftBit(x: bv64, s: nat, p: int)
    requires 0 <= p < 64
    ensures BitAt(ShiftLeft(x, s), p) <==> (s <= p && BitAt(x, p - s))
  {
    if s > 0 {
      if p >= 1 {
        PosSucc(p - 1);
        ShiftLeftStep(x, s, p, PosOf(p), PosOf(p - 1));
        ShiftLeftBit(x, s - 1, p - 1);
      } else {
        ShiftLeftZero(x, s);
      }
    }
  }

  /** Position `p` of `x` is position `q = p + s` after the shift. */
  lemma ShiftLeftMoves(x: bv64, s: nat, l: bv64, p: int, q: int)
    requires l == ShiftLeft(x, s) && 0 <= p && q == p + s && q < 64
    ensures BitAt(l, q) <==> BitAt(x, p)
  {
    ShiftLeftBit(x, s, q);
  }

  /** Two shifts in a row are one shift by the sum. */
  lemma {:induction false} ShiftLeftAdd(x: bv64, a: nat, b: nat)
    ensures ShiftLeft(ShiftLeft(x, a), b) == ShiftLeft(x, a + b)
  {
    if b > 0 {
      ShiftLeftAdd(x, a, b - 1);
    }
  }

  /** No set position in `[a, b)`: the count below `b` is the count below `a`. */
  lemma {:induction false} BitCountGap(w: bv64, a: int, b: int)
    requires 0 <= a <= b <= 64
    requires forall p :: a <= p < b ==> !BitAt(w, p)
    ensures BitCountBelow(w, b) == BitCountBelow(w, a)
    decreases b
  {
    if a < b {
      BitCountGap(w, a, b - 1);
    }
  }

  /** A positive count below `n` has a set position below `n` behind it. */
  lemma {:induction false} BitCountPositive(w: bv64, n: int) returns (p: int)
    requires 0 <= n <= 64 && BitCountBelow(w, n) > 0
    ensures 0 <= p < n && BitAt(w, p)
  {
    if BitAt(w, n - 1) {
      p := n - 1;
    } else {
      p := BitCountPositive(w, n - 1);
    }
  }

  /** Exactly one set position in `[top, off)`, at `top`: it adds one to the count. */
  lemma BitCountTop(w: bv64, top: int, off: int)
    requires 0 <= top < off <= 64 && BitAt(w, top)
    requires forall p :: top < p < off ==> !BitAt(w, p)
    ensures BitCountBelow(w, off) == BitCountBelow(w, top) + 1
  {
    BitCountGap(w, top + 1, off);
  }

  /** A set position `q` lies at or below the highest one. */
  lemma LeadingZerosBelow(l: bv64, q: int, n: int)
    requires 0 <= q < 64 && BitAt(l, q)
    requires 0 <= n <= 64 && forall p :: 64 - n <= p < 64 ==> !BitAt(l, p)
    ensures n <= 63 - q
  {
  }

  /** Clear top positions of the shifted word are clear positions of the word. */
  lemma ShiftedNoneAbove(w: bv64, s: nat, l: bv64, n: int)
    requires l == ShiftLeft(w, s) && s <= 64 && 0 <= n <= 64 - s
    requires forall p :: 64 - n <= p < 64 ==> !BitAt(l, p)
    ensures forall p :: 64 - s - n <= p < 64 - s ==> !BitAt(w, p)
  {
    forall p | 64 - s - n <= p < 64 - s
      ensures !BitAt(w, p)
    {
      ShiftLeftMoves(w, s, l, p, p + s);
    }
  }

  /**
   * One round of `valueOf`'s inner loop. The word `l` holds the positions of
   * `w` below `off`, shifted to the top. Its highest position, `n` places
   * below the top (`numberOfLeadingZeros`), is the highest set position of
   * `w` below `off`; shifting it out leaves the positions below that one,
   * shifted to the top.
   */
  lemma SelectStep(w: bv64, off: int, l: bv64, n: int)
    requires 0 < off <= 64 && l == ShiftLeft(w, 64 - off) && BitCountBelow(w, off) > 0
    requires 0 <= n <= 64 && (n < 64 ==> BitAt(l, 63 - n))
    requires forall p :: 64 - n <= p < 64 ==> !BitAt(l, p)
    ensures n < off && BitAt(w, off - (n + 1))
    ensures BitCountBelow(w, off) == BitCountBelow(w, off - (n + 1)) + 1
    ensures ShiftLeft(l, n + 1) == ShiftLeft(w, 64 - (off - (n + 1)))
  {
    var s := 64 - off;
    var p0 := BitCountPositive(w, off);
    ShiftLeftMoves(w, s, l, p0, p0 + s);
    LeadingZerosBelow(l, p0 + s, n);
    var top := off - (n + 1);
    ShiftLeftMoves(w, s, l, top, 63 - n);
    ShiftedNoneAbove(w, s, l, n);
    BitCountTop(w, top, off);
    ShiftLeftAdd(w, s, n + 1);
  }

  /**
   * The invariant of `valueOf`'s inner loop, carried over one round: `count`
   * members lie below position `off` of `w`, `lo` of them before the word,
   * and `l` holds the positions below `off` shifted to the top.
   */
  lemma SelectRound(w: bv64, off: int, l: bv64, nlz: int, count: int, lo: int, i: int,
                     off': int, l': bv64, count': int)
    requires lo <= i < count && 0 <= off <= 64 && count == lo + BitCountBelow(w, off)
    requires l == ShiftLeft(w, 64 - off) && nlz == LeadingZeros(l)
    requires off' == off - (nlz + 1) && l' == ShlLong(l, nlz + 1) && count' == count - 1
    ensures 0 <= off' <= 64 && BitAt(w, off')
    ensures count' == lo + BitCountBelow(w, off')
    ensures count' > i ==> l' == ShiftLeft(w, 64 - off')
  {
    assert BitCountBelow(w, off) > 0;
    assert off > 0;
    assert nlz < 64 ==> BitAt(l, 63 - nlz);
    assert forall p :: 64 - nlz <= p < 64 ==> !BitAt(l, p);
    SelectStep(w, off, l, nlz);
    if nlz + 1 < 64 {
      ShlLongSmall(l, nlz + 1);
    } else {
      assert off' == 0 && BitCountBelow(w, off') == 0;
    }
  }

  /** Below a member there are fewer members than below any index above it. */
  lemma {:induction false} CountBelowMember(words: seq<bv64>, a: int, b: int)
    requires 0 <= a < b && In(words, a)
    ensures CountBelow(words, a) < CountBelow(words, b)
    decreases b
  {
    if b > a + 1 {
      CountBelowMember(words, a, b - 1);
    }
  }

  /** Counting further never counts fewer. */
  lemma {:induction false} CountBelowMono(words: seq<bv64>, a: int, b: int)
    requires a <= b
    ensures CountBelow(words, a) <= CountBelow(words, b)
    decreases b - a
  {
    if a < b {
      CountBelowMono(words, a, b - 1);
    }
  }

  /**
   * Selection inside word `k`: the set position `off` of the word, with
   * `i` members below it, is the member of rank `i`.
   */
  lemma RankInWord(words: seq<bv64>, k: nat, l: bv64, i: int, off: int, b: int)
    requires k < |words| && l == words[k] && 0 <= off < 64 && b == 64 * k + off
    requires BitAt(l, off) && CountBelow(words, 64 * k) + BitCountBelow(l, off) == i
    ensures In(words, b) && CountBelow(words, b) == i
    ensures i < CountBelow(words, 64 * |words|)
  {
    InWordAt(words, k, off, b);
    CountWordPrefix(words, k, off, b);
    CountBelowMember(words, b, 64 * |words|);
  }

  /** The members of the first `k` words, counted word by word with `bitCount`. */
  function CountWords(words: seq<bv64>, k: nat): nat
    requires k <= |words|
  {
    if k == 0 then 0 else CountWords(words, k - 1) + BitCount(words[k - 1])
  }

  lemma {:induction false} CountWordsBelow(words: seq<bv64>, k: nat)
    requires k <= |words|
    ensures CountWords(words, k) == CountBelow(words, 64 * k)
  {
    if k > 0 {
      var j := k - 1;
      CountWordsBelow(words, j);
      CountWord(words, j);
      assert 64 * (j + 1) == 64 * k;
    }
  }

  /**
   * `valueOf` found the word: `j` words hold `count` members, `bitIndex` is
   * the set position of the last word that `SelectInWord` stopped at, and it
   * is the member of rank `i`.
   */
  lemma RankFound(words: seq<bv64>, j: nat, l: bv64, count: int, i: int, bitIndex: int)
    requires 0 < j <= |words| && l == words[j - 1] && count - BitCount(l) == CountWords(words, j - 1)
    requires j * 64 - 64 <= bitIndex < j * 64 && BitAt(l, bitIndex - (j * 64 - 64))
    requires count - BitCount(l) + BitCountBelow(l, bitIndex - (j * 64 - 64)) == i
    ensures In(words, bitIndex) && CountBelow(words, bitIndex) == i
    ensures i < CountBelow(words, 64 * |words|)
  {
    CountWordsBelow(words, j - 1);
    RankInWord(words, j - 1, l, i, bitIndex - (j * 64 - 64), bitIndex);
  }

  /** Two members with the same rank are the same member. */
  lemma RankInjective(words: seq<bv64>, a: int, b: int)
    requires In(words, a) && In(words, b) && CountBelow(words, a) == CountBelow(words, b)
    ensures a == b
  {
    if a < b {
      CountBelowMember(words, a, b);
    } else if b < a {
      CountBelowMember(words, b, a);
    }
  }
}
