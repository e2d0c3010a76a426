/**
 * javolution.util.internal.FastComparator: the hashing, equality and
 * ordering strategies DEFAULT, DIRECT, REHASH, STRING, IDENTITY and LEXICAL.
 *
 * Java objects are `Ref<R>` values: `Null` or a reference to an `R`, where
 * `==` on `R` is reference identity.  The host's `Object.hashCode`,
 * `Object.equals` and `System.identityHashCode` are function parameters, and
 * the configurable "rehash system hash codes" flag is a boolean parameter.
 */
module Comparators {
  import opened JavaLang

  datatype Ref<R> = Null | Obj(r: R)

  // ------------------------------------------------------------------
  // The REHASH bit mixer, on the 32 bits of a Java int.
  // ------------------------------------------------------------------

  /** `h += ~(h << 9); h ^= h >>> 14; h += h << 4; return h ^ h >>> 10;` */
  function Rehash(h: bv32): bv32
  {
    var a := h + !(h << 9);
    var b := a ^ (a >> 14);
    var c := b + (b << 4);
    c ^ (c >> 10)
  }

  // ------------------------------------------------------------------
  // DEFAULT, DIRECT, REHASH and STRING equality; DEFAULT, DIRECT, REHASH hashing.
  // ------------------------------------------------------------------

  /**
   * The `equals` contract the comparators rely on: nothing equals null and
   * equal objects have equal hash codes.
   */
  ghost predicate EqualsContract<R(!new)>(equals: (R, Ref<R>) -> bool, hashCode: R -> bv32)
  {
    (forall a :: !equals(a, Null)) &&
    (forall a, b :: equals(a, Obj(b)) ==> hashCode(a) == hashCode(b))
  }

  /** `o1 == null ? o2 == null : o1 == o2 || o1.equals(o2)`. */
  function NullSafeEquals<R(==)>(o1: Ref<R>, o2: Ref<R>, equals: (R, Ref<R>) -> bool): bool
  {
    match o1
    case Null => o2.Null?
    case Obj(a) => o1 == o2 || equals(a, o2)
  }

  lemma NullSafeEqualsMeaning<R(!new)>(o1: Ref<R>, o2: Ref<R>, equals: (R, Ref<R>) -> bool, hashCode: R -> bv32)
    requires EqualsContract(equals, hashCode)
    ensures NullSafeEquals(o1, o2, equals) <==>
      (o1.Null? && o2.Null?) || (o1.Obj? && o2.Obj? && (o1.r == o2.r || equals(o1.r, o2)))
  {
    if o1.Obj? && o2.Null? {
      assert !equals(o1.r, Null);
    }
  }

  function DirectHashCodeOf<R>(obj: Ref<R>, hashCode: R -> bv32): bv32
  {
    match obj
    case Null => 0
    case Obj(a) => hashCode(a)
  }

  function RehashHashCodeOf<R>(obj: Ref<R>, hashCode: R -> bv32): bv32
  {
    match obj
    case Null => 0
    case Obj(a) => Rehash(hashCode(a))
  }

  function DefaultHashCodeOf<R>(obj: Ref<R>, rehashFlag: bool, hashCode: R -> bv32): bv32
  {
    if obj.Null? then 0
    else if rehashFlag then RehashHashCodeOf(obj, hashCode)
    else hashCode(obj.r)
  }

  /**
   * DEFAULT, DIRECT and REHASH keep their documented promise: objects they
   * consider equal get equal hash codes, whether or not the rehash flag is set.
   */
  lemma {:induction false} HashConsistentWithEquals<R(!new)>(
    o1: Ref<R>, o2: Ref<R>, rehashFlag: bool, equals: (R, Ref<R>) -> bool, hashCode: R -> bv32)
    requires EqualsContract(equals, hashCode)
    requires NullSafeEquals(o1, o2, equals)
    ensures DirectHashCodeOf(o1, hashCode) == DirectHashCodeOf(o2, hashCode)
    ensures RehashHashCodeOf(o1, hashCode) == RehashHashCodeOf(o2, hashCode)
    ensures DefaultHashCodeOf(o1, rehashFlag, hashCode) == DefaultHashCodeOf(o2, rehashFlag, hashCode)
  {
    if o1.Obj? && o1 != o2 {
      assert equals(o1.r, o2);
      assert o2 != Null;
      assert hashCode(o1.r) == hashCode(o2.r);
    }
  }

  // ------------------------------------------------------------------
  // IDENTITY
  // ------------------------------------------------------------------

  /** `System.identityHashCode(obj)`, rehashed when the flag is set. */
  function IdentityHashCodeOf<R>(obj: Ref<R>, rehashFlag: bool, identityHash: Ref<R> -> bv32): bv32
  {
    if rehashFlag then Rehash(identityHash(obj)) else identityHash(obj)
  }

  /** Reference equality. */
  predicate IdentityAreEqual<R(==)>(o1: Ref<R>, o2: Ref<R>)
  {
    o1 == o2
  }

  // ------------------------------------------------------------------
  // STRING: a hash sampled from five characters.
  // ------------------------------------------------------------------

  /** The five sampled positions of a non-empty string of length `n`. */
  predicate SamePositionsSampled(s: seq<Char16>, t: seq<Char16>)
    requires |s| == |t| > 0
  {
    var n := |s|;
    s[0] == t[0] && s[n - 1] == t[n - 1] && s[n / 2] == t[n / 2] &&
    s[n / 4] == t[n / 4] && s[n - 1 - n / 4] == t[n - 1 - n / 4]
  }

  function StringHashCodeOf(obj: Ref<seq<Char16>>): (h: Int32)
    ensures obj.Null? || obj.r == [] ==> h == 0
  {
    if obj.Null? then 0
    else
      var s := obj.r;
      var n := |s|;
      if n == 0 then 0
      else Wrap32(s[0] as int + s[n - 1] as int * 31 + s[n / 2] as int * 1009 +
             s[n / 4] as int * 27583 + s[n - 1 - n / 4] as int * 73408859)
  }

  /**
   * The sampled hash reads only five characters: strings of one length that
   * agree there collide, whatever their other characters.
   */
  lemma StringHashSamplesOnly(s: seq<Char16>, t: seq<Char16>)
    requires |s| == |t| > 0 && SamePositionsSampled(s, t)
    ensures StringHashCodeOf(Obj(s)) == StringHashCodeOf(Obj(t))
  {
  }

  /** String.equals: the same characters. */
  function StringEquals(a: seq<Char16>, b: Ref<seq<Char16>>): bool
  {
    b == Obj(a)
  }

  /** STRING `compare`: String.compareTo, with a NullPointerException on null. */
  function StringCompare(o1: Ref<seq<Char16>>, o2: Ref<seq<Char16>>): (r: Result<int>)
    ensures r.Ok? <==> o1.Obj? && o2.Obj?
    ensures r.Ok? ==> (r.value == 0 <==> o1 == o2)
  {
    if o1.Null? || o2.Null? then Throw(NullPointer)
    else
      CompareZeroIffEqual(o1.r, o2.r);
      Ok(CompareChars(o1.r, o2.r))
  }

  // ------------------------------------------------------------------
  // LEXICAL: any CharSequence, compared character by character.
  // ------------------------------------------------------------------

  /** A String, a javolution Text, or any other CharSequence, with its characters. */
  datatype CharSequence = Str(chars: seq<Char16>) | Txt(chars: seq<Char16>) | Csq(chars: seq<Char16>)

  /** `31^k` */
  function Pow31(k: nat): nat
  {
    if k == 0 then 1 else 31 * Pow31(k - 1)
  }

  /** `s[0]*31^(n-1) + s[1]*31^(n-2) + ... + s[n-1]`, without wrap-around. */
  function PolySum(s: seq<Char16>): int
  {
    if |s| == 0 then 0 else s[0] as int * Pow31(|s| - 1) + PolySum(s[1..])
  }

  /** The `h = 31 * h + c` accumulation on Java ints: String.hashCode's formula. */
  function PolyHash(s: seq<Char16>): Int32
  {
    if |s| == 0 then 0 else Wrap32(31 * PolyHash(s[..|s| - 1]) + s[|s| - 1])
  }

  lemma {:induction false} PolySumSnoc(s: seq<Char16>, c: Char16)
    ensures PolySum(s + [c]) == 31 * PolySum(s) + c
  {
    if |s| == 0 {
      assert PolySum([c]) == c * Pow31(0) + PolySum([]);
    } else {
      assert (s + [c])[1..] == s[1..] + [c];
      PolySumSnoc(s[1..], c);
      assert Pow31(|s|) == 31 * Pow31(|s| - 1);
    }
  }

  /** The accumulated hash is the documented polynomial, reduced to 32 bits. */
  lemma {:induction false} PolyHashIsPolynomial(s: seq<Char16>)
    ensures PolyHash(s) == Wrap32(PolySum(s))
  {
    if |s| > 0 {
      var p, c := s[..|s| - 1], s[|s| - 1];
      assert s == p + [c];
      PolyHashIsPolynomial(p);
      PolySumSnoc(p, c);
      Wrap32MulAdd(PolySum(p), 31, c);
    }
  }

  /** What LEXICAL `hashCodeOf` returns; `textHash` is javolution's Text.hashCode. */
  function LexicalHash(obj: Ref<CharSequence>, textHash: seq<Char16> -> Int32): Int32
  {
    match obj
    case Null => 0
    case Obj(Txt(s)) => textHash(s)
    case Obj(other) => PolyHash(other.chars)
  }

  /** LEXICAL `hashCodeOf`, with its accumulation loop over a plain CharSequence. */
  method LexicalHashCodeOf(obj: Ref<CharSequence>, textHash: seq<Char16> -> Int32) returns (h: Int32)
    ensures h == LexicalHash(obj, textHash)
    ensures obj.Obj? && obj.r.Csq? ==> h == Wrap32(PolySum(obj.r.chars))
  {
    if obj.Null? {
      return 0;
    }
    if obj.r.Str? {
      return PolyHash(obj.r.chars);
    }
    if obj.r.Txt? {
      return textHash(obj.r.chars);
    }
    var chars := obj.r.chars;
    h := 0;
    var i := 0;
    while i < |chars|
      invariant 0 <= i <= |chars|
      invariant h == PolyHash(chars[..i])
    {
      assert chars[..i + 1][..i] == chars[..i];
      h := Wrap32(31 * h + chars[i]);
      i := i + 1;
    }
    assert chars[..i] == chars;
    PolyHashIsPolynomial(chars);
  }

  /** The documented LEXICAL equality: the same character sequence, null only equal to null. */
  predicate SameCharSequence(o1: Ref<CharSequence>, o2: Ref<CharSequence>)
  {
    (o1.Null? && o2.Null?) || (o1.Obj? && o2.Obj? && o1.r.chars == o2.r.chars)
  }

  /** The length test and character loop LEXICAL `areEqual` runs on two sequences. */
  method SameChars(s: seq<Char16>, t: seq<Char16>) returns (eq: bool)
    ensures eq <==> s == t
  {
    if |s| != |t| {
      return false;
    }
    var i := 0;
    while i < |s|
      invariant 0 <= i <= |s|
      invariant s[..i] == t[..i]
    {
      if s[i] != t[i] {
        return false;
      }
      i := i + 1;
    }
    assert s == s[..i] && t == t[..i];
    return true;
  }

  /** LEXICAL `areEqual`: String.equals for two Strings, otherwise the character loop. */
  method LexicalAreEqual(o1: Ref<CharSequence>, o2: Ref<CharSequence>) returns (eq: bool)
    ensures eq <==> SameCharSequence(o1, o2)
  {
    if o1.Obj? && o1.r.Str? && o2.Obj? && o2.r.Str? {
      return o1.r.chars == o2.r.chars;
    }
    if o1.Obj? && o2.Obj? && o2.r.Str? {
      eq := SameChars(o2.r.chars, o1.r.chars);
      return;
    }
    if o1.Obj? && o1.r.Str? && o2.Obj? {
      eq := SameChars(o1.r.chars, o2.r.chars);
      return;
    }
    if o1.Null? || o2.Null? {
      return o1 == o2;
    }
    eq := SameChars(o1.r.chars, o2.r.chars);
  }

  /**
   * Documented consistency of LEXICAL, given that Text hashes with String's
   * polynomial: equal character sequences have equal hash codes.
   */
  lemma LexicalHashConsistent(o1: Ref<CharSequence>, o2: Ref<CharSequence>, textHash: seq<Char16> -> Int32)
    requires forall s :: textHash(s) == PolyHash(s)
    requires SameCharSequence(o1, o2)
    ensures LexicalHash(o1, textHash) == LexicalHash(o2, textHash)
  {
  }

  /**
   * Lexicographic comparison as String.compareTo defines it: the difference of
   * the first differing characters, otherwise the difference of the lengths.
   */
  function CompareChars(s: seq<Char16>, t: seq<Char16>): int
  {
    if |s| == 0 || |t| == 0 then |s| - |t|
    else if s[0] != t[0] then s[0] as int - t[0] as int
    else CompareChars(s[1..], t[1..])
  }

  lemma {:induction false} CompareAntisymmetric(s: seq<Char16>, t: seq<Char16>)
    ensures CompareChars(s, t) == -CompareChars(t, s)
  {
    if |s| > 0 && |t| > 0 && s[0] == t[0] {
      CompareAntisymmetric(s[1..], t[1..]);
    }
  }

  lemma {:induction false} CompareZeroIffEqual(s: seq<Char16>, t: seq<Char16>)
    ensures CompareChars(s, t) == 0 <==> s == t
  {
    if |s| > 0 && |t| > 0 && s[0] == t[0] {
      CompareZeroIffEqual(s[1..], t[1..]);
      if s[1..] == t[1..] {
        assert s == [s[0]] + s[1..] && t == [t[0]] + t[1..];
      }
    }
  }

  lemma {:induction false} CompareTransitive(a: seq<Char16>, b: seq<Char16>, c: seq<Char16>)
    requires CompareChars(a, b) < 0 && CompareChars(b, c) < 0
    ensures CompareChars(a, c) < 0
  {
    if |a| > 0 && |b| > 0 && |c| > 0 && a[0] == b[0] && b[0] == c[0] {
      CompareTransitive(a[1..], b[1..], c[1..]);
    }
  }

  /** The character loop LEXICAL `compare` runs on two sequences. */
  method CompareLoop(s: seq<Char16>, t: seq<Char16>) returns (r: int)
    ensures r == CompareChars(s, t)
  {
    var n := if |s| < |t| then |s| else |t|;
    var i := 0;
    while i < n
      invariant 0 <= i <= n
      invariant CompareChars(s, t) == CompareChars(s[i..], t[i..])
    {
      if s[i] != t[i] {
        return s[i] as int - t[i] as int;
      }
      assert s[i..][1..] == s[i + 1..] && t[i..][1..] == t[i + 1..];
      i := i + 1;
    }
    return |s| - |t|;
  }

  /**
   * LEXICAL `compare`: String.compareTo for two Strings, the character loop
   * otherwise, and `-compare(right, left)` when only the right one is a
   * String; a null operand ends in a NullPointerException.
   */
  method LexicalCompare(left: Ref<CharSequence>, right: Ref<CharSequence>) returns (r: Result<int>)
    ensures left.Null? || right.Null? ==> r == Throw(NullPointer)
    ensures left.Obj? && right.Obj? ==> r == Ok(CompareChars(left.r.chars, right.r.chars))
    decreases if left.Obj? && left.r.Str? then 0 else 1
  {
    if left.Obj? && left.r.Str? {
      if right.Obj? && right.r.Str? {
        return Ok(CompareChars(left.r.chars, right.r.chars));
      }
      if right.Null? {
        return Throw(NullPointer);
      }
      var d := CompareLoop(left.r.chars, right.r.chars);
      return Ok(d);
    }
    if right.Obj? && right.r.Str? {
      var flipped := LexicalCompare(right, left);
      if flipped.Throw? {
        return flipped;
      }
      CompareAntisymmetric(left.r.chars, right.r.chars);
      return Ok(-flipped.value);
    }
    if left.Null? || right.Null? {
      return Throw(NullPointer);
    }
    var d := CompareLoop(left.r.chars, right.r.chars);
    return Ok(d);
  }
}
