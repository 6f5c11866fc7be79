/**
 * The parts of java.lang that the two tuple classes rely on: 32-bit `int`
 * arithmetic, the closed set of element values the model admits, runtime
 * class checks (`Class.cast`), `equals`, `hashCode` and `String.valueOf`
 * of an element.
 */
module JavaLang {

  // ---------------------------------------------------------------------
  // 32-bit int arithmetic
  // ---------------------------------------------------------------------

  /** Java's `int`. */
  type Int32 = x: int | -0x8000_0000 <= x < 0x8000_0000

  const Modulus32: int := 0x1_0000_0000

  /** Two's-complement narrowing, which every overflowing `int` operation performs. */
  function Wrap32(x: int): (r: Int32)
    ensures (x - r) % Modulus32 == 0
    ensures -0x8000_0000 <= x < 0x8000_0000 ==> r == x
  {
    (x + 0x8000_0000) % Modulus32 - 0x8000_0000
  }

  /** One step of a `31 * h + x` loop may wrap `h` early or late: the result is the same. */
  lemma WrapMul31(u: int, d: int)
    ensures Wrap32(31 * Wrap32(u) + d) == Wrap32(31 * u + d)
  {
  }

  /** One step of an `h += x` loop may wrap `h` early or late: the result is the same. */
  lemma WrapAdd(u: int, d: int)
    ensures Wrap32(Wrap32(u) + d) == Wrap32(u + d)
  {
  }

  function Pow31(n: nat): nat
  {
    if n == 0 then 1 else 31 * Pow31(n - 1)
  }

  /** The positional weighting `xs[0]·31^(n-1) + xs[1]·31^(n-2) + ... + xs[n-1]`. */
  function Weighted(xs: seq<int>): int
  {
    if |xs| == 0 then 0 else xs[0] * Pow31(|xs| - 1) + Weighted(xs[1..])
  }

  /**
   * The loop shared by `String.hashCode` and `Arrays.hashCode`:
   * `h = seed; for each x: h = 31 * h + x`, in `int` arithmetic.
   */
  function Fold31(seed: Int32, xs: seq<Int32>): Int32
  {
    if |xs| == 0 then seed else Wrap32(31 * Fold31(seed, xs[..|xs| - 1]) + xs[|xs| - 1])
  }

  lemma {:induction false} WeightedSnoc(ys: seq<int>, x: int)
    ensures Weighted(ys + [x]) == 31 * Weighted(ys) + x
  {
    if |ys| > 0 {
      calc {
        Weighted(ys + [x]);
        { assert (ys + [x])[1..] == ys[1..] + [x]; }
        ys[0] * Pow31(|ys|) + Weighted(ys[1..] + [x]);
        { WeightedSnoc(ys[1..], x); }
        ys[0] * (31 * Pow31(|ys| - 1)) + 31 * Weighted(ys[1..]) + x;
        { assert ys[0] * (31 * Pow31(|ys| - 1)) == 31 * (ys[0] * Pow31(|ys| - 1)); }
        31 * Weighted(ys) + x;
      }
    }
  }

  /**
   * The `31 * h + x` loop computes, modulo 2^32,
   * `seed·31^n + xs[0]·31^(n-1) + ... + xs[n-1]`: every element is weighted by
   * its position, and wrapping at every step equals wrapping once at the end.
   */
  lemma {:induction false} Fold31ClosedForm(seed: Int32, xs: seq<Int32>)
    ensures Fold31(seed, xs) == Wrap32(seed * Pow31(|xs|) + Weighted(xs))
  {
    if |xs| > 0 {
      var pre, last := xs[..|xs| - 1], xs[|xs| - 1];
      assert pre + [last] == xs;
      var u := seed * Pow31(|pre|) + Weighted(pre);
      calc {
        Fold31(seed, xs);
        Wrap32(31 * Fold31(seed, pre) + last);
        { Fold31ClosedForm(seed, pre); }
        Wrap32(31 * Wrap32(u) + last);
        { WrapMul31(u, last); }
        Wrap32(31 * u + last);
        { ScaleBy31(seed, Pow31(|pre|)); WeightedSnoc(pre, last); }
        Wrap32(seed * Pow31(|xs|) + Weighted(xs));
      }
    }
  }

  lemma ScaleBy31(a: int, b: int)
    ensures a * (31 * b) == 31 * (a * b)
  {
  }

  // ---------------------------------------------------------------------
  // Bitwise exclusive or on int
  // ---------------------------------------------------------------------

  function Pow2(n: nat): nat
  {
    if n == 0 then 1 else 2 * Pow2(n - 1)
  }

  /** Exclusive or of the low `n` bits of `a` and `b`, bit by bit from the lowest. */
  function XorBits(a: nat, b: nat, n: nat): (r: nat)
    ensures r < Pow2(n)
  {
    if n == 0 then 0
    else (if a % 2 == b % 2 then 0 else 1) + 2 * XorBits(a / 2, b / 2, n - 1)
  }

  lemma {:induction false} Pow2Add(a: nat, b: nat)
    ensures Pow2(a + b) == Pow2(a) * Pow2(b)
  {
    if a > 0 {
      Pow2Add(a - 1, b);
      assert Pow2(a + b) == 2 * Pow2(a - 1 + b);
    }
  }

  lemma Pow2Of32()
    ensures Pow2(32) == Modulus32
  {
    assert Pow2(4) == 16;
    Pow2Add(4, 4);
    Pow2Add(8, 8);
    Pow2Add(16, 16);
  }

  function ToUnsigned(x: Int32): (u: nat)
  {
    if x < 0 then x + Modulus32 else x
  }

  function FromUnsigned(u: nat): Int32
    requires u < Modulus32
  {
    if u >= 0x8000_0000 then u - Modulus32 else u
  }

  /** Java's `x ^ y` on `int`. */
  function Xor32(x: Int32, y: Int32): Int32
  {
    Pow2Of32();
    FromUnsigned(XorBits(ToUnsigned(x), ToUnsigned(y), 32))
  }

  /** Xor with zero leaves the low `n` bits alone. */
  lemma {:induction false} XorBitsWithZero(a: nat, n: nat)
    requires a < Pow2(n)
    ensures XorBits(a, 0, n) == a
  {
    if n > 0 {
      XorBitsWithZero(a / 2, n - 1);
    }
  }

  lemma {:induction false} XorBitsOfZeros(n: nat)
    ensures XorBits(0, 0, n) == 0
  {
    if n > 0 {
      XorBitsOfZeros(n - 1);
    }
  }

  /** Operands of at most `k` bits have an xor of at most `k` bits: the higher bits are all zero. */
  lemma {:induction false} XorBitsOfNarrow(a: nat, b: nat, k: nat, n: nat)
    requires a < Pow2(k) && b < Pow2(k) && k <= n
    ensures XorBits(a, b, n) == XorBits(a, b, k)
  {
    if k == 0 {
      XorBitsOfZeros(n);
    } else {
      XorBitsOfNarrow(a / 2, b / 2, k - 1, n - 1);
    }
  }

  lemma {:induction false} Pow2Monotone(k: nat, n: nat)
    requires k <= n
    ensures Pow2(k) <= Pow2(n)
  {
    if k < n {
      Pow2Monotone(k, n - 1);
    }
  }

  /** On operands of at most `k <= 31` bits, `^` is the xor of their low `k` bits. */
  lemma Xor32OfNarrow(x: Int32, y: Int32, k: nat)
    requires 0 <= x < Pow2(k) && 0 <= y < Pow2(k) && k <= 31
    ensures Xor32(x, y) == XorBits(x, y, k)
  {
    Pow2Of32();
    XorBitsOfNarrow(x, y, k, 32);
    Pow2Monotone(k, 31);
  }

  /** Xor with 1 clears the lowest bit of an odd operand. */
  lemma XorBitsWithOne(a: nat, n: nat)
    requires a % 2 == 1 && a < Pow2(n + 1)
    ensures XorBits(a, 1, n + 1) == a - 1
  {
    XorBitsWithZero(a / 2, n);
  }

  /** `-1 ^ 1 == -2`: all bits set except the lowest. */
  lemma Xor32OfMinusOne()
    ensures Xor32(-1, 1) == -2
  {
    Pow2Of32();
    XorBitsWithOne(Modulus32 - 1, 31);
  }

  /**
   * `^` on sample operands, negative ones included: `5 ^ 3 == 6`,
   * `-1 ^ 1 == -2`, and the key/value hashes of `"k1"` with `"v1"` and `"v2"`.
   */
  lemma Xor32Examples()
    ensures Xor32(5, 3) == 6
    ensures Xor32(-1, 1) == -2
    ensures Xor32(3366, 3707) == 861
    ensures Xor32(3366, 3708) == 858
  {
    assert Pow2(3) == 8;
    Xor32OfNarrow(5, 3, 3);
    assert Pow2(12) == 4096;
    Xor32OfNarrow(3366, 3707, 12);
    Xor32OfNarrow(3366, 3708, 12);
    Xor32OfMinusOne();
  }

  // ---------------------------------------------------------------------
  // Element values, runtime classes and casts
  // ---------------------------------------------------------------------

  /**
   * An element of a tuple: Java's `null`, a `String` or an `Integer`.
   * Characters are Unicode scalar values, not UTF-16 code units.
   */
  datatype Value = VNull | VStr(s: string) | VInt(i: Int32)

  /** The `Class<T>` objects a caller can pass as a type marker. */
  datatype TypeTag = ObjectClass | StringClass | IntegerClass

  /** The exceptions the accessors can throw. */
  datatype Exception = ArrayIndexOutOfBoundsException | ClassCastException

  /** A Java call that either returns a value or throws. */
  datatype Result<T> = Ok(value: T) | Throws(error: Exception)

  /**
   * The `Object o` argument of `equals`, as seen by class `T`: `null`,
   * an instance of `T`, or an instance of some other class.
   */
  datatype ObjectRef<T> = NullRef | SameClass(obj: T) | OtherClass

  /** The class `getClass()` returns for a non-null value. */
  function RuntimeClass(v: Value): (c: TypeTag)
    requires v != VNull
    ensures c != ObjectClass
  {
    match v
    case VStr(_) => StringClass
    case VInt(_) => IntegerClass
  }

  /** `type.isInstance(v)`: `String` and `Integer` both extend `Object`; `null` is an instance of nothing. */
  predicate IsInstance(v: Value, t: TypeTag)
  {
    v != VNull && (t == ObjectClass || t == RuntimeClass(v))
  }

  /** `type.cast(v)`: `null` and instances of `type` pass unchanged, anything else throws. */
  function Cast(v: Value, t: TypeTag): (r: Result<Value>)
    ensures r.Ok? <==> v == VNull || IsInstance(v, t)
    ensures r.Ok? ==> r.value == v
    ensures r.Throws? ==> r.error == ClassCastException
  {
    if v != VNull && !IsInstance(v, t) then Throws(ClassCastException) else Ok(v)
  }

  /** `Objects.equals(a, b)`, which for non-null `a` is `String.equals` or `Integer.equals`. */
  function ObjectsEquals(a: Value, b: Value): (r: bool)
    ensures r <==> a == b
  {
    match a
    case VNull => b.VNull?
    case VStr(s) => b.VStr? && b.s == s
    case VInt(i) => b.VInt? && b.i == i
  }

  /** The character codes of a string, as `int`s. */
  function Codes(s: string): (cs: seq<Int32>)
    ensures |cs| == |s|
  {
    seq(|s|, i requires 0 <= i < |s| => s[i] as int)
  }

  /** `String.hashCode`: `h = 31 * h + c` over the characters, starting from 0. */
  function StringHashCode(s: string): Int32
  {
    Fold31(0, Codes(s))
  }

  /** `"k1".hashCode() == 3366`, `"v1".hashCode() == 3707` and `"v2".hashCode() == 3708`. */
  lemma StringHashCodeExamples()
    ensures StringHashCode("k1") == 3366
    ensures StringHashCode("v1") == 3707
    ensures StringHashCode("v2") == 3708
  {
    assert Codes("k1") == [107, 49] && [107, 49][..1] == [107];
    assert Codes("v1") == [118, 49] && [118, 49][..1] == [118];
    assert Codes("v2") == [118, 50] && [118, 50][..1] == [118];
    assert [107][..0] == [118][..0] == [];
  }

  /** `Objects.hashCode(v)`: 0 for `null`, otherwise the value's own `hashCode`. */
  function HashCodeOf(v: Value): Int32
  {
    match v
    case VNull => 0
    case VStr(s) => StringHashCode(s)
    case VInt(i) => i
  }

  /** `String.hashCode` is `s[0]·31^(n-1) + ... + s[n-1]` in `int` arithmetic, as the JDK documents. */
  lemma StringHashCodeFormula(s: string)
    ensures StringHashCode(s) == Wrap32(Weighted(Codes(s)))
  {
    Fold31ClosedForm(0, Codes(s));
  }

  // ---------------------------------------------------------------------
  // Decimal rendering of Integer
  // ---------------------------------------------------------------------

  function DigitChar(d: nat): char
    requires d < 10
  {
    "0123456789"[d]
  }

  predicate IsDigit(c: char)
  {
    '0' <= c <= '9'
  }

  function DigitValue(c: char): nat
    requires IsDigit(c)
  {
    c as int - '0' as int
  }

  /** The decimal digits of `n`, most significant first, with no leading zero. */
  function NatToString(n: nat): string
    decreases n
  {
    if n < 10 then [DigitChar(n)] else NatToString(n / 10) + [DigitChar(n % 10)]
  }

  /** `Integer.toString(i)`: a minus sign for negative values, then the digits of the magnitude. */
  function IntToString(i: int): string
  {
    if i < 0 then "-" + NatToString(-i) else NatToString(i)
  }

  predicate AllDigits(s: string)
  {
    forall k :: 0 <= k < |s| ==> IsDigit(s[k])
  }

  /** The text `Integer.parseInt` reads: an optional minus sign and one or more digits. */
  predicate IsDecimal(s: string)
  {
    if |s| > 0 && s[0] == '-' then |s| > 1 && AllDigits(s[1..]) else |s| > 0 && AllDigits(s)
  }

  function ParseDigits(s: string): nat
    requires AllDigits(s)
  {
    if |s| == 0 then 0 else 10 * ParseDigits(s[..|s| - 1]) + DigitValue(s[|s| - 1])
  }

  /** `Integer.parseInt` on well-formed text, the inverse of `IntToString`. */
  function ParseInt(s: string): int
    requires IsDecimal(s)
  {
    if s[0] == '-' then 0 - ParseDigits(s[1..]) else ParseDigits(s)
  }

  lemma {:induction false} NatToStringRoundTrip(n: nat)
    ensures AllDigits(NatToString(n)) && |NatToString(n)| > 0
    ensures ParseDigits(NatToString(n)) == n
    ensures |NatToString(n)| > 1 ==> NatToString(n)[0] != '0'
  {
    var s := NatToString(n);
    if n >= 10 {
      NatToStringRoundTrip(n / 10);
      assert s[..|s| - 1] == NatToString(n / 10);
    }
  }

  /**
   * The decimal text of an `Integer` reads back as the same number, carries a
   * minus sign exactly for negative values, and its digits have no leading
   * zero: the only text with digits `"0"` is the one for zero itself.
   */
  lemma IntToStringRoundTrip(i: int)
    ensures IsDecimal(IntToString(i))
    ensures ParseInt(IntToString(i)) == i
    ensures IntToString(i)[0] == '-' <==> i < 0
    ensures var d := if i < 0 then IntToString(i)[1..] else IntToString(i);
      (|d| > 1 ==> d[0] != '0') && (d == "0" <==> i == 0)
  {
    NatToStringRoundTrip(if i < 0 then -i else i);
    if i < 0 {
      assert IntToString(i)[1..] == NatToString(-i);
    }
  }

  /** `String.valueOf(v)`: `"null"`, the string itself, or the decimal text of the integer. */
  function ValueToString(v: Value): string
  {
    match v
    case VNull => "null"
    case VStr(s) => s
    case VInt(i) => IntToString(i)
  }
}
