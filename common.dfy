/**
 * Values shared by both parts of the model: an optional value (Kotlin's
 * nullable types), the fixed-width integer arithmetic of the JVM, the
 * Float-to-Int conversion used on touch coordinates, and the decimal
 * rendering of an Int used in status messages.
 */
module Common {

  /** Kotlin's `T?`: either nothing (`null`) or a value. */
  datatype Option<T> = None | Some(value: T)

  const INT_MIN: int := -0x8000_0000
  const INT_MAX: int := 0x7fff_ffff
  const LONG_MIN: int := -0x8000_0000_0000_0000
  const LONG_MAX: int := 0x7fff_ffff_ffff_ffff

  /** The values of a Kotlin `Int` (32-bit two's complement). */
  predicate IsInt(x: int) { INT_MIN <= x <= INT_MAX }

  /** The values of a Kotlin `Long` (64-bit two's complement). */
  predicate IsLong(x: int) { LONG_MIN <= x <= LONG_MAX }

  /** Kotlin `Int` subtraction and addition: the exact result reduced modulo 2^32 into the signed range. */
  function WrapInt(x: int): (r: int)
    ensures IsInt(r)
    ensures (x - r) % 0x1_0000_0000 == 0
    ensures IsInt(x) ==> r == x
  {
    (x - INT_MIN) % 0x1_0000_0000 + INT_MIN
  }

  /** Kotlin `Long` subtraction: the exact result reduced modulo 2^64 into the signed range. */
  function WrapLong(x: int): (r: int)
    ensures IsLong(r)
    ensures (x - r) % 0x1_0000_0000_0000_0000 == 0
    ensures IsLong(x) ==> r == x
  {
    (x - LONG_MIN) % 0x1_0000_0000_0000_0000 + LONG_MIN
  }

  /**
   * Kotlin `Float.toInt()` on a finite value: rounds toward zero and
   * saturates at the bounds of `Int`. The float is given by its exact real value.
   */
  function TruncateToInt(v: real): (r: int)
    ensures IsInt(r)
    ensures INT_MIN as real <= v <= INT_MAX as real ==> -1.0 < v - r as real < 1.0
    ensures v >= 0.0 ==> 0 <= r && r as real <= v
    ensures v <= 0.0 ==> r <= 0 && v <= r as real
    ensures v > INT_MAX as real ==> r == INT_MAX
    ensures v < INT_MIN as real ==> r == INT_MIN
  {
    var t := if v >= 0.0 then v.Floor else -((-v).Floor);
    if t < INT_MIN then INT_MIN else if t > INT_MAX then INT_MAX else t
  }

  /** The decimal digit character for `d`. */
  function DigitChar(d: nat): (c: char)
    requires d < 10
    ensures '0' <= c <= '9'
    ensures c as int - '0' as int == d
  {
    (48 + d) as char
  }

  /** The number a string of decimal digits denotes, most significant digit first. */
  function DecimalValue(s: string): nat
    requires forall i :: 0 <= i < |s| ==> '0' <= s[i] <= '9'
    decreases |s|
  {
    if s == [] then 0 else DecimalValue(s[..|s| - 1]) * 10 + (s[|s| - 1] as int - '0' as int)
  }

  /** The number a decimal text denotes, with an optional leading `-`; `None` for any other text. */
  function ParseInt(s: string): Option<int>
  {
    if |s| > 0 && s[0] == '-' then
      if 1 < |s| && forall i :: 1 <= i < |s| ==> '0' <= s[i] <= '9' then Some(-(DecimalValue(s[1..]) as int)) else None
    else if 0 < |s| && forall i :: 0 <= i < |s| ==> '0' <= s[i] <= '9' then Some(DecimalValue(s) as int)
    else None
  }

  /** The decimal digits of `n`, most significant first, without leading zeros. */
  function NatToString(n: nat): (s: string)
    ensures 1 <= |s|
    ensures n < 10 <==> |s| == 1
    ensures forall i :: 0 <= i < |s| ==> '0' <= s[i] <= '9'
    ensures |s| > 1 ==> s[0] != '0'
    ensures DecimalValue(s) == n
  {
    if n < 10 then [DigitChar(n)]
    else
      var prefix := NatToString(n / 10);
      var s := prefix + [DigitChar(n % 10)];
      assert s[..|s| - 1] == prefix;
      s
  }

  /** Kotlin's `Int.toString()` (and `"$n"` in a string template): decimal, with a leading `-` when negative. */
  function IntToString(n: int): (s: string)
    ensures 1 <= |s|
    ensures s[0] == '-' <==> n < 0
    ensures n < 0 ==> s == "-" + NatToString(-n)
    ensures n >= 0 ==> s == NatToString(n)
    ensures ParseInt(s) == Some(n)
  {
    if n < 0 then
      var s := "-" + NatToString(-n);
      assert s[1..] == NatToString(-n);
      s
    else NatToString(n)
  }

  /** Distinct naturals have distinct decimal renderings: the rendering can be read back. */
  lemma NatToStringInjective(a: nat, b: nat)
    requires NatToString(a) == NatToString(b)
    ensures a == b
  {
    calc {
      a;
      DecimalValue(NatToString(a));
      DecimalValue(NatToString(b));
      b;
    }
  }

  /** Distinct Ints have distinct decimal renderings: `ParseInt` reads each one back. */
  lemma IntToStringInjective(a: int, b: int)
    requires IntToString(a) == IntToString(b)
    ensures a == b
  {
    assert Some(a) == ParseInt(IntToString(a)) == ParseInt(IntToString(b)) == Some(b);
  }

  /** Two texts that share a prefix are equal exactly when what follows it is equal. */
  lemma SamePrefixInjective(p: string, x: string, y: string)
    requires p + x == p + y
    ensures x == y
  {
    assert x == (p + x)[|p|..];
    assert y == (p + y)[|p|..];
  }
}
