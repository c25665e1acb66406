/** The small part of the Java platform the CANUSB library leans on:
    32-bit two's-complement `int` and `byte` values, the digit strings of
    Integer.toHexString / toBinaryString / toString, and String.toUpperCase
    restricted to ASCII. */
module JavaLang {

  const TwoTo32: int := 0x1_0000_0000

  /** A Java `int`. */
  type Int32 = x: int | -0x8000_0000 <= x < 0x8000_0000

  /** The unsigned reading of an int's 32-bit pattern (what Integer.toHexString prints). */
  function Unsigned32(x: Int32): (u: nat)
    ensures u < TwoTo32
    ensures x >= 0 ==> u == x
    ensures x < 0 ==> u == x + TwoTo32
  {
    if x < 0 then x + TwoTo32 else x
  }

  /** The 32-bit pattern of an int, for Java's `&`, `|` and `~`. */
  function Bits32(x: Int32): bv32 {
    Unsigned32(x) as bv32
  }

  /** The value of a Java `byte` whose bit pattern is `b`. */
  function SignedByte(b: bv8): (v: int)
    ensures -128 <= v < 128
    ensures v < 0 <==> b & 0x80 == 0x80
    ensures (v + 256) % 256 == b as int
  {
    if b < 0x80 then b as int else b as int - 256
  }

  // ---------------------------------------------------------------------
  // Digit strings

  /** The radixes the library prints in. */
  predicate Radix(base: nat) {
    base == 2 || base == 10 || base == 16
  }

  function DigitChar(d: nat): (c: char)
    requires d < 16
    ensures DigitValue(c) == d
    ensures c != '-'
  {
    if d < 10 then ('0' as int + d) as char else ('a' as int + d - 10) as char
  }

  function DigitValue(c: char): nat {
    if '0' <= c <= '9' then c as int - '0' as int
    else if 'a' <= c <= 'f' then c as int - 'a' as int + 10
    else 0
  }

  /** `s` consists of digits of radix `base` (lower-case, as Java prints them). */
  predicate IsDigitString(s: string, base: nat) {
    forall i :: 0 <= i < |s| ==> DigitValue(s[i]) < base && DigitChar(DigitValue(s[i])) == s[i]
  }

  function Pow(base: nat, n: nat): (p: nat)
    requires base >= 1
    ensures p >= 1
  {
    if n == 0 then 1 else base * Pow(base, n - 1)
  }

  /** The number a digit string denotes (most significant digit first). */
  function Value(s: string, base: nat): nat {
    if |s| == 0 then 0 else Value(s[..|s| - 1], base) * base + DigitValue(s[|s| - 1])
  }

  /** Java's unsigned digit string of `v`: no leading zeros, "0" for zero. */
  function Digits(v: nat, base: nat): (s: string)
    requires Radix(base)
    ensures 1 <= |s|
    ensures IsDigitString(s, base)
    ensures s[0] == '0' <==> v == 0
    ensures s[0] != '-'
    decreases v
  {
    if v < base then [DigitChar(v)] else Digits(v / base, base) + [DigitChar(v % base)]
  }

  /** Integer.toHexString: the hex digits of the int's unsigned 32-bit pattern. */
  function HexString(x: Int32): string {
    Digits(Unsigned32(x), 16)
  }

  /** Integer.toBinaryString: the binary digits of the int's unsigned 32-bit pattern. */
  function BinaryString(x: Int32): string {
    Digits(Unsigned32(x), 2)
  }

  /** Integer.toString / string concatenation of an int: signed decimal. */
  function DecimalString(x: int): (s: string)
    ensures 1 <= |s|
  {
    if x < 0 then "-" + Digits(-x, 10) else Digits(x, 10)
  }

  /** Reads back a string produced by DecimalString. */
  function ParseDecimal(s: string): int {
    if |s| > 0 && s[0] == '-' then 0 - Value(s[1..], 10) else Value(s, 10)
  }

  /** `n` copies of '0'. */
  function Zeros(n: nat): (z: string)
    ensures |z| == n
    ensures forall i :: 0 <= i < n ==> z[i] == '0'
  {
    if n == 0 then [] else Zeros(n - 1) + ['0']
  }

  // ---------------------------------------------------------------------
  // Lemmas about digit strings

  lemma DivModSplit(v: nat, base: nat)
    requires Radix(base)
    ensures (v / base) * base + v % base == v
  {
  }

  /** Printing then reading back a number gives the number. */
  lemma {:induction false} ValueOfDigits(v: nat, base: nat)
    requires Radix(base)
    ensures Value(Digits(v, base), base) == v
    decreases v
  {
    if v >= base {
      var s := Digits(v / base, base);
      ValueOfDigits(v / base, base);
      assert (s + [DigitChar(v % base)])[..|s|] == s;
      DivModSplit(v, base);
    }
  }

  lemma Regroup(a: int, p: int, b: int, base: int)
    ensures (a * p + b) * base == a * (base * p) + b * base
  {
  }

  lemma {:induction false} ValueAppend(s: string, t: string, base: nat)
    requires Radix(base)
    ensures Value(s + t, base) == Value(s, base) * Pow(base, |t|) + Value(t, base)
    decreases |t|
  {
    if |t| > 0 {
      var t' := t[..|t| - 1];
      var c := t[|t| - 1];
      assert (s + t)[..|s + t| - 1] == s + t';
      assert (s + t)[|s + t| - 1] == c;
      ValueAppend(s, t', base);
      var a, p, b, d := Value(s, base), Pow(base, |t'|), Value(t', base), DigitValue(c);
      assert Value(s + t, base) == (a * p + b) * base + d;
      assert Pow(base, |t|) == base * p;
      Regroup(a, p, b, base);
    } else {
      assert s + t == s;
    }
  }

  /** One step of the bound: a value below p, shifted up a place, stays below base * p. */
  lemma BoundStep(v: nat, d: nat, p: nat, base: nat)
    requires Radix(base) && v < p && d < base
    ensures v * base + d < base * p
  {
    if base == 2 {
    } else if base == 10 {
    } else {
    }
  }

  lemma PrefixDigits(s: string, k: nat, base: nat)
    requires IsDigitString(s, base) && k <= |s|
    ensures IsDigitString(s[..k], base)
  {
    var t := s[..k];
    forall i | 0 <= i < |t|
      ensures DigitValue(t[i]) < base && DigitChar(DigitValue(t[i])) == t[i]
    {
      assert t[i] == s[i];
    }
  }

  lemma SuffixDigits(s: string, k: nat, base: nat)
    requires IsDigitString(s, base) && k <= |s|
    ensures IsDigitString(s[|s| - k..], base)
  {
    var t := s[|s| - k..];
    forall i | 0 <= i < |t|
      ensures DigitValue(t[i]) < base && DigitChar(DigitValue(t[i])) == t[i]
    {
      assert t[i] == s[|s| - k + i];
    }
  }

  lemma PaddedDigits(s: string, n: nat, base: nat)
    requires Radix(base) && IsDigitString(s, base)
    ensures IsDigitString(Zeros(n) + s, base)
  {
    var t := Zeros(n) + s;
    forall i | 0 <= i < |t|
      ensures DigitValue(t[i]) < base && DigitChar(DigitValue(t[i])) == t[i]
    {
      if i < n {
        assert t[i] == '0';
      } else {
        assert t[i] == s[i - n];
      }
    }
  }

  lemma {:induction false} ValueBound(s: string, base: nat)
    requires Radix(base)
    requires IsDigitString(s, base)
    ensures Value(s, base) < Pow(base, |s|)
    decreases |s|
  {
    if |s| > 0 {
      var s' := s[..|s| - 1];
      PrefixDigits(s, |s| - 1, base);
      ValueBound(s', base);
      assert DigitValue(s[|s| - 1]) < base;
      BoundStep(Value(s', base), DigitValue(s[|s| - 1]), Pow(base, |s'|), base);
    }
  }

  lemma ZeroProduct(a: int, p: int)
    requires a == 0
    ensures a * p == 0
  {
  }

  lemma {:induction false} ValueOfZeros(n: nat, base: nat)
    requires Radix(base)
    ensures Value(Zeros(n), base) == 0
    decreases n
  {
    if n > 0 {
      ValueOfZeros(n - 1, base);
      ValueSnoc(Zeros(n - 1), '0', base);
      ZeroProduct(Value(Zeros(n - 1), base), base);
    }
  }

  /** Appending a digit shifts the value one place up. */
  lemma ValueSnoc(s: string, c: char, base: nat)
    ensures Value(s + [c], base) == Value(s, base) * base + DigitValue(c)
  {
    assert (s + [c])[..|s|] == s;
  }

  lemma {:induction false} PowMonotone(base: nat, m: nat, n: nat)
    requires Radix(base)
    requires m <= n
    ensures Pow(base, m) <= Pow(base, n)
    decreases n
  {
    if m < n {
      PowMonotone(base, m, n - 1);
    }
  }

  lemma SmallMod(v: nat, p: nat)
    requires v < p
    ensures v % p == v
  {
  }

  lemma MulAtLeast(d: int, p: nat)
    requires d >= 1
    ensures d * p >= p
  {
    assert d * p == (d - 1) * p + p;
  }

  lemma ModOfMultiplePlus(a: nat, p: nat, b: nat)
    requires 0 <= b < p
    ensures (a * p + b) % p == b
  {
    var x := a * p + b;
    var q, r := x / p, x % p;
    assert x == q * p + r && 0 <= r < p;
    var d := q - a;
    assert d * p == b - r;
    if d >= 1 {
      MulAtLeast(d, p);
    } else if d <= -1 {
      MulAtLeast(-d, p);
    }
  }

  /** The remainder of x by p, when x is a multiple of p plus something below p. */
  lemma ModSplit(x: int, a: nat, p: nat, b: nat)
    requires x == a * p + b && b < p
    ensures x % p == b
  {
    ModOfMultiplePlus(a, p, b);
  }

  /** The last `k` digits of a digit string denote its value modulo base^k. */
  lemma SuffixValue(s: string, k: nat, base: nat)
    requires Radix(base)
    requires IsDigitString(s, base)
    requires k <= |s|
    ensures Value(s[|s| - k..], base) == Value(s, base) % Pow(base, k)
  {
    var hi, lo := s[..|s| - k], s[|s| - k..];
    assert s == hi + lo;
    ValueAppend(hi, lo, base);
    SuffixDigits(s, k, base);
    ValueBound(lo, base);
    ModSplit(Value(s, base), Value(hi, base), Pow(base, k), Value(lo, base));
  }

  /** Left-padding with zeros keeps the value. */
  lemma PaddedValue(s: string, n: nat, base: nat)
    requires Radix(base)
    ensures Value(Zeros(n) + s, base) == Value(s, base)
  {
    ValueAppend(Zeros(n), s, base);
    ValueOfZeros(n, base);
    ZeroProduct(Value(Zeros(n), base), Pow(base, |s|));
  }

  /** Integer.toString is read back exactly by ParseDecimal. */
  lemma DecimalRoundTrip(x: int)
    ensures ParseDecimal(DecimalString(x)) == x
  {
    if x < 0 {
      var s := DecimalString(x);
      assert s[1..] == Digits(-x, 10);
      ValueOfDigits(-x, 10);
    } else {
      ValueOfDigits(x, 10);
    }
  }

  // ---------------------------------------------------------------------
  // Upper-casing (ASCII only)

  function UpperAscii(c: char): (u: char)
    ensures 'a' <= c <= 'z' ==> u as int == c as int - 32
    ensures !('a' <= c <= 'z') ==> u == c
  {
    if 'a' <= c <= 'z' then (c as int - 32) as char else c
  }

  /** String.toUpperCase for ASCII text. */
  function ToUpperAscii(s: string): (r: string)
    ensures |r| == |s|
    ensures forall i :: 0 <= i < |s| ==> r[i] == UpperAscii(s[i])
  {
    if |s| == 0 then [] else [UpperAscii(s[0])] + ToUpperAscii(s[1..])
  }
}
