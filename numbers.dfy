/** Exact-integer helpers shared by the decoder and the diagram: powers of
    two, truncation toward zero (JavaScript's Math.trunc) and the rendering
    of numbers as digit strings (BigInt/Number toString). */
module Numbers {

  datatype Option<T> = None | Some(value: T)

  /** 2^n */
  function Pow2(n: nat): (r: nat)
    ensures r >= 1
  {
    if n == 0 then 1 else 2 * Pow2(n - 1)
  }

  /** Math.trunc: the integer part of r, rounding toward zero. */
  function Trunc(r: real): (t: int)
    ensures r >= 0.0 ==> t >= 0 && t as real <= r < t as real + 1.0
    ensures r < 0.0 ==> t <= 0 && t as real - 1.0 < r <= t as real
  {
    if r >= 0.0 then r.Floor else -((-r).Floor)
  }

  lemma TruncMonotone(a: real, b: real)
    requires a <= b
    ensures Trunc(a) <= Trunc(b)
  {
  }

  /** Euclidean division is unique: the quotient and remainder of x by d
      are the only q, r with x == q * d + r and 0 <= r < d. */
  lemma DivModUnique(x: int, d: int, q: int, r: int)
    requires d > 0 && 0 <= r < d && x == q * d + r
    ensures x / d == q && x % d == r
  {
    var k := q - x / d;
    assert k * d == x % d - r;
    MulSign(k, d);
  }

  lemma DivModIdentity(x: int, d: int)
    requires d > 0
    ensures (x / d) * d + x % d == x
  {
  }

  lemma MulSign(k: int, d: int)
    requires d > 0
    ensures k >= 1 ==> k * d >= d
    ensures k <= -1 ==> k * d <= -d
  {
  }

  /** Dividing by 2 and then by p is dividing by 2 * p; the remainder by
      2 * p splits into the remainder of the halved value and the low bit. */
  lemma DivModTwice(v: int, p: int)
    requires p > 0
    ensures v / (2 * p) == (v / 2) / p
    ensures v % (2 * p) == 2 * ((v / 2) % p) + v % 2
  {
    var h, b := v / 2, v % 2;
    var q, r := h / p, h % p;
    assert v == 2 * h + b;
    assert h == q * p + r;
    assert v == q * (2 * p) + (2 * r + b);
    DivModUnique(v, 2 * p, q, 2 * r + b);
  }

  // ---------------------------------------------------------------------
  // Digit strings

  const DIGITS: string := "0123456789abcdef"

  /** The lower-case digit for d. */
  function DigitChar(d: nat): char
    requires d < 16
  {
    DIGITS[d]
  }

  /** The value of digit character c in the given base, if it is one. */
  function DigitValue(c: char, base: nat): (r: Option<nat>)
    requires 2 <= base <= 16
    ensures r.Some? ==> r.value < base
  {
    if '0' <= c <= '9' && (c as int - '0' as int) < base then Some(c as int - '0' as int)
    else if 'a' <= c <= 'f' && (c as int - 'a' as int) + 10 < base then Some(c as int - 'a' as int + 10)
    else None
  }

  lemma DigitCharValue(d: nat, base: nat)
    requires 2 <= base <= 16 && d < base
    ensures DigitValue(DigitChar(d), base) == Some(d)
  {
  }

  lemma DivDecreases(n: nat, base: nat)
    requires 2 <= base <= n
    ensures 1 <= n / base < n
  {
    DivModUnique(n, base, n / base, n % base);
    MulSign(n / base, base);
  }

  /** n written in the given base, most significant digit first, lower case,
      with no leading zeros ("0" for zero) -- what Number/BigInt toString(base)
      gives for a non-negative value. */
  function NatToString(n: nat, base: nat): (s: string)
    requires 2 <= base <= 16
    ensures |s| >= 1
    ensures |s| == 1 <==> n < base
    decreases n
  {
    if n < base then [DigitChar(n)] else NatToString(n / base, base) + [DigitChar(n % base)]
  }

  /** Every character of s is a digit of the base. */
  predicate AllDigits(s: string, base: nat)
    requires 2 <= base <= 16
  {
    forall i :: 0 <= i < |s| ==> DigitValue(s[i], base).Some?
  }

  /** The value of a digit string (most significant digit first). */
  function StringToNat(s: string, base: nat): nat
    requires 2 <= base <= 16
    requires AllDigits(s, base)
  {
    if s == [] then 0
    else StringToNat(s[..|s| - 1], base) * base + DigitValue(s[|s| - 1], base).value
  }

  /** NatToString writes digits of the base only. */
  lemma {:induction false} NatToStringDigits(n: nat, base: nat)
    requires 2 <= base <= 16
    ensures AllDigits(NatToString(n, base), base)
    decreases n
  {
    if n < base {
      DigitCharValue(n, base);
    } else {
      DivDecreases(n, base);
      var hi, lo := NatToString(n / base, base), [DigitChar(n % base)];
      NatToStringDigits(n / base, base);
      DigitCharValue(n % base, base);
      AllDigitsConcat(hi, lo, base);
    }
  }

  lemma AllDigitsConcat(a: string, b: string, base: nat)
    requires 2 <= base <= 16
    requires AllDigits(a, base) && AllDigits(b, base)
    ensures AllDigits(a + b, base)
  {
    forall i | 0 <= i < |a + b| ensures DigitValue((a + b)[i], base).Some? {
      if i < |a| { assert (a + b)[i] == a[i]; } else { assert (a + b)[i] == b[i - |a|]; }
    }
  }

  /** Reading back what NatToString wrote gives the number again. */
  lemma {:induction false} NatToStringRoundTrip(n: nat, base: nat)
    requires 2 <= base <= 16
    ensures AllDigits(NatToString(n, base), base)
    ensures StringToNat(NatToString(n, base), base) == n
    decreases n
  {
    NatToStringDigits(n, base);
    var s := NatToString(n, base);
    if n < base {
      DigitCharValue(n, base);
      assert s[..|s| - 1] == [];
    } else {
      DivDecreases(n, base);
      var hi := NatToString(n / base, base);
      NatToStringRoundTrip(n / base, base);
      DigitCharValue(n % base, base);
      assert s == hi + [DigitChar(n % base)];
      assert s[..|s| - 1] == hi;
      assert s[|s| - 1] == DigitChar(n % base);
      assert StringToNat(s, base) == StringToNat(hi, base) * base + n % base;
      DivModIdentity(n, base);
    }
  }

  /** NatToString puts no zero in front of a number with several digits. */
  lemma {:induction false} NatToStringNoLeadingZero(n: nat, base: nat)
    requires 2 <= base <= 16
    ensures |NatToString(n, base)| > 1 ==> NatToString(n, base)[0] != '0'
    decreases n
  {
    if n >= base {
      DivDecreases(n, base);
      var hi := NatToString(n / base, base);
      NatToStringNoLeadingZero(n / base, base);
      assert NatToString(n, base)[0] == hi[0];
      if |hi| == 1 {
        assert n / base < base;
        assert hi == [DigitChar(n / base)];
      }
    }
  }

  /** Different numbers are written differently. */
  lemma NatToStringInjective(m: nat, n: nat, base: nat)
    requires 2 <= base <= 16
    requires NatToString(m, base) == NatToString(n, base)
    ensures m == n
  {
    NatToStringRoundTrip(m, base);
    NatToStringRoundTrip(n, base);
  }

  /** BigInt toString(base): a minus sign before the magnitude when negative. */
  function IntToString(i: int, base: nat): (s: string)
    requires 2 <= base <= 16
    ensures |s| >= 1
    ensures s[0] == '-' <==> i < 0
  {
    if i < 0 then "-" + NatToString(-i, base)
    else
      NatToStringDigits(i, base);
      assert DigitValue(NatToString(i, base)[0], base).Some?;
      NatToString(i, base)
  }

  /** Different integers are written differently. */
  lemma IntToStringInjective(v: int, w: int, base: nat)
    requires 2 <= base <= 16
    requires IntToString(v, base) == IntToString(w, base)
    ensures v == w
  {
    var a, b := NatToString(if v < 0 then -v else v, base), NatToString(if w < 0 then -w else w, base);
    assert a[0] != '-' && b[0] != '-' by {
      NatToStringDigits(if v < 0 then -v else v, base);
      NatToStringDigits(if w < 0 then -w else w, base);
      assert DigitValue(a[0], base).Some? && DigitValue(b[0], base).Some?;
    }
    SignedInjective(a, b, v < 0, w < 0);
    NatToStringInjective(if v < 0 then -v else v, if w < 0 then -w else w, base);
  }

  /** A text with an optional minus sign before a magnitude that does not
      start with one determines both the sign and the magnitude. */
  lemma SignedInjective(a: string, b: string, negA: bool, negB: bool)
    requires a != [] && b != [] && a[0] != '-' && b[0] != '-'
    requires (if negA then "-" + a else a) == (if negB then "-" + b else b)
    ensures negA == negB && a == b
  {
    if negA && negB {
      DropSign(a, b);
    }
  }

  lemma DropSign(a: string, b: string)
    requires "-" + a == "-" + b
    ensures a == b
  {
    assert a == ("-" + a)[1..];
  }
}
