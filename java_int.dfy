/**
 * Java's fixed-width integer arithmetic, written out on unbounded integers:
 * the ranges of `int` and `long`, two's-complement wrap-around of `long`
 * arithmetic, and integer division that truncates toward zero.
 */
module JavaInt {

  const TWO_32: int := 0x1_0000_0000
  const TWO_63: int := 0x8000_0000_0000_0000
  const TWO_64: int := 0x1_0000_0000_0000_0000

  type Int32 = x: int | -0x8000_0000 <= x < 0x8000_0000
  type Int64 = x: int | -0x8000_0000_0000_0000 <= x < 0x8000_0000_0000_0000

  /** The `long` that Java's wrapping arithmetic yields for the mathematical value `x`. */
  function Wrap64(x: int): (r: Int64)
    ensures (r - x) % TWO_64 == 0
    ensures -TWO_63 <= x < TWO_63 ==> r == x
  {
    var m := x % TWO_64;
    if m < TWO_63 then m else m - TWO_64
  }

  /** The two wrap-arounds at the bottom of `long`: 2^63 is `Long.MIN_VALUE`, and one below that is `Long.MAX_VALUE`. */
  lemma WrapAroundLongMin()
    ensures Wrap64(TWO_63) == -TWO_63
    ensures Wrap64(-TWO_63 - 1) == TWO_63 - 1
  {
    ModByRemainder(TWO_63, 0, TWO_63);
    ModByRemainder(-TWO_63 - 1, -1, TWO_63 - 1);
  }

  lemma ModByRemainder(x: int, q: int, m: int)
    requires x == q * TWO_64 + m && 0 <= m < TWO_64
    ensures x % TWO_64 == m
  {
  }

  /** Java's `/` on integers: the quotient is truncated toward zero. */
  function Div(a: int, b: int): (q: int)
    requires b > 0
    ensures a >= 0 ==> q * b <= a < q * b + b
    ensures a < 0 ==> q * b - b < a <= q * b
  {
    if a >= 0 then a / b else -((-a) / b)
  }

  function Pow2(n: nat): (r: nat)
    ensures r >= 1
  {
    if n == 0 then 1 else 2 * Pow2(n - 1)
  }

  /** Powers of two add their exponents. */
  lemma {:induction false} Pow2Add(m: nat, n: nat)
    ensures Pow2(m + n) == Pow2(m) * Pow2(n)
  {
    if m > 0 {
      Pow2Add(m - 1, n);
    }
  }

  /** The powers of two that bound Java's `int` and `long`. */
  lemma Pow2Widths()
    ensures Pow2(32) == TWO_32 && Pow2(63) == TWO_63 && Pow2(64) == TWO_64
  {
    assert Pow2(4) == 16;
    Pow2Add(4, 4);
    assert Pow2(8) == 0x100;
    Pow2Add(8, 8);
    assert Pow2(16) == 0x1_0000;
    Pow2Add(16, 16);
    assert Pow2(32) == 0x1_0000_0000;
    Pow2Add(32, 32);
    assert Pow2(64) == 0x1_0000_0000_0000_0000;
    assert Pow2(64) == 2 * Pow2(63);
  }

  lemma {:induction false} Pow2Monotone(m: nat, n: nat)
    requires m <= n
    ensures Pow2(m) <= Pow2(n)
  {
    if m < n {
      Pow2Monotone(m, n - 1);
    }
  }

  /** Bit `i` of a non-negative integer. */
  predicate Bit(x: nat, i: nat)
  {
    if i == 0 then x % 2 == 1 else Bit(x / 2, i - 1)
  }

  /** The 64-bit pattern of a `long`, read as an unsigned number. */
  function Unsigned64(x: Int64): (r: nat)
    ensures r < TWO_64
    ensures x >= 0 ==> r == x
  {
    if x >= 0 then x else x + TWO_64
  }

  /** 2^n - 1 has exactly its n lowest bits set. */
  lemma {:induction false} LowBitsMask(n: nat, i: nat)
    ensures Bit(Pow2(n) - 1, i) <==> i < n
  {
    if n == 0 {
      ZeroHasNoBits(i);
    } else if i == 0 {
      assert Pow2(n) - 1 == 2 * (Pow2(n - 1) - 1) + 1;
    } else {
      assert Pow2(n) - 1 == 2 * (Pow2(n - 1) - 1) + 1;
      assert (Pow2(n) - 1) / 2 == Pow2(n - 1) - 1;
      LowBitsMask(n - 1, i - 1);
    }
  }

  lemma {:induction false} ZeroHasNoBits(i: nat)
    ensures !Bit(0, i)
  {
    if i > 0 {
      ZeroHasNoBits(i - 1);
    }
  }

  predicate IsDigit(c: char)
  {
    '0' <= c <= '9'
  }

  function DigitChar(d: nat): (c: char)
    requires d < 10
    ensures IsDigit(c)
  {
    ('0' as int + d) as char
  }

  /** The decimal digits of `n`, most significant first, with no leading zero. */
  function NatToString(n: nat): (s: string)
    ensures |s| >= 1 && (forall i :: 0 <= i < |s| ==> IsDigit(s[i]))
    ensures s[0] == '0' ==> n == 0
  {
    if n < 10 then [DigitChar(n)] else NatToString(n / 10) + [DigitChar(n % 10)]
  }

  /** `Integer.toString(x)`: a minus sign before the digits of a negative number. */
  function IntToString(x: int): (s: string)
    ensures |s| >= 1
  {
    if x < 0 then "-" + NatToString(-x) else NatToString(x)
  }

  /** The value of a string of decimal digits. */
  function ParseNat(s: string): nat
    requires forall i :: 0 <= i < |s| ==> IsDigit(s[i])
  {
    if |s| == 0 then 0
    else
      assert IsDigit(s[|s| - 1]);
      10 * ParseNat(s[..|s| - 1]) + (s[|s| - 1] as int - '0' as int)
  }

  /** `Integer.parseInt` on the strings `IntToString` produces. */
  function ParseInt(s: string): int
    requires |s| >= 1
    requires s[0] == '-' ==> forall i :: 1 <= i < |s| ==> IsDigit(s[i])
    requires s[0] != '-' ==> forall i :: 0 <= i < |s| ==> IsDigit(s[i])
  {
    if s[0] == '-' then -(ParseNat(s[1..]) as int) else ParseNat(s)
  }

  lemma {:induction false} ParseNatToString(n: nat)
    ensures ParseNat(NatToString(n)) == n
  {
    if n >= 10 {
      var s := NatToString(n);
      assert s[..|s| - 1] == NatToString(n / 10);
      ParseNatToString(n / 10);
    }
  }

  /** The decimal text of an integer reads back as that integer. */
  lemma IntToStringRoundTrip(x: int)
    ensures var s := IntToString(x);
      (s[0] == '-' ==> forall i :: 1 <= i < |s| ==> IsDigit(s[i])) &&
      (s[0] != '-' ==> forall i :: 0 <= i < |s| ==> IsDigit(s[i])) &&
      ParseInt(s) == x
  {
    if x < 0 {
      var digits := NatToString(-x);
      var s := "-" + digits;
      assert IntToString(x) == s;
      assert s[1..] == digits;
      assert forall i :: 1 <= i < |s| ==> s[i] == digits[i - 1];
      ParseNatToString(-x);
    } else {
      assert IntToString(x) == NatToString(x);
      ParseNatToString(x);
    }
  }
}
