// The text terminal_printf makes of numbers, and reading it back.
module Numbers {
  import opened CLib

  const INT_MAX := 0x7FFF_FFFF
  const INT_MIN := -0x8000_0000
  const MINUS: byte := 45
  const ZERO: byte := 48

  predicate IsInt(n: int) { INT_MIN <= n <= INT_MAX }

  datatype Radix = Decimal | Hex

  function Base(r: Radix): nat { if r.Decimal? then 10 else 16 }

  function Quot(n: nat, r: Radix): nat { if r.Decimal? then n / 10 else n / 16 }

  function Rem(n: nat, r: Radix): nat { if r.Decimal? then n % 10 else n % 16 }

  /** '0'..'9', then 'A'..'F'. */
  function DigitChar(d: nat): byte
    requires d < 16
  {
    if d < 10 then 48 + d else 55 + d
  }

  function DigitValue(c: byte): nat {
    if 48 <= c <= 57 then c - 48 else if 65 <= c <= 70 then c - 55 else 0
  }

  predicate IsDigit(c: byte) { 48 <= c <= 57 }

  /** The digits of `n`, most significant first; none for zero. */
  function Digits(n: nat, r: Radix): (s: seq<byte>)
    ensures NulFree(s)
    decreases n
  {
    if n == 0 then [] else Digits(Quot(n, r), r) + [DigitChar(Rem(n, r))]
  }

  function NatText(n: nat, r: Radix): seq<byte> {
    if n == 0 then [ZERO] else Digits(n, r)
  }

  /** `%d`. Negating INT_MIN wraps, and then no digit is printed. */
  function DecText(n: int): seq<byte>
    requires IsInt(n)
  {
    if n == INT_MIN then [MINUS] else if n < 0 then [MINUS] + NatText(-n, Decimal) else NatText(n, Decimal)
  }

  /** `%x`. */
  function HexText(n: nat): seq<byte> {
    [48, 120] + NatText(n, Hex)
  }

  /** Reading digits from the left, as a parser does. */
  function Value(s: seq<byte>, r: Radix): nat {
    if s == [] then 0 else Value(s[..|s| - 1], r) * Base(r) + DigitValue(s[|s| - 1])
  }

  lemma ValueAppend(s: seq<byte>, c: byte, r: Radix)
    ensures Value(s + [c], r) == Value(s, r) * Base(r) + DigitValue(c)
  {
    assert (s + [c])[..|s|] == s;
  }

  lemma DivideRadix(n: nat, r: Radix)
    ensures n == Quot(n, r) * Base(r) + Rem(n, r) && DigitValue(DigitChar(Rem(n, r))) == Rem(n, r)
  {}

  lemma {:induction false} ValueOfDigits(n: nat, r: Radix)
    ensures Value(Digits(n, r), r) == n
    decreases n
  {
    if n > 0 {
      ValueOfDigits(Quot(n, r), r);
      ValueAppend(Digits(Quot(n, r), r), DigitChar(Rem(n, r)), r);
      DivideRadix(n, r);
    }
  }

  lemma {:induction false} NoLeadingZero(n: nat, r: Radix)
    requires n > 0
    ensures Digits(n, r) != [] && Digits(n, r)[0] != ZERO
    decreases n
  {
    if Quot(n, r) > 0 {
      NoLeadingZero(Quot(n, r), r);
    }
  }

  function Power(b: nat, k: nat): nat {
    if k == 0 then 1 else b * Power(b, k - 1)
  }

  lemma {:induction false} DigitsLength(n: nat, k: nat, r: Radix)
    requires n < Power(Base(r), k)
    ensures |Digits(n, r)| <= k
    decreases k
  {
    if n > 0 {
      DigitsLength(Quot(n, r), k - 1, r);
    }
  }

  lemma Limits()
    ensures 0x8000_0000 < Power(Base(Decimal), 10)
    ensures Power(Base(Hex), 8) == 0x1_0000_0000
  {}

  lemma {:induction false} DecimalDigits(n: nat)
    ensures forall i :: 0 <= i < |Digits(n, Decimal)| ==> IsDigit(Digits(n, Decimal)[i])
    decreases n
  {
    if n > 0 { DecimalDigits(n / 10); }
  }

  /** The value a signed decimal text stands for. */
  function SignedValue(s: seq<byte>): int {
    if s != [] && s[0] == MINUS then 0 - Value(s[1..], Decimal) else Value(s, Decimal)
  }

  /** `%d` prints a text that reads back as the number for every int but INT_MIN,
      with no leading zero, in at most 11 characters. */
  lemma DecTextRoundTripIff(n: int)
    requires IsInt(n)
    ensures SignedValue(DecText(n)) == n <==> n != INT_MIN
    ensures n > 0 ==> DecText(n)[0] != ZERO
    ensures INT_MIN < n < 0 ==> |DecText(n)| > 1 && DecText(n)[1] != ZERO
    ensures |DecText(n)| <= 11
  {
    if n == INT_MIN {
      assert Value([], Decimal) == 0;
    } else if n == 0 {
      assert Value([], Decimal) == 0;
      assert Value([ZERO], Decimal) == 0;
    } else {
      var m: nat := if n < 0 then -n else n;
      ValueOfDigits(m, Decimal);
      NoLeadingZero(m, Decimal);
      Limits();
      DigitsLength(m, 10, Decimal);
      DecimalDigits(m);
      assert DecText(n)[if n < 0 then 1 else 0..] == Digits(m, Decimal);
      assert IsDigit(Digits(m, Decimal)[0]);
    }
  }

  /** `%x` reads back for every 32-bit value, in at most 8 digits. */
  lemma HexTextRoundTrip(n: nat)
    requires n < 0x1_0000_0000
    ensures Value(HexText(n)[2..], Hex) == n
    ensures n > 0 ==> HexText(n)[2] != ZERO
    ensures 1 <= |HexText(n)| - 2 <= 8
  {
    assert HexText(n)[2..] == NatText(n, Hex);
    if n == 0 {
      assert Value([], Hex) == 0;
      assert [ZERO][..0] == [];
    } else {
      ValueOfDigits(n, Hex);
      NoLeadingZero(n, Hex);
      Limits();
      DigitsLength(n, 8, Hex);
    }
  }

  // ---- The digits one by one ----

  const HEX_DIGITS: string := "0123456789ABCDEF"

  /** A text in base 10 or 16: its digit `k` places from the right is that of
      weight base to the `k`. */
  lemma {:induction false} DigitAt(n: nat, r: Radix, base: nat, k: nat)
    requires base == (if r == Decimal then 10 else 16) && k < |Digits(n, r)|
    ensures Power(base, k) > 0
    ensures var d := Digits(n, r);
      d[|d| - 1 - k] == Ascii(HEX_DIGITS)[n / Power(base, k) % base]
    decreases n
  {
    if k > 0 {
      DigitAt(n / base, r, base, k - 1);
      var p := Power(base, k - 1);
      DivideTwice(n, base, p);
    } else {
      DigitCharIs(n % base);
    }
  }

  lemma DigitCharIs(d: nat)
    requires d < 16
    ensures DigitChar(d) == Ascii(HEX_DIGITS)[d]
  {}

  lemma DivideTwice(n: nat, a: nat, b: nat)
    requires (a == 10 || a == 16) && b > 0
    ensures a * b > 0 && n / a / b == n / (a * b)
  {
    var q, r := n / a, n % a;
    var q2, r2 := q / b, q % b;
    var m, t := a * b, b * q2;
    Reassociate(a, b, q2);
    assert q == t + r2 && n == a * q + r;
    assert n == a * t + (a * r2 + r);
    assert a * r2 + r < m;
    QuotientIs(n, m, q2, a * r2 + r);
  }

  lemma Reassociate(a: nat, b: nat, c: nat)
    requires a == 10 || a == 16
    ensures a * (b * c) == a * b * c
  {}

  lemma QuotientIs(n: nat, m: nat, q: nat, r: nat)
    requires m > 0 && n == m * q + r && r < m
    ensures n / m == q
  {
    var d := n / m - q;
    assert m * d == r - n % m;
    assert d >= 1 ==> m * d >= m;
    assert d <= -1 ==> m * d <= 0 - m;
  }

  /** `%d` and `%x` in front of the digits: a minus sign, or 0x; and a digit for 0. */
  lemma SignAndPrefix(n: nat)
    requires n < 0x8000_0000
    ensures DecText(n) == if n == 0 then Ascii("0") else Digits(n, Decimal)
    ensures n > 0 ==> DecText(0 - n) == Ascii("-") + Digits(n, Decimal)
    ensures HexText(n) == Ascii("0x") + if n == 0 then Ascii("0") else Digits(n, Hex)
  {
    assert Ascii("0") == [48] && Ascii("-") == [45] && Ascii("0x") == [48, 120];
  }

  /** Reading decimal digits from the left: each one is worth its number, and ten
      times what lies before it is added. */
  lemma DecimalReads(s: seq<byte>, c: byte)
    requires 48 <= c <= 57
    ensures Value([], Decimal) == 0 && Value(s + [c], Decimal) == 10 * Value(s, Decimal) + (c as int - 48)
  {
    ValueAppend(s, c, Decimal);
  }
}
