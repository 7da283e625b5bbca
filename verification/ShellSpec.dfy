// The parsers of kernel/shell.c as functions on the command line, what the
// commands do, and what is promised end to end.
module ShellSpec {
  import opened CLib
  import opened FsLayout
  import opened SlotMap
  import opened FsSpec
  import opened FsRuns
  import opened Numbers
  import opened TerminalSpec
  import opened LineEditor

  const BLANK: byte := 32

  // ---- Scanning ----

  datatype Class = Spaces | NonSpaces | Numerals

  predicate Is(k: Class, c: byte) {
    match k
    case Spaces => c == BLANK
    case NonSpaces => c != BLANK
    case Numerals => IsDigit(c)
  }

  /** The end of the run of class-`k` characters that starts at `i`. */
  function Span(s: seq<byte>, i: nat, k: Class): (j: nat)
    requires i <= |s|
    ensures i <= j <= |s|
    ensures forall n :: i <= n < j ==> Is(k, s[n])
    ensures j < |s| ==> !Is(k, s[j])
    decreases |s| - i
  {
    if i == |s| || !Is(k, s[i]) then i else Span(s, i + 1, k)
  }

  lemma {:induction false} SpanIs(s: seq<byte>, i: nat, k: Class, j: nat)
    requires i <= j <= |s| && forall n :: i <= n < j ==> Is(k, s[n])
    requires j < |s| ==> !Is(k, s[j])
    ensures Span(s, i, k) == j
    decreases j - i
  {
    if i < j {
      SpanIs(s, i + 1, k, j);
    }
  }

  predicate StartsWith(s: seq<byte>, prefix: seq<byte>) {
    |prefix| <= |s| && s[..|prefix|] == prefix
  }

  // ---- calc ----

  /** int arithmetic, wrapping. */
  function Wrap(n: int): (r: int)
    ensures IsInt(r) && (IsInt(n) ==> r == n)
  {
    (n + 0x8000_0000) % 0x1_0000_0000 - 0x8000_0000
  }

  /** C division truncates toward zero. */
  function Truncated(a: int, b: int): int
    requires b != 0
  {
    if a >= 0 then (if b > 0 then a / b else -(a / -b))
    else (if b > 0 then -(-a / b) else -a / -b)
  }

  /** The number the loop over the digits accumulates in an int. */
  function Accumulated(digits: seq<byte>): (n: int)
    ensures IsInt(n)
  {
    if digits == [] then 0
    else Wrap(Accumulated(digits[..|digits| - 1]) * 10 + (digits[|digits| - 1] as int - 48))
  }

  datatype Expr = Expr(num1: int, op: byte, num2: int)

  /** Spaces, then a number; and where it ends. */
  function Operand(s: seq<byte>, i: nat): (r: (int, nat))
    requires i <= |s|
    ensures IsInt(r.0) && r.1 <= |s|
  {
    var a := Span(s, i, Spaces);
    var b := Span(s, a, Numerals);
    (Accumulated(s[a..b]), b)
  }

  function ParseCalc(s: seq<byte>): (e: Expr)
    ensures IsInt(e.num1) && IsInt(e.num2)
  {
    var (num1, b) := Operand(s, 0);
    var c := Span(s, b, Spaces);
    if c == |s| then Expr(num1, 0, 0) else Expr(num1, s[c], Operand(s, c + 1).0)
  }

  const PLUS: byte := 43
  const DASH: byte := 45
  const STAR: byte := 42
  const SLASH: byte := 47

  /** What a command answers. `Other` stands for output that is not modelled.
      `DivisionFaults`: the processor refuses the division, and the kernel, which
      handles no exceptions, stops. */
  datatype Reply =
    | Nothing | Other | Cleared
    | Printed(text: seq<byte>)
    | Created(name: seq<byte>) | Exists(name: seq<byte>) | Full | Failed | NoName | NoContent
    | Removed(name: seq<byte>) | NotFound(name: seq<byte>)
    | DivisionByZero | DivisionFaults | CalcUsage
    | Unknown(cmd: seq<byte>)

  function Operate(a: int, op: byte, b: int): int
    requires op == SLASH ==> b != 0
  {
    if op == PLUS then a + b else if op == DASH then a - b else if op == STAR then a * b
    else if op == SLASH then Truncated(a, b) else 0
  }

  predicate IsOperator(c: byte) { c == PLUS || c == DASH || c == STAR || c == SLASH }

  /** INT_MIN / -1: the quotient is no int. */
  predicate Overflows(e: Expr) { e.op == SLASH && e.num1 == INT_MIN && e.num2 == -1 }

  /** "a op b = r\n" */
  function CalcText(a: int, op: byte, b: int, r: int): seq<byte>
    requires IsInt(a) && IsInt(b) && IsInt(r)
  {
    DecText(a) + [BLANK, op, BLANK] + DecText(b) + [BLANK, 61, BLANK] + DecText(r) + [10]
  }

  function Calc(s: seq<byte>): Reply { Evaluate(ParseCalc(s)) }

  function Evaluate(e: Expr): Reply
    requires IsInt(e.num1) && IsInt(e.num2)
  {
    if !IsOperator(e.op) then CalcUsage
    else if e.op == SLASH && e.num2 == 0 then DivisionByZero
    else if Overflows(e) then DivisionFaults
    else Printed(CalcText(e.num1, e.op, e.num2, Wrap(Operate(e.num1, e.op, e.num2))))
  }

  /** Below the int limit, accumulating is reading the number. */
  lemma {:induction false} AccumulatedIsValue(s: seq<byte>)
    requires forall i :: 0 <= i < |s| ==> IsDigit(s[i])
    requires Value(s, Decimal) <= INT_MAX
    ensures Accumulated(s) == Value(s, Decimal)
  {
    if s != [] {
      AccumulatedIsValue(s[..|s| - 1]);
    }
  }

  lemma NatTextReads(n: nat)
    requires n <= INT_MAX
    ensures var t := NatText(n, Decimal);
      t != [] && (forall i :: 0 <= i < |t| ==> IsDigit(t[i])) && Accumulated(t) == n
  {
    var t := NatText(n, Decimal);
    if n == 0 {
      assert Value([], Decimal) == 0 && t[..0] == [];
    } else {
      DecimalDigits(n);
      ValueOfDigits(n, Decimal);
      NoLeadingZero(n, Decimal);
    }
    AccumulatedIsValue(t);
  }

  /** Parsing n digits, an operator between single spaces, and m digits. */
  lemma ParseAt(s: seq<byte>, n: nat, op: byte, m: nat)
    requires n > 0 && m > 0 && n + 3 + m < |s| && IsOperator(op)
    requires forall i :: 0 <= i < n ==> IsDigit(s[i])
    requires s[n] == BLANK && s[n + 1] == op && s[n + 2] == BLANK
    requires forall i :: n + 3 <= i < n + 3 + m ==> IsDigit(s[i])
    requires s[n + 3 + m] == BLANK
    ensures ParseCalc(s) == Expr(Accumulated(s[0..n]), op, Accumulated(s[n + 3..n + 3 + m]))
  {
    SpanIs(s, 0, Spaces, 0);
    SpanIs(s, 0, Numerals, n);
    SpanIs(s, n, Spaces, n + 1);
    SpanIs(s, n + 2, Spaces, n + 3);
    SpanIs(s, n + 3, Numerals, n + 3 + m);
  }

  lemma ParsePrinted(t1: seq<byte>, op: byte, t2: seq<byte>, rest: seq<byte>, s: seq<byte>)
    requires t1 != [] && forall i :: 0 <= i < |t1| ==> IsDigit(t1[i])
    requires t2 != [] && forall i :: 0 <= i < |t2| ==> IsDigit(t2[i])
    requires IsOperator(op) && rest != [] && rest[0] == BLANK
    requires s == t1 + [BLANK, op, BLANK] + t2 + rest
    ensures ParseCalc(s) == Expr(Accumulated(t1), op, Accumulated(t2))
  {
    var n, m := |t1|, |t2|;
    assert s[0..n] == t1 && s[n + 3..n + 3 + m] == t2;
    assert forall i :: 0 <= i < n ==> s[i] == t1[i];
    forall k | n + 3 <= k < n + 3 + m ensures IsDigit(s[k]) {
      assert s[k] == t2[k - (n + 3)];
    }
    assert s[n + 3 + m] == rest[0];
    ParseAt(s, n, op, m);
  }

  lemma CalcOfParsed(s: seq<byte>, a: int, op: byte, b: int, r: int)
    requires ParseCalc(s) == Expr(a, op, b) && IsOperator(op) && (op == SLASH ==> b != 0) && !Overflows(Expr(a, op, b))
    requires IsInt(a) && IsInt(b) && r == Wrap(Operate(a, op, b))
    ensures Calc(s) == Printed(CalcText(a, op, b, r))
  {}

  lemma PrintedShape(a: nat, op: byte, b: nat, r: int)
    requires a <= INT_MAX && b <= INT_MAX && IsInt(r)
    ensures CalcText(a, op, b, r) ==
      NatText(a, Decimal) + [BLANK, op, BLANK] + NatText(b, Decimal) + ([BLANK, 61, BLANK] + DecText(r) + [10])
  {}

  /** Two non-negative operands print a line that is computed to itself. */
  lemma CalcReparses(a: nat, op: byte, b: nat, r: int)
    requires a <= INT_MAX && b <= INT_MAX && IsOperator(op) && (op == SLASH ==> b != 0)
    requires r == Wrap(Operate(a, op, b))
    ensures Calc(CalcText(a, op, b, r)) == Printed(CalcText(a, op, b, r))
  {
    var text := CalcText(a, op, b, r);
    NatTextReads(a);
    NatTextReads(b);
    PrintedShape(a, op, b, r);
    ParsePrinted(NatText(a, Decimal), op, NatText(b, Decimal), [BLANK, 61, BLANK] + DecText(r) + [10], text);
    CalcOfParsed(text, a, op, b, r);
  }

  lemma DecTextHead(n: int)
    requires IsInt(n)
    ensures DecText(n) != []
    ensures n < 0 <==> DecText(n)[0] == MINUS
  {
    if n > 0 {
      DecimalDigits(n);
      NoLeadingZero(n, Decimal);
    }
  }

  /** A negative first operand is read back as 0, minus, a number. */
  lemma NegativeFirst(a: int, op: byte, b: int, r: int)
    requires IsInt(a) && IsInt(b) && IsInt(r) && a < 0
    ensures Calc(CalcText(a, op, b, r)) != Printed(CalcText(a, op, b, r))
  {
    var text := CalcText(a, op, b, r);
    DecTextHead(a);
    assert text[0] == MINUS;
    SpanIs(text, 0, Spaces, 0);
    SpanIs(text, 0, Numerals, 0);
    var e := ParseCalc(text);
    assert text[0..0] == [] && e.num1 == 0;
    var r' := Wrap(Operate(0, e.op, e.num2));
    assert DecText(0) == [ZERO];
    assert CalcText(0, e.op, e.num2, r')[0] == ZERO;
  }

  /** Where the pieces of a printed line lie. */
  lemma PrintedAt(a: nat, op: byte, b: int, r: int, t1: seq<byte>, text: seq<byte>)
    requires a <= INT_MAX && IsInt(b) && IsInt(r)
    requires t1 == NatText(a, Decimal) && text == CalcText(a, op, b, r)
    ensures var n := |t1|;
      && n + 3 < |text| && text[0..n] == t1
      && text[n] == BLANK && text[n + 1] == op && text[n + 2] == BLANK && DecText(b) != [] && text[n + 3] == DecText(b)[0]
  {
    DecTextHead(b);
  }

  lemma ParseStops(s: seq<byte>, n: nat, op: byte)
    requires n > 0 && n + 3 < |s|
    requires forall i :: 0 <= i < n ==> IsDigit(s[i])
    requires s[n] == BLANK && s[n + 1] == op && op != BLANK && s[n + 2] == BLANK && s[n + 3] == MINUS
    ensures ParseCalc(s) == Expr(Accumulated(s[0..n]), op, 0)
  {
    SpanIs(s, 0, Spaces, 0);
    SpanIs(s, 0, Numerals, n);
    SpanIs(s, n, Spaces, n + 1);
    SpanIs(s, n + 2, Spaces, n + 3);
    SpanIs(s, n + 3, Numerals, n + 3);
    assert s[n + 3..n + 3] == [];
  }

  /** A negative second operand is read back as 0. */
  lemma NegativeSecond(a: nat, op: byte, b: int, r: int)
    requires a <= INT_MAX && IsInt(b) && IsInt(r) && b < 0 && IsOperator(op)
    ensures Calc(CalcText(a, op, b, r)) != Printed(CalcText(a, op, b, r))
  {
    var text, t1 := CalcText(a, op, b, r), NatText(a, Decimal);
    NatTextReads(a);
    DecTextHead(b);
    PrintedAt(a, op, b, r, t1, text);
    assert forall i :: 0 <= i < |t1| ==> text[i] == text[0..|t1|][i];
    ParseStops(text, |t1|, op);
    if op != SLASH {
      ZeroSecond(a, op, t1, text);
    }
  }

  lemma ZeroSecond(a: nat, op: byte, t1: seq<byte>, text: seq<byte>)
    requires a <= INT_MAX && t1 == NatText(a, Decimal) && IsOperator(op) && op != SLASH
    requires ParseCalc(text) == Expr(a, op, 0) && |text| > |t1| + 3 && text[|t1| + 3] == MINUS
    ensures Calc(text) != Printed(text)
  {
    var r' := Wrap(Operate(a, op, 0));
    DecTextHead(0);
    PrintedAt(a, op, 0, r', t1, CalcText(a, op, 0, r'));
    CalcOfParsed(text, a, op, 0, r');
  }

  lemma WrapShift(n: int, k: int)
    ensures Wrap(n + 0x1_0000_0000 * k) == Wrap(n)
  {}

  /** Accumulating digits is reading the number, wrapped. */
  lemma {:induction false} AccumulatedWraps(digits: seq<byte>)
    requires forall i :: 0 <= i < |digits| ==> IsDigit(digits[i])
    ensures Accumulated(digits) == Wrap(Value(digits, Decimal))
  {
    if digits != [] {
      var n := |digits| - 1;
      AccumulatedWraps(digits[..n]);
      WrapTimesTen(Value(digits[..n], Decimal), DigitValue(digits[n]));
    }
  }

  lemma WrapTimesTen(v: nat, x: nat)
    ensures Wrap(Wrap(v) * 10 + x) == Wrap(v * 10 + x)
  {
    var q := (v + 0x8000_0000) / 0x1_0000_0000;
    WrapShift(v * 10 + x, -10 * q);
  }

  /** The digits of the first and of the second number on the line. */
  function FirstDigits(s: seq<byte>): seq<byte> {
    var a := Span(s, 0, Spaces);
    s[a..Span(s, a, Numerals)]
  }

  function SecondDigits(s: seq<byte>): seq<byte> {
    var c := Span(s, Operand(s, 0).1, Spaces);
    if c == |s| then [] else
    var a := Span(s, c + 1, Spaces);
    s[a..Span(s, a, Numerals)]
  }

  /** The number typed fits an int, or wraps to one that is not negative. */
  predicate ReadsNonNegative(digits: seq<byte>) {
    Value(digits, Decimal) % 0x1_0000_0000 < 0x8000_0000
  }

  lemma ReadIff(digits: seq<byte>)
    requires forall i :: 0 <= i < |digits| ==> IsDigit(digits[i])
    ensures Accumulated(digits) >= 0 <==> ReadsNonNegative(digits)
  {
    AccumulatedWraps(digits);
    WrapSign(Value(digits, Decimal));
  }

  lemma WrapSign(v: nat)
    ensures Wrap(v) >= 0 <==> v % 0x1_0000_0000 < 0x8000_0000
  {}

  lemma OperandsRead(s: seq<byte>, e: Expr)
    requires e == ParseCalc(s)
    ensures e.num1 >= 0 <==> ReadsNonNegative(FirstDigits(s))
    ensures IsOperator(e.op) ==> (e.num2 >= 0 <==> ReadsNonNegative(SecondDigits(s)))
  {
    ReadIff(FirstDigits(s));
    ReadIff(SecondDigits(s));
  }

  /** Main result: calc computes a line it printed to the very same line exactly
      when neither number on the command line is read as negative, which wrapping
      alone can do. */
  lemma CalcFixedPointIff(s: seq<byte>, text: seq<byte>)
    requires Calc(s) == Printed(text)
    ensures Calc(text) == Printed(text) <==> ReadsNonNegative(FirstDigits(s)) && ReadsNonNegative(SecondDigits(s))
  {
    var e := ParseCalc(s);
    var r := Wrap(Operate(e.num1, e.op, e.num2));
    OperandsRead(s, e);
    if e.num1 < 0 {
      NegativeFirst(e.num1, e.op, e.num2, r);
    } else if e.num2 < 0 {
      NegativeSecond(e.num1, e.op, e.num2, r);
    } else {
      CalcReparses(e.num1, e.op, e.num2, r);
    }
  }

  /** The division faults exactly when the number before the slash is read as
      INT_MIN and the one behind it as -1. */
  lemma CalcFaultsIff(s: seq<byte>)
    ensures Calc(s) == DivisionFaults <==>
      && ParseCalc(s).op == SLASH
      && Value(FirstDigits(s), Decimal) % 0x1_0000_0000 == 0x8000_0000
      && Value(SecondDigits(s), Decimal) % 0x1_0000_0000 == 0xFFFF_FFFF
  {
    AccumulatedWraps(FirstDigits(s));
    WrapEnds(Value(FirstDigits(s), Decimal));
    AccumulatedWraps(SecondDigits(s));
    WrapEnds(Value(SecondDigits(s), Decimal));
  }

  lemma WrapEnds(v: nat)
    ensures Wrap(v) == INT_MIN <==> v % 0x1_0000_0000 == 0x8000_0000
    ensures Wrap(v) == -1 <==> v % 0x1_0000_0000 == 0xFFFF_FFFF
  {}

  /** It does happen. */
  lemma DivisionDoesFault(s: seq<byte>)
    requires s == Ascii("2147483648 / 4294967295")
    ensures Calc(s) == DivisionFaults
  {
    assert s == [50, 49, 52, 55, 52, 56, 51, 54, 52, 56, 32, 47, 32, 52, 50, 57, 52, 57, 54, 55, 50, 57, 53];
    FaultyBytes(s);
  }

  lemma FaultyBytes(s: seq<byte>)
    requires s == [50, 49, 52, 55, 52, 56, 51, 54, 52, 56, 32, 47, 32, 52, 50, 57, 52, 57, 54, 55, 50, 57, 53]
    ensures Calc(s) == DivisionFaults
  {
    TenDigits(s[..10]);
    MinusOneDigits(s[13..]);
    FaultyDigits(s);
    FaultsFrom(s);
  }

  lemma FaultyDigits(s: seq<byte>)
    requires s == [50, 49, 52, 55, 52, 56, 51, 54, 52, 56, 32, 47, 32, 52, 50, 57, 52, 57, 54, 55, 50, 57, 53]
    ensures s[10] == BLANK && s[11] == SLASH && s[12] == BLANK
    ensures forall i :: 0 <= i < 10 ==> IsDigit(s[i])
    ensures forall i :: 13 <= i < |s| ==> IsDigit(s[i])
  {}

  lemma FaultsFrom(s: seq<byte>)
    requires |s| == 23 && s[10] == BLANK && s[11] == SLASH && s[12] == BLANK
    requires forall i :: 0 <= i < 10 ==> IsDigit(s[i])
    requires forall i :: 13 <= i < |s| ==> IsDigit(s[i])
    requires Value(s[..10], Decimal) == 0x8000_0000 && Value(s[13..], Decimal) == 0xFFFF_FFFF
    ensures Calc(s) == DivisionFaults
  {
    QuotientRead(s, 10);
    CalcFaultsIff(s);
  }

  lemma QuotientRead(s: seq<byte>, n: nat)
    requires 0 < n && n + 3 < |s| && s[n] == BLANK && s[n + 1] == SLASH && s[n + 2] == BLANK
    requires forall i :: 0 <= i < n ==> IsDigit(s[i])
    requires forall i :: n + 3 <= i < |s| ==> IsDigit(s[i])
    ensures FirstDigits(s) == s[..n] && SecondDigits(s) == s[n + 3..] && ParseCalc(s).op == SLASH
  {
    SpanIs(s, 0, Spaces, 0);
    SpanIs(s, 0, Numerals, n);
    SpanIs(s, n, Spaces, n + 1);
    SpanIs(s, n + 2, Spaces, n + 3);
    SpanIs(s, n + 3, Numerals, |s|);
    assert s[0..n] == s[..n] && s[n + 3..|s|] == s[n + 3..];
  }

  lemma MinusOneDigits(digits: seq<byte>)
    requires digits == [52, 50, 57, 52, 57, 54, 55, 50, 57, 53]
    ensures Value(digits, Decimal) == 0xFFFF_FFFF
  {
    assert digits[..0] == [];
    NextDigit(digits, 0, 0);
    NextDigit(digits, 1, 4);
    NextDigit(digits, 2, 42);
    NextDigit(digits, 3, 429);
    NextDigit(digits, 4, 4294);
    LastMinusOneDigits(digits);
  }

  lemma LastMinusOneDigits(digits: seq<byte>)
    requires |digits| == 10 && digits[5..] == [54, 55, 50, 57, 53] && Value(digits[..5], Decimal) == 42949
    ensures Value(digits, Decimal) == 0xFFFF_FFFF
  {
    assert digits[5] == 54 && digits[6] == 55 && digits[7] == 50 && digits[8] == 57 && digits[9] == 53;
    NextDigit(digits, 5, 42949);
    NextDigit(digits, 6, 429496);
    NextDigit(digits, 7, 4294967);
    NextDigit(digits, 8, 42949672);
    NextDigit(digits, 9, 429496729);
    assert digits[..10] == digits;
  }

  /** The first number is read as INT_MIN. */
  lemma OverflowNotFixed(s: seq<byte>)
    requires s == Ascii("2147483648 + 1")
    ensures Calc(s).Printed? && Calc(Calc(s).text) != Calc(s)
  {
    var digits := Ascii("2147483648");
    TooBig(digits);
    SpanIs(s, 0, Spaces, 0);
    SpanIs(s, 0, Numerals, 10);
    SpanIs(s, 10, Spaces, 11);
    assert FirstDigits(s) == digits;
    CalcFixedPointIff(s, Calc(s).text);
  }

  lemma TooBig(digits: seq<byte>)
    requires digits == Ascii("2147483648")
    ensures Value(digits, Decimal) == 0x8000_0000
  {
    assert digits == [50, 49, 52, 55, 52, 56, 51, 54, 52, 56];
    TenDigits(digits);
  }

  lemma TenDigits(digits: seq<byte>)
    requires digits == [50, 49, 52, 55, 52, 56, 51, 54, 52, 56]
    ensures Value(digits, Decimal) == 0x8000_0000
  {
    assert digits[..0] == [] && digits[..10] == digits;
    NextDigit(digits, 0, 0);
    NextDigit(digits, 1, 2);
    NextDigit(digits, 2, 21);
    NextDigit(digits, 3, 214);
    NextDigit(digits, 4, 2147);
    FiveMoreDigits(digits);
  }

  lemma FiveMoreDigits(digits: seq<byte>)
    requires |digits| == 10 && digits[5..] == [56, 51, 54, 52, 56] && Value(digits[..5], Decimal) == 21474
    ensures Value(digits[..10], Decimal) == 0x8000_0000
  {
    assert digits[5] == 56 && digits[6] == 51 && digits[7] == 54 && digits[8] == 52 && digits[9] == 56;
    NextDigit(digits, 5, 21474);
    NextDigit(digits, 6, 214748);
    NextDigit(digits, 7, 2147483);
    NextDigit(digits, 8, 21474836);
    NextDigit(digits, 9, 214748364);
  }

  lemma NextDigit(digits: seq<byte>, k: nat, v: nat)
    requires k < |digits| && Value(digits[..k], Decimal) == v
    ensures Value(digits[..k + 1], Decimal) == v * 10 + DigitValue(digits[k])
  {
    assert digits[..k + 1] == digits[..k] + [digits[k]];
    ValueAppend(digits[..k], digits[k], Decimal);
  }

  // ---- write, cat, rm ----

  /** The file name (at most 31 characters, up to a space) and the content. A
      longer name is cut, and what follows the cut is taken as content. */
  function ParseWrite(s: seq<byte>): (r: (seq<byte>, seq<byte>))
    ensures |r.0| < MAX_FILENAME
  {
    var a := Span(s, 0, Spaces);
    var b := Min(Span(s, a, NonSpaces), a + MAX_FILENAME - 1);
    var c := Span(s, b, Spaces);
    (s[a..b], s[c..])
  }

  lemma ParseWriteParts(s: seq<byte>)
    requires NulFree(s)
    ensures NulFree(ParseWrite(s).0) && NulFree(ParseWrite(s).1)
  {}

  /** A name without spaces, one space, and a text that starts with no space. */
  lemma ParseWriteExact(name: seq<byte>, content: seq<byte>)
    requires 0 < |name| < MAX_FILENAME && (forall i :: 0 <= i < |name| ==> name[i] != BLANK)
    requires content != [] && content[0] != BLANK
    ensures ParseWrite(name + [BLANK] + content) == (name, content)
  {
    var s, n := name + [BLANK] + content, |name|;
    assert forall i :: 0 <= i < n ==> s[i] == name[i];
    assert s[n] == BLANK && s[n + 1] == content[0] && s[0] == name[0];
    SpanIs(s, 0, Spaces, 0);
    SpanIs(s, 0, NonSpaces, n);
    SpanIs(s, n, Spaces, n + 1);
    assert s[0..n] == name && s[n + 1..] == content;
  }

  function WriteReply(code: int, name: seq<byte>): Reply {
    if code == 0 then Created(name) else if code == -2 then Exists(name) else if code == -3 then Full else Failed
  }

  function Cat(s: Fs, name: seq<byte>): Reply {
    if ReadCode(s, name, MAX_FILE_SIZE + 1) < 0 then NotFound(name)
    else Printed(CStr(ReadBytes(s, name, MAX_FILE_SIZE + 1)) + [10])
  }

  function Write(s: Fs, args: seq<byte>, io: Io): (Fs, Reply) {
    var (name, content) := ParseWrite(args);
    if name == [] then (s, NoName)
    else if content == [] then (s, NoContent)
    else (Create(s, name, content, io), WriteReply(CreateCode(s, name, content), name))
  }

  function Remove(s: Fs, name: seq<byte>, io: Io): (Fs, Reply) {
    (Delete(s, name, io), if DeleteCode(s, name) == 0 then Removed(name) else NotFound(name))
  }

  // "cat ", "write ", "rm ", "save", "calc ", "echo ", "clear", "disks"
  const CAT: seq<byte> := [99, 97, 116, 32]
  const WRITE: seq<byte> := [119, 114, 105, 116, 101, 32]
  const RM: seq<byte> := [114, 109, 32]
  const SAVE: seq<byte> := [115, 97, 118, 101]
  const CALC: seq<byte> := [99, 97, 108, 99, 32]
  const ECHO: seq<byte> := [101, 99, 104, 111, 32]

  const CLEAR: seq<byte> := [99, 108, 101, 97, 114]
  const DISKS: seq<byte> := [100, 105, 115, 107, 115]

  datatype Verb =
    | VerbNone | VerbCat | VerbWrite | VerbRm | VerbClear | VerbSave | VerbCalc | VerbEcho
    | VerbDisks | VerbOther | VerbUnknown

  /** The commands whose output is not modelled; they leave the files alone. */
  const OTHERS: seq<string> := ["help", "ls", "serial_read", "info", "version", "cpuid", "mem", "banner", "colors",
                                "reboot", "panic"]
  const SERIAL_PRINT: string := "serial_print "

  predicate IsOther(cmd: seq<byte>) {
    StartsWith(cmd, Ascii(SERIAL_PRINT)) || exists i :: 0 <= i < |OTHERS| && cmd == Ascii(OTHERS[i])
  }

  /** Which command a line is. */
  function VerbOf(cmd: seq<byte>): (v: Verb)
    ensures Skip(v) <= |cmd|
  {
    if cmd == [] then VerbNone
    else if StartsWith(cmd, CAT) then VerbCat
    else if StartsWith(cmd, WRITE) then VerbWrite
    else if StartsWith(cmd, RM) then VerbRm
    else if cmd == CLEAR then VerbClear
    else if cmd == SAVE then VerbSave
    else if StartsWith(cmd, CALC) then VerbCalc
    else if StartsWith(cmd, ECHO) then VerbEcho
    else if cmd == DISKS then VerbDisks
    else if IsOther(cmd) then VerbOther
    else VerbUnknown
  }

  /** Where its argument starts. */
  function Skip(v: Verb): nat {
    match v
    case VerbCat => 4
    case VerbWrite => 6
    case VerbRm => 3
    case VerbCalc => 5
    case VerbEcho => 5
    case _ => 0
  }

  predicate UsesFiles(v: Verb) { v.VerbCat? || v.VerbWrite? || v.VerbRm? || v.VerbSave? }

  /** The answer of a command that does not use the file system. */
  function Answer(v: Verb, arg: seq<byte>): Reply {
    match v
    case VerbNone => Nothing
    case VerbClear => Cleared
    case VerbCalc => Calc(arg)
    case VerbEcho => Printed(arg + [10])
    case VerbUnknown => Unknown(arg)
    case _ => Other
  }

  function Perform(s: Fs, v: Verb, arg: seq<byte>, io: Io): (Fs, Reply) {
    match v
    case VerbCat => (s, Cat(s, arg))
    case VerbWrite => Write(s, arg, io)
    case VerbRm => Remove(s, arg, io)
    case VerbSave => (Save(s, io), Other)
    case _ => (s, Answer(v, arg))
  }

  /** The command ends in a save. */
  predicate Saves(v: Verb, reply: Reply) {
    v.VerbSave? || reply.Created? || reply.Removed?
  }

  // ---- What it puts on the screen ----

  /** A message with a name in it, in a colour; the colour is white afterwards. */
  function Named(color: byte, message: string, name: seq<byte>): seq<TermOp> {
    Colored(color, message) + Puts(name) + Puts([10]) + [SetColor(WHITE)]
  }

  function InRed(message: string): seq<TermOp> {
    Colored(LIGHT_RED, message) + [SetColor(WHITE)]
  }

  const TRY_HELP: string := "Type 'help' for available commands.\n"

  /** Error and usage texts in the current colour. */
  function Hint(reply: Reply): string {
    match reply
    case NoName => "Usage: write <filename> <content>\nExample: write hello.txt Hello World!\n"
    case NoContent => "Error: No content provided\n"
    case DivisionByZero => "Error: Division by zero!\n"
    case CalcUsage => "Usage: calc <num1> <op> <num2>\nOperators: + - * /\nExample: calc 15 + 27\n"
    case _ => ""
  }

  /** The terminal operations of a command. `notes` are those of fs_save_to_disk
      and of the commands whose output is not modelled: any at all. */
  function Says(reply: Reply, notes: seq<TermOp>): seq<TermOp> {
    match reply
    case Nothing => []
    case Other => notes
    case DivisionFaults => []
    case Cleared => [Clear]
    case Printed(text) => Puts(text)
    case Created(name) => notes + Named(LIGHT_GREEN, "File created: ", name)
    case Exists(name) => Named(LIGHT_RED, "Error: File already exists: ", name)
    case Full => InRed("Error: Filesystem full\n")
    case Failed => InRed("Error: Could not create file\n")
    case Removed(name) => notes + Named(LIGHT_GREEN, "File deleted: ", name)
    case NotFound(name) => Named(LIGHT_RED, "File not found: ", name)
    case Unknown(cmd) =>
      Named(LIGHT_RED, "Command not found: ", cmd) + Puts(Ascii(TRY_HELP))
    case _ => Puts(Ascii(Hint(reply)))
  }

  /** shell_execute_command: its effect on the files and its answer. */
  function Execute(s: Fs, cmd: seq<byte>, io: Io): (Fs, Reply) {
    Perform(s, VerbOf(cmd), cmd[Skip(VerbOf(cmd))..], io)
  }

  // ---- Sessions ----

  datatype Event =
    | Command(cmd: seq<byte>, io: Io)
    | Restart(loads: Reads, io: Io, readme: seq<byte>, io2: Io)

  function SessionStep(s: Fs, ev: Event): Fs {
    match ev
    case Command(cmd, io) => Execute(s, cmd, io).0
    case Restart(r, io, readme, io2) => KernelBoot(s.disk, true, r, io, readme, io2)
  }

  function Session(s: Fs, evs: seq<Event>): Fs
    decreases |evs|
  {
    if evs == [] then s else Session(SessionStep(s, evs[0]), evs[1..])
  }

  /** Every restart happens when the disk holds what memory holds, as it does when
      fs_persistent is set, and reads it well. */
  predicate SafeRestarts(s: Fs, evs: seq<Event>)
    decreases |evs|
  {
    evs == [] ||
    (&& (evs[0].Restart? ==> Synced(s) && AllRead(evs[0].loads))
     && SafeRestarts(SessionStep(s, evs[0]), evs[1..]))
  }

  ghost predicate CString(ev: Event) {
    match ev
    case Command(cmd, _) => NulFree(cmd)
    case Restart(_, _, readme, _) => NulFree(readme) && |readme| <= MAX_FILE_SIZE
  }

  ghost predicate Keeps(s: Fs, name: seq<byte>, content: seq<byte>) {
    Running(s) && name in FilesIn(s) && FilesIn(s)[name] == content && NulFree(content)
  }

  lemma WriteKeeps(s: Fs, args: seq<byte>, io: Io, name: seq<byte>, content: seq<byte>)
    requires Keeps(s, name, content) && NulFree(args)
    ensures Keeps(Write(s, args, io).0, name, content)
  {
    ParseWriteParts(args);
    CreateRuns(s, ParseWrite(args).0, ParseWrite(args).1, io);
  }

  lemma RemoveKeeps(s: Fs, other: seq<byte>, io: Io, name: seq<byte>, content: seq<byte>)
    requires Keeps(s, name, content) && other != name
    ensures Keeps(Remove(s, other, io).0, name, content)
  {
    DeleteRuns(s, other, io);
    assert Remove(s, other, io).0 == Delete(s, other, io);
    assert name in FilesIn(s) - {other};
  }

  lemma PerformKeeps(s: Fs, v: Verb, arg: seq<byte>, io: Io, name: seq<byte>, content: seq<byte>)
    requires Keeps(s, name, content) && NulFree(arg) && (v.VerbRm? ==> arg != name)
    ensures Keeps(Perform(s, v, arg, io).0, name, content)
  {
    match v {
      case VerbWrite => WriteKeeps(s, arg, io, name, content);
      case VerbRm => RemoveKeeps(s, arg, io, name, content);
      case _ =>
    }
  }

  lemma WriteRuns(s: Fs, args: seq<byte>, io: Io)
    requires Running(s) && NulFree(args)
    ensures Running(Write(s, args, io).0)
  {
    ParseWriteParts(args);
    CreateRuns(s, ParseWrite(args).0, ParseWrite(args).1, io);
  }

  /** Every command keeps the table one that stands for a map. */
  lemma CommandRuns(s: Fs, cmd: seq<byte>, io: Io)
    requires Running(s) && NulFree(cmd)
    ensures Running(Execute(s, cmd, io).0)
  {
    var arg := cmd[Skip(VerbOf(cmd))..];
    match VerbOf(cmd) {
      case VerbWrite => WriteRuns(s, arg, io);
      case VerbRm => DeleteRuns(s, arg, io);
      case _ =>
    }
  }

  /** And every command keeps entries well formed, whatever else holds. */
  lemma CommandEntriesOk(s: Fs, cmd: seq<byte>, io: Io)
    requires EntriesOk(s.header) && NulFree(cmd)
    ensures EntriesOk(Execute(s, cmd, io).0.header)
  {
    var arg := cmd[Skip(VerbOf(cmd))..];
    match VerbOf(cmd) {
      case VerbWrite =>
        ParseWriteParts(arg);
        CreateEntriesOk(s, ParseWrite(arg).0, ParseWrite(arg).1, io);
      case VerbRm => DeleteEntriesOk(s, arg, io);
      case _ =>
    }
  }

  /** And fs_persistent is never set wrongly by one. */
  lemma CommandIsSound(s: Fs, cmd: seq<byte>, io: Io)
    requires PersistentIsSound(s)
    ensures PersistentIsSound(Execute(s, cmd, io).0)
  {
    var arg := cmd[Skip(VerbOf(cmd))..];
    match VerbOf(cmd) {
      case VerbWrite => CreateIsSound(s, ParseWrite(arg).0, ParseWrite(arg).1, io);
      case VerbRm => DeleteIsSound(s, arg, io);
      case VerbSave => SaveIsSound(s, io);
      case _ =>
    }
  }

  lemma RmIsRm(cmd: seq<byte>)
    requires VerbOf(cmd) == VerbRm
    ensures cmd == RM + cmd[3..]
  {}

  lemma CommandKeeps(s: Fs, cmd: seq<byte>, io: Io, name: seq<byte>, content: seq<byte>)
    requires Keeps(s, name, content) && NulFree(cmd) && cmd != RM + name
    ensures Keeps(Execute(s, cmd, io).0, name, content)
  {
    var v := VerbOf(cmd);
    if v.VerbRm? { RmIsRm(cmd); }
    PerformKeeps(s, v, cmd[Skip(v)..], io, name, content);
  }

  lemma RestartKeeps(s: Fs, r: Reads, io: Io, readme: seq<byte>, io2: Io, name: seq<byte>, content: seq<byte>)
    requires Keeps(s, name, content) && Synced(s)
    requires AllRead(r) && NulFree(readme) && |readme| <= MAX_FILE_SIZE
    ensures Keeps(KernelBoot(s.disk, true, r, io, readme, io2), name, content)
  {
    KernelBootRefines(s.disk, true, r, io, readme, io2);
  }

  lemma {:induction false} SessionKeeps(s: Fs, evs: seq<Event>, name: seq<byte>, content: seq<byte>)
    requires Keeps(s, name, content) && SafeRestarts(s, evs)
    requires forall ev :: ev in evs ==> CString(ev) && (ev.Command? ==> ev.cmd != RM + name)
    ensures Keeps(Session(s, evs), name, content)
    decreases |evs|
  {
    if evs != [] {
      assert evs[0] in evs;
      match evs[0] {
        case Command(cmd, io) => CommandKeeps(s, cmd, io, name, content);
        case Restart(r, io, readme, io2) => RestartKeeps(s, r, io, readme, io2, name, content);
      }
      SessionKeeps(SessionStep(s, evs[0]), evs[1..], name, content);
    }
  }

  lemma CatPrints(s: Fs, name: seq<byte>, content: seq<byte>)
    requires Keeps(s, name, content)
    ensures Cat(s, name) == Printed(content + [10])
  {
    ReadRefines(s, name, MAX_FILE_SIZE + 1);
    TextFits(s, name);
    WholeText(content, ReadBytes(s, name, MAX_FILE_SIZE + 1));
  }

  lemma WholeText(content: seq<byte>, bytes: seq<byte>)
    requires NulFree(content) && |content| <= MAX_FILE_SIZE && bytes == content[..Min(|content|, MAX_FILE_SIZE)] + [0]
    ensures CStr(bytes) == content
  {
    assert content[..Min(|content|, MAX_FILE_SIZE)] == content;
    CStrOfTerminated(bytes, content);
  }

  lemma TextFits(s: Fs, name: seq<byte>)
    requires Ok(s.header, s.data) && name in FilesIn(s)
    ensures |FilesIn(s)[name]| <= MAX_FILE_SIZE
  {
    InFilesIffFound(SlotsIn(s), name);
    FoundFits(s, Find(SlotsIn(s), name));
  }

  lemma FoundFits(s: Fs, i: int)
    requires EntriesOk(s.header) && 0 <= i < MAX_FILES && SlotsIn(s)[i].File?
    ensures |SlotsIn(s)[i].text| <= MAX_FILE_SIZE
  {
    var e := EntryOf(s.header, i);
    assert Used(e) && EntryOk(e, i);
  }

  /** Main result, end to end: after `write name content` was answered with
      success, through any commands that do not remove that name, any failing
      saves, and any restarts made while the disk held what memory held, `cat name`
      prints exactly the content and a newline. */
  lemma WrittenIsWhatCatPrints(s: Fs, name: seq<byte>, content: seq<byte>, io: Io, evs: seq<Event>, io': Io)
    requires Running(s)
    requires 0 < |name| < MAX_FILENAME && NulFree(name) && forall i :: 0 <= i < |name| ==> name[i] != BLANK
    requires content != [] && content[0] != BLANK && NulFree(content)
    requires Execute(s, WRITE + name + [BLANK] + content, io).1 == Created(name)
    requires SafeRestarts(Execute(s, WRITE + name + [BLANK] + content, io).0, evs)
    requires forall ev :: ev in evs ==> CString(ev) && (ev.Command? ==> ev.cmd != RM + name)
    ensures var t := Session(Execute(s, WRITE + name + [BLANK] + content, io).0, evs);
      Execute(t, CAT + name, io').1 == Printed(content + [10])
  {
    WriteAdds(s, name, content, io);
    var w := Execute(s, WRITE + name + [BLANK] + content, io).0;
    SessionKeeps(w, evs, name, content);
    var t := Session(w, evs);
    CatPrints(t, name, content);
    CatIsCat(CAT + name, name);
  }

  lemma CatIsCat(cmd: seq<byte>, name: seq<byte>)
    requires cmd == CAT + name
    ensures VerbOf(cmd) == VerbCat && cmd[4..] == name
  {
    assert cmd[..4] == CAT;
  }

  lemma WriteIsWrite(cmd: seq<byte>, args: seq<byte>)
    requires cmd == WRITE + args
    ensures VerbOf(cmd) == VerbWrite && cmd[6..] == args
  {
    assert cmd[..6] == WRITE;
    assert cmd[..4][0] == WRITE[0] != CAT[0];
  }

  lemma WriteAdds(s: Fs, name: seq<byte>, content: seq<byte>, io: Io)
    requires Running(s)
    requires 0 < |name| < MAX_FILENAME && NulFree(name) && forall i :: 0 <= i < |name| ==> name[i] != BLANK
    requires content != [] && content[0] != BLANK && NulFree(content)
    ensures var cmd := WRITE + name + [BLANK] + content;
      && Execute(s, cmd, io) == (Create(s, name, content, io), WriteReply(CreateCode(s, name, content), name))
      && (Execute(s, cmd, io).1 == Created(name) ==> Keeps(Execute(s, cmd, io).0, name, content))
  {
    WriteExecutes(s, WRITE + name + [BLANK] + content, name, content, io);
    CreateRuns(s, name, content, io);
  }

  lemma WriteExecutes(s: Fs, cmd: seq<byte>, name: seq<byte>, content: seq<byte>, io: Io)
    requires 0 < |name| < MAX_FILENAME && forall i :: 0 <= i < |name| ==> name[i] != BLANK
    requires content != [] && content[0] != BLANK && cmd == WRITE + name + [BLANK] + content
    ensures Execute(s, cmd, io) == (Create(s, name, content, io), WriteReply(CreateCode(s, name, content), name))
  {
    var args := name + [BLANK] + content;
    assert cmd == WRITE + args;
    WriteIsWrite(cmd, args);
    ParseWriteExact(name, content);
    WriteParsed(s, cmd, args, name, content, io);
  }

  lemma WriteParsed(s: Fs, cmd: seq<byte>, args: seq<byte>, name: seq<byte>, content: seq<byte>, io: Io)
    requires VerbOf(cmd) == VerbWrite && cmd[6..] == args && ParseWrite(args) == (name, content)
      && name != [] && content != []
    ensures Execute(s, cmd, io) == (Create(s, name, content, io), WriteReply(CreateCode(s, name, content), name))
  {}

}
