// kernel/terminal.c: the cell buffer, cursor and colour, updated in place.
module TerminalCode {
  import opened CLib
  import opened TerminalSpec
  import opened Numbers

  class Terminal {
    const buffer: array<Cell>
    var row: nat
    var column: nat
    var color: byte
    // the CRT controller: its index register and its data registers
    var index: byte
    var crtc: seq<byte>

    ghost predicate Shape()
      reads this
    {
      buffer.Length == CELLS && row < HEIGHT && column < WIDTH && |crtc| == 256
    }

    ghost function View(): Screen
      reads this, buffer
    {
      Screen(buffer[..], row, column, color)
    }

    /** The hardware cursor stands where the next character goes. */
    ghost predicate CursorAgrees()
      requires Shape()
      reads this
    {
      var high: int, low: int := crtc[0x0E], crtc[0x0F];
      high * 0x100 + low == row * WIDTH + column < CELLS
    }

    ghost predicate Valid()
      reads this
    {
      Shape() && CursorAgrees()
    }

    constructor ()
      ensures Valid() && fresh(buffer) && View() == ClearedScreen(INITIAL_COLOR)
    {
      buffer := new Cell[CELLS](_ => Blank(INITIAL_COLOR));
      row, column, color := 0, 0, INITIAL_COLOR;
      index, crtc := 0, seq(256, _ => 0);
      new;
      assert buffer[..] == BlankCells(CELLS, INITIAL_COLOR);
      UpdateCursor(0, 0);
    }

    method OutIndex(v: byte)
      modifies this`index
      ensures index == v
    {
      index := v;
    }

    method OutData(v: byte)
      requires |crtc| == 256
      modifies this`crtc
      ensures crtc == old(crtc)[index := v]
    {
      crtc := crtc[index := v];
    }

    method UpdateCursor(x: nat, y: nat)
      requires Shape() && x == column && y == row
      modifies this`index, this`crtc
      ensures Valid()
      ensures forall i :: 0 <= i < 256 && !(0x0E <= i <= 0x0F) ==> crtc[i] == old(crtc)[i]
    {
      var pos := y * WIDTH + x;
      OutIndex(0x0F);
      OutData(pos % 0x100);
      OutIndex(0x0E);
      OutData(pos / 0x100 % 0x100);
    }

    method SetColor(c: byte)
      requires Valid()
      modifies this`color
      ensures Valid() && View() == StepScreen(old(View()), TermOp.SetColor(c))
    {
      color := c;
    }

    /** Moves every row up one, in place, and blanks the last. */
    method Scroll()
      requires buffer.Length == CELLS
      modifies this`row, buffer
      ensures buffer[..] == old(buffer[..])[WIDTH..] + BlankCells(WIDTH, color)
      ensures row == HEIGHT - 1
    {
      for y := 0 to HEIGHT - 1
        invariant forall k :: 0 <= k < CELLS ==> buffer[k] == old(buffer[..])[if k < y * WIDTH then k + WIDTH else k]
      {
        for x := 0 to WIDTH
          invariant forall k :: 0 <= k < CELLS ==> buffer[k] == old(buffer[..])[if k < y * WIDTH + x then k + WIDTH else k]
        {
          buffer[y * WIDTH + x] := buffer[(y + 1) * WIDTH + x];
        }
      }
      for x := 0 to WIDTH
        invariant forall k :: 0 <= k < CELLS - WIDTH ==> buffer[k] == old(buffer[..])[k + WIDTH]
        invariant forall k :: CELLS - WIDTH <= k < CELLS - WIDTH + x ==> buffer[k] == Blank(color)
      {
        buffer[(HEIGHT - 1) * WIDTH + x] := VgaEntry(SPACE, color);
      }
      row := HEIGHT - 1;
    }

    /** To the start of the next row, scrolling on the last one. */
    method NewRow()
      requires Shape()
      modifies this`row, this`column, buffer
      ensures Shape() && View() == NextRow(old(View()))
    {
      column := 0;
      row := row + 1;
      if row == HEIGHT {
        Scroll();
      }
    }

    method PutChar(c: byte)
      requires Valid()
      modifies this`row, this`column, this`index, this`crtc, buffer
      ensures Valid() && View() == PutScreen(old(View()), c)
    {
      if c == NEWLINE {
        NewRow();
        UpdateCursor(column, row);
        return;
      }
      if c == BACKSPACE {
        if column > 0 {
          column := column - 1;
          buffer[row * WIDTH + column] := VgaEntry(SPACE, color);
          UpdateCursor(column, row);
        }
        return;
      }
      if c == TAB {
        ghost var s := View();
        var next := (column + 4) / 4 * 4;
        if next >= WIDTH {
          NewRow();
        } else {
          column := next;
        }
        UpdateCursor(column, row);
        return;
      }
      buffer[row * WIDTH + column] := VgaEntry(c, color);
      if column + 1 == WIDTH {
        NewRow();
      } else {
        column := column + 1;
      }
      UpdateCursor(column, row);
    }

    /** terminal_write over the characters of a C string. */
    method WriteString(text: seq<byte>)
      requires Valid()
      modifies this`row, this`column, this`index, this`crtc, buffer
      ensures Valid() && View() == PutAll(old(View()), text)
    {
      assert text[..0] == [];
      for i := 0 to |text|
        invariant Valid() && View() == PutAll(old(View()), text[..i])
      {
        assert text[..i + 1][..i] == text[..i];
        PutChar(text[i]);
      }
      assert text[..|text|] == text;
    }

    method Clear()
      requires Valid()
      modifies this, buffer
      ensures Valid() && View() == StepScreen(old(View()), TermOp.Clear)
    {
      row, column := 0, 0;
      FillBlank();
      UpdateCursor(0, 0);
    }

    /** Sets the cursor's scan lines; the other bits of the two registers stay. */
    method EnableCursor(start: byte, end: byte)
      requires Shape() && start < 0x40 && end < 0x20
      modifies this`index, this`crtc
      ensures Shape()
      ensures crtc == old(crtc)[0x0A := old(crtc)[0x0A] / 0x40 * 0x40 + start][0x0B := old(crtc)[0x0B] / 0x20 * 0x20 + end]
    {
      OutIndex(0x0A);
      OutData(crtc[index] / 0x40 * 0x40 + start);
      OutIndex(0x0B);
      OutData(crtc[index] / 0x20 * 0x20 + end);
    }

    method Initialize()
      requires Valid()
      modifies this, buffer
      ensures Valid() && View() == StepScreen(old(View()), TermOp.Initialize)
      ensures crtc[0x0A] == old(crtc)[0x0A] / 0x40 * 0x40 && crtc[0x0B] == old(crtc)[0x0B] / 0x20 * 0x20 + 15
      ensures forall i :: 0 <= i < 256 && !(0x0A <= i <= 0x0B) && !(0x0E <= i <= 0x0F) ==> crtc[i] == old(crtc)[i]
    {
      row, column, color := 0, 0, INITIAL_COLOR;
      FillBlank();
      EnableCursor(0, 15);
      UpdateCursor(0, 0);
    }

    /** A message: characters and colour changes, one after the other. */
    method Play(ops: seq<TermOp>)
      requires Valid()
      modifies this, buffer
      ensures Valid() && View() == RunScreen(old(View()), ops)
    {
      for i := 0 to |ops|
        invariant Valid() && RunScreen(View(), ops[i..]) == RunScreen(old(View()), ops)
      {
        assert ops[i..][1..] == ops[i + 1..];
        match ops[i] {
          case Put(c) => PutChar(c);
          case SetColor(c) => SetColor(c);
          case Clear => Clear();
          case Initialize => Initialize();
        }
      }
    }

    method FillBlank()
      requires Shape()
      modifies buffer
      ensures buffer[..] == BlankCells(CELLS, color)
    {
      for y := 0 to HEIGHT
        invariant forall k :: 0 <= k < y * WIDTH ==> buffer[k] == Blank(color)
      {
        for x := 0 to WIDTH
          invariant forall k :: 0 <= k < y * WIDTH + x ==> buffer[k] == Blank(color)
        {
          buffer[y * WIDTH + x] := VgaEntry(SPACE, color);
        }
      }
    }

    // ---- terminal_printf: %d and %x ----

    /** The digit loop: least significant digit first, in a local buffer. */
    method FillDigits(digits: array<byte>, n: nat, r: Radix, ghost k: nat) returns (i: nat)
      requires n < Power(Base(r), k) && k <= digits.Length
      modifies digits
      ensures i <= k && Reversed(digits[..i]) == Digits(n, r)
    {
      i := 0;
      var num := n;
      DigitsLength(n, k, r);
      while num > 0
        invariant i <= digits.Length && Digits(n, r) == Digits(num, r) + Reversed(digits[..i])
      {
        ghost var rest := Digits(Quot(num, r), r);
        ghost var done := digits[..i];
        assert |Digits(n, r)| == |rest| + 1 + |Reversed(done)|;
        ReversedLength(done);
        digits[i] := DigitChar(Rem(num, r));
        assert digits[..i + 1] == done + [digits[i]];
        ReversedAppend(done, digits[i]);
        i, num := i + 1, Quot(num, r);
      }
      ReversedLength(digits[..i]);
    }

    /** The loop that prints the digit buffer from its end. */
    method PutBackwards(digits: array<byte>, n: nat)
      requires Valid() && n <= digits.Length
      modifies this`row, this`column, this`index, this`crtc, buffer
      ensures Valid() && View() == PutAll(old(View()), Reversed(digits[..n]))
    {
      var i := n;
      ghost var text := digits[..n];
      ghost var all := Reversed(text);
      assert text[i..] == [];
      while i > 0
        invariant 0 <= i <= n && Valid()
        invariant View() == PutAll(old(View()), Reversed(text[i..]))
      {
        i := i - 1;
        assert text[i..] == [text[i]] + text[i + 1..];
        var next := Reversed(text[i..]);
        assert next[..|next| - 1] == Reversed(text[i + 1..]);
        PutChar(digits[i]);
      }
      assert text[0..] == text;
    }

    /** The decimal digits of `n`, then its sign, backwards. */
    method FormatDecimal(digits: array<byte>, n: int) returns (i: nat)
      requires IsInt(n) && digits.Length == 12
      modifies digits
      ensures i <= 11 && Reversed(digits[..i]) == DecText(n)
    {
      i := 0;
      var num := n;
      if n < 0 {
        num := if n == INT_MIN then INT_MIN else -n;  // -INT_MIN wraps
      }
      if num == 0 {
        digits[0] := ZERO;
        i := 1;
        assert Reversed(digits[..1]) == [ZERO];
      } else if num > 0 {
        Limits();
        i := FillDigits(digits, num, Decimal, 10);
      }
      if n < 0 {
        ghost var done := digits[..i];
        digits[i] := MINUS;
        assert digits[..i + 1] == done + [MINUS];
        ReversedAppend(done, MINUS);
        i := i + 1;
      }
    }

    method PrintDecimal(n: int)
      requires Valid() && IsInt(n)
      modifies this`row, this`column, this`index, this`crtc, buffer
      ensures Valid() && View() == PutAll(old(View()), DecText(n))
    {
      var digits := new byte[12];
      var i := FormatDecimal(digits, n);
      PutBackwards(digits, i);
    }

    method PrintHex(n: nat)
      requires Valid() && n < 0x1_0000_0000
      modifies this`row, this`column, this`index, this`crtc, buffer
      ensures Valid() && View() == PutAll(old(View()), HexText(n))
    {
      var digits := new byte[9];
      if n == 0 {
        WriteString([48, 120, ZERO]);
        assert HexText(0) == [48, 120, ZERO];
      } else {
        Limits();
        var i := FillDigits(digits, n, Hex, 8);
        WriteString([48, 120]);
        PutBackwards(digits, i);
        PutAllAppend(old(View()), [48, 120], Digits(n, Hex));
      }
    }
  }

  function Reversed(s: seq<byte>): (r: seq<byte>) {
    if s == [] then [] else Reversed(s[1..]) + [s[0]]
  }

  lemma {:induction false} ReversedAppend(s: seq<byte>, c: byte)
    ensures Reversed(s + [c]) == [c] + Reversed(s)
  {
    if s != [] {
      assert (s + [c])[1..] == s[1..] + [c];
      ReversedAppend(s[1..], c);
    }
  }

  lemma {:induction false} ReversedLength(s: seq<byte>)
    ensures |Reversed(s)| == |s|
  {
    if s != [] { ReversedLength(s[1..]); }
  }
}
