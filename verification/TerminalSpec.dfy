// The 80x25 text screen as a value, and the unbounded tape it is a window on.
module TerminalSpec {
  import opened CLib

  const WIDTH := 80
  const HEIGHT := 25
  const CELLS := 2000

  const NEWLINE: byte := 10
  const BACKSPACE: byte := 8
  const TAB: byte := 9
  const SPACE: byte := 32

  /** A VGA text cell: character in the low byte, colour in the high byte. */
  type Cell = w: int | 0 <= w < 0x10000

  function VgaEntry(c: byte, color: byte): Cell {
    var a: int, b: int := c, color; a + 256 * b
  }

  function CharOf(cell: Cell): byte { cell % 256 }

  function Blank(color: byte): Cell { VgaEntry(SPACE, color) }

  function BlankCells(n: nat, color: byte): (s: seq<Cell>)
    ensures |s| == n
  {
    seq(n, _ => Blank(color))
  }

  // ---- The screen: what terminal.c does, row by row ----

  datatype Screen = Screen(cells: seq<Cell>, row: nat, col: nat, color: byte)

  predicate ScreenOk(s: Screen) {
    |s.cells| == CELLS && s.row < HEIGHT && s.col < WIDTH
  }

  function At(s: Screen): nat { s.row * WIDTH + s.col }

  function NextRow(s: Screen): (t: Screen)
    requires ScreenOk(s)
    ensures ScreenOk(t)
  {
    if s.row + 1 == HEIGHT then s.(cells := s.cells[WIDTH..] + BlankCells(WIDTH, s.color), col := 0)
    else s.(row := s.row + 1, col := 0)
  }

  function PutScreen(s: Screen, c: byte): (t: Screen)
    requires ScreenOk(s)
    ensures ScreenOk(t) && t.color == s.color
  {
    if c == NEWLINE then NextRow(s)
    else if c == BACKSPACE then
      if s.col > 0 then s.(cells := s.cells[At(s) - 1 := Blank(s.color)], col := s.col - 1) else s
    else if c == TAB then
      if (s.col + 4) / 4 * 4 >= WIDTH then NextRow(s) else s.(col := (s.col + 4) / 4 * 4)
    else
      var t := s.(cells := s.cells[At(s) := VgaEntry(c, s.color)]);
      if s.col + 1 == WIDTH then NextRow(t) else t.(col := s.col + 1)
  }

  function PutAll(s: Screen, text: seq<byte>): (t: Screen)
    requires ScreenOk(s)
    ensures ScreenOk(t) && t.color == s.color
  {
    if text == [] then s else PutScreen(PutAll(s, text[..|text| - 1]), text[|text| - 1])
  }

  lemma {:induction false} PutAllAppend(s: Screen, a: seq<byte>, b: seq<byte>)
    requires ScreenOk(s)
    ensures PutAll(s, a + b) == PutAll(PutAll(s, a), b)
  {
    if b == [] {
      assert a + b == a;
    } else {
      var n := |b| - 1;
      assert (a + b)[..|a + b| - 1] == a + b[..n];
      PutAllAppend(s, a, b[..n]);
    }
  }

  // ---- The document: one endless tape of cells and a position on it ----

  datatype Doc = Doc(tape: seq<Cell>, pos: nat, color: byte)

  /** Rows are appended, blank in the current colour, when the position leaves
      the tape. */
  function Grown(d: Doc): Doc {
    if d.pos >= |d.tape| then d.(tape := d.tape + BlankCells(WIDTH, d.color)) else d
  }

  function PutDoc(d: Doc, c: byte): Doc {
    if c == NEWLINE then Grown(d.(pos := (d.pos / WIDTH + 1) * WIDTH))
    else if c == BACKSPACE then
      if d.pos % WIDTH != 0 && d.pos <= |d.tape| then
        d.(tape := d.tape[d.pos - 1 := Blank(d.color)], pos := d.pos - 1) else d
    else if c == TAB then Grown(d.(pos := (d.pos / 4 + 1) * 4))
    else if d.pos < |d.tape| then Grown(d.(tape := d.tape[d.pos := VgaEntry(c, d.color)], pos := d.pos + 1))
    else d
  }

  /** The position is on one of the tape's last 25 rows. */
  ghost predicate DocOk(d: Doc) {
    |d.tape| >= CELLS && |d.tape| % WIDTH == 0 && |d.tape| - CELLS <= d.pos < |d.tape|
  }

  /** The last 25 rows, and the position seen through them. */
  function Window(d: Doc): (s: Screen)
    requires DocOk(d)
    ensures ScreenOk(s)
  {
    var top := |d.tape| - CELLS;
    Screen(d.tape[top..], (d.pos - top) / WIDTH, (d.pos - top) % WIDTH, d.color)
  }

  // ---- Runs ----

  datatype TermOp = Put(c: byte) | SetColor(color: byte) | Clear | Initialize

  /** LIGHT_GREEN on BLACK. */
  const INITIAL_COLOR: byte := 10

  function ClearedScreen(color: byte): (s: Screen)
    ensures ScreenOk(s)
  {
    Screen(BlankCells(CELLS, color), 0, 0, color)
  }

  function StepScreen(s: Screen, op: TermOp): (t: Screen)
    requires ScreenOk(s)
    ensures ScreenOk(t)
  {
    match op
    case Put(c) => PutScreen(s, c)
    case SetColor(color) => s.(color := color)
    case Clear => ClearedScreen(s.color)
    case Initialize => ClearedScreen(INITIAL_COLOR)
  }

  function StepDoc(d: Doc, op: TermOp): Doc {
    match op
    case Put(c) => PutDoc(d, c)
    case SetColor(color) => d.(color := color)
    case Clear => Doc(BlankCells(CELLS, d.color), 0, d.color)
    case Initialize => Doc(BlankCells(CELLS, INITIAL_COLOR), 0, INITIAL_COLOR)
  }

  function RunScreen(s: Screen, ops: seq<TermOp>): (t: Screen)
    requires ScreenOk(s)
    ensures ScreenOk(t)
    decreases |ops|
  {
    if ops == [] then s else RunScreen(StepScreen(s, ops[0]), ops[1..])
  }

  function RunDoc(d: Doc, ops: seq<TermOp>): Doc
    decreases |ops|
  {
    if ops == [] then d else RunDoc(StepDoc(d, ops[0]), ops[1..])
  }

  /** A string, printed. */
  function Puts(text: seq<byte>): (ops: seq<TermOp>)
    ensures |ops| == |text|
  {
    seq(|text|, i requires 0 <= i < |text| => Put(text[i]))
  }

  lemma {:induction false} RunScreenAppend(s: Screen, a: seq<TermOp>, b: seq<TermOp>)
    requires ScreenOk(s)
    ensures RunScreen(s, a + b) == RunScreen(RunScreen(s, a), b)
    decreases |a|
  {
    if a == [] {
      assert a + b == b;
    } else {
      assert (a + b)[1..] == a[1..] + b;
      RunScreenAppend(StepScreen(s, a[0]), a[1..], b);
    }
  }

  lemma {:induction false} RunPuts(s: Screen, text: seq<byte>)
    requires ScreenOk(s)
    ensures RunScreen(s, Puts(text)) == PutAll(s, text)
  {
    if text != [] {
      var n := |text| - 1;
      RunPuts(s, text[..n]);
      assert Puts(text) == Puts(text[..n]) + [Put(text[n])];
      RunScreenAppend(s, Puts(text[..n]), [Put(text[n])]);
      RunOne(PutAll(s, text[..n]), Put(text[n]));
    }
  }

  lemma RunOne(s: Screen, op: TermOp)
    requires ScreenOk(s)
    ensures RunScreen(s, [op]) == StepScreen(s, op)
  {
    assert [op][1..] == [];
  }

  // ---- The screen is the window on the document ----

  lemma RowCol(p: nat, row: nat, col: nat)
    requires p == row * WIDTH + col && col < WIDTH
    ensures p / WIDTH == row && p % WIDTH == col
    ensures (p / 4 + 1) * 4 == row * WIDTH + (col + 4) / 4 * 4
  {
    assert p / 4 == row * 20 + col / 4;
  }

  lemma TopRow(n: nat)
    requires n >= CELLS && n % WIDTH == 0
    ensures n - CELLS == (n / WIDTH - HEIGHT) * WIDTH && n / WIDTH >= HEIGHT
  {}

  /** Moving to the start of the next row. */
  lemma NextRowIsGrown(d: Doc, pos': nat)
    requires DocOk(d) && pos' == |d.tape| - CELLS + (Window(d).row + 1) * WIDTH
    ensures DocOk(Grown(d.(pos := pos')))
    ensures Window(Grown(d.(pos := pos'))) == NextRow(Window(d))
  {
    var s, top := Window(d), |d.tape| - CELLS;
    var e := Grown(d.(pos := pos'));
    if s.row + 1 == HEIGHT {
      assert e.tape == d.tape + BlankCells(WIDTH, d.color);
      assert Window(e).cells == d.tape[top..][WIDTH..] + BlankCells(WIDTH, d.color);
      RowCol(pos' - (top + WIDTH), HEIGHT - 1, 0);
    } else {
      RowCol(pos' - top, s.row + 1, 0);
    }
  }

  /** The position on the tape, and on the screen. */
  lemma Position(d: Doc)
    requires DocOk(d)
    ensures var s := Window(d);
      && d.pos == |d.tape| - CELLS + At(s) && d.pos % WIDTH == s.col
      && (d.pos / WIDTH + 1) * WIDTH == |d.tape| - CELLS + (s.row + 1) * WIDTH
      && (d.pos / 4 + 1) * 4 == |d.tape| - CELLS + s.row * WIDTH + (s.col + 4) / 4 * 4
  {
    var top, s := |d.tape| - CELLS, Window(d);
    var t := |d.tape| / WIDTH - HEIGHT;
    TopRow(|d.tape|);
    RowCol(d.pos - top, s.row, s.col);
    RowCol(d.pos, t + s.row, s.col);
  }

  /** Moving within the row. */
  lemma SameRow(d: Doc, tape: seq<Cell>, pos': nat, col': nat)
    requires DocOk(d) && |tape| == |d.tape| && col' < WIDTH
    requires pos' == |d.tape| - CELLS + Window(d).row * WIDTH + col'
    ensures var e := d.(tape := tape, pos := pos');
      DocOk(e) && Window(e) == Window(d).(cells := tape[|tape| - CELLS..], col := col')
  {
    RowCol(pos' - (|d.tape| - CELLS), Window(d).row, col');
  }

  lemma SliceUpdate(s: seq<Cell>, top: nat, i: nat, v: Cell)
    requires top <= i < |s|
    ensures s[i := v][top..] == s[top..][i - top := v]
  {}

  lemma BackspaceRefines(d: Doc)
    requires DocOk(d)
    ensures DocOk(PutDoc(d, BACKSPACE)) && Window(PutDoc(d, BACKSPACE)) == PutScreen(Window(d), BACKSPACE)
  {
    var top, s := |d.tape| - CELLS, Window(d);
    Position(d);
    if s.col > 0 {
      SameRow(d, d.tape[d.pos - 1 := Blank(d.color)], d.pos - 1, s.col - 1);
      SliceUpdate(d.tape, top, d.pos - 1, Blank(d.color));
    }
  }

  lemma TabRefines(d: Doc)
    requires DocOk(d)
    ensures DocOk(PutDoc(d, TAB)) && Window(PutDoc(d, TAB)) == PutScreen(Window(d), TAB)
  {
    Position(d);
    var col' := (Window(d).col + 4) / 4 * 4;
    if col' >= WIDTH {
      NextRowIsGrown(d, (d.pos / 4 + 1) * 4);
    } else {
      SameRow(d, d.tape, (d.pos / 4 + 1) * 4, col');
    }
  }

  lemma GlyphRefines(d: Doc, c: byte)
    requires DocOk(d) && c != NEWLINE && c != BACKSPACE && c != TAB
    ensures DocOk(PutDoc(d, c)) && Window(PutDoc(d, c)) == PutScreen(Window(d), c)
  {
    var top, s := |d.tape| - CELLS, Window(d);
    Position(d);
    var e := d.(tape := d.tape[d.pos := VgaEntry(c, d.color)]);
    SliceUpdate(d.tape, top, d.pos, VgaEntry(c, d.color));
    if s.col + 1 == WIDTH {
      NextRowIsGrown(e, d.pos + 1);
    } else {
      SameRow(d, e.tape, d.pos + 1, s.col + 1);
    }
  }

  lemma PutRefines(d: Doc, c: byte)
    requires DocOk(d)
    ensures DocOk(PutDoc(d, c)) && Window(PutDoc(d, c)) == PutScreen(Window(d), c)
  {
    if c == NEWLINE {
      Position(d);
      NextRowIsGrown(d, (d.pos / WIDTH + 1) * WIDTH);
    } else if c == BACKSPACE {
      BackspaceRefines(d);
    } else if c == TAB {
      TabRefines(d);
    } else {
      GlyphRefines(d, c);
    }
  }

  /** This character scrolls the screen. */
  predicate Scrolls(s: Screen, c: byte) {
    s.row + 1 == HEIGHT &&
    if c == NEWLINE then true
    else if c == BACKSPACE then false
    else if c == TAB then (s.col + 4) / 4 * 4 >= WIDTH
    else s.col + 1 == WIDTH
  }

  /** The tape grows by a row exactly when the screen scrolls. */
  lemma ScrollGrows(d: Doc, c: byte)
    requires DocOk(d)
    ensures |PutDoc(d, c).tape| == |d.tape| + if Scrolls(Window(d), c) then WIDTH else 0
  {
    Position(d);
  }

  lemma StepTermRefines(d: Doc, op: TermOp)
    requires DocOk(d)
    ensures DocOk(StepDoc(d, op)) && Window(StepDoc(d, op)) == StepScreen(Window(d), op)
  {
    match op {
      case Put(c) => PutRefines(d, c);
      case SetColor(_) =>
      case Clear =>
      case Initialize =>
    }
  }

  /** Main result: after any stream of characters, colour changes and clears the
      buffer holds the last 25 rows of the document edited by the same stream, and
      row and column are the document position seen through them. */
  lemma {:induction false} ScreenIsWindowOnDoc(d: Doc, ops: seq<TermOp>)
    requires DocOk(d)
    ensures DocOk(RunDoc(d, ops)) && RunScreen(Window(d), ops) == Window(RunDoc(d, ops))
    decreases |ops|
  {
    if ops != [] {
      StepTermRefines(d, ops[0]);
      ScreenIsWindowOnDoc(StepDoc(d, ops[0]), ops[1..]);
    }
  }

  // ---- Blank ahead ----

  ghost predicate BlankAhead(s: Screen) {
    ScreenOk(s) && forall i :: At(s) <= i < CELLS ==> CharOf(s.cells[i]) == SPACE
  }

  lemma NextRowBlankAhead(s: Screen)
    requires ScreenOk(s) && forall i :: (s.row + 1) * WIDTH <= i < CELLS ==> CharOf(s.cells[i]) == SPACE
    ensures BlankAhead(NextRow(s))
  {
    assert CharOf(Blank(s.color)) == SPACE;
  }

  lemma PutBlankAhead(s: Screen, c: byte)
    requires BlankAhead(s)
    ensures BlankAhead(PutScreen(s, c))
  {
    assert CharOf(Blank(s.color)) == SPACE;
    assert At(s) <= (s.row + 1) * WIDTH;
    var t := if c == NEWLINE || c == BACKSPACE || c == TAB then s else s.(cells := s.cells[At(s) := VgaEntry(c, s.color)]);
    NextRowBlankAhead(t);
  }

  /** From a cleared screen on, every cell at or after the cursor holds a space. */
  lemma {:induction false} AlwaysBlankAhead(s: Screen, ops: seq<TermOp>)
    requires BlankAhead(s)
    ensures BlankAhead(RunScreen(s, ops))
    decreases |ops|
  {
    if ops != [] {
      match ops[0] {
        case Put(c) => PutBlankAhead(s, c);
        case SetColor(_) =>
        case Clear => assert CharOf(Blank(s.color)) == SPACE;
        case Initialize => assert CharOf(Blank(INITIAL_COLOR)) == SPACE;
      }
      AlwaysBlankAhead(StepScreen(s, ops[0]), ops[1..]);
    }
  }

  // ---- What the cells hold ----

  /** The character in the low byte, the colour in the high one. */
  predicate Wrote(cell: Cell, c: byte, color: byte) {
    cell % 0x100 == c && cell / 0x100 == color
  }

  lemma EntryHolds(c: byte, color: byte)
    ensures Wrote(VgaEntry(c, color), c, color) && Wrote(Blank(color), 32, color)
  {}

  /** A glyph: not newline, tab or backspace. */
  predicate Glyph(c: byte) { c != 10 && c != 9 && c != 8 }

  /** How far the cells move up. */
  function Moved(s: Screen, c: byte): nat { if Scrolls(s, c) then 80 else 0 }

  /** The cell a character writes, before any scrolling, or -1. */
  function Written(s: Screen, c: byte): int {
    if Glyph(c) then 80 * s.row + s.col else if c == 8 && s.col > 0 then 80 * s.row + s.col - 1 else -1
  }

  /** What one character does to all 2000 cells: it writes itself, or backspace a
      space, in the current colour; a row that scrolls in is spaces in that colour;
      every other cell keeps what it held. */
  lemma PutCells(s: Screen, c: byte)
    requires ScreenOk(s)
    ensures var t, m, at := PutScreen(s, c), Moved(s, c), Written(s, c);
      && (at - m >= 0 ==> at - m < 2000 && Wrote(t.cells[at - m], if c == 8 then 32 else c, s.color))
      && (forall i :: 0 <= i < 2000 - m && i + m != at ==> t.cells[i] == s.cells[i + m])
      && (forall i :: 2000 - m <= i < 2000 ==> Wrote(t.cells[i], 32, s.color))
  {
    EntryHolds(c, s.color);
  }

  /** And where it leaves the cursor. */
  lemma PutCursor(s: Screen, c: byte)
    requires ScreenOk(s)
    ensures var t := PutScreen(s, c);
      && t.row < 25 && t.col < 80 && t.color == s.color
      && 80 * t.row + t.col + Moved(s, c) == 80 * s.row +
        (if Glyph(c) then s.col + 1
         else if c == 10 then 80
         else if c == 9 then s.col + 4 - s.col % 4
         else if s.col > 0 then s.col - 1 else 0)
      && (Moved(s, c) > 0 ==> s.row == t.row == 24 && t.col == 0)
  {
    assert (s.col + 4) / 4 * 4 == s.col + 4 - s.col % 4;
  }

  /** A cleared screen: spaces in the current colour, or in light green on black when
      it is initialised, and the cursor at the start. */
  lemma ClearedCells(s: Screen)
    requires ScreenOk(s)
    ensures var t := StepScreen(s, Clear);
      && t.row == t.col == 0 && t.color == s.color && forall i :: 0 <= i < 2000 ==> Wrote(t.cells[i], 32, s.color)
    ensures var t := StepScreen(s, Initialize);
      && t.row == t.col == 0 && t.color == 10 && forall i :: 0 <= i < 2000 ==> Wrote(t.cells[i], 32, 10)
  {
    EntryHolds(32, s.color);
    EntryHolds(32, 10);
  }

  // ---- Who wrote a cell last, over runs ----

  /** The colour in force after a stream. */
  function ColorAfter(color: byte, ops: seq<TermOp>): byte {
    if ops == [] then color else
    match ops[|ops| - 1]
    case SetColor(c) => c
    case Initialize => 10
    case _ => ColorAfter(color, ops[..|ops| - 1])
  }

  /** A character written to a cell, and its colour. */
  datatype Author = Before | By(c: byte, color: byte)

  /** What an operation writes to cell `k` of a tape of `n` cells, from position `pos`
      in the colour in force; a row that is appended, or a cleared screen, is written
      with spaces. */
  function Writes(pos: nat, n: nat, color: byte, op: TermOp, k: nat): Author {
    match op
    case SetColor(_) => Before
    case Clear => By(32, color)
    case Initialize => By(32, 10)
    case Put(c) =>
      if Glyph(c) && k == pos then By(c, color)
      else if c == 8 && pos % 80 != 0 && k == pos - 1 then By(32, color)
      else if k >= n then By(32, color)
      else Before
  }

  /** The last character written to a cell. */
  function LastWrite(d: Doc, ops: seq<TermOp>, k: nat): Author {
    if ops == [] then Before else
    var front, op := ops[..|ops| - 1], ops[|ops| - 1];
    var e := RunDoc(d, front);
    var a := Writes(e.pos, |e.tape|, ColorAfter(d.color, front), op, k);
    if a.By? then a else LastWrite(d, front, k)
  }

  lemma {:induction false} RunDocAppend(d: Doc, ops: seq<TermOp>, op: TermOp)
    ensures RunDoc(d, ops + [op]) == StepDoc(RunDoc(d, ops), op)
    decreases |ops|
  {
    if ops == [] {
      assert [] + [op] == [op] && [op][1..] == [];
    } else {
      assert (ops + [op])[1..] == ops[1..] + [op];
      RunDocAppend(StepDoc(d, ops[0]), ops[1..], op);
    }
  }

  ghost predicate Holds(cell: Cell, a: Author, before: seq<Cell>, k: nat) {
    if a.By? then Wrote(cell, a.c, a.color) else k < |before| && cell == before[k]
  }

  /** What one operation does to a cell of the tape. */
  lemma StepCell(d: Doc, op: TermOp, k: nat, e: Doc)
    requires DocOk(d) && e == StepDoc(d, op) && k < |e.tape|
    ensures Holds(e.tape[k], Writes(d.pos, |d.tape|, d.color, op, k), d.tape, k)
  {
    EntryHolds(32, d.color);
    EntryHolds(32, 10);
    if op.Put? { EntryHolds(op.c, d.color); }
  }

  /** Main result: after any stream of characters, colour changes and clears, every
      cell of the tape holds the character last written there in the colour in force
      at that moment, and what it held before when there was none. */
  lemma {:induction false} CellsAreLastWrites(d: Doc, ops: seq<TermOp>, k: nat)
    requires DocOk(d) && k < |RunDoc(d, ops).tape|
    ensures Holds(RunDoc(d, ops).tape[k], LastWrite(d, ops, k), d.tape, k)
    decreases |ops|
  {
    if ops != [] {
      var n := |ops| - 1;
      var e := RunDoc(d, ops[..n]);
      assert ops[..n] + [ops[n]] == ops;
      RunDocAppend(d, ops[..n], ops[n]);
      ScreenIsWindowOnDoc(d, ops[..n]);
      RunColor(d, ops[..n]);
      StepCell(e, ops[n], k, RunDoc(d, ops));
      if k < |e.tape| { CellsAreLastWrites(d, ops[..n], k); }
    }
  }

  lemma {:induction false} RunColor(d: Doc, ops: seq<TermOp>)
    requires DocOk(d)
    ensures RunDoc(d, ops).color == ColorAfter(d.color, ops)
    decreases |ops|
  {
    if ops != [] {
      var n := |ops| - 1;
      assert ops[..n] + [ops[n]] == ops;
      RunColor(d, ops[..n]);
      RunDocAppend(d, ops[..n], ops[n]);
    }
  }

  /** The same on the screen, whose last cell is the tape's last. */
  lemma ScreenCellsAreLastWrites(s: Screen, ops: seq<TermOp>, d: Doc, k: nat, i: nat)
    requires ScreenOk(s) && d == Doc(s.cells, 80 * s.row + s.col, s.color)
    requires i < 2000 && k + 2000 == |RunDoc(d, ops).tape| + i
    ensures Holds(RunScreen(s, ops).cells[i], LastWrite(d, ops, k), s.cells, k)
  {
    RowCol(At(s), s.row, s.col);
    assert Window(d) == s;
    ScreenIsWindowOnDoc(d, ops);
    CellsAreLastWrites(d, ops, k);
  }
}
