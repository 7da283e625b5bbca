// shell_run's line editor, and its agreement with the screen.
module LineEditor {
  import opened CLib
  import opened TerminalSpec

  const MAX_LINE := 255

  /** The command buffer after one key other than Enter. */
  function EditLine(line: seq<byte>, c: byte): (r: seq<byte>)
    ensures |line| <= MAX_LINE ==> |r| <= MAX_LINE
  {
    if c == 0 || c == TAB then line
    else if c == BACKSPACE then if line == [] then line else line[..|line| - 1]
    else if |line| < MAX_LINE then line + [c]
    else line
  }

  /** What that key sends to the terminal. */
  function Echo(line: seq<byte>, c: byte): seq<byte> {
    if c == 0 || c == TAB then []
    else if c == BACKSPACE then if line == [] then [] else [BACKSPACE, SPACE, BACKSPACE]
    else if |line| < MAX_LINE then [c]
    else []
  }

  // ---- Typing a whole line ----

  function EditAll(line: seq<byte>, keys: seq<byte>): seq<byte> {
    if keys == [] then line else EditLine(EditAll(line, keys[..|keys| - 1]), keys[|keys| - 1])
  }

  predicate Plain(c: byte) { c != 0 && c != TAB && c != BACKSPACE && c != NEWLINE }

  /** Plain characters that fit the buffer are the command, as typed. */
  lemma {:induction false} TypedLine(keys: seq<byte>)
    requires |keys| <= MAX_LINE && forall i :: 0 <= i < |keys| ==> Plain(keys[i])
    ensures EditAll([], keys) == keys
  {
    if keys != [] {
      TypedLine(keys[..|keys| - 1]);
    }
  }

  /** However many are typed, the first 255 are kept. */
  lemma {:induction false} LineKeeps255(keys: seq<byte>)
    requires forall i :: 0 <= i < |keys| ==> Plain(keys[i])
    ensures EditAll([], keys) == if |keys| <= 255 then keys else keys[..255]
  {
    if keys != [] {
      var n := |keys| - 1;
      LineKeeps255(keys[..n]);
      if n >= 255 { assert keys[..n][..255] == keys[..255]; }
    }
  }

  /** Backspace undoes a plain character that was kept, and does nothing on an empty
      line; a tab does nothing. */
  lemma EraseUndoes(line: seq<byte>, c: byte)
    requires |line| < 255 && Plain(c)
    ensures EditLine(EditLine(line, c), 8) == line && EditLine([], 8) == [] && EditLine(line, 9) == line
    ensures Echo(line, c) == [c] && Echo(line + [c], 8) == [8, 32, 8] && Echo([], 8) == [] && Echo(line, 9) == []
  {
    assert (line + [c])[..|line|] == line;
  }

  // ---- Line and document ----

  function PutDocAll(d: Doc, text: seq<byte>): Doc {
    if text == [] then d else PutDoc(PutDocAll(d, text[..|text| - 1]), text[|text| - 1])
  }

  /** Printing a text keeps the screen the window on the document. */
  lemma {:induction false} PutAllRefines(d: Doc, text: seq<byte>)
    requires DocOk(d)
    ensures DocOk(PutDocAll(d, text)) && Window(PutDocAll(d, text)) == PutAll(Window(d), text)
  {
    if text != [] {
      PutAllRefines(d, text[..|text| - 1]);
      PutRefines(PutDocAll(d, text[..|text| - 1]), text[|text| - 1]);
    }
  }

  datatype Editing = Editing(line: seq<byte>, doc: Doc)

  function EditKey(e: Editing, c: byte): Editing {
    Editing(EditLine(e.line, c), PutDocAll(e.doc, Echo(e.line, c)))
  }

  function EditKeys(e: Editing, keys: seq<byte>): Editing {
    if keys == [] then e else EditKey(EditKeys(e, keys[..|keys| - 1]), keys[|keys| - 1])
  }

  /** An erase key with something to erase, pressed with the cursor in column 0:
      the terminal's backspace stays in its row. */
  predicate Missed(e: Editing, c: byte) {
    c == BACKSPACE && e.line != [] && e.doc.pos % WIDTH == 0
  }

  /** How many erasures the terminal missed. */
  function Misses(e: Editing, keys: seq<byte>): nat {
    if keys == [] then 0 else
    Misses(e, keys[..|keys| - 1]) + (if Missed(EditKeys(e, keys[..|keys| - 1]), keys[|keys| - 1]) then 1 else 0)
  }

  /** The tape shows `line` from position `start` up to the cursor. */
  ghost predicate Shows(d: Doc, start: nat, line: seq<byte>) {
    && d.pos == start + |line| <= |d.tape|
    && forall i :: 0 <= i < |line| ==> CharOf(d.tape[start + i]) == line[i]
  }

  lemma CharOfEntry(c: byte, color: byte)
    ensures CharOf(VgaEntry(c, color)) == c
  {}

  /** `\b`, space, `\b`: one cell back and blank, except in column 0. */
  lemma Erased(d: Doc)
    requires DocOk(d)
    ensures var e := PutDocAll(d, [BACKSPACE, SPACE, BACKSPACE]);
      && e.pos == (if d.pos % WIDTH == 0 then d.pos else d.pos - 1)
      && |e.tape| == |d.tape| && DocOk(e)
      && forall i :: 0 <= i < e.pos ==> e.tape[i] == d.tape[i]
  {
    var d1 := PutDoc(d, BACKSPACE);
    var d2 := PutDoc(d1, SPACE);
    PutThree(d, BACKSPACE, SPACE, BACKSPACE, d1, d2, PutDoc(d2, BACKSPACE));
    PutRefines(d, BACKSPACE);
    PutRefines(d1, SPACE);
    PutRefines(d2, BACKSPACE);
    if d.pos % WIDTH == 0 {
      StartOfRow(d.pos, |d.tape|);
    }
  }

  lemma PutOneMore(d: Doc, text: seq<byte>, c: byte, e: Doc)
    requires e == PutDocAll(d, text)
    ensures PutDocAll(d, text + [c]) == PutDoc(e, c)
  {
    assert (text + [c])[..|text|] == text;
  }

  lemma PutThree(d: Doc, a: byte, b: byte, c: byte, d1: Doc, d2: Doc, d3: Doc)
    requires d1 == PutDoc(d, a) && d2 == PutDoc(d1, b) && d3 == PutDoc(d2, c)
    ensures PutDocAll(d, [a, b, c]) == d3
  {
    PutOneMore(d, [], a, d);
    assert [] + [a] == [a];
    PutOneMore(d, [a], b, d1);
    assert [a] + [b] == [a, b];
    PutOneMore(d, [a, b], c, d2);
    assert [a, b] + [c] == [a, b, c];
  }

  lemma StartOfRow(pos: nat, n: nat)
    requires pos % WIDTH == 0 && n % WIDTH == 0 && pos < n
    ensures pos + WIDTH <= n && (pos + 1) % WIDTH == 1
  {
    assert pos == pos / WIDTH * WIDTH && n == n / WIDTH * WIDTH;
    assert pos / WIDTH < n / WIDTH;
  }

  lemma Typed(d: Doc, c: byte)
    requires DocOk(d) && Plain(c)
    ensures var e := PutDocAll(d, [c]);
      && e.pos == d.pos + 1 && DocOk(e)
      && |e.tape| == |d.tape| + (if d.pos + 1 == |d.tape| then WIDTH else 0)
      && CharOf(e.tape[d.pos]) == c
      && forall i :: 0 <= i < d.pos ==> e.tape[i] == d.tape[i]
  {
    assert [c][..0] == [];
    assert PutDocAll(d, [c]) == PutDoc(d, c);
    PutRefines(d, c);
    CharOfEntry(c, d.color);
  }

  lemma EditKeyTracks(e: Editing, c: byte, start: nat, misses: nat)
    requires DocOk(e.doc) && c != NEWLINE
    requires e.doc.pos == start + |e.line| + misses
    requires misses == 0 ==> Shows(e.doc, start, e.line)
    ensures var f := EditKey(e, c);
      var m := misses + (if Missed(e, c) then 1 else 0);
      DocOk(f.doc) && f.doc.pos == start + |f.line| + m && (m == 0 ==> Shows(f.doc, start, f.line))
  {
    if c == BACKSPACE && e.line != [] {
      Erased(e.doc);
    } else if Plain(c) && |e.line| < MAX_LINE {
      Typed(e.doc, c);
    }
  }

  /** However a line is typed and erased, the cursor stands one cell past the line
      for every missed erasure, and while there was none the tape spells exactly
      the command buffer. */
  lemma {:induction false} LineTracks(e: Editing, keys: seq<byte>)
    requires DocOk(e.doc) && e.line == [] && NoEnter(keys)
    ensures var f := EditKeys(e, keys);
      && DocOk(f.doc)
      && f.doc.pos == e.doc.pos + |f.line| + Misses(e, keys)
      && (Shows(f.doc, e.doc.pos, f.line) <==> Misses(e, keys) == 0)
  {
    if keys != [] {
      var n := |keys| - 1;
      LineTracks(e, keys[..n]);
      EditKeyTracks(EditKeys(e, keys[..n]), keys[n], e.doc.pos, Misses(e, keys[..n]));
    }
  }

  predicate NoEnter(keys: seq<byte>) {
    forall i :: 0 <= i < |keys| ==> keys[i] != NEWLINE
  }

  // ---- The keys that go wrong ----

  /** Key `c` erases a line that ends just before column 0, when its first
      character stands in column `col`. */
  predicate ErasesAtRowStart(col: nat, line: seq<byte>, c: byte) {
    c == BACKSPACE && line != [] && (col + |line|) % WIDTH == 0
  }

  /** Some key does. */
  predicate EverErasesAtRowStart(col: nat, keys: seq<byte>) {
    if keys == [] then false else
    var n := |keys| - 1;
    ErasesAtRowStart(col, EditAll([], keys[..n]), keys[n]) || EverErasesAtRowStart(col, keys[..n])
  }

  lemma {:induction false} LineIsEdited(e: Editing, keys: seq<byte>)
    ensures EditKeys(e, keys).line == EditAll(e.line, keys)
  {
    if keys != [] { LineIsEdited(e, keys[..|keys| - 1]); }
  }

  lemma SameColumn(p: nat, k: nat)
    ensures (p + k) % WIDTH == (p % WIDTH + k) % WIDTH
  {
    var r := p % WIDTH + k;
    RowCol(p + k, p / WIDTH + r / WIDTH, r % WIDTH);
  }

  /** An erasure is missed exactly when one of those keys is pressed. */
  lemma {:induction false} MissedIff(e: Editing, keys: seq<byte>)
    requires DocOk(e.doc) && e.line == [] && NoEnter(keys)
    ensures Misses(e, keys) > 0 <==> EverErasesAtRowStart(e.doc.pos % WIDTH, keys)
  {
    if keys != [] {
      var n := |keys| - 1;
      MissedIff(e, keys[..n]);
      LineTracks(e, keys[..n]);
      LineIsEdited(e, keys[..n]);
      MissedNow(e.doc.pos, EditKeys(e, keys[..n]), keys[n]);
    }
  }

  lemma MissedNow(p: nat, f: Editing, c: byte)
    ensures f.doc.pos == p + |f.line| ==>
      (Missed(f, c) <==> ErasesAtRowStart(p % WIDTH, f.line, c))
  {
    SameColumn(p, |f.line|);
  }

  // ---- The screen ----

  /** The command buffer, the screen, and the cell the line starts in, which moves
      up when the screen scrolls. */
  datatype Typing = Typing(line: seq<byte>, screen: Screen, start: int)

  function ScrolledBy(s: Screen, text: seq<byte>): nat
    requires ScreenOk(s)
  {
    if text == [] then 0 else
    var n := |text| - 1;
    ScrolledBy(s, text[..n]) + if Scrolls(PutAll(s, text[..n]), text[n]) then WIDTH else 0
  }

  function TypeKey(t: Typing, c: byte): (u: Typing)
    requires ScreenOk(t.screen)
    ensures ScreenOk(u.screen)
  {
    var echo := Echo(t.line, c);
    Typing(EditLine(t.line, c), PutAll(t.screen, echo), t.start - ScrolledBy(t.screen, echo))
  }

  function TypeKeys(t: Typing, keys: seq<byte>): (u: Typing)
    requires ScreenOk(t.screen)
    ensures ScreenOk(u.screen)
  {
    if keys == [] then t else TypeKey(TypeKeys(t, keys[..|keys| - 1]), keys[|keys| - 1])
  }

  /** A new line, where the cursor stands. */
  function NewLine(s: Screen): Typing { Typing([], s, At(s)) }

  /** The cursor stands just behind the line, and its cells spell the line. */
  ghost predicate Agrees(t: Typing)
    requires ScreenOk(t.screen)
  {
    && 0 <= t.start && At(t.screen) == t.start + |t.line|
    && forall i :: 0 <= i < |t.line| ==> CharOf(t.screen.cells[t.start + i]) == t.line[i]
  }

  lemma {:induction false} PutAllGrows(d: Doc, text: seq<byte>)
    requires DocOk(d)
    ensures DocOk(PutDocAll(d, text)) && |PutDocAll(d, text).tape| == |d.tape| + ScrolledBy(Window(d), text)
  {
    PutAllRefines(d, text);
    if text != [] {
      var n := |text| - 1;
      PutAllGrows(d, text[..n]);
      PutAllRefines(d, text[..n]);
      ScrollGrows(PutDocAll(d, text[..n]), text[n]);
    }
  }

  /** Typing on the screen is editing the tape, seen through its window. */
  lemma {:induction false} TypingIsEditing(e: Editing, p: nat, start: int, keys: seq<byte>)
    requires DocOk(e.doc) && start == p - (|e.doc.tape| - CELLS)
    ensures var f := EditKeys(e, keys);
      && DocOk(f.doc)
      && TypeKeys(Typing(e.line, Window(e.doc), start), keys) == Typing(f.line, Window(f.doc), p - (|f.doc.tape| - CELLS))
  {
    if keys != [] {
      var n := |keys| - 1;
      TypingIsEditing(e, p, start, keys[..n]);
      var f := EditKeys(e, keys[..n]);
      PutAllRefines(f.doc, Echo(f.line, keys[n]));
      PutAllGrows(f.doc, Echo(f.line, keys[n]));
    }
  }

  /** A tape that has grown ends with the cursor's row. */
  predicate EndsWithCursor(d: Doc) { |d.tape| == CELLS || d.pos + WIDTH >= |d.tape| }

  lemma EditKeyEnds(e: Editing, c: byte)
    requires DocOk(e.doc) && EndsWithCursor(e.doc) && c != NEWLINE
    ensures EndsWithCursor(EditKey(e, c).doc)
  {
    if c == BACKSPACE && e.line != [] {
      Erased(e.doc);
      if e.doc.pos % WIDTH != 0 && e.doc.pos + WIDTH == |e.doc.tape| {
        RowCol(e.doc.pos, |e.doc.tape| / WIDTH - 1, 0);
      }
    } else if Plain(c) && |e.line| < MAX_LINE {
      Typed(e.doc, c);
    }
  }

  lemma {:induction false} EditingEnds(e: Editing, keys: seq<byte>)
    requires DocOk(e.doc) && EndsWithCursor(e.doc) && e.line == [] && NoEnter(keys)
    ensures EndsWithCursor(EditKeys(e, keys).doc) && |EditKeys(e, keys).line| <= MAX_LINE
  {
    if keys != [] {
      EditingEnds(e, keys[..|keys| - 1]);
      LineTracks(e, keys[..|keys| - 1]);
      EditKeyEnds(EditKeys(e, keys[..|keys| - 1]), keys[|keys| - 1]);
    }
  }

  /** What the window shows of a line on the tape. */
  lemma ShownIffAgrees(d: Doc, p: nat, line: seq<byte>, t: Typing)
    requires DocOk(d) && EndsWithCursor(d) && |line| <= MAX_LINE && p < CELLS
    requires t == Typing(line, Window(d), p - (|d.tape| - CELLS))
    ensures Agrees(t) <==> Shows(d, p, line)
  {
    var top := |d.tape| - CELLS;
    Position(d);
    if p >= top {
      assert forall i {:trigger d.tape[i]} :: top <= i < |d.tape| ==> Window(d).cells[i - top] == d.tape[i];
    }
  }

  /** Main result: however a line is typed and erased, on any screen, the cursor is
      just behind the line and the cells before it spell the command buffer if and
      only if no erasure was tried in column 0. Which keys those are depends on the
      keys and on the column the line starts in alone. */
  lemma LineAgreesIff(s: Screen, keys: seq<byte>)
    requires ScreenOk(s) && NoEnter(keys)
    ensures Agrees(TypeKeys(NewLine(s), keys)) <==> !EverErasesAtRowStart(s.col, keys)
  {
    var d := Doc(s.cells, At(s), s.color);
    RowCol(At(s), s.row, s.col);
    assert Window(d) == s;
    TypingAgreesIff(d, keys, EditKeys(Editing([], d), keys), TypeKeys(NewLine(s), keys));
  }

  /** The same, on the tape. */
  lemma TypingAgreesIff(d: Doc, keys: seq<byte>, f: Editing, t: Typing)
    requires DocOk(d) && |d.tape| == CELLS && NoEnter(keys) && f == EditKeys(Editing([], d), keys)
    requires t == TypeKeys(Typing([], Window(d), d.pos), keys)
    ensures Agrees(t) <==> !EverErasesAtRowStart(d.pos % WIDTH, keys)
  {
    TypingIsEditing(Editing([], d), d.pos, d.pos, keys);
    ShowsIff(d, keys, f);
    ShownIffAgrees(f.doc, d.pos, f.line, t);
  }

  lemma ShowsIff(d: Doc, keys: seq<byte>, f: Editing)
    requires DocOk(d) && |d.tape| == CELLS && NoEnter(keys) && f == EditKeys(Editing([], d), keys)
    ensures DocOk(f.doc) && EndsWithCursor(f.doc) && |f.line| <= MAX_LINE
    ensures Shows(f.doc, d.pos, f.line) <==> !EverErasesAtRowStart(d.pos % WIDTH, keys)
  {
    var e := Editing([], d);
    EditingEnds(e, keys);
    LineTracks(e, keys);
    MissedIff(e, keys);
  }

  /** The line has never filled its row. */
  predicate NeverFills(col: nat, keys: seq<byte>) {
    && col + |EditAll([], keys)| < WIDTH
    && (keys == [] || NeverFills(col, keys[..|keys| - 1]))
  }

  /** A line that starts right of column 0 and never fills its row agrees. */
  lemma {:induction false} NeverFillsIsFine(col: nat, keys: seq<byte>)
    requires 0 < col && NeverFills(col, keys)
    ensures !EverErasesAtRowStart(col, keys)
  {
    if keys != [] { NeverFillsIsFine(col, keys[..|keys| - 1]); }
  }

  lemma UnwrappedLineAgrees(s: Screen, keys: seq<byte>)
    requires ScreenOk(s) && NoEnter(keys) && 0 < s.col && NeverFills(s.col, keys)
    ensures Agrees(TypeKeys(NewLine(s), keys))
  {
    NeverFillsIsFine(s.col, keys);
    LineAgreesIff(s, keys);
  }

  /** It does happen: one character typed in the last column, then erased. */
  lemma ErasureMissed(s: Screen)
    requires ScreenOk(s) && s.col == WIDTH - 1
    ensures !Agrees(TypeKeys(NewLine(s), [97, BACKSPACE]))
  {
    var keys := [97, BACKSPACE];
    assert keys[..1] == [97] && [97][..0] == [];
    LineAgreesIff(s, keys);
  }

  // ---- The prompt ----

  const LIGHT_GREEN: byte := 10
  const LIGHT_CYAN: byte := 11
  const LIGHT_RED: byte := 12
  const WHITE: byte := 15

  /** terminal_setcolor, then terminal_writestring. */
  function Colored(color: byte, text: string): seq<TermOp> {
    [SetColor(color)] + Puts(Ascii(text))
  }

  /** shell_print_prompt */
  function Prompt(): seq<TermOp> {
    Colored(LIGHT_CYAN, "szym") + Colored(WHITE, "@") + Colored(LIGHT_GREEN, "kernel") + Colored(WHITE, ":$ ")
  }

  /** Plain characters that fit the row only move the column. */
  lemma {:induction false} StaysInRow(s: Screen, text: seq<byte>)
    requires ScreenOk(s) && s.col + |text| < WIDTH && forall i :: 0 <= i < |text| ==> Plain(text[i])
    ensures PutAll(s, text).col == s.col + |text| && PutAll(s, text).row == s.row
  {
    if text != [] { StaysInRow(s, text[..|text| - 1]); }
  }

  lemma ColoredStaysInRow(s: Screen, color: byte, text: string)
    requires ScreenOk(s) && s.col + |text| < WIDTH && forall i :: 0 <= i < |text| ==> Plain(Ascii(text)[i])
    ensures var t := RunScreen(s, Colored(color, text));
      t.col == s.col + |text| && t.row == s.row
  {
    RunScreenAppend(s, [SetColor(color)], Puts(Ascii(text)));
    RunOne(s, SetColor(color));
    RunPuts(s.(color := color), Ascii(text));
    StaysInRow(s.(color := color), Ascii(text));
  }

  lemma PromptStaysInRow(s: Screen)
    requires ScreenOk(s) && s.col == 0
    ensures RunScreen(s, Prompt()).col == 14 && RunScreen(s, Prompt()).row == s.row
  {
    var a, b, c, d := Colored(LIGHT_CYAN, "szym"), Colored(WHITE, "@"),
        Colored(LIGHT_GREEN, "kernel"), Colored(WHITE, ":$ ");
    ColoredStaysInRow(s, LIGHT_CYAN, "szym");
    RunScreenAppend(s, a, b);
    ColoredStaysInRow(RunScreen(s, a), WHITE, "@");
    RunScreenAppend(s, a + b, c);
    ColoredStaysInRow(RunScreen(s, a + b), LIGHT_GREEN, "kernel");
    RunScreenAppend(s, a + b + c, d);
    ColoredStaysInRow(RunScreen(s, a + b + c), WHITE, ":$ ");
  }

  /** After the prompt on a fresh row, a line of up to 65 characters, however it is
      typed and erased, is what the screen shows from column 14 on. */
  lemma LineAfterPromptAgrees(s: Screen, p: Screen, keys: seq<byte>)
    requires ScreenOk(s) && s.col == 0 && p == RunScreen(s, Prompt()) && NoEnter(keys) && NeverFills(14, keys)
    ensures p.row == s.row && p.col == 14 && Agrees(TypeKeys(NewLine(p), keys))
  {
    PromptStaysInRow(s);
    UnwrappedLineAgrees(p, keys);
  }
}
