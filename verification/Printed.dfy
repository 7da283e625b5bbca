// Where printed text stands on the screen, cell by cell and in which colour.
module Printed {
  import opened CLib
  import opened TerminalSpec
  import opened LineEditor

  predicate Glyphs(text: seq<byte>) {
    forall i :: 0 <= i < |text| ==> Glyph(text[i])
  }

  /** The cell the cursor stands on. */
  function Cursor(s: Screen): nat { 80 * s.row + s.col }

  /** Between `s` and `t` the cells have moved up by `up`; those before `s`'s cursor
      stay, and from there on `text` stands in a colour. */
  ghost predicate Spelled(s: Screen, t: Screen, up: nat, text: seq<byte>, color: byte)
    requires ScreenOk(s) && ScreenOk(t)
  {
    && (forall j {:trigger s.cells[j]} :: up <= j < Cursor(s) && j - up < 2000 ==> t.cells[j - up] == s.cells[j])
    && (forall k {:trigger text[k]} :: 0 <= k < |text| && 0 <= Cursor(s) + k - up < 2000 ==>
          Wrote(t.cells[Cursor(s) + k - up], text[k], color))
  }

  /** And the cursor stands behind the text. */
  ghost predicate Typeset(s: Screen, t: Screen, up: nat, text: seq<byte>)
    requires ScreenOk(s) && ScreenOk(t)
  {
    Cursor(t) + up == Cursor(s) + |text| && Spelled(s, t, up, text, s.color) && t.color == s.color
  }

  lemma OneMore(s: Screen, text: seq<byte>, c: byte, u: Screen, up: nat)
    requires ScreenOk(s) && u == PutAll(s, text) && up == ScrolledBy(s, text)
    ensures PutAll(s, text + [c]) == PutScreen(u, c)
    ensures ScrolledBy(s, text + [c]) == up + Moved(u, c)
  {
    assert (text + [c])[..|text|] == text;
  }

  /** A text without control characters is spelled out in the current colour, from
      the cursor on, which then stands behind it. */
  lemma {:induction false} TextOnScreen(s: Screen, text: seq<byte>, t: Screen, up: nat)
    requires ScreenOk(s) && Glyphs(text) && t == PutAll(s, text) && up == ScrolledBy(s, text)
    ensures Typeset(s, t, up, text)
    decreases |text|
  {
    if text == [] {
      return;
    }
    var n := |text| - 1;
    var front, c := text[..n], text[n];
    var u, up' := PutAll(s, front), ScrolledBy(s, front);
    TextOnScreen(s, front, u, up');
    OneMore(s, front, c, u, up');
    assert front + [c] == text;
    OneMoreGlyph(s, u, up', front, c, t, up, text);
  }

  lemma OneMoreGlyph(s: Screen, u: Screen, up: nat, front: seq<byte>, c: byte, t: Screen, up': nat, text: seq<byte>)
    requires ScreenOk(s) && ScreenOk(u) && Glyph(c) && t == PutScreen(u, c) && up' == up + Moved(u, c)
    requires Typeset(s, u, up, front) && text == front + [c]
    ensures Typeset(s, t, up', text)
  {
    PutCells(u, c);
    PutCursor(u, c);
    forall j {:trigger s.cells[j]} | up' <= j < Cursor(s) && j - up' < 2000 ensures t.cells[j - up'] == s.cells[j] {
      assert t.cells[j - up'] == u.cells[j - up];
    }
    forall k {:trigger text[k]} | 0 <= k < |text| && 0 <= Cursor(s) + k - up' < 2000
      ensures Wrote(t.cells[Cursor(s) + k - up'], text[k], s.color)
    {
      if k < |front| {
        assert text[k] == front[k];
        assert t.cells[Cursor(s) + k - up'] == u.cells[Cursor(s) + k - up];
      }
    }
  }

  /** The same with a newline behind it, after which a row starts. */
  lemma LineOnScreen(s: Screen, text: seq<byte>, line: seq<byte>, t: Screen, up: nat)
    requires ScreenOk(s) && Glyphs(text) && line == text + [10] && t == PutAll(s, line) && up == ScrolledBy(s, line)
    ensures t.col == 0 && Cursor(s) + |text| < Cursor(t) + up <= Cursor(s) + |text| + 80
    ensures Spelled(s, t, up, text, s.color)
  {
    EndOfLine(s, text, line, t, up, 10);
  }

  lemma EndOfLine(s: Screen, text: seq<byte>, line: seq<byte>, t: Screen, up: nat, c: byte)
    requires ScreenOk(s) && Glyphs(text) && c == 10
    requires line == text + [c] && t == PutAll(s, line) && up == ScrolledBy(s, line)
    ensures t.col == 0 && Cursor(s) + |text| < Cursor(t) + up <= Cursor(s) + |text| + 80
    ensures Spelled(s, t, up, text, s.color)
  {
    var u, up' := PutAll(s, text), ScrolledBy(s, text);
    TextOnScreen(s, text, u, up');
    OneMore(s, text, c, u, up');
    NewlineKeeps(s, u, up', text, t, up, c);
  }

  lemma NewlineKeeps(s: Screen, u: Screen, up: nat, text: seq<byte>, t: Screen, up': nat, c: byte)
    requires ScreenOk(s) && ScreenOk(u) && c == 10 && t == PutScreen(u, c) && up' == up + Moved(u, c)
    requires Typeset(s, u, up, text)
    ensures Spelled(s, t, up', text, s.color)
    ensures t.col == 0 && Cursor(s) + |text| < Cursor(t) + up' <= Cursor(s) + |text| + 80
  {
    PutCells(u, c);
    PutCursor(u, c);
    MovedUp(s, u, up, text, t, up');
  }

  lemma MovedUp(s: Screen, u: Screen, up: nat, text: seq<byte>, t: Screen, up': nat)
    requires ScreenOk(s) && ScreenOk(u) && ScreenOk(t) && Typeset(s, u, up, text) && up <= up' <= up + 80
    requires forall i :: 0 <= i < 2000 - (up' - up) ==> t.cells[i] == u.cells[i + (up' - up)]
    ensures Spelled(s, t, up', text, s.color)
  {
    forall j {:trigger s.cells[j]} | up' <= j < Cursor(s) && j - up' < 2000 ensures t.cells[j - up'] == s.cells[j] {
      assert t.cells[j - up'] == u.cells[j - up' + (up' - up)];
      assert u.cells[j - up] == s.cells[j];
    }
    forall k {:trigger text[k]} | 0 <= k < |text| && 0 <= Cursor(s) + k - up' < 2000
      ensures Wrote(t.cells[Cursor(s) + k - up'], text[k], s.color)
    {
      assert Wrote(u.cells[Cursor(s) + k - up], text[k], s.color);
    }
  }

  /** A text that fits its row stands there, and no other cell changes. */
  ghost predicate InRow(s: Screen, t: Screen, text: seq<byte>, color: byte)
    requires ScreenOk(s) && ScreenOk(t)
  {
    && t.row == s.row && t.col == s.col + |text| && t.color == color
    && forall i :: 0 <= i < 2000 ==>
         if Cursor(s) <= i < Cursor(s) + |text| then Wrote(t.cells[i], text[i - Cursor(s)], color)
         else t.cells[i] == s.cells[i]
  }

  lemma {:induction false} TextInRow(s: Screen, text: seq<byte>)
    requires ScreenOk(s) && Glyphs(text) && s.col + |text| < 80
    ensures InRow(s, PutAll(s, text), text, s.color)
    decreases |text|
  {
    if text != [] {
      var n := |text| - 1;
      TextInRow(s, text[..n]);
      var u := PutAll(s, text[..n]);
      PutCells(u, text[n]);
      PutCursor(u, text[n]);
    }
  }

  lemma ColoredInRow(s: Screen, color: byte, text: string)
    requires ScreenOk(s) && Glyphs(Ascii(text)) && s.col + |text| < 80
    ensures InRow(s, RunScreen(s, Colored(color, text)), Ascii(text), color)
  {
    RunScreenAppend(s, [SetColor(color)], Puts(Ascii(text)));
    RunOne(s, SetColor(color));
    var c := s.(color := color);
    RunPuts(c, Ascii(text));
    TextInRow(c, Ascii(text));
    SameRow(s, c, PutAll(c, Ascii(text)), Ascii(text), color);
  }

  lemma SameRow(s: Screen, c: Screen, t: Screen, text: seq<byte>, color: byte)
    requires ScreenOk(s) && ScreenOk(t) && c == s.(color := color) && InRow(c, t, text, color)
    ensures InRow(s, t, text, color)
  {
    assert c.cells == s.cells && Cursor(c) == Cursor(s);
  }

  /** shell_print_prompt on a fresh row: "szym" in light cyan, "@" in white, "kernel"
      in light green, ":$ " in white; and no other cell changes. */
  lemma PromptInRow(s: Screen, t: Screen)
    requires ScreenOk(s) && s.col == 0 && t == RunScreen(s, Prompt())
    ensures t.row == s.row && t.col == 14 && t.color == 15
    ensures forall i :: 0 <= i < 2000 && !(80 * s.row <= i < 80 * s.row + 14) ==> t.cells[i] == s.cells[i]
    ensures forall k :: 0 <= k < 14 ==>
      Wrote(t.cells[80 * s.row + k], Ascii("szym@kernel:$ ")[k], if k < 4 then 11 else if 5 <= k < 11 then 10 else 15)
  {
    var s1, s2, s3 := PromptSteps(s, t);
    PromptPieces(s, s1, s2, s3, t);
  }

  lemma PromptSteps(s: Screen, t: Screen) returns (s1: Screen, s2: Screen, s3: Screen)
    requires ScreenOk(s) && s.col == 0 && t == RunScreen(s, Prompt())
    ensures ScreenOk(s1) && ScreenOk(s2) && ScreenOk(s3)
    ensures InRow(s, s1, Ascii("szym"), 11) && InRow(s1, s2, Ascii("@"), 15)
    ensures InRow(s2, s3, Ascii("kernel"), 10) && InRow(s3, t, Ascii(":$ "), 15)
  {
    PromptGlyphs();
    s1, s2, s3 := FourInRow(s, 11, "szym", 15, "@", 10, "kernel", 15, ":$ ", t);
  }

  lemma PromptGlyphs()
    ensures Glyphs(Ascii("szym")) && Glyphs(Ascii("@")) && Glyphs(Ascii("kernel")) && Glyphs(Ascii(":$ "))
  {}

  lemma FourInRow(s: Screen, c1: byte, t1: string, c2: byte, t2: string, c3: byte, t3: string, c4: byte, t4: string,
                  t: Screen)
    returns (s1: Screen, s2: Screen, s3: Screen)
    requires ScreenOk(s) && s.col + |t1| + |t2| + |t3| + |t4| < 80
    requires Glyphs(Ascii(t1)) && Glyphs(Ascii(t2)) && Glyphs(Ascii(t3)) && Glyphs(Ascii(t4))
    requires t == RunScreen(s, Colored(c1, t1) + Colored(c2, t2) + Colored(c3, t3) + Colored(c4, t4))
    ensures ScreenOk(s1) && ScreenOk(s2) && ScreenOk(s3)
    ensures InRow(s, s1, Ascii(t1), c1) && InRow(s1, s2, Ascii(t2), c2)
    ensures InRow(s2, s3, Ascii(t3), c3) && InRow(s3, t, Ascii(t4), c4)
  {
    var a, b, c, d := Colored(c1, t1), Colored(c2, t2), Colored(c3, t3), Colored(c4, t4);
    s1 := RunScreen(s, a);
    s2 := RunScreen(s1, b);
    s3 := RunScreen(s2, c);
    RunFour(s, a, b, c, d);
    ColoredInRow(s, c1, t1);
    ColoredInRow(s1, c2, t2);
    ColoredInRow(s2, c3, t3);
    ColoredInRow(s3, c4, t4);
  }

  lemma RunFour(s: Screen, a: seq<TermOp>, b: seq<TermOp>, c: seq<TermOp>, d: seq<TermOp>)
    requires ScreenOk(s)
    ensures RunScreen(s, a + b + c + d) == RunScreen(RunScreen(RunScreen(RunScreen(s, a), b), c), d)
  {
    RunScreenAppend(s, a, b);
    RunScreenAppend(s, a + b, c);
    RunScreenAppend(s, a + b + c, d);
  }

  lemma PromptPieces(s: Screen, s1: Screen, s2: Screen, s3: Screen, t: Screen)
    requires ScreenOk(s) && ScreenOk(s1) && ScreenOk(s2) && ScreenOk(s3) && ScreenOk(t) && s.col == 0
    requires InRow(s, s1, Ascii("szym"), 11) && InRow(s1, s2, Ascii("@"), 15)
    requires InRow(s2, s3, Ascii("kernel"), 10) && InRow(s3, t, Ascii(":$ "), 15)
    ensures t.row == s.row && t.col == 14 && t.color == 15
    ensures forall i :: 0 <= i < 2000 && !(80 * s.row <= i < 80 * s.row + 14) ==> t.cells[i] == s.cells[i]
    ensures forall k :: 0 <= k < 14 ==>
      Wrote(t.cells[80 * s.row + k], Ascii("szym@kernel:$ ")[k], if k < 4 then 11 else if 5 <= k < 11 then 10 else 15)
  {
    var text := Ascii("szym@kernel:$ ");
    assert text[..4] == Ascii("szym") && text[4..5] == Ascii("@");
    assert text[5..11] == Ascii("kernel") && text[11..] == Ascii(":$ ");
    forall k | 0 <= k < 14
      ensures Wrote(t.cells[80 * s.row + k], text[k], if k < 4 then 11 else if 5 <= k < 11 then 10 else 15)
    {
      if k < 4 {
        assert text[k] == text[..4][k];
      } else if k < 5 {
        assert text[k] == text[4..5][k - 4];
      } else if k < 11 {
        assert text[k] == text[5..11][k - 5];
      } else {
        assert text[k] == text[11..][k - 11];
      }
    }
  }
}
