// The commands as they are typed: what each does to files, disk and screen, from the
// keys to the cells.
module TypedCommands {
  import opened CLib
  import opened Ata
  import opened FsLayout
  import opened SlotMap
  import opened FsSpec
  import opened FsRuns
  import opened FsDevice
  import opened Numbers
  import opened TerminalSpec
  import opened LineEditor
  import opened Printed
  import opened ShellSpec
  import opened ShellRuns
  import opened Commands
  import opened KeyboardCode
  import opened ShellCode

  ghost predicate PlainText(text: seq<byte>) {
    forall i :: 0 <= i < |text| ==> Plain(text[i])
  }

  /** `cmd` and Enter, typed on an empty line. */
  ghost predicate Enters(sh: Shell, xs: seq<Input>, x: Input, cmd: seq<byte>) {
    TypedAs(xs + [x], cmd + [NEWLINE]) && sh.line == [] && !sh.stopped && |cmd| <= 255 && PlainText(cmd)
  }

  /** The screen with the line typed on it. */
  function WithLine(s: Screen, cmd: seq<byte>): (t: Screen)
    requires ScreenOk(s)
    ensures ScreenOk(t) && t.color == s.color
  {
    PutAll(s, cmd + [10])
  }

  /** The save a command makes, if it makes one. */
  ghost function IoOf(status: nat -> byte, sh: Shell, x: Input): Io
    requires x.Stroke?
  {
    SaveIo(status, sh.polls, x.env.tail)
  }

  /** What a line typed at the prompt does: its command, its answer on the screen, and
      the prompt, when no division faults. */
  lemma TypedRuns(status: nat -> byte, sh: Shell, xs: seq<Input>, x: Input, cmd: seq<byte>, files: Fs, reply: Reply)
    requires Enters(sh, xs, x, cmd) && x.Stroke? && (files, reply) == Execute(sh.files, cmd, IoOf(status, sh, x))
    requires !reply.DivisionFaults?
    ensures var t := After(status, sh, xs + [x]);
      && t.files == files && t.line == [] && !t.stopped
      && t.screen == RunScreen(RunScreen(WithLine(sh.screen, cmd), Says(reply, x.env.notes)), Prompt())
  {
    TypedCommand(status, sh, xs, cmd, x);
    LineThenNewline(sh.screen, cmd);
  }

  lemma EnterIsStroke(sh: Shell, xs: seq<Input>, x: Input, cmd: seq<byte>)
    requires Enters(sh, xs, x, cmd)
    ensures x.Stroke?
  {
    TypedThenEnter(xs, cmd, x);
  }

  // ---- save ----

  /** Typed `save` on a responsive device: memory stays, the disk holds it, and a power
      cycle is safe whatever had failed before. */
  lemma TypedSave(status: nat -> byte, sh: Shell, xs: seq<Input>, x: Input, cmd: seq<byte>, y: Input)
    requires Enters(sh, xs, x, cmd) && cmd == Ascii("save") && y.PowerCycle?
    ensures var t := After(status, sh, xs + [x]);
      && t.files.header == sh.files.header && t.files.data == sh.files.data && t.line == [] && !t.stopped
      && (Responsive(status) && sh.files.selected ==>
           Synced(t.files) && SafeRestarts(t.files, EventsOf(status, t, [y])))
  {
    EnterIsStroke(sh, xs, x, cmd);
    var io := IoOf(status, sh, x);
    var (files, reply) := Execute(sh.files, cmd, io);
    SaveWord(sh.files, cmd, io);
    TypedRuns(status, sh, xs, x, cmd, files, reply);
    if Responsive(status) && sh.files.selected {
      ResponsiveNeverFails(status, sh.polls, x.env.tail);
      CycleIsSafe(status, After(status, sh, xs + [x]), y);
    }
  }

  lemma CycleIsSafe(status: nat -> byte, t: Shell, y: Input)
    requires Responsive(status) && Synced(t.files) && y.PowerCycle?
    ensures SafeRestarts(t.files, EventsOf(status, t, [y]))
  {
    ResponsiveNeverFails(status, y.polls, y.tail);
    var evs := EventsOf(status, t, [y]);
    assert [y][..0] == [];
    assert After(status, t, []) == t && EventsOf(status, t, []) == [];
    assert evs == [] + EventOf(status, t, y);
    OneEvent(t.files, evs[0]);
    assert evs == [evs[0]];
  }

  /** The keys of `save` and Enter, pressed and released, as scancodes. */
  const SAVE_CODES: seq<byte> := [0x1F, 0x9F, 0x1E, 0x9E, 0x2F, 0xAF, 0x12, 0x92, 0x1C, 0x9C]
  const SAVE_KEYS: seq<Key> := [Key(false, 0x1F), Key(false, 0x1E), Key(false, 0x2F), Key(false, 0x12), Key(false, 0x1C)]

  lemma SaveKeys()
    ensures forall i :: 0 <= i < |SAVE_KEYS| ==> Typable(UsTables(), SAVE_KEYS[i])
    ensures Characters(UsTables(), SAVE_KEYS) == Ascii("save") + [10]
    ensures Scancodes(UsTables(), SAVE_KEYS) == SAVE_CODES
  {
    KeyIs(false, 0x1F);
    KeyIs(false, 0x1E);
    KeyIs(false, 0x2F);
    KeyIs(false, 0x12);
    KeyIs(false, 0x1C);
    SaveBytes();
    assert SAVE_KEYS[1..] == [Key(false, 0x1E), Key(false, 0x2F), Key(false, 0x12), Key(false, 0x1C)];
    assert SAVE_KEYS[1..][1..] == [Key(false, 0x2F), Key(false, 0x12), Key(false, 0x1C)];
    assert SAVE_KEYS[1..][1..][1..] == [Key(false, 0x12), Key(false, 0x1C)];
    assert SAVE_KEYS[1..][1..][1..][1..] == [Key(false, 0x1C)];
  }

  /** From the keys to the disk: these ten scancodes at the prompt save. */
  lemma SaveFromTheKeyboard(status: nat -> byte, sh: Shell, k: Kbd, env: Environment, xs: seq<Input>, y: Input)
    requires AtRest(k) && sh.line == [] && !sh.stopped && Responsive(status) && sh.files.selected && y.PowerCycle?
    requires xs == Inputs(Decode(UsTables(), k.shift, NoRepeats(k.last, SAVE_CODES)), env)
    ensures var t := After(status, sh, xs);
      && t.files.header == sh.files.header && t.files.data == sh.files.data
      && Synced(t.files) && SafeRestarts(t.files, EventsOf(status, t, [y]))
  {
    SaveKeys();
    TypedKeys(k, SAVE_KEYS, Ascii("save") + [10], env);
    SaveBytes();
    LineThenEnter(status, sh, xs, Ascii("save"), y);
  }

  lemma LineThenEnter(status: nat -> byte, sh: Shell, xs: seq<Input>, cmd: seq<byte>, y: Input)
    requires TypedAs(xs, cmd + [NEWLINE]) && cmd == Ascii("save") && PlainText(cmd) && sh.line == [] && !sh.stopped
    requires Responsive(status) && sh.files.selected && y.PowerCycle?
    ensures var t := After(status, sh, xs);
      && t.files.header == sh.files.header && t.files.data == sh.files.data
      && Synced(t.files) && SafeRestarts(t.files, EventsOf(status, t, [y]))
  {
    var n := |cmd|;
    assert xs == xs[..n] + [xs[n]];
    TypedSave(status, sh, xs[..n], xs[n], cmd, y);
  }

  // ---- clear ----

  /** "szym@kernel:$ " in its colours at the start of row `row`. */
  ghost predicate PromptAt(t: Screen, row: nat)
    requires ScreenOk(t)
  {
    && row < 25 && t.row == row && t.col == 14 && t.color == 15
    && forall k :: 0 <= k < 14 ==>
         Wrote(t.cells[80 * row + k], Ascii("szym@kernel:$ ")[k], if k < 4 then 11 else if 5 <= k < 11 then 10 else 15)
  }

  /** After typed `clear` the prompt stands on row 0, and all other cells are blank in
      the colour there was. */
  lemma TypedClear(status: nat -> byte, sh: Shell, xs: seq<Input>, x: Input, cmd: seq<byte>)
    requires Enters(sh, xs, x, cmd) && cmd == Ascii("clear")
    ensures var t := After(status, sh, xs + [x]);
      && t.files == sh.files && PromptAt(t.screen, 0)
      && forall i :: 14 <= i < 2000 ==> Wrote(t.screen.cells[i], 32, sh.screen.color)
  {
    EnterIsStroke(sh, xs, x, cmd);
    var io := IoOf(status, sh, x);
    ClearWord(sh.files, cmd, io);
    TypedRuns(status, sh, xs, x, cmd, sh.files, Cleared);
    ClearShows(WithLine(sh.screen, cmd), x.env.notes);
  }

  lemma ClearShows(s: Screen, notes: seq<TermOp>)
    requires ScreenOk(s)
    ensures var t := RunScreen(RunScreen(s, Says(Cleared, notes)), Prompt());
      PromptAt(t, 0) && forall i :: 14 <= i < 2000 ==> Wrote(t.cells[i], 32, s.color)
  {
    var u := RunScreen(s, Says(Cleared, notes));
    RunOne(s, Clear);
    ClearedCells(s);
    PromptInRow(u, RunScreen(u, Prompt()));
  }

  // ---- Commands that print a line ----

  /** A line that has been printed, and the prompt on the next row. */
  ghost predicate LineShown(s: Screen, text: seq<byte>, color: byte, t: Screen)
    requires ScreenOk(s) && ScreenOk(t)
  {
    exists up: nat ::
      && Spelled(s, t, up, text, color) && PromptAt(t, t.row)
      && Cursor(s) + |text| < 80 * t.row + up <= Cursor(s) + |text| + 80
  }

  lemma PromptAfterLine(s: Screen, text: seq<byte>, color: byte, u: Screen, up: nat, t: Screen)
    requires ScreenOk(s) && ScreenOk(u) && u.col == 0 && Spelled(s, u, up, text, color) && t == RunScreen(u, Prompt())
    requires Cursor(s) + |text| < 80 * u.row + up <= Cursor(s) + |text| + 80
    ensures LineShown(s, text, color, t)
  {
    PromptInRow(u, t);
    assert Spelled(s, t, up, text, color) by {
      forall j {:trigger s.cells[j]} | up <= j < Cursor(s) && j - up < 2000 ensures t.cells[j - up] == s.cells[j] {
        assert t.cells[j - up] == u.cells[j - up];
      }
      forall k {:trigger text[k]} | 0 <= k < |text| && 0 <= Cursor(s) + k - up < 2000
        ensures Wrote(t.cells[Cursor(s) + k - up], text[k], color)
      {
        assert t.cells[Cursor(s) + k - up] == u.cells[Cursor(s) + k - up];
      }
    }
  }

  lemma PrintedShows(s: Screen, text: seq<byte>, line: seq<byte>, notes: seq<TermOp>)
    requires ScreenOk(s) && Glyphs(text) && line == text + [10]
    ensures LineShown(s, text, s.color, RunScreen(RunScreen(s, Says(Printed(line), notes)), Prompt()))
  {
    var u, up := PutAll(s, line), ScrolledBy(s, line);
    RunPuts(s, line);
    LineOnScreen(s, text, line, u, up);
    PromptAfterLine(s, text, s.color, u, up, RunScreen(u, Prompt()));
  }

  lemma HintShows(s: Screen, notes: seq<TermOp>, reply: Reply, text: seq<byte>)
    requires ScreenOk(s) && Glyphs(text) && (reply.NoContent? || reply.DivisionByZero?)
    requires Ascii(Hint(reply)) == text + [10]
    ensures LineShown(s, text, s.color, RunScreen(RunScreen(s, Says(reply, notes)), Prompt()))
  {
    PrintedShows(s, text, text + [10], notes);
  }

  /** A command that answers with a line shows it, behind what was typed. */
  lemma TypedPrints(status: nat -> byte, sh: Shell, xs: seq<Input>, x: Input, cmd: seq<byte>, files: Fs, text: seq<byte>)
    requires Enters(sh, xs, x, cmd) && x.Stroke? && Glyphs(text)
    requires Execute(sh.files, cmd, IoOf(status, sh, x)) == (files, Printed(text + [10]))
    ensures var t := After(status, sh, xs + [x]);
      t.files == files && LineShown(WithLine(sh.screen, cmd), text, sh.screen.color, t.screen)
  {
    TypedRuns(status, sh, xs, x, cmd, files, Printed(text + [10]));
    PrintedShows(WithLine(sh.screen, cmd), text, text + [10], x.env.notes);
  }

  /** `echo text` shows the text. */
  lemma TypedEcho(status: nat -> byte, sh: Shell, xs: seq<Input>, x: Input, text: seq<byte>, cmd: seq<byte>)
    requires Enters(sh, xs, x, cmd) && cmd == Ascii("echo ") + text
    ensures var t := After(status, sh, xs + [x]);
      t.files == sh.files && LineShown(WithLine(sh.screen, cmd), text, sh.screen.color, t.screen)
  {
    EnterIsStroke(sh, xs, x, cmd);
    EchoWord(sh.files, text, cmd, IoOf(status, sh, x));
    assert forall i :: 0 <= i < |text| ==> text[i] == cmd[5 + i];
    TypedPrints(status, sh, xs, x, cmd, sh.files, text);
  }

  /** `calc` shows the line it computes, which `Commands.CalcMeans` is about. */
  lemma TypedCalc(status: nat -> byte, sh: Shell, xs: seq<Input>, x: Input, arg: seq<byte>, cmd: seq<byte>, text: seq<byte>)
    requires Enters(sh, xs, x, cmd) && cmd == Ascii("calc ") + arg && Calc(arg) == Printed(text)
    ensures text != [] && text[|text| - 1] == 10
    ensures var t := After(status, sh, xs + [x]);
      t.files == sh.files && LineShown(WithLine(sh.screen, cmd), text[..|text| - 1], sh.screen.color, t.screen)
  {
    EnterIsStroke(sh, xs, x, cmd);
    CalcWord(sh.files, arg, cmd, IoOf(status, sh, x));
    CalcLine(arg, text);
    TypedPrints(status, sh, xs, x, cmd, sh.files, text[..|text| - 1]);
  }

  lemma CalcLine(arg: seq<byte>, text: seq<byte>)
    requires Calc(arg) == Printed(text)
    ensures text != [] && text == text[..|text| - 1] + [10] && Glyphs(text[..|text| - 1])
  {
    var e := ParseCalc(arg);
    var r := Wrap(Operate(e.num1, e.op, e.num2));
    NumberGlyphs(e.num1);
    NumberGlyphs(e.num2);
    NumberGlyphs(r);
    CalcTextGlyphs(e.num1, e.op, e.num2, r, text);
  }

  lemma CalcTextGlyphs(a: int, op: byte, b: int, r: int, text: seq<byte>)
    requires IsInt(a) && IsInt(b) && IsInt(r) && IsOperator(op) && text == CalcText(a, op, b, r)
    requires Glyphs(DecText(a)) && Glyphs(DecText(b)) && Glyphs(DecText(r))
    ensures text != [] && text == text[..|text| - 1] + [10] && Glyphs(text[..|text| - 1])
  {
    var line := DecText(a) + [32, op, 32] + DecText(b) + [32, 61, 32] + DecText(r);
    assert text == line + [10] && text[..|text| - 1] == line;
  }

  lemma NumberGlyphs(n: int)
    requires IsInt(n)
    ensures Glyphs(DecText(n))
  {
    if n != 0 && n != INT_MIN { DecimalDigits(if n < 0 then -n else n); }
  }

  /** A division that faults stops the machine behind the line typed: no file has
      changed, and nothing typed has an effect until a power cycle. */
  lemma TypedFault(status: nat -> byte, sh: Shell, xs: seq<Input>, x: Input, arg: seq<byte>, cmd: seq<byte>,
                   more: seq<Input>)
    requires Enters(sh, xs, x, cmd) && cmd == Ascii("calc ") + arg && Calc(arg) == DivisionFaults
    requires forall y :: y in more ==> y.Stroke?
    ensures var t := After(status, sh, xs + [x] + more);
      t.stopped && t.files == sh.files && t.screen == WithLine(sh.screen, cmd)
  {
    EnterIsStroke(sh, xs, x, cmd);
    CalcWord(sh.files, arg, cmd, IoOf(status, sh, x));
    TypedStops(status, sh, xs, x, cmd, sh.files);
    var t := After(status, sh, xs + [x]);
    AfterAppend(status, sh, xs + [x], more);
    StaysStopped(status, t, more);
  }

  lemma TypedStops(status: nat -> byte, sh: Shell, xs: seq<Input>, x: Input, cmd: seq<byte>, files: Fs)
    requires Enters(sh, xs, x, cmd) && x.Stroke?
    requires Execute(sh.files, cmd, IoOf(status, sh, x)) == (files, DivisionFaults)
    ensures var t := After(status, sh, xs + [x]);
      t.stopped && t.files == files && t.screen == WithLine(sh.screen, cmd)
  {
    var typed := sh.(line := cmd, screen := PutAll(sh.screen, cmd));
    TypedCommand(status, sh, xs, cmd, x);
    EnterStops(status, typed, x.env, files, DivisionFaults, PutScreen(typed.screen, NEWLINE));
    LineThenNewline(sh.screen, cmd);
  }

  lemma EnterStops(status: nat -> byte, sh: Shell, env: Env, files: Fs, reply: Reply, newline: Screen)
    requires Execute(sh.files, sh.line, SaveIo(status, sh.polls, env.tail)) == (files, reply) && reply.DivisionFaults?
    requires newline == PutScreen(sh.screen, NEWLINE)
    ensures var t := Enter(status, sh, env); t.stopped && t.files == files && t.screen == newline
  {
    NothingSaid(newline, reply, env.notes);
  }

  lemma NothingSaid(s: Screen, reply: Reply, notes: seq<TermOp>)
    requires ScreenOk(s) && reply.DivisionFaults?
    ensures RunScreen(s, Says(reply, notes)) == s
  {}

  lemma LineThenNewline(s: Screen, cmd: seq<byte>)
    requires ScreenOk(s)
    ensures PutScreen(PutAll(s, cmd), NEWLINE) == WithLine(s, cmd)
  {
    assert (cmd + [10])[..|cmd|] == cmd;
  }

  /** `cat name` shows the file's text, if there are no control characters in it. */
  lemma TypedCat(status: nat -> byte, sh: Shell, xs: seq<Input>, x: Input, name: seq<byte>, cmd: seq<byte>, text: seq<byte>)
    requires Enters(sh, xs, x, cmd) && cmd == Ascii("cat ") + name && Running(sh.files) && name in FilesIn(sh.files)
    requires text == CStr(FilesIn(sh.files)[name]) && Glyphs(text)
    ensures var t := After(status, sh, xs + [x]);
      t.files == sh.files && LineShown(WithLine(sh.screen, cmd), text, sh.screen.color, t.screen)
  {
    EnterIsStroke(sh, xs, x, cmd);
    CatWord(sh.files, name, cmd, IoOf(status, sh, x));
    TypedPrints(status, sh, xs, x, cmd, sh.files, text);
  }

  // ---- Messages ----

  /** A message with a name stands in its colour, and white is in force behind it. */
  lemma NamedShows(s: Screen, color: byte, message: string, name: seq<byte>, text: seq<byte>)
    requires ScreenOk(s) && text == Ascii(message) + name && Glyphs(text)
    ensures LineShown(s, text, color, RunScreen(RunScreen(s, Named(color, message, name)), Prompt()))
  {
    var line := text + [10];
    var u := PutAll(s.(color := color), line);
    NamedRuns(s, color, message, name, line);
    MessageLine(s, color, text, line, u, u.(color := 15));
    var up: nat :| Spelled(s, u.(color := 15), up, text, color)
      && Cursor(s) + |text| < Cursor(u) + up <= Cursor(s) + |text| + 80;
    PromptAfterLine(s, text, color, u.(color := 15), up, RunScreen(u.(color := 15), Prompt()));
  }

  lemma MessageLine(s: Screen, color: byte, text: seq<byte>, line: seq<byte>, u: Screen, v: Screen)
    requires ScreenOk(s) && Glyphs(text) && line == text + [10]
    requires u == PutAll(s.(color := color), line) && v == u.(color := 15)
    ensures u.col == 0 && exists up: nat ::
      Spelled(s, v, up, text, color) && Cursor(s) + |text| < Cursor(u) + up <= Cursor(s) + |text| + 80
  {
    var c := s.(color := color);
    var up := ScrolledBy(c, line);
    LineOnScreen(c, text, line, u, up);
    Recolored(s, c, u, v, up, text, color);
  }

  lemma Recolored(s: Screen, c: Screen, u: Screen, v: Screen, up: nat, text: seq<byte>, color: byte)
    requires ScreenOk(s) && ScreenOk(u) && c == s.(color := c.color) && v == u.(color := v.color)
    requires Spelled(c, u, up, text, color)
    ensures Spelled(s, v, up, text, color)
  {
    assert c.cells == s.cells && Cursor(c) == Cursor(s) && u.cells == v.cells;
  }

  lemma NamedRuns(s: Screen, color: byte, message: string, name: seq<byte>, line: seq<byte>)
    requires ScreenOk(s) && line == Ascii(message) + name + [10]
    ensures RunScreen(s, Named(color, message, name)) == PutAll(s.(color := color), line).(color := 15)
  {
    var a, b := Colored(color, message), Puts(name);
    var c := s.(color := color);
    RunScreenAppend(s, a + b + Puts([10]), [SetColor(WHITE)]);
    RunScreenAppend(s, a + b, Puts([10]));
    RunScreenAppend(s, a, b);
    RunColored(s, color, message);
    RunPuts(PutAll(c, Ascii(message)), name);
    PutAllAppend(c, Ascii(message), name);
    RunPuts(PutAll(c, Ascii(message) + name), [10]);
    PutAllAppend(c, Ascii(message) + name, [10]);
    RunOne(PutAll(c, line), SetColor(WHITE));
  }

  /** The answer to a command on the screen: in green, behind what the save has
      printed, what was done; or in red why not; or in the current colour what is
      missing. */
  ghost predicate AnswerShown(s: Screen, notes: seq<TermOp>, reply: Reply, t: Screen)
    requires ScreenOk(s) && ScreenOk(t)
  {
    match reply
    case Created(name) => LineShown(RunScreen(s, notes), Ascii("File created: ") + name, 10, t)
    case Removed(name) => LineShown(RunScreen(s, notes), Ascii("File deleted: ") + name, 10, t)
    case Exists(name) => LineShown(s, Ascii("Error: File already exists: ") + name, 12, t)
    case NotFound(name) => LineShown(s, Ascii("File not found: ") + name, 12, t)
    case Full => LineShown(s, Ascii("Error: Filesystem full"), 12, t)
    case Failed => LineShown(s, Ascii("Error: Could not create file"), 12, t)
    case NoContent => LineShown(s, Ascii("Error: No content provided"), s.color, t)
    case DivisionByZero => LineShown(s, Ascii("Error: Division by zero!"), s.color, t)
    case _ => true
  }

  function NameIn(reply: Reply): seq<byte> {
    match reply
    case Created(name) => name
    case Removed(name) => name
    case Exists(name) => name
    case NotFound(name) => name
    case _ => []
  }

  lemma AnswerShows(s: Screen, notes: seq<TermOp>, reply: Reply)
    requires ScreenOk(s) && PlainText(NameIn(reply))
    ensures AnswerShown(s, notes, reply, RunScreen(RunScreen(s, Says(reply, notes)), Prompt()))
  {
    match reply {
      case Created(name) => DoneShows(s, notes, "File created: ", name);
      case Removed(name) => DoneShows(s, notes, "File deleted: ", name);
      case Exists(name) => ExistsShows(s, name);
      case NotFound(name) => NotFoundShows(s, name);
      case Full => FullShows(s);
      case Failed => FailedShows(s);
      case NoContent =>
        NoContentBytes();
        HintShows(s, notes, reply, Ascii("Error: No content provided"));
      case DivisionByZero =>
        DivisionBytes();
        HintShows(s, notes, reply, Ascii("Error: Division by zero!"));
      case _ =>
    }
  }

  /** A command typed, with its answer. */
  lemma TypedAnswers(status: nat -> byte, sh: Shell, xs: seq<Input>, x: Input, cmd: seq<byte>, files: Fs, reply: Reply)
    requires Enters(sh, xs, x, cmd) && x.Stroke? && (files, reply) == Execute(sh.files, cmd, IoOf(status, sh, x))
    requires !reply.DivisionFaults? && PlainText(NameIn(reply))
    ensures var t := After(status, sh, xs + [x]);
      t.files == files && AnswerShown(WithLine(sh.screen, cmd), x.env.notes, reply, t.screen)
  {
    TypedRuns(status, sh, xs, x, cmd, files, reply);
    AnswerShows(WithLine(sh.screen, cmd), x.env.notes, reply);
  }

  /** `rm name`: exactly that file goes, and the answer says so. */
  lemma TypedRm(status: nat -> byte, sh: Shell, xs: seq<Input>, x: Input, name: seq<byte>, cmd: seq<byte>, reply: Reply)
    requires Enters(sh, xs, x, cmd) && cmd == Ascii("rm ") + name && Running(sh.files) && x.Stroke?
    requires reply == if name in FilesIn(sh.files) then Removed(name) else NotFound(name)
    ensures var t := After(status, sh, xs + [x]);
      && Running(t.files) && FilesIn(t.files) == FilesIn(sh.files) - {name}
      && AnswerShown(WithLine(sh.screen, cmd), x.env.notes, reply, t.screen)
  {
    var io := IoOf(status, sh, x);
    NamePlain(cmd, 3, name);
    RmWord(sh.files, name, cmd, io);
    TypedAnswers(status, sh, xs, x, cmd, Execute(sh.files, cmd, io).0, reply);
  }

  lemma NotFoundShows(s: Screen, name: seq<byte>)
    requires ScreenOk(s) && PlainText(name)
    ensures LineShown(s, Ascii("File not found: ") + name, 12,
                      RunScreen(RunScreen(s, Named(LIGHT_RED, "File not found: ", name)), Prompt()))
  {
    MessageGlyphs("File not found: ", name);
    NamedShows(s, 12, "File not found: ", name, Ascii("File not found: ") + name);
  }

  /** What the save prints, then a message in green. */
  lemma DoneShows(s: Screen, notes: seq<TermOp>, message: string, name: seq<byte>)
    requires ScreenOk(s) && PlainText(name) && forall i :: 0 <= i < |message| ==> ' ' <= message[i] < 127 as char
    ensures LineShown(RunScreen(s, notes), Ascii(message) + name, 10,
                      RunScreen(RunScreen(s, notes + Named(LIGHT_GREEN, message, name)), Prompt()))
  {
    MessageGlyphs(message, name);
    RunScreenAppend(s, notes, Named(LIGHT_GREEN, message, name));
    NamedShows(RunScreen(s, notes), 10, message, name, Ascii(message) + name);
  }

  lemma NamePlain(cmd: seq<byte>, n: nat, name: seq<byte>)
    requires PlainText(cmd) && n <= |cmd| && cmd[n..] == name
    ensures PlainText(name) && NulFree(name)
  {
    assert forall i :: 0 <= i < |name| ==> name[i] == cmd[n + i];
  }

  lemma MessageGlyphs(message: string, name: seq<byte>)
    requires PlainText(name) && forall i :: 0 <= i < |message| ==> ' ' <= message[i] < 127 as char
    ensures Glyphs(Ascii(message) + name)
  {}

  lemma ExistsShows(s: Screen, name: seq<byte>)
    requires ScreenOk(s) && PlainText(name)
    ensures LineShown(s, Ascii("Error: File already exists: ") + name, 12,
                      RunScreen(RunScreen(s, Named(LIGHT_RED, "Error: File already exists: ", name)), Prompt()))
  {
    MessageGlyphs("Error: File already exists: ", name);
    NamedShows(s, 12, "Error: File already exists: ", name, Ascii("Error: File already exists: ") + name);
  }

  lemma RedShows(s: Screen, message: string, text: seq<byte>)
    requires ScreenOk(s) && Ascii(message) == text + [10] && Glyphs(text)
    ensures LineShown(s, text, 12, RunScreen(RunScreen(s, InRed(message)), Prompt()))
  {
    var line := text + [10];
    var u := PutAll(s.(color := 12), line);
    RunColored(s, LIGHT_RED, message);
    RunScreenAppend(s, Colored(LIGHT_RED, message), [SetColor(WHITE)]);
    RunOne(u, SetColor(WHITE));
    MessageLine(s, 12, text, line, u, u.(color := 15));
    var up: nat :| Spelled(s, u.(color := 15), up, text, 12)
      && Cursor(s) + |text| < Cursor(u) + up <= Cursor(s) + |text| + 80;
    PromptAfterLine(s, text, 12, u.(color := 15), up, RunScreen(u.(color := 15), Prompt()));
  }

  lemma FullShows(s: Screen)
    requires ScreenOk(s)
    ensures LineShown(s, Ascii("Error: Filesystem full"), 12,
                      RunScreen(RunScreen(s, InRed("Error: Filesystem full\n")), Prompt()))
  {
    FullBytes();
    RedShows(s, "Error: Filesystem full\n", Ascii("Error: Filesystem full"));
  }

  lemma FullBytes()
    ensures Ascii("Error: Filesystem full\n") == Ascii("Error: Filesystem full") + [10]
    ensures Glyphs(Ascii("Error: Filesystem full"))
  {}

  lemma FailedShows(s: Screen)
    requires ScreenOk(s)
    ensures LineShown(s, Ascii("Error: Could not create file"), 12,
                      RunScreen(RunScreen(s, InRed("Error: Could not create file\n")), Prompt()))
  {
    FailedBytes();
    RedShows(s, "Error: Could not create file\n", Ascii("Error: Could not create file"));
  }

  lemma FailedBytes()
    ensures Ascii("Error: Could not create file\n") == Ascii("Error: Could not create file") + [10]
    ensures Glyphs(Ascii("Error: Could not create file"))
  {}

  lemma NoContentBytes()
    ensures Ascii(Hint(NoContent)) == Ascii("Error: No content provided") + [10]
    ensures Glyphs(Ascii("Error: No content provided"))
  {}

  lemma DivisionBytes()
    ensures Ascii(Hint(DivisionByZero)) == Ascii("Error: Division by zero!") + [10]
    ensures Glyphs(Ascii("Error: Division by zero!"))
  {}

  // ---- write ----

  /** Any `write` typed: which file it adds, with which text, or that it adds none; and
      the answer. */
  lemma TypedWrite(status: nat -> byte, sh: Shell, xs: seq<Input>, x: Input, i: nat, name: seq<byte>, j: nat,
                   content: seq<byte>, cmd: seq<byte>, reply: Reply)
    requires Enters(sh, xs, x, cmd) && cmd == Ascii("write ") + WriteArgs(i, name, j, content)
    requires ArgsOk(name, j, content) && Running(sh.files) && x.Stroke?
    requires reply == Execute(sh.files, cmd, IoOf(status, sh, x)).1
    ensures var t := After(status, sh, xs + [x]);
      && WriteOutcome(sh.files, t.files, reply, name, j, content)
      && AnswerShown(WithLine(sh.screen, cmd), x.env.notes, reply, t.screen)
  {
    var io := IoOf(status, sh, x);
    var files := Execute(sh.files, cmd, io).0;
    WriteArgsPlain(cmd, i, name, j, content);
    WriteDone(sh.files, i, name, j, content, cmd, io, files, reply);
    TypedAnswers(status, sh, xs, x, cmd, files, reply);
  }

  lemma WriteDone(s: Fs, i: nat, name: seq<byte>, j: nat, content: seq<byte>, cmd: seq<byte>, io: Io, t: Fs, reply: Reply)
    requires Running(s) && ArgsOk(name, j, content) && PlainText(name) && NulFree(name) && NulFree(content)
    requires cmd == Ascii("write ") + WriteArgs(i, name, j, content) && |cmd| <= 255 && (t, reply) == Execute(s, cmd, io)
    ensures WriteOutcome(s, t, reply, name, j, content) && PlainText(NameIn(reply)) && !reply.DivisionFaults?
  {
    WriteWord(s, i, name, j, content, cmd, io);
    AnswerPlain(FilesIn(s), name, j, content);
  }

  lemma AnswerPlain(m: Files, name: seq<byte>, j: nat, content: seq<byte>)
    requires PlainText(name)
    ensures PlainText(NameIn(WriteAnswer(m, name, j, content)))
  {}

  lemma WriteArgsPlain(cmd: seq<byte>, i: nat, name: seq<byte>, j: nat, content: seq<byte>)
    requires PlainText(cmd) && cmd == Ascii("write ") + WriteArgs(i, name, j, content)
    ensures PlainText(name) && NulFree(name) && NulFree(content)
  {
    var a, b := 6 + i, 6 + i + |name| + j;
    assert forall k :: 0 <= k < |name| ==> name[k] == cmd[a + k];
    assert forall k :: 0 <= k < |content| ==> content[k] == cmd[b + k];
  }

  // ---- Other lines ----

  /** A line that is no command: a message in red, a hint in white, and no change. */
  lemma TypedUnknown(status: nat -> byte, sh: Shell, xs: seq<Input>, x: Input, cmd: seq<byte>)
    requires Enters(sh, xs, x, cmd) && !KnownWord(cmd)
    ensures var t, s := After(status, sh, xs + [x]), WithLine(sh.screen, cmd);
      && t.files == sh.files
      && t.screen ==
         RunScreen(TwoLines(s, 12, "Command not found: ", cmd, "Type 'help' for available commands.\n"), Prompt())
  {
    EnterIsStroke(sh, xs, x, cmd);
    UnknownIff(sh.files, cmd, IoOf(status, sh, x));
    TypedRuns(status, sh, xs, x, cmd, sh.files, Unknown(cmd));
    UnknownShows(WithLine(sh.screen, cmd), x.env.notes, cmd);
  }

  lemma UnknownShows(s: Screen, notes: seq<TermOp>, cmd: seq<byte>)
    requires ScreenOk(s)
    ensures RunScreen(s, Says(Unknown(cmd), notes)) ==
      TwoLines(s, 12, "Command not found: ", cmd, "Type 'help' for available commands.\n")
  {
    NamedThenHint(s, 12, "Command not found: ", cmd, "Type 'help' for available commands.\n");
  }

  function TwoLines(s: Screen, color: byte, message: string, name: seq<byte>, hint: string): (t: Screen)
    requires ScreenOk(s)
    ensures ScreenOk(t)
  {
    PutAll(PutAll(s.(color := color), Ascii(message) + name + [10]).(color := 15), Ascii(hint))
  }

  lemma NamedThenHint(s: Screen, color: byte, message: string, name: seq<byte>, hint: string)
    requires ScreenOk(s)
    ensures RunScreen(s, Named(color, message, name) + Puts(Ascii(hint))) == TwoLines(s, color, message, name, hint)
  {
    var line := Ascii(message) + name + [10];
    NamedRuns(s, color, message, name, line);
    RunScreenAppend(s, Named(color, message, name), Puts(Ascii(hint)));
    RunPuts(PutAll(s.(color := color), line).(color := 15), Ascii(hint));
  }

  /** The words whose output is not modelled, and an empty line, change no file and
      nothing on the disk. */
  lemma TypedOther(status: nat -> byte, sh: Shell, xs: seq<Input>, x: Input, cmd: seq<byte>)
    requires Enters(sh, xs, x, cmd) && (OtherWord(cmd) || cmd == [])
    ensures var t := After(status, sh, xs + [x]); t.files == sh.files && t.line == [] && !t.stopped
  {
    EnterIsStroke(sh, xs, x, cmd);
    var io := IoOf(status, sh, x);
    if cmd == [] {
      EmptyLine(sh.files, io);
      TypedRuns(status, sh, xs, x, cmd, sh.files, Nothing);
    } else {
      OtherWords(sh.files, cmd, io);
      TypedRuns(status, sh, xs, x, cmd, sh.files, Other);
    }
  }
}
