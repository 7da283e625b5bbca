// shell_run as a machine over the characters of the keyboard, with power cycles in
// between: what one session after the other does to files, command line and screen.
module ShellRuns {
  import opened CLib
  import opened Ata
  import opened FsLayout
  import opened FsSpec
  import opened FsRuns
  import opened FsDevice
  import opened TerminalSpec
  import opened LineEditor
  import opened ShellSpec

  type Shown = s: Screen | ScreenOk(s) witness ClearedScreen(INITIAL_COLOR)

  /** The file system, the polls made on its channel, the command buffer, the screen,
      and whether a division fault has stopped the kernel. */
  datatype Shell = Shell(files: Fs, polls: nat, line: seq<byte>, screen: Shown, stopped: bool)

  /** What the environment adds to a command: the bytes behind the header, the notes
      of the file system, and the polls a `disks` command makes. */
  datatype Env = Env(tail: Tail, notes: seq<TermOp>, probes: nat)

  /** A character. Or a power cycle, after which the channel has made some number of
      polls and the screen shows anything. The reset that a division fault usually
      causes, as the kernel has no interrupt table, is that input too. */
  datatype Input =
    | Stroke(c: byte, env: Env)
    | PowerCycle(polls: nat, readme: seq<byte>, tail: Tail, tail2: Tail, screen: Shown)

  /** Where the polling stands after a command. */
  ghost function CommandEnds(status: nat -> byte, p: nat, selected: bool, v: Verb, reply: Reply, probes: nat): nat {
    if v.VerbDisks? then p + probes else SaveEnd(status, p, selected && Saves(v, reply))
  }

  ghost function Enter(status: nat -> byte, sh: Shell, env: Env): Shell {
    var (files, reply) := Execute(sh.files, sh.line, SaveIo(status, sh.polls, env.tail));
    var polls := CommandEnds(status, sh.polls, sh.files.selected, VerbOf(sh.line), reply, env.probes);
    var screen := RunScreen(PutScreen(sh.screen, NEWLINE), Says(reply, env.notes));
    if reply.DivisionFaults? then Shell(files, polls, sh.line, screen, true)
    else Shell(files, polls, [], RunScreen(screen, Prompt()), false)
  }

  ghost function ShellStep(status: nat -> byte, sh: Shell, x: Input): Shell {
    match x
    case Stroke(c, env) =>
      if sh.stopped then sh
      else if c == NEWLINE then Enter(status, sh, env)
      else sh.(line := EditLine(sh.line, c), screen := PutAll(sh.screen, Echo(sh.line, c)))
    case PowerCycle(p, readme, tail, tail2, screen) =>
      Shell(DeviceBoot(status, p, sh.files.disk, true, readme, tail, tail2),
            DeviceBootEnd(status, p, sh.files.disk, true, readme, tail), [], screen, false)
  }

  ghost function After(status: nat -> byte, sh: Shell, xs: seq<Input>): Shell {
    if xs == [] then sh else ShellStep(status, After(status, sh, xs[..|xs| - 1]), xs[|xs| - 1])
  }

  lemma AfterOneMore(status: nat -> byte, sh: Shell, xs: seq<Input>, x: Input)
    ensures After(status, sh, xs + [x]) == ShellStep(status, After(status, sh, xs), x)
  {
    assert (xs + [x])[..|xs|] == xs;
  }

  lemma {:induction false} AfterAppend(status: nat -> byte, sh: Shell, a: seq<Input>, b: seq<Input>)
    ensures After(status, sh, a + b) == After(status, After(status, sh, a), b)
  {
    if b == [] {
      assert a + b == a;
    } else {
      var n := |b| - 1;
      assert (a + b)[..|a + b| - 1] == a + b[..n];
      AfterAppend(status, sh, a, b[..n]);
    }
  }

  /** A division fault is the end until the next power cycle. */
  lemma {:induction false} StaysStopped(status: nat -> byte, sh: Shell, xs: seq<Input>)
    requires sh.stopped && forall x :: x in xs ==> x.Stroke?
    ensures After(status, sh, xs) == sh
  {
    if xs != [] {
      assert xs[|xs| - 1] in xs;
      StaysStopped(status, sh, xs[..|xs| - 1]);
    }
  }

  // ---- The files of a session ----

  /** The commands entered and the restarts, as the file system sees them. */
  ghost function EventOf(status: nat -> byte, sh: Shell, x: Input): seq<ShellSpec.Event> {
    match x
    case Stroke(c, env) =>
      if c == NEWLINE && !sh.stopped then [Command(sh.line, SaveIo(status, sh.polls, env.tail))] else []
    case PowerCycle(p, readme, tail, tail2, _) =>
      [Restart(LoadReads(status, p), FormatIo(status, p, tail), readme,
               SaveIo(status, LoadEnd(status, p, true, sh.files.disk), tail2))]
  }

  ghost function EventsOf(status: nat -> byte, sh: Shell, xs: seq<Input>): seq<ShellSpec.Event> {
    if xs == [] then [] else
    var front := xs[..|xs| - 1];
    EventsOf(status, sh, front) + EventOf(status, After(status, sh, front), xs[|xs| - 1])
  }

  lemma {:induction false} SessionAppend(s: Fs, a: seq<ShellSpec.Event>, b: seq<ShellSpec.Event>)
    ensures Session(s, a + b) == Session(Session(s, a), b)
    ensures SafeRestarts(s, a + b) <==> SafeRestarts(s, a) && SafeRestarts(Session(s, a), b)
    decreases |a|
  {
    if a == [] {
      assert a + b == b;
    } else {
      assert (a + b)[1..] == a[1..] + b;
      SessionAppend(SessionStep(s, a[0]), a[1..], b);
    }
  }

  lemma OneEvent(s: Fs, ev: ShellSpec.Event)
    ensures Session(s, [ev]) == SessionStep(s, ev)
    ensures SafeRestarts(s, [ev]) <==> (ev.Restart? ==> Synced(s) && AllRead(ev.loads))
  {
    assert [ev][1..] == [];
  }

  /** The files after a run of the shell are those after its commands and restarts. */
  lemma {:induction false} FilesAreSession(status: nat -> byte, sh: Shell, xs: seq<Input>)
    ensures After(status, sh, xs).files == Session(sh.files, EventsOf(status, sh, xs))
  {
    if xs != [] {
      var front, x := xs[..|xs| - 1], xs[|xs| - 1];
      var t := After(status, sh, front);
      FilesAreSession(status, sh, front);
      SessionAppend(sh.files, EventsOf(status, sh, front), EventOf(status, t, x));
      if EventOf(status, t, x) != [] { OneEvent(t.files, EventOf(status, t, x)[0]); }
    }
  }

  /** What the environment provides at a power cycle. */
  ghost predicate InputOk(x: Input) {
    x.PowerCycle? ==> NulFree(x.readme) && |x.readme| <= MAX_FILE_SIZE
  }

  lemma LineStaysCString(status: nat -> byte, t: Shell, x: Input)
    requires NulFree(t.line)
    ensures NulFree(ShellStep(status, t, x).line)
  {}

  lemma EventIsCString(status: nat -> byte, t: Shell, x: Input)
    requires NulFree(t.line) && InputOk(x)
    ensures forall ev :: ev in EventOf(status, t, x) ==> CString(ev)
  {}

  /** The command buffer never holds a NUL, so every event is about C strings. */
  lemma {:induction false} EventsAreCStrings(status: nat -> byte, sh: Shell, xs: seq<Input>)
    requires NulFree(sh.line) && forall x :: x in xs ==> InputOk(x)
    ensures NulFree(After(status, sh, xs).line)
    ensures forall ev :: ev in EventsOf(status, sh, xs) ==> CString(ev)
  {
    if xs != [] {
      var front, x := xs[..|xs| - 1], xs[|xs| - 1];
      EventsAreCStrings(status, sh, front);
      assert x in xs;
      var t := After(status, sh, front);
      LineStaysCString(status, t, x);
      EventIsCString(status, t, x);
    }
  }

  // ---- A responsive device ----

  lemma ExecuteKeepsPersistent(s: Fs, cmd: seq<byte>, io: Io)
    requires s.persistent && s.selected && Complete(io)
    ensures Execute(s, cmd, io).0.persistent && Execute(s, cmd, io).0.selected
  {}

  /** When the device lets every command through, fs_persistent stays set and right,
      so every power cycle is safe. */
  lemma {:induction false} ResponsiveIsSafe(status: nat -> byte, sh: Shell, xs: seq<Input>)
    requires Responsive(status) && sh.files.persistent && PersistentIsSound(sh.files)
    ensures SafeRestarts(sh.files, EventsOf(status, sh, xs))
    ensures After(status, sh, xs).files.persistent && PersistentIsSound(After(status, sh, xs).files)
  {
    if xs != [] {
      var front, x := xs[..|xs| - 1], xs[|xs| - 1];
      var t := After(status, sh, front);
      ResponsiveIsSafe(status, sh, front);
      FilesAreSession(status, sh, front);
      SessionAppend(sh.files, EventsOf(status, sh, front), EventOf(status, t, x));
      if x.PowerCycle? {
        OneEvent(t.files, EventOf(status, t, x)[0]);
        ResponsiveCycle(status, t, x);
      } else if x.c == NEWLINE && !t.stopped {
        OneEvent(t.files, EventOf(status, t, x)[0]);
        ResponsiveCommand(status, t, x.env.tail);
      }
    }
  }

  lemma ResponsiveCommand(status: nat -> byte, t: Shell, tail: Tail)
    requires Responsive(status) && t.files.persistent && PersistentIsSound(t.files)
    ensures var f := Execute(t.files, t.line, SaveIo(status, t.polls, tail)).0;
      f.persistent && PersistentIsSound(f)
  {
    ResponsiveNeverFails(status, t.polls, tail);
    ExecuteKeepsPersistent(t.files, t.line, SaveIo(status, t.polls, tail));
    CommandIsSound(t.files, t.line, SaveIo(status, t.polls, tail));
  }

  lemma ResponsiveCycle(status: nat -> byte, t: Shell, x: Input)
    requires Responsive(status) && t.files.persistent && PersistentIsSound(t.files) && x.PowerCycle?
    ensures AllRead(LoadReads(status, x.polls))
    ensures var f := DeviceBoot(status, x.polls, t.files.disk, true, x.readme, x.tail, x.tail2);
      f.persistent && PersistentIsSound(f)
  {
    var q := LoadEnd(status, x.polls, true, t.files.disk);
    ResponsiveNeverFails(status, x.polls, x.tail);
    ResponsiveNeverFails(status, q, x.tail2);
    var op := Reboot(true, LoadReads(status, x.polls), FormatIo(status, x.polls, x.tail), x.readme,
                     SaveIo(status, q, x.tail2));
    SmoothStep(t.files, op);
    StepIsSound(t.files, op);
  }

  // ---- Typed commands ----

  predicate TypedAs(xs: seq<Input>, text: seq<byte>) {
    |xs| == |text| && forall i :: 0 <= i < |xs| ==> xs[i].Stroke? && xs[i].c == text[i]
  }

  /** Plain characters that fit the command buffer. */
  lemma {:induction false} TypedPlain(status: nat -> byte, sh: Shell, xs: seq<Input>, text: seq<byte>)
    requires TypedAs(xs, text) && sh.line == [] && !sh.stopped && |text| <= MAX_LINE
    requires forall i :: 0 <= i < |text| ==> Plain(text[i])
    ensures After(status, sh, xs) == sh.(line := text, screen := PutAll(sh.screen, text))
  {
    if xs != [] {
      var n := |xs| - 1;
      TypedPlain(status, sh, xs[..n], text[..n]);
      StrokePlain(status, After(status, sh, xs[..n]), xs[n]);
      assert text[..n] + [text[n]] == text;
    }
  }

  lemma StrokePlain(status: nat -> byte, t: Shell, x: Input)
    requires x.Stroke? && Plain(x.c) && |t.line| < MAX_LINE && !t.stopped
    ensures ShellStep(status, t, x) == t.(line := t.line + [x.c], screen := PutScreen(t.screen, x.c))
  {
    EchoPlain(t.screen, t.line, x.c);
  }

  lemma EchoPlain(s: Screen, line: seq<byte>, c: byte)
    requires ScreenOk(s) && Plain(c) && |line| < MAX_LINE
    ensures EditLine(line, c) == line + [c] && PutAll(s, Echo(line, c)) == PutScreen(s, c)
  {
    assert [c][..0] == [];
  }

  /** A command and Enter. */
  lemma TypedCommand(status: nat -> byte, sh: Shell, xs: seq<Input>, cmd: seq<byte>, x: Input)
    requires TypedAs(xs + [x], cmd + [NEWLINE]) && sh.line == [] && !sh.stopped
    requires |cmd| <= MAX_LINE && forall i :: 0 <= i < |cmd| ==> Plain(cmd[i])
    ensures After(status, sh, xs + [x]) ==
      Enter(status, sh.(line := cmd, screen := PutAll(sh.screen, cmd)), x.env)
  {
    TypedThenEnter(xs, cmd, x);
    TypedPlain(status, sh, xs, cmd);
    AfterOneMore(status, sh, xs, x);
  }

  lemma TypedThenEnter(xs: seq<Input>, cmd: seq<byte>, x: Input)
    requires TypedAs(xs + [x], cmd + [NEWLINE])
    ensures TypedAs(xs, cmd) && x.Stroke? && x.c == NEWLINE
  {
    assert |xs| == |cmd|;
    assert forall i :: 0 <= i < |xs| ==> (xs + [x])[i] == xs[i] && (cmd + [NEWLINE])[i] == cmd[i];
    assert (xs + [x])[|xs|] == x && (cmd + [NEWLINE])[|cmd|] == NEWLINE;
  }

  /** No command is `rm name`. */
  ghost predicate NeverRemoves(evs: seq<ShellSpec.Event>, name: seq<byte>) {
    forall ev :: ev in evs && ev.Command? ==> ev.cmd != RM + name
  }

  function WriteLine(name: seq<byte>, content: seq<byte>): seq<byte> {
    WRITE + name + [BLANK] + content
  }

  function CatLine(name: seq<byte>): seq<byte> { CAT + name }

  function WithEnter(line: seq<byte>): seq<byte> { line + [NEWLINE] }

  /** The screen after `cat name` was typed and has printed exactly `content`, a
      newline and the prompt. */
  function ShowsContent(s: Shown, name: seq<byte>, content: seq<byte>): Shown {
    var typed, text := PutAll(s, WithEnter(CatLine(name))), content + [10];
    RunScreen(PutAll(typed, text), Prompt())
  }

  /** Main result, end to end on files and screen: after `write name content` was
      typed where there was room for that file, through anything typed and any safe
      power cycles that do not enter `rm name`, typing `cat name` on an empty line
      puts exactly that line, the content, a newline and the prompt on the screen. */
  lemma WriteThenCat(status: nat -> byte, sh: Shell, w: seq<Input>, we: Input, sh1: Shell, xs: seq<Input>, sh2: Shell,
                     c: seq<Input>, ce: Input, name: seq<byte>, content: seq<byte>)
    requires Running(sh.files) && sh.line == [] && !sh.stopped && CreateCode(sh.files, name, content) == 0
    requires 0 < |name| < MAX_FILENAME && forall i :: 0 <= i < |name| ==> Plain(name[i]) && name[i] != BLANK
    requires content != [] && content[0] != BLANK && forall i :: 0 <= i < |content| ==> Plain(content[i])
    requires 7 + |name| + |content| <= MAX_LINE
    requires TypedAs(w + [we], WithEnter(WriteLine(name, content))) && sh1 == After(status, sh, w + [we])
    requires sh2 == After(status, sh1, xs) && sh2.line == [] && !sh2.stopped && forall x :: x in xs ==> InputOk(x)
    requires SafeRestarts(sh1.files, EventsOf(status, sh1, xs))
    requires NeverRemoves(EventsOf(status, sh1, xs), name)
    requires TypedAs(c + [ce], WithEnter(CatLine(name)))
    ensures After(status, sh2, c + [ce]).screen == ShowsContent(sh2.screen, name, content)
  {
    CatLineIsPlain(name);
    Written(status, sh, w, we, sh1, name, content);
    StillThere(status, sh1, xs, name, content);
    CatShown(status, sh2, c, ce, name, content);
  }

  lemma Written(status: nat -> byte, sh: Shell, w: seq<Input>, we: Input, sh1: Shell, name: seq<byte>, content: seq<byte>)
    requires Running(sh.files) && sh.line == [] && !sh.stopped && CreateCode(sh.files, name, content) == 0
    requires 0 < |name| < MAX_FILENAME && forall i :: 0 <= i < |name| ==> Plain(name[i]) && name[i] != BLANK
    requires content != [] && content[0] != BLANK && forall i :: 0 <= i < |content| ==> Plain(content[i])
    requires 7 + |name| + |content| <= MAX_LINE
    requires TypedAs(w + [we], WithEnter(WriteLine(name, content))) && sh1 == After(status, sh, w + [we])
    ensures Keeps(sh1.files, name, content) && sh1.line == [] && !sh1.stopped
  {
    var cmd, io := WriteLine(name, content), SaveIo(status, sh.polls, we.env.tail);
    WriteLineIsPlain(name, content, cmd);
    TypedCommand(status, sh, w, cmd, we);
    WriteAdds(sh.files, name, content, io);
  }

  /** Through anything typed that is not `rm name`, and safe power cycles. */
  lemma StillThere(status: nat -> byte, sh: Shell, xs: seq<Input>, name: seq<byte>, content: seq<byte>)
    requires Keeps(sh.files, name, content) && sh.line == [] && forall x :: x in xs ==> InputOk(x)
    requires SafeRestarts(sh.files, EventsOf(status, sh, xs)) && NeverRemoves(EventsOf(status, sh, xs), name)
    ensures Keeps(After(status, sh, xs).files, name, content)
  {
    EventsAreCStrings(status, sh, xs);
    FilesAreSession(status, sh, xs);
    SessionKeeps(sh.files, EventsOf(status, sh, xs), name, content);
  }

  lemma CatShown(status: nat -> byte, sh: Shell, c: seq<Input>, ce: Input, name: seq<byte>, content: seq<byte>)
    requires Keeps(sh.files, name, content) && sh.line == [] && !sh.stopped
    requires |CatLine(name)| <= MAX_LINE && forall i :: 0 <= i < |CatLine(name)| ==> Plain(CatLine(name)[i])
    requires TypedAs(c + [ce], WithEnter(CatLine(name)))
    ensures After(status, sh, c + [ce]).screen == ShowsContent(sh.screen, name, content)
  {
    var cmd, text := CatLine(name), content + [10];
    TypedCommand(status, sh, c, cmd, ce);
    CatPrints(sh.files, name, content);
    CatIsCat(cmd, name);
    assert WithEnter(cmd)[..|cmd|] == cmd;
    RunScreenAppend(PutAll(sh.screen, WithEnter(cmd)), Puts(text), Prompt());
    RunPuts(PutAll(sh.screen, WithEnter(cmd)), text);
  }

  lemma WriteLineIsPlain(name: seq<byte>, content: seq<byte>, w: seq<byte>)
    requires forall i :: 0 <= i < |name| ==> Plain(name[i])
    requires forall i :: 0 <= i < |content| ==> Plain(content[i])
    requires w == WRITE + name + [BLANK] + content
    ensures forall i :: 0 <= i < |w| ==> Plain(w[i])
  {
    PlainConcat(WRITE, name);
    PlainConcat(WRITE + name, [BLANK]);
    PlainConcat(WRITE + name + [BLANK], content);
  }

  lemma CatLineIsPlain(name: seq<byte>)
    requires forall i :: 0 <= i < |name| ==> Plain(name[i])
    ensures forall i :: 0 <= i < |CatLine(name)| ==> Plain(CatLine(name)[i])
  {
    PlainConcat(CAT, name);
  }

  lemma PlainConcat(a: seq<byte>, b: seq<byte>)
    requires forall i :: 0 <= i < |a| ==> Plain(a[i])
    requires forall i :: 0 <= i < |b| ==> Plain(b[i])
    ensures forall i :: 0 <= i < |a + b| ==> Plain((a + b)[i])
  {}

  // ---- The line at the prompt ----

  /** Until Enter, the shell's line and screen are those of the line editor. */
  lemma {:induction false} TypingAtPrompt(status: nat -> byte, sh: Shell, start: int, xs: seq<Input>, keys: seq<byte>)
    requires TypedAs(xs, keys) && NoEnter(keys) && !sh.stopped
    ensures var t := TypeKeys(Typing(sh.line, sh.screen, start), keys);
      After(status, sh, xs) == sh.(line := t.line, screen := t.screen)
  {
    if xs != [] {
      var n := |xs| - 1;
      TypingAtPrompt(status, sh, start, xs[..n], keys[..n]);
    }
  }
}
