// kernel/shell.c: the command line, its parsers and commands, and the boot order
// of kernel/kernel.c, on the file system, terminal and keyboard.
module ShellCode {
  import opened CLib
  import opened Ata
  import opened FsLayout
  import opened FsSpec
  import opened FsRuns
  import opened FsDevice
  import opened FileSystemCode
  import opened TerminalSpec
  import opened TerminalCode
  import opened Numbers
  import opened LineEditor
  import opened ShellSpec
  import opened ShellRuns
  import opened KeyboardCode

  // ---- Scanning C strings ----

  lemma CharAt(mem: seq<byte>, i: nat)
    requires Terminated(mem) && i <= |CStr(mem)|
    ensures i < |mem|
    ensures i < |CStr(mem)| ==> mem[i] == CStr(mem)[i] != 0
    ensures i == |CStr(mem)| ==> mem[i] == 0
  {}

  /** Moves the pointer past the spaces. */
  method SkipSpaces(mem: seq<byte>, p: nat) returns (q: nat)
    requires Terminated(mem) && p <= |CStr(mem)|
    ensures q == Span(CStr(mem), p, Spaces)
  {
    q := p;
    CharAt(mem, q);
    while mem[q] == BLANK
      invariant p <= q <= |CStr(mem)| && q < |mem| && mem[q] == (if q < |CStr(mem)| then CStr(mem)[q] else 0)
      invariant forall n :: p <= n < q ==> CStr(mem)[n] == BLANK
      decreases |mem| - q
    {
      q := q + 1;
      CharAt(mem, q);
    }
    SpanIs(CStr(mem), p, Spaces, q);
  }

  lemma OneMoreDigit(s: seq<byte>, p: nat, q: nat)
    requires p <= q < |s|
    ensures Accumulated(s[p..q + 1]) == Wrap(Accumulated(s[p..q]) * 10 + (s[q] as int - 48))
  {
    var t := s[p..q + 1];
    assert t[..|t| - 1] == s[p..q];
    assert t[|t| - 1] == s[q];
  }

  /** Moves the pointer past the digits, accumulating their number in an int. */
  method ReadNumber(mem: seq<byte>, p: nat) returns (num: int, q: nat)
    requires Terminated(mem) && p <= |CStr(mem)|
    ensures q == Span(CStr(mem), p, Numerals) && num == Accumulated(CStr(mem)[p..q])
  {
    q, num := p, 0;
    CharAt(mem, q);
    while 48 <= mem[q] <= 57
      invariant p <= q <= |CStr(mem)| && q < |mem| && mem[q] == (if q < |CStr(mem)| then CStr(mem)[q] else 0)
      invariant forall n :: p <= n < q ==> IsDigit(CStr(mem)[n])
      invariant num == Accumulated(CStr(mem)[p..q])
      decreases |mem| - q
    {
      ghost var s := CStr(mem);
      OneMoreDigit(s, p, q);
      num := Wrap(num * 10 + (mem[q] as int - 48));
      q := q + 1;
      CharAt(mem, q);
    }
    SpanIs(CStr(mem), p, Numerals, q);
  }

  method StartsWithAt(str: seq<byte>, prefix: seq<byte>) returns (r: bool)
    requires Terminated(str) && NulFree(prefix)
    ensures r == StartsWith(CStr(str), prefix)
  {
    var i := 0;
    while i < |prefix|
      invariant i <= |prefix| && i <= |CStr(str)| && CStr(str)[..i] == prefix[..i]
    {
      CharAt(str, i);
      if str[i] != prefix[i] {
        if i < |CStr(str)| && |prefix| <= |CStr(str)| {
          assert CStr(str)[..|prefix|][i] == str[i];
        }
        return false;
      }
      i := i + 1;
    }
    assert prefix[..i] == prefix;
    return true;
  }

  /** A pointer into a string: the string that starts there. */
  lemma CStrFrom(mem: seq<byte>, k: nat)
    requires Terminated(mem) && k <= |CStr(mem)|
    ensures Terminated(mem[k..]) && CStr(mem[k..]) == CStr(mem)[k..]
  {
    var t := CStr(mem)[k..];
    assert mem[k..][..|t|] == t;
    CStrOfTerminated(mem[k..], t);
  }

  // ---- Messages ----

  /** A message in the current colour. */
  method SayText(term: Terminal, reply: Reply, ghost notes: seq<TermOp>)
    requires term.Valid()
    requires reply.CalcUsage? || reply.DivisionByZero? || reply.NoName? || reply.NoContent?
    modifies term, term.buffer
    ensures term.Valid() && term.View() == RunScreen(old(term.View()), Says(reply, notes))
  {
    var text := Ascii(Hint(reply));
    RunPuts(term.View(), text);
    term.WriteString(text);
  }

  lemma RunColored(s: Screen, color: byte, message: string)
    requires ScreenOk(s)
    ensures RunScreen(s, Colored(color, message)) == PutAll(s.(color := color), Ascii(message))
  {
    RunScreenAppend(s, [SetColor(color)], Puts(Ascii(message)));
    RunOne(s, SetColor(color));
    RunPuts(s.(color := color), Ascii(message));
  }

  /** A message with a name in it, in a colour, then back to white. */
  method SayNamed(term: Terminal, color: byte, message: string, name: seq<byte>)
    requires term.Valid()
    modifies term, term.buffer
    ensures term.Valid() && term.View() == RunScreen(old(term.View()), Named(color, message, name))
  {
    ghost var s := term.View();
    ghost var a, b := Colored(color, message), Puts(name);
    RunColored(s, color, message);
    term.SetColor(color);
    term.WriteString(Ascii(message));
    RunScreenAppend(s, a, b);
    RunPuts(term.View(), name);
    term.WriteString(name);
    RunScreenAppend(s, a + b, Puts([10]));
    RunPuts(term.View(), [10]);
    term.WriteString([10]);
    RunScreenAppend(s, a + b + Puts([10]), [SetColor(WHITE)]);
    RunOne(term.View(), SetColor(WHITE));
    term.SetColor(WHITE);
  }

  method SayRed(term: Terminal, message: string)
    requires term.Valid()
    modifies term, term.buffer
    ensures term.Valid() && term.View() == RunScreen(old(term.View()), InRed(message))
  {
    ghost var s := term.View();
    RunColored(s, LIGHT_RED, message);
    term.SetColor(LIGHT_RED);
    term.WriteString(Ascii(message));
    RunScreenAppend(s, Colored(LIGHT_RED, message), [SetColor(WHITE)]);
    RunOne(term.View(), SetColor(WHITE));
    term.SetColor(WHITE);
  }

  // ---- calc ----

  method ReadOperand(mem: seq<byte>, p: nat) returns (num: int, q: nat)
    requires Terminated(mem) && p <= |CStr(mem)|
    ensures (num, q) == Operand(CStr(mem), p)
  {
    var a := SkipSpaces(mem, p);
    num, q := ReadNumber(mem, a);
  }

  method ReadExpr(mem: seq<byte>) returns (e: Expr)
    requires Terminated(mem)
    ensures e == ParseCalc(CStr(mem))
  {
    var num1, num2, b, q;
    num1, b := ReadOperand(mem, 0);
    var c := SkipSpaces(mem, b);
    CharAt(mem, c);
    var op := mem[c];
    if op == 0 {
      return Expr(num1, 0, 0);  // whatever lies past the end, no operator was given
    }
    num2, q := ReadOperand(mem, c + 1);
    e := Expr(num1, op, num2);
  }

  method CmdCalc(term: Terminal, mem: seq<byte>, ghost notes: seq<TermOp>) returns (reply: Reply)
    requires term.Valid() && Terminated(mem)
    modifies term, term.buffer
    ensures term.Valid() && reply == Calc(CStr(mem))
    ensures term.View() == RunScreen(old(term.View()), Says(reply, notes))
  {
    var e := ReadExpr(mem);
    reply := Compute(term, e, notes);
  }

  /** The result of an operator there is, in an int. */
  method Calculate(e: Expr) returns (result: int)
    requires IsInt(e.num1) && IsInt(e.num2) && IsOperator(e.op) && (e.op == SLASH ==> e.num2 != 0)
    ensures IsInt(result) && result == Wrap(Operate(e.num1, e.op, e.num2))
  {
    if e.op == PLUS {
      result := Wrap(e.num1 + e.num2);
    } else if e.op == DASH {
      result := Wrap(e.num1 - e.num2);
    } else if e.op == STAR {
      result := Wrap(e.num1 * e.num2);
    } else {
      result := Wrap(Truncated(e.num1, e.num2));
    }
  }

  /** The switch over the operator. */
  method Compute(term: Terminal, e: Expr, ghost notes: seq<TermOp>) returns (reply: Reply)
    requires term.Valid() && IsInt(e.num1) && IsInt(e.num2)
    modifies term, term.buffer
    ensures term.Valid() && reply == Evaluate(e)
    ensures term.View() == RunScreen(old(term.View()), Says(reply, notes))
  {
    if !IsOperator(e.op) {
      SayText(term, CalcUsage, notes);
      return CalcUsage;
    }
    if e.op == SLASH && e.num2 == 0 {
      SayText(term, DivisionByZero, notes);
      return DivisionByZero;
    }
    if Overflows(e) {
      return DivisionFaults;
    }
    var result := Calculate(e);
    reply := SayResult(term, e, result, notes);
  }

  method SayResult(term: Terminal, e: Expr, result: int, ghost notes: seq<TermOp>) returns (reply: Reply)
    requires term.Valid() && IsInt(e.num1) && IsInt(e.num2) && IsInt(result)
    modifies term, term.buffer
    ensures term.Valid() && reply == Printed(CalcText(e.num1, e.op, e.num2, result))
    ensures term.View() == RunScreen(old(term.View()), Says(reply, notes))
  {
    RunPuts(term.View(), CalcText(e.num1, e.op, e.num2, result));
    PrintCalc(term, e.num1, e.op, e.num2, result);
    reply := Printed(CalcText(e.num1, e.op, e.num2, result));
  }

  /** The line terminal_printf prints: operand, operator, operand, result. */
  method PrintCalc(term: Terminal, a: int, op: byte, b: int, r: int)
    requires term.Valid() && IsInt(a) && IsInt(b) && IsInt(r)
    modifies term`row, term`column, term`index, term`crtc, term.buffer
    ensures term.Valid() && term.View() == PutAll(old(term.View()), CalcText(a, op, b, r))
  {
    ghost var s := term.View();
    term.PrintDecimal(a);
    term.WriteString([BLANK, op, BLANK]);
    PutAllAppend(s, DecText(a), [BLANK, op, BLANK]);
    ghost var t := DecText(a) + [BLANK, op, BLANK];
    term.PrintDecimal(b);
    PutAllAppend(s, t, DecText(b));
    t := t + DecText(b);
    term.WriteString([BLANK, 61, BLANK]);
    PutAllAppend(s, t, [BLANK, 61, BLANK]);
    t := t + [BLANK, 61, BLANK];
    term.PrintDecimal(r);
    PutAllAppend(s, t, DecText(r));
    t := t + DecText(r);
    term.WriteString([10]);
    PutAllAppend(s, t, [10]);
  }

  // ---- cat, write, rm ----

  lemma CStrOfSplice(s: seq<byte>, t: seq<byte>)
    requires Terminated(t) && |t| <= |s|
    ensures Terminated(Splice(s, 0, t)) && CStr(Splice(s, 0, t)) == CStr(t)
  {
    assert Splice(s, 0, t)[..|CStr(t)|] == CStr(t);
    CStrOfTerminated(Splice(s, 0, t), CStr(t));
  }

  lemma EndsTerminated(s: seq<byte>)
    ensures Terminated(s + [0])
  {
    assert (s + [0])[|s|] == 0;
  }

  method CmdCat(fs: FileSystem, term: Terminal, mem: seq<byte>, ghost notes: seq<TermOp>) returns (reply: Reply)
    requires fs.Valid() && EntriesOk(fs.header[..]) && term.Valid() && Terminated(mem)
    modifies term, term.buffer
    ensures term.Valid() && reply == old(Cat(fs.State(), CStr(mem)))
    ensures term.View() == RunScreen(old(term.View()), Says(reply, notes))
  {
    var buffer := new byte[MAX_FILE_SIZE + 1];
    var found, text := ReadText(fs, mem, buffer);
    if found {
      reply := SayLine(term, text, notes);
    } else {
      reply := SayNotFound(term, mem, notes);
    }
  }

  /** A text and a newline. */
  method SayLine(term: Terminal, text: seq<byte>, ghost notes: seq<TermOp>) returns (reply: Reply)
    requires term.Valid()
    modifies term, term.buffer
    ensures term.Valid() && reply == Printed(text + [10])
    ensures term.View() == RunScreen(old(term.View()), Says(reply, notes))
  {
    ghost var view := term.View();
    term.WriteString(text);
    term.WriteString([10]);
    PutAllAppend(view, text, [10]);
    RunPuts(view, text + [10]);
    reply := Printed(text + [10]);
  }

  method SayNotFound(term: Terminal, mem: seq<byte>, ghost notes: seq<TermOp>) returns (reply: Reply)
    requires term.Valid() && Terminated(mem)
    modifies term, term.buffer
    ensures term.Valid() && reply == NotFound(CStr(mem))
    ensures term.View() == RunScreen(old(term.View()), Says(reply, notes))
  {
    var len := StrLen(mem);
    var name := mem[..len];
    assert name == CStr(mem);
    SayNamed(term, LIGHT_RED, "File not found: ", name);
    reply := NotFound(name);
  }

  /** The text of a file, through the buffer on the stack. */
  method ReadText(fs: FileSystem, mem: seq<byte>, buffer: array<byte>) returns (found: bool, text: seq<byte>)
    requires fs.Valid() && EntriesOk(fs.header[..]) && Terminated(mem)
    requires buffer.Length == MAX_FILE_SIZE + 1 && buffer != fs.header && buffer != fs.data
    modifies buffer
    ensures Cat(fs.State(), CStr(mem)) == if found then Printed(text + [10]) else NotFound(CStr(mem))
  {
    ghost var s := fs.State();
    ghost var before := buffer[..];
    var result := fs.ReadFile(mem, buffer, MAX_FILE_SIZE + 1);
    if result < 0 {
      return false, [];
    }

    ghost var bytes := ReadBytes(s, CStr(mem), MAX_FILE_SIZE + 1);
    EndsTerminated(bytes[..|bytes| - 1]);
    assert bytes == bytes[..|bytes| - 1] + [0];
    ReadFits(s, CStr(mem));
    CStrOfSplice(before, bytes);
    var len := StrLen(buffer[..]);
    text := buffer[..len];
    assert text == CStr(bytes);
    found := true;
  }

  lemma ReadFits(s: Fs, name: seq<byte>)
    requires EntriesOk(s.header) && ReadCode(s, name, MAX_FILE_SIZE + 1) >= 0
    ensures |ReadBytes(s, name, MAX_FILE_SIZE + 1)| <= MAX_FILE_SIZE + 1
  {}

  /** The end of the name that starts at `start`. */
  method TakeName(mem: seq<byte>, start: nat) returns (p: nat)
    requires Terminated(mem) && start <= |CStr(mem)|
    ensures p == Min(Span(CStr(mem), start, NonSpaces), start + MAX_FILENAME - 1)
  {
    ghost var s := CStr(mem);
    p := start;
    CharAt(mem, p);
    while mem[p] != 0 && mem[p] != BLANK && p - start < MAX_FILENAME - 1
      invariant start <= p <= |s| && p < |mem| && mem[p] == (if p < |s| then s[p] else 0)
      invariant p - start <= MAX_FILENAME - 1
      invariant forall n :: start <= n < p ==> s[n] != BLANK
      decreases |mem| - p
    {
      p := p + 1;
      CharAt(mem, p);
    }
    NameEnds(s, start, p);
  }

  /** `notes`: what fs_save_to_disk prints, if it is called. */
  method CmdWrite(fs: FileSystem, term: Terminal, mem: seq<byte>, tail: Tail, notes: seq<TermOp>) returns (reply: Reply)
    requires fs.Valid() && term.Valid() && Terminated(mem)
    requires term.buffer as object != fs.header && term.buffer as object != fs.data
    modifies fs`persistent, fs.header, fs.data, fs.ch, term, term.buffer
    ensures fs.Valid() && term.Valid()
    ensures (fs.State(), reply) == Write(old(fs.State()), CStr(mem), SaveIo(fs.ch.status, old(fs.ch.polls), tail))
    ensures fs.ch.polls == SaveEnd(fs.ch.status, old(fs.ch.polls), fs.selected && reply.Created?)
    ensures term.View() == RunScreen(old(term.View()), Says(reply, notes))
  {
    reply := WriteFile(fs, mem, tail);
    SayWritten(term, reply, notes);
  }

  method SayWritten(term: Terminal, reply: Reply, notes: seq<TermOp>)
    requires term.Valid()
    requires reply.Created? || reply.Exists? || reply.Full? || reply.Failed? || reply.NoName? || reply.NoContent?
    modifies term, term.buffer
    ensures term.Valid() && term.View() == RunScreen(old(term.View()), Says(reply, notes))
  {
    match reply {
      case Created(name) => SayDone(term, "File created: ", name, notes);
      case Exists(name) => SayNamed(term, LIGHT_RED, "Error: File already exists: ", name);
      case Full => SayRed(term, "Error: Filesystem full\n");
      case Failed => SayRed(term, "Error: Could not create file\n");
      case NoName => SayText(term, NoName, notes);
      case NoContent => SayText(term, NoContent, notes);
    }
  }

  /** What the save printed, then a message in green. */
  method SayDone(term: Terminal, message: string, name: seq<byte>, notes: seq<TermOp>)
    requires term.Valid()
    modifies term, term.buffer
    ensures term.Valid() && term.View() == RunScreen(old(term.View()), notes + Named(LIGHT_GREEN, message, name))
  {
    RunScreenAppend(term.View(), notes, Named(LIGHT_GREEN, message, name));
    term.Play(notes);
    SayNamed(term, LIGHT_GREEN, message, name);
  }

  method WriteFile(fs: FileSystem, mem: seq<byte>, tail: Tail) returns (reply: Reply)
    requires fs.Valid() && Terminated(mem)
    modifies fs`persistent, fs.header, fs.data, fs.ch
    ensures fs.Valid()
    ensures (fs.State(), reply) == Write(old(fs.State()), CStr(mem), SaveIo(fs.ch.status, old(fs.ch.polls), tail))
    ensures fs.ch.polls == SaveEnd(fs.ch.status, old(fs.ch.polls), fs.selected && reply.Created?)
  {
    var filename, q := ParseArgs(mem);
    if filename[0] == 0 {
      return NoName;
    }
    CharAt(mem, q);
    if mem[q] == 0 {
      return NoContent;
    }
    CStrFrom(mem, q);
    var code := fs.CreateFile(filename, mem[q..], tail);
    reply := WriteReply(code, filename[..|filename| - 1]);
  }

  /** The name, copied and terminated, and where the content starts. */
  method ParseArgs(mem: seq<byte>) returns (filename: seq<byte>, q: nat)
    requires Terminated(mem)
    ensures Terminated(filename) && CStr(filename) == filename[..|filename| - 1]
    ensures filename[0] == 0 <==> CStr(filename) == []
    ensures q <= |CStr(mem)| && (CStr(filename), CStr(mem)[q..]) == ParseWrite(CStr(mem))
  {
    var start := SkipSpaces(mem, 0);
    var p := TakeName(mem, start);
    filename := mem[start..p] + [0];
    assert mem[start..p] == CStr(mem)[start..p];
    assert filename[..|filename| - 1] == mem[start..p];
    CStrOfTerminated(filename, CStr(mem)[start..p]);
    q := SkipSpaces(mem, p);
    if start < p {
      assert filename[0] == CStr(mem)[start];
    }
  }

  lemma NameEnds(s: seq<byte>, start: nat, p: nat)
    requires start <= p <= |s| && p - start <= MAX_FILENAME - 1
    requires forall n :: start <= n < p ==> s[n] != BLANK
    requires p == |s| || s[p] == BLANK || p - start == MAX_FILENAME - 1
    ensures p == Min(Span(s, start, NonSpaces), start + MAX_FILENAME - 1)
  {
    if p == |s| || s[p] == BLANK {
      SpanIs(s, start, NonSpaces, p);
    } else {
      var e := Span(s, start, NonSpaces);
      SpanReaches(s, start, NonSpaces, p);
    }
  }

  lemma {:induction false} SpanReaches(s: seq<byte>, i: nat, k: Class, j: nat)
    requires i <= j <= |s| && forall n :: i <= n < j ==> Is(k, s[n])
    ensures Span(s, i, k) >= j
    decreases j - i
  {
    if i < j { SpanReaches(s, i + 1, k, j); }
  }

  method CmdRm(fs: FileSystem, term: Terminal, mem: seq<byte>, tail: Tail, notes: seq<TermOp>) returns (reply: Reply)
    requires fs.Valid() && fs.Comparable(mem) && term.Valid()
    requires term.buffer as object != fs.header && term.buffer as object != fs.data
    modifies fs`persistent, fs.header, fs.ch, term, term.buffer
    ensures fs.Valid() && term.Valid()
    ensures (fs.State(), reply) == Remove(old(fs.State()), CStr(mem), SaveIo(fs.ch.status, old(fs.ch.polls), tail))
    ensures fs.ch.polls == SaveEnd(fs.ch.status, old(fs.ch.polls), fs.selected && reply.Removed?)
    ensures term.View() == RunScreen(old(term.View()), Says(reply, notes))
  {
    var code := fs.DeleteFile(mem, tail);
    reply := SayRemoved(term, code, mem, notes);
  }

  method SayRemoved(term: Terminal, code: int, mem: seq<byte>, notes: seq<TermOp>) returns (reply: Reply)
    requires term.Valid() && Terminated(mem)
    modifies term, term.buffer
    ensures term.Valid() && reply == if code == 0 then Removed(CStr(mem)) else NotFound(CStr(mem))
    ensures term.View() == RunScreen(old(term.View()), Says(reply, notes))
  {
    if code != 0 {
      reply := SayNotFound(term, mem, notes);
      return;
    }
    var len := StrLen(mem);
    var name := mem[..len];
    assert name == CStr(mem);
    SayDone(term, "File deleted: ", name, notes);
    reply := Removed(name);
  }

  // ---- shell_execute_command ----

  method Equals(mem: seq<byte>, word: seq<byte>) returns (r: bool)
    requires Terminated(mem) && NulFree(word)
    ensures r == (CStr(mem) == word)
  {
    CStrOfTerminated(word + [0], word);
    var c := StrCmp(mem, word + [0]);
    r := c == 0;
  }

  lemma OthersNulFree()
    ensures forall i :: 0 <= i < |OTHERS| ==> NulFree(Ascii(OTHERS[i]))
    ensures NulFree(Ascii(SERIAL_PRINT))
  {}

  method DispatchOther(mem: seq<byte>) returns (r: bool)
    requires Terminated(mem)
    ensures r == IsOther(CStr(mem))
  {
    OthersNulFree();
    r := StartsWithAt(mem, Ascii(SERIAL_PRINT));
    for i := 0 to |OTHERS|
      invariant r <==> StartsWith(CStr(mem), Ascii(SERIAL_PRINT)) || exists j :: 0 <= j < i && CStr(mem) == Ascii(OTHERS[j])
    {
      var same := Equals(mem, Ascii(OTHERS[i]));
      r := r || same;
    }
  }

  method Dispatch(mem: seq<byte>) returns (v: Verb)
    requires Terminated(mem)
    ensures v == VerbOf(CStr(mem))
  {
    var found := Equals(mem, []);
    if found { return VerbNone; }
    found := StartsWithAt(mem, CAT);
    if found { return VerbCat; }
    found := StartsWithAt(mem, WRITE);
    if found { return VerbWrite; }
    found := StartsWithAt(mem, RM);
    if found { return VerbRm; }
    found := Equals(mem, CLEAR);
    if found { return VerbClear; }
    found := Equals(mem, SAVE);
    if found { return VerbSave; }
    found := StartsWithAt(mem, CALC);
    if found { return VerbCalc; }
    found := StartsWithAt(mem, ECHO);
    if found { return VerbEcho; }
    found := Equals(mem, DISKS);
    if found { return VerbDisks; }
    found := DispatchOther(mem);
    v := if found then VerbOther else VerbUnknown;
  }

  method CmdEcho(term: Terminal, mem: seq<byte>, ghost notes: seq<TermOp>) returns (reply: Reply)
    requires term.Valid() && Terminated(mem)
    modifies term, term.buffer
    ensures term.Valid() && reply == Printed(CStr(mem) + [10])
    ensures term.View() == RunScreen(old(term.View()), Says(reply, notes))
  {
    var len := StrLen(mem);
    var text := mem[..len];
    assert text == CStr(mem);
    reply := SayLine(term, text, notes);
  }

  method CommandNotFound(term: Terminal, mem: seq<byte>, ghost notes: seq<TermOp>) returns (reply: Reply)
    requires term.Valid() && Terminated(mem)
    modifies term, term.buffer
    ensures term.Valid() && reply == Unknown(CStr(mem))
    ensures term.View() == RunScreen(old(term.View()), Says(reply, notes))
  {
    ghost var view := term.View();
    var len := StrLen(mem);
    var cmd := mem[..len];
    assert cmd == CStr(mem);
    SayNamed(term, LIGHT_RED, "Command not found: ", cmd);
    SayTryHelp(term);
    RunScreenAppend(view, Named(LIGHT_RED, "Command not found: ", cmd), Puts(Ascii(TRY_HELP)));
    reply := Unknown(cmd);
  }

  method SayTryHelp(term: Terminal)
    requires term.Valid()
    modifies term, term.buffer
    ensures term.Valid() && term.View() == RunScreen(old(term.View()), Puts(Ascii(TRY_HELP)))
  {
    RunPuts(term.View(), Ascii(TRY_HELP));
    term.WriteString(Ascii(TRY_HELP));
  }

  method CmdClear(term: Terminal, ghost notes: seq<TermOp>) returns (reply: Reply)
    requires term.Valid()
    modifies term, term.buffer
    ensures term.Valid() && reply == Cleared && term.View() == RunScreen(old(term.View()), Says(reply, notes))
  {
    RunOne(term.View(), Clear);
    term.Clear();
    reply := Cleared;
  }

  /** A command whose output is not modelled. */
  method CmdOther(term: Terminal, notes: seq<TermOp>) returns (reply: Reply)
    requires term.Valid()
    modifies term, term.buffer
    ensures term.Valid() && reply == Other && term.View() == RunScreen(old(term.View()), Says(reply, notes))
  {
    term.Play(notes);
    reply := Other;
  }

  /** The commands that compute or print their argument. */
  method PerformOnArgument(term: Terminal, v: Verb, arg: seq<byte>, ghost notes: seq<TermOp>) returns (reply: Reply)
    requires term.Valid() && Terminated(arg) && (v.VerbCalc? || v.VerbEcho? || v.VerbUnknown?)
    modifies term, term.buffer
    ensures term.Valid() && reply == Answer(v, CStr(arg))
    ensures term.View() == RunScreen(old(term.View()), Says(reply, notes))
  {
    if v.VerbCalc? {
      reply := CmdCalc(term, arg, notes);
    } else if v.VerbEcho? {
      reply := CmdEcho(term, arg, notes);
    } else {
      reply := CommandNotFound(term, arg, notes);
    }
  }

  /** The commands that do not use the file system. */
  method PerformOnTerminal(term: Terminal, v: Verb, arg: seq<byte>, notes: seq<TermOp>) returns (reply: Reply)
    requires term.Valid() && Terminated(arg) && !UsesFiles(v)
    modifies term, term.buffer
    ensures term.Valid() && reply == Answer(v, CStr(arg))
    ensures term.View() == RunScreen(old(term.View()), Says(reply, notes))
  {
    if v.VerbNone? {
      reply := Nothing;
    } else if v.VerbClear? {
      reply := CmdClear(term, notes);
    } else if v.VerbDisks? || v.VerbOther? {
      reply := CmdOther(term, notes);
    } else {
      reply := PerformOnArgument(term, v, arg, notes);
    }
  }

  method CmdSave(fs: FileSystem, term: Terminal, tail: Tail, notes: seq<TermOp>) returns (reply: Reply)
    requires fs.Valid() && term.Valid()
    requires term.buffer as object != fs.header && term.buffer as object != fs.data
    modifies fs`persistent, fs.ch, term, term.buffer
    ensures fs.Valid() && term.Valid() && reply == Other
    ensures fs.State() == Save(old(fs.State()), SaveIo(fs.ch.status, old(fs.ch.polls), tail))
    ensures fs.ch.polls == SaveEnd(fs.ch.status, old(fs.ch.polls), fs.selected)
    ensures term.View() == RunScreen(old(term.View()), Says(reply, notes))
  {
    fs.SaveToDisk(tail);
    term.Play(notes);
    reply := Other;
  }

  /** The commands that end in a save. */
  method PerformSaving(fs: FileSystem, term: Terminal, v: Verb, arg: seq<byte>, tail: Tail, notes: seq<TermOp>)
    returns (reply: Reply)
    requires fs.Valid() && EntriesOk(fs.header[..]) && term.Valid() && Terminated(arg)
    requires v.VerbWrite? || v.VerbRm? || v.VerbSave?
    requires term.buffer as object != fs.header && term.buffer as object != fs.data
    modifies fs`persistent, fs.header, fs.data, fs.ch, term, term.buffer
    ensures fs.Valid() && term.Valid()
    ensures (fs.State(), reply) == Perform(old(fs.State()), v, CStr(arg), SaveIo(fs.ch.status, old(fs.ch.polls), tail))
    ensures fs.ch.polls == SaveEnd(fs.ch.status, old(fs.ch.polls), fs.selected && Saves(v, reply))
    ensures term.View() == RunScreen(old(term.View()), Says(reply, notes))
  {
    if v.VerbWrite? {
      reply := CmdWrite(fs, term, arg, tail, notes);
    } else if v.VerbRm? {
      reply := CmdRm(fs, term, arg, tail, notes);
    } else {
      reply := CmdSave(fs, term, tail, notes);
    }
  }

  method PerformOnFiles(fs: FileSystem, term: Terminal, v: Verb, arg: seq<byte>, tail: Tail, notes: seq<TermOp>)
    returns (reply: Reply)
    requires fs.Valid() && EntriesOk(fs.header[..]) && term.Valid() && Terminated(arg)
    requires UsesFiles(v)
    requires term.buffer as object != fs.header && term.buffer as object != fs.data
    modifies fs`persistent, fs.header, fs.data, fs.ch, term, term.buffer
    ensures fs.Valid() && term.Valid()
    ensures (fs.State(), reply) == Perform(old(fs.State()), v, CStr(arg), SaveIo(fs.ch.status, old(fs.ch.polls), tail))
    ensures fs.ch.polls == SaveEnd(fs.ch.status, old(fs.ch.polls), fs.selected && Saves(v, reply))
    ensures term.View() == RunScreen(old(term.View()), Says(reply, notes))
  {
    if v.VerbCat? {
      reply := CmdCat(fs, term, arg, notes);
    } else {
      reply := PerformSaving(fs, term, v, arg, tail, notes);
    }
  }

  /** Detecting the drives polls the channel a number of times. */
  method Probe(ch: Channel, probes: nat)
    requires ch.Valid()
    modifies ch`polls
    ensures ch.Valid() && ch.polls == old(ch.polls) + probes
  {
    for i := 0 to probes
      invariant ch.Valid() && ch.polls == old(ch.polls) + i
    {
      var _ := ch.ReadStatus();
    }
  }

  method PerformCommand(fs: FileSystem, term: Terminal, v: Verb, arg: seq<byte>, env: Env) returns (reply: Reply)
    requires fs.Valid() && EntriesOk(fs.header[..]) && term.Valid() && Terminated(arg)
    requires term.buffer as object != fs.header && term.buffer as object != fs.data
    modifies fs`persistent, fs.header, fs.data, fs.ch, term, term.buffer
    ensures fs.Valid() && term.Valid()
    ensures (fs.State(), reply) == Perform(old(fs.State()), v, CStr(arg), SaveIo(fs.ch.status, old(fs.ch.polls), env.tail))
    ensures fs.ch.polls == CommandEnds(fs.ch.status, old(fs.ch.polls), fs.selected, v, reply, env.probes)
    ensures term.View() == RunScreen(old(term.View()), Says(reply, env.notes))
  {
    if UsesFiles(v) {
      reply := PerformOnFiles(fs, term, v, arg, env.tail, env.notes);
    } else {
      if v.VerbDisks? {
        Probe(fs.ch, env.probes);
      }
      reply := PerformOnTerminal(term, v, arg, env.notes);
    }
  }

  method ExecuteCommand(fs: FileSystem, term: Terminal, mem: seq<byte>, env: Env) returns (reply: Reply)
    requires fs.Valid() && EntriesOk(fs.header[..]) && term.Valid() && Terminated(mem)
    requires term.buffer as object != fs.header && term.buffer as object != fs.data
    modifies fs`persistent, fs.header, fs.data, fs.ch, term, term.buffer
    ensures fs.Valid() && term.Valid()
    ensures (fs.State(), reply) == Execute(old(fs.State()), CStr(mem), SaveIo(fs.ch.status, old(fs.ch.polls), env.tail))
    ensures fs.ch.polls ==
      CommandEnds(fs.ch.status, old(fs.ch.polls), fs.selected, VerbOf(CStr(mem)), reply, env.probes)
    ensures term.View() == RunScreen(old(term.View()), Says(reply, env.notes))
  {
    var v := Dispatch(mem);
    CStrFrom(mem, Skip(v));
    reply := PerformCommand(fs, term, v, mem[Skip(v)..], env);
  }

  // ---- shell_run: the line editor ----

  class CommandLine {
    const buffer: array<byte>
    var index: nat

    ghost predicate Valid()
      reads this, buffer
    {
      buffer.Length == MAX_LINE + 1 && index <= MAX_LINE && NulFree(buffer[..index])
    }

    ghost function Line(): seq<byte>
      requires Valid()
      reads this, buffer
    {
      buffer[..index]
    }

    constructor ()
      ensures Valid() && Line() == [] && fresh(buffer)
    {
      buffer := new byte[MAX_LINE + 1](_ => 0);
      index := 0;
    }

    /** Any key but Enter. */
    method Edit(term: Terminal, c: byte)
      requires Valid() && term.Valid() && term.buffer as object != buffer && c != NEWLINE
      modifies this`index, buffer, term, term.buffer
      ensures Valid() && term.Valid()
      ensures Line() == EditLine(old(Line()), c)
      ensures term.View() == PutAll(old(term.View()), Echo(old(Line()), c))
    {
      if c == 0 {
        return;
      }
      if c == BACKSPACE {
        if index > 0 {
          index := index - 1;
          term.WriteString([BACKSPACE, SPACE, BACKSPACE]);
        }
      } else if c == TAB {
        return;
      } else if index < MAX_LINE {
        buffer[index] := c;
        index := index + 1;
        term.WriteString([c]);
      }
    }

    /** Enter: the line becomes a C string, is executed, and a new line starts,
        unless the kernel has stopped. */
    method Enter(fs: FileSystem, term: Terminal, env: Env) returns (stopped: bool)
      requires Valid() && fs.Valid() && EntriesOk(fs.header[..]) && term.Valid()
      requires Apart(this, fs, term)
      modifies this`index, buffer, fs`persistent, fs.header, fs.data, fs.ch, term, term.buffer
      ensures Valid() && fs.Valid() && term.Valid()
      ensures ShellState(fs, this, term, stopped) ==
        ShellRuns.Enter(fs.ch.status, old(ShellState(fs, this, term, false)), env)
    {
      term.PutChar(NEWLINE);
      var reply := RunLine(fs, term, env);
      stopped := reply.DivisionFaults?;
      if !stopped {
        index := 0;
        PrintPrompt(term);
      }
    }

    /** Ends the line with a NUL and executes it. */
    method RunLine(fs: FileSystem, term: Terminal, env: Env) returns (reply: Reply)
      requires Valid() && fs.Valid() && EntriesOk(fs.header[..]) && term.Valid()
      requires Apart(this, fs, term)
      modifies buffer, fs`persistent, fs.header, fs.data, fs.ch, term, term.buffer
      ensures Valid() && fs.Valid() && term.Valid() && Line() == old(Line())
      ensures (fs.State(), reply) == Execute(old(fs.State()), Line(), SaveIo(fs.ch.status, old(fs.ch.polls), env.tail))
      ensures fs.ch.polls == CommandEnds(fs.ch.status, old(fs.ch.polls), fs.selected, VerbOf(Line()), reply, env.probes)
      ensures term.View() == RunScreen(old(term.View()), Says(reply, env.notes))
    {
      ghost var line := Line();
      buffer[index] := 0;
      assert buffer[..][..index] == line;
      CStrOfTerminated(buffer[..], line);
      reply := ExecuteCommand(fs, term, buffer[..], env);
    }
  }

  /** The arrays are different ones. */
  ghost predicate Apart(line: CommandLine, fs: FileSystem, term: Terminal) {
    && term.buffer as object != fs.header && term.buffer as object != fs.data && term.buffer as object != line.buffer
    && line.buffer != fs.header && line.buffer != fs.data
  }

  ghost function ShellState(fs: FileSystem, line: CommandLine, term: Terminal, stopped: bool): Shell
    requires fs.Valid() && line.Valid() && term.Valid()
    reads fs, fs.header, fs.data, fs.ch, line, line.buffer, term, term.buffer
  {
    Shell(fs.State(), fs.ch.polls, line.Line(), term.View(), stopped)
  }

  // ---- shell_run ----

  /** shell_print_prompt */
  method PrintPrompt(term: Terminal)
    requires term.Valid()
    modifies term, term.buffer
    ensures term.Valid() && term.View() == RunScreen(old(term.View()), Prompt())
  {
    ghost var s := term.View();
    ghost var a, b, c, d := Colored(LIGHT_CYAN, "szym"), Colored(WHITE, "@"),
        Colored(LIGHT_GREEN, "kernel"), Colored(WHITE, ":$ ");
    PrintColored(term, LIGHT_CYAN, "szym");
    PrintColored(term, WHITE, "@");
    RunScreenAppend(s, a, b);
    PrintColored(term, LIGHT_GREEN, "kernel");
    RunScreenAppend(s, a + b, c);
    PrintColored(term, WHITE, ":$ ");
    RunScreenAppend(s, a + b + c, d);
  }

  method PrintColored(term: Terminal, color: byte, text: string)
    requires term.Valid()
    modifies term, term.buffer
    ensures term.Valid() && term.View() == RunScreen(old(term.View()), Colored(color, text))
  {
    RunColored(term.View(), color, text);
    term.SetColor(color);
    term.WriteString(Ascii(text));
  }

  /** One character of the loop. */
  method HandleKey(line: CommandLine, fs: FileSystem, term: Terminal, c: byte, env: Env) returns (stopped: bool)
    requires line.Valid() && fs.Valid() && term.Valid() && EntriesOk(fs.header[..]) && Apart(line, fs, term)
    modifies line`index, line.buffer, fs`persistent, fs.header, fs.data, fs.ch, term, term.buffer
    ensures line.Valid() && fs.Valid() && term.Valid() && EntriesOk(fs.header[..])
    ensures ShellState(fs, line, term, stopped) ==
      ShellStep(fs.ch.status, old(ShellState(fs, line, term, false)), Stroke(c, env))
  {
    stopped := false;
    if c == NEWLINE {
      CommandEntriesOk(fs.State(), line.Line(), SaveIo(fs.ch.status, fs.ch.polls, env.tail));
      stopped := line.Enter(fs, term, env);
    } else {
      line.Edit(term, c);
    }
  }

  /** What the environment adds to the characters typed, one after the other. */
  type Environment = nat -> Env

  function Inputs(text: seq<byte>, env: Environment): (xs: seq<Input>)
    ensures |xs| == |text|
  {
    seq(|text|, i requires 0 <= i < |text| => Stroke(text[i], env(i)))
  }

  lemma InputsOneMore(text: seq<byte>, c: byte, env: Environment)
    ensures Inputs(text + [c], env) == Inputs(text, env) + [Stroke(c, env(|text|))]
  {}

  /** shell_run over all the scancodes of `input`. What the loop does to files,
      command buffer and screen is what the shell's machine does on the decoding of
      the scancodes without adjacent repeats; a division fault ends it. */
  method ShellRun(line: CommandLine, kbd: Keyboard, fs: FileSystem, term: Terminal, input: seq<byte>, env: Environment)
    returns (stopped: bool)
    requires line.Valid() && fs.Valid() && term.Valid() && EntriesOk(fs.header[..])
    requires Apart(line, fs, term) && TablesOk(kbd.tables)
    modifies line`index, line.buffer, kbd, fs`persistent, fs.header, fs.data, fs.ch, term, term.buffer
    ensures line.Valid() && fs.Valid() && term.Valid() && EntriesOk(fs.header[..])
    ensures !stopped ==> kbd.State() == KeyRun(kbd.tables, old(kbd.State()), input).0
    ensures var start := old(ShellState(fs, line, term, false));
      ShellState(fs, line, term, stopped) ==
        After(fs.ch.status, start.(screen := RunScreen(start.screen, Prompt())),
              Inputs(Decode(kbd.tables, old(kbd.shift), NoRepeats(old(kbd.last), input)), env))
  {
    PrintPrompt(term);
    DriverDecodes(kbd.tables, kbd.State(), input);
    stopped := ShellLoop(line, kbd, fs, term, input, env);
  }

  method ShellLoop(line: CommandLine, kbd: Keyboard, fs: FileSystem, term: Terminal, input: seq<byte>, env: Environment)
    returns (stopped: bool)
    requires line.Valid() && fs.Valid() && term.Valid() && EntriesOk(fs.header[..])
    requires Apart(line, fs, term) && TablesOk(kbd.tables)
    modifies line`index, line.buffer, kbd, fs`persistent, fs.header, fs.data, fs.ch, term, term.buffer
    ensures line.Valid() && fs.Valid() && term.Valid() && EntriesOk(fs.header[..])
    ensures !stopped ==> kbd.State() == KeyRun(kbd.tables, old(kbd.State()), input).0
    ensures ShellState(fs, line, term, stopped) ==
      After(fs.ch.status, old(ShellState(fs, line, term, false)),
            Inputs(KeyRun(kbd.tables, old(kbd.State()), input).1, env))
  {
    ghost var sh, text := ShellState(fs, line, term, false), [];
    ghost var whole := KeyRun(kbd.tables, kbd.State(), input);
    ghost var ahead := whole;
    var rest, n := input, 0;
    stopped := false;
    StartReading(whole);
    while rest != [] && !stopped
      invariant n == |text|
      invariant line.Valid() && fs.Valid() && term.Valid() && EntriesOk(fs.header[..])
      invariant ahead == KeyRun(kbd.tables, kbd.State(), rest) && ReadSoFar(whole, text, ahead)
      invariant ShellState(fs, line, term, stopped) == After(fs.ch.status, sh, Inputs(text, env))
      decreases |rest|
    {
      ghost var k := kbd.State();
      var c, used;
      c, used, stopped := NextKey(line, kbd, fs, term, rest, env(n));
      ahead := KeysAhead(kbd.tables, k, rest, used, kbd.State(), c, ahead, whole, text);
      OneMoreInput(fs.ch.status, sh, text, c, env);
      rest := rest[used..];
      n := if c == 0 then n else n + 1;
      text := Emit(text, c);
    }
    if stopped {
      StoppedEarly(fs.ch.status, sh, text, ahead.1, env);
    } else {
      DoneReading(kbd.tables, kbd.State(), ahead, whole, text);
    }
  }

  /** What is typed after a fault changes nothing. */
  lemma StoppedEarly(status: nat -> byte, sh: Shell, text: seq<byte>, more: seq<byte>, env: Environment)
    requires After(status, sh, Inputs(text, env)).stopped
    ensures After(status, sh, Inputs(text + more, env)) == After(status, sh, Inputs(text, env))
  {
    var xs, n := Inputs(text + more, env), |text|;
    assert xs[..n] == Inputs(text, env) && xs == xs[..n] + xs[n..];
    AfterAppend(status, sh, xs[..n], xs[n..]);
    StaysStopped(status, After(status, sh, xs[..n]), xs[n..]);
  }

  /** One turn of the loop: the next character, if there is one, and what it does. */
  method NextKey(line: CommandLine, kbd: Keyboard, fs: FileSystem, term: Terminal, input: seq<byte>, env: Env)
    returns (c: byte, used: nat, stopped: bool)
    requires line.Valid() && fs.Valid() && term.Valid() && EntriesOk(fs.header[..])
    requires Apart(line, fs, term) && TablesOk(kbd.tables) && input != []
    modifies line`index, line.buffer, kbd, fs`persistent, fs.header, fs.data, fs.ch, term, term.buffer
    ensures line.Valid() && fs.Valid() && term.Valid() && EntriesOk(fs.header[..])
    ensures 0 < used <= |input|
    ensures (kbd.State(), Emit([], c)) == KeyRun(kbd.tables, old(kbd.State()), input[..used])
    ensures ShellState(fs, line, term, stopped) ==
      if c == 0 then old(ShellState(fs, line, term, false))
      else ShellStep(fs.ch.status, old(ShellState(fs, line, term, false)), Stroke(c, env))
  {
    c, used := kbd.GetChar(input);
    stopped := false;
    if c != 0 {
      stopped := HandleKey(line, fs, term, c, env);
    }
  }

  /** The characters of a stream: those read, and those its rest will yield. */
  ghost predicate ReadSoFar(whole: (Kbd, seq<byte>), text: seq<byte>, ahead: (Kbd, seq<byte>)) {
    whole.0 == ahead.0 && whole.1 == text + ahead.1
  }

  lemma StartReading(whole: (Kbd, seq<byte>))
    ensures ReadSoFar(whole, [], whole)
  {
    assert [] + whole.1 == whole.1;
  }

  lemma DoneReading(t: Tables, k: Kbd, ahead: (Kbd, seq<byte>), whole: (Kbd, seq<byte>), text: seq<byte>)
    requires TablesOk(t) && ahead == KeyRun(t, k, []) && ReadSoFar(whole, text, ahead)
    ensures whole == (k, text)
  {
    assert text + [] == text;
  }

  lemma KeysAhead(t: Tables, k: Kbd, rest: seq<byte>, used: nat, k': Kbd, c: byte, was: (Kbd, seq<byte>),
                  whole: (Kbd, seq<byte>), text: seq<byte>)
    returns (now: (Kbd, seq<byte>))
    requires TablesOk(t) && used <= |rest| && was == KeyRun(t, k, rest) && (k', Emit([], c)) == KeyRun(t, k, rest[..used])
    requires ReadSoFar(whole, text, was)
    ensures now == KeyRun(t, k', rest[used..]) && ReadSoFar(whole, Emit(text, c), now)
  {
    assert rest == rest[..used] + rest[used..];
    KeyRunAppend(t, k, rest[..used], rest[used..]);
    now := KeyRun(t, k', rest[used..]);
    MoreRead(text, c, now.1);
  }

  lemma MoreRead(text: seq<byte>, c: byte, later: seq<byte>)
    ensures text + (Emit([], c) + later) == Emit(text, c) + later
  {}

  lemma OneMoreInput(status: nat -> byte, sh: Shell, text: seq<byte>, c: byte, env: Environment)
    ensures After(status, sh, Inputs(Emit(text, c), env)) ==
      var before := After(status, sh, Inputs(text, env));
      if c == 0 then before else ShellStep(status, before, Stroke(c, env(|text|)))
  {
    if c != 0 {
      InputsOneMore(text, c, env);
      AfterOneMore(status, sh, Inputs(text, env), Stroke(c, env(|text|)));
    }
  }

  // ---- From scancodes to the screen ----

  /** What the loop sees of keys of the layout, pressed and released one after the
      other. */
  function TypedInputs(k: Kbd, keys: seq<Key>, env: Environment): seq<Input>
    requires forall i :: 0 <= i < |keys| ==> Typable(UsTables(), keys[i])
  {
    var codes := Scancodes(UsTables(), keys);
    Inputs(Decode(UsTables(), k.shift, NoRepeats(k.last, codes)), env)
  }

  /** It is their characters. */
  lemma TypedKeys(k: Kbd, keys: seq<Key>, text: seq<byte>, env: Environment)
    requires AtRest(k) && forall i :: 0 <= i < |keys| ==> Typable(UsTables(), keys[i])
    requires Characters(UsTables(), keys) == text
    ensures TypedAs(TypedInputs(k, keys, env), text)
    ensures AtRest(KeyRun(UsTables(), k, Scancodes(UsTables(), keys)).0)
  {
    UsTablesFit();
    TypingRoundTrip(UsTables(), k, keys);
    DriverDecodes(UsTables(), k, Scancodes(UsTables(), keys));
  }

  /** Main result, end to end: `write name content` and Enter typed on the keyboard,
      where there is room for the file; then any scancodes and any safe power cycles
      that do not enter `rm name` and end on an empty line; then `cat name` and
      Enter typed: the screen shows that line, the content and a newline, and the
      prompt. */
  lemma TypedWriteThenTypedCat(status: nat -> byte, sh: Shell, k: Kbd, wkeys: seq<Key>, env: Environment,
                               w: seq<Input>, sh1: Shell,
                               xs: seq<Input>, sh2: Shell, k': Kbd, ckeys: seq<Key>, env': Environment, c: seq<Input>,
                               name: seq<byte>, content: seq<byte>)
    requires Running(sh.files) && sh.line == [] && !sh.stopped && CreateCode(sh.files, name, content) == 0
    requires 0 < |name| < MAX_FILENAME && forall i :: 0 <= i < |name| ==> Plain(name[i]) && name[i] != BLANK
    requires content != [] && content[0] != BLANK && forall i :: 0 <= i < |content| ==> Plain(content[i])
    requires 7 + |name| + |content| <= MAX_LINE
    requires AtRest(k) && forall i :: 0 <= i < |wkeys| ==> Typable(UsTables(), wkeys[i])
    requires Characters(UsTables(), wkeys) == WithEnter(WriteLine(name, content))
    requires w == TypedInputs(k, wkeys, env) && sh1 == After(status, sh, w)
    requires sh2 == After(status, sh1, xs) && sh2.line == [] && !sh2.stopped && forall x :: x in xs ==> InputOk(x)
    requires SafeRestarts(sh1.files, EventsOf(status, sh1, xs))
    requires NeverRemoves(EventsOf(status, sh1, xs), name)
    requires AtRest(k') && forall i :: 0 <= i < |ckeys| ==> Typable(UsTables(), ckeys[i])
    requires Characters(UsTables(), ckeys) == WithEnter(CatLine(name))
    requires c == TypedInputs(k', ckeys, env')
    ensures After(status, sh2, c).screen == ShowsContent(sh2.screen, name, content)
  {
    TypedKeys(k, wkeys, WithEnter(WriteLine(name, content)), env);
    TypedKeys(k', ckeys, WithEnter(CatLine(name)), env');
    LastInput(w, WriteLine(name, content));
    LastInput(c, CatLine(name));
    WriteThenCat(status, sh, w[..|w| - 1], w[|w| - 1], sh1, xs, sh2, c[..|c| - 1], c[|c| - 1], name, content);
  }

  lemma LastInput(w: seq<Input>, line: seq<byte>)
    requires TypedAs(w, WithEnter(line))
    ensures w != [] && w == w[..|w| - 1] + [w[|w| - 1]]
  {}

  // ---- kernel_main: the file system at boot ----

  /** fs_init, then README.txt if there is none, on zeroed static memory, whatever
      the disk holds and whatever part of it can be read. */
  method BootFiles(fs: FileSystem, readme: seq<byte>, tail: Tail, tail2: Tail)
    requires fs.Valid() && fs.State().header == Zeros(HEADER_SIZE) && !fs.persistent && Terminated(readme)
    modifies fs`initialized, fs`persistent, fs.header, fs.data, fs.ch
    ensures fs.Valid()
    ensures fs.State() ==
      DeviceBoot(fs.ch.status, old(fs.ch.polls), old(fs.State()).disk, fs.selected, CStr(readme), tail, tail2)
    ensures fs.ch.polls ==
      DeviceBootEnd(fs.ch.status, old(fs.ch.polls), old(fs.State()).disk, fs.selected, CStr(readme), tail)
  {
    fs.Init(tail);
    CStrOfTerminated(README + [0], README);
    var slot := fs.FindFile(README + [0]);
    if slot < 0 {
      var code := fs.CreateFile(README + [0], readme, tail2);
    }
  }

  /** The selected drive has room for the image, and on it a table that can be
      searched after a boot at this point of the status stream. */
  ghost predicate CanBoot(ch: Channel, drive: Selection)
    requires ch.Valid()
    reads ch
  {
    drive.Drive? ==>
      && drive.number < 2 && HasRegion(ch.disks[drive.number])
      && Bootable(Region(ch.disks[drive.number]), LoadReads(ch.status, ch.polls))
  }

  function DiskOf(disks: seq<seq<byte>>, drive: Selection): Image
    requires |disks| == 2 && (drive.Drive? ==> drive.number < 2)
  {
    Region(disks[if drive.Drive? then drive.number else 0])
  }

  /** Static memory, the drive the selector has selected, if any, and the files. */
  method PowerOn(ch: Channel, drive: Selection, readme: seq<byte>, tail: Tail, tail2: Tail) returns (fs: FileSystem)
    requires ch.Valid() && CanBoot(ch, drive) && Terminated(readme) && |CStr(readme)| <= MAX_FILE_SIZE
    modifies ch
    ensures fresh(fs) && fresh(fs.header) && fresh(fs.data) && fs.ch == ch && fs.Valid() && EntriesOk(fs.header[..])
    ensures fs.State() ==
      DeviceBoot(ch.status, old(ch.polls), DiskOf(old(ch.disks), drive), drive.Drive?, CStr(readme), tail, tail2)
    ensures ch.polls ==
      DeviceBootEnd(ch.status, old(ch.polls), DiskOf(old(ch.disks), drive), drive.Drive?, CStr(readme), tail)
  {
    ghost var disk, p := DiskOf(ch.disks, drive), ch.polls;
    fs := new FileSystem(ch);
    if drive.Drive? {
      fs.SetDriveInfo(drive.number);
    }
    BootFiles(fs, readme, tail, tail2);
    KernelBootEntriesOk(disk, drive.Drive?, LoadReads(ch.status, p), FormatIo(ch.status, p, tail), CStr(readme),
                        SaveIo(ch.status, LoadEnd(ch.status, p, drive.Drive?, disk), tail2));
  }

  /** The files the system comes up with: those of a disk that is blank or valid and
      read well, or none without a drive, and README.txt. From a valid disk they make
      a map whatever can be read. */
  lemma BootedFiles(status: nat -> byte, p: nat, disk: Image, selected: bool, readme: seq<byte>, tail: Tail, tail2: Tail)
    requires NulFree(readme) && |readme| <= MAX_FILE_SIZE
    ensures var files := DeviceBoot(status, p, disk, selected, readme, tail, tail2);
      && ((selected ==> StartingDisk(disk) && AllRead(LoadReads(status, p))) ==>
           Running(files) && FilesIn(files) == Add(if selected then DiskFiles(disk) else map[], README, readme))
      && (Ok(DiskHeader(disk), DiskData(disk)) ==> Running(files))
  {
    var r, io, io2 := LoadReads(status, p), FormatIo(status, p, tail),
        SaveIo(status, LoadEnd(status, p, selected, disk), tail2);
    if selected ==> StartingDisk(disk) && AllRead(r) {
      KernelBootRefines(disk, selected, r, io, readme, io2);
    }
    if Ok(DiskHeader(disk), DiskData(disk)) {
      KernelBootRuns(disk, selected, r, io, readme, io2);
    }
  }

  /** shell_init and shell_run on a file system that has come up. */
  method StartShell(fs: FileSystem, term: Terminal, kbd: Keyboard,
                    messages: seq<TermOp>, input: seq<byte>, env: Environment)
    returns (line: CommandLine, stopped: bool)
    requires fs.Valid() && EntriesOk(fs.header[..]) && term.Valid() && TablesOk(kbd.tables)
    requires term.buffer as object != fs.header && term.buffer as object != fs.data
    modifies fs`persistent, fs.header, fs.data, fs.ch, term, term.buffer, kbd
    ensures fs.Valid() && line.Valid() && term.Valid()
    ensures var screen := RunScreen(RunScreen(old(term.View()), messages), Prompt());
      ShellState(fs, line, term, stopped) ==
        After(fs.ch.status, Shell(old(fs.State()), old(fs.ch.polls), [], screen, false),
              Inputs(Decode(kbd.tables, old(kbd.shift), NoRepeats(old(kbd.last), input)), env))
  {
    term.Play(messages);
    line := new CommandLine();
    stopped := ShellRun(line, kbd, fs, term, input, env);
  }

  /** kernel_main from the disk selector on: files, then the shell, which runs as its
      machine does on the decoded scancodes. `messages` are the lines printed on the
      way. */
  method KernelMain(ch: Channel, drive: Selection, term: Terminal, kbd: Keyboard, readme: seq<byte>,
                    tail: Tail, tail2: Tail,
                    messages: seq<TermOp>, input: seq<byte>, env: Environment)
    returns (fs: FileSystem, line: CommandLine, stopped: bool)
    requires ch.Valid() && CanBoot(ch, drive) && Terminated(readme) && |CStr(readme)| <= MAX_FILE_SIZE
    requires term.Valid() && TablesOk(kbd.tables)
    modifies ch, term, term.buffer, kbd
    ensures fs.Valid() && line.Valid() && term.Valid()
    ensures var disk, p := DiskOf(old(ch.disks), drive), old(ch.polls);
      var files := DeviceBoot(ch.status, p, disk, drive.Drive?, CStr(readme), tail, tail2);
      var polls := DeviceBootEnd(ch.status, p, disk, drive.Drive?, CStr(readme), tail);
      var screen := RunScreen(RunScreen(old(term.View()), messages), Prompt());
      ShellState(fs, line, term, stopped) ==
        After(ch.status, Shell(files, polls, [], screen, false),
              Inputs(Decode(kbd.tables, old(kbd.shift), NoRepeats(old(kbd.last), input)), env))
  {
    fs := PowerOn(ch, drive, readme, tail, tail2);
    line, stopped := StartShell(fs, term, kbd, messages, input, env);
  }
}
