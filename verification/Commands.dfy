// What each line typed at the prompt means: the command words, the arguments of
// `write`, and the arithmetic of `calc`.
module Commands {
  import opened CLib
  import opened FsLayout
  import opened SlotMap
  import opened FsSpec
  import opened FsRuns
  import opened Numbers
  import opened ShellSpec

  // ---- The command words ----

  lemma SaveBytes()
    ensures Ascii("save") == SAVE
  {}

  lemma CatBytes()
    ensures Ascii("cat ") == CAT
  {}

  lemma RmBytes()
    ensures Ascii("rm ") == RM
  {}

  lemma WriteBytes()
    ensures Ascii("write ") == WRITE
  {}

  lemma CalcBytes()
    ensures Ascii("calc ") == CALC
  {}

  lemma EchoBytes()
    ensures Ascii("echo ") == ECHO
  {}

  lemma ClearBytes()
    ensures Ascii("clear") == CLEAR
  {}

  lemma DisksBytes()
    ensures Ascii("disks") == DISKS
  {}

  /** `save`: memory stays, and when every sector is written the disk holds it. */
  lemma SaveWord(s: Fs, cmd: seq<byte>, io: Io)
    requires cmd == Ascii("save")
    ensures var (t, reply) := Execute(s, cmd, io);
      && t.header == s.header && t.data == s.data && t.ready == s.ready && t.selected == s.selected
      && (s.selected && Complete(io) ==> Synced(t) && t.persistent == s.persistent)
      && (!s.selected ==> t.disk == s.disk && !t.persistent)
      && reply == Other
  {
    SaveBytes();
    SaveExecutes(s, SAVE, io);
    if s.selected && Complete(io) { CompleteSave(s, io); }
  }

  lemma SaveExecutes(s: Fs, cmd: seq<byte>, io: Io)
    requires cmd == SAVE
    ensures Execute(s, cmd, io) == (Save(s, io), Other)
  {
    assert cmd[0] == 115;
    assert VerbOf(cmd) == VerbSave;
  }

  /** `cat name`: the file's text up to a NUL, and a newline. */
  lemma CatWord(s: Fs, name: seq<byte>, cmd: seq<byte>, io: Io)
    requires Running(s) && cmd == Ascii("cat ") + name
    ensures Execute(s, cmd, io) ==
      (s, if name in FilesIn(s) then Printed(CStr(FilesIn(s)[name]) + [10]) else NotFound(name))
  {
    CatBytes();
    CatIsCat(cmd, name);
    ReadRefines(s, name, MAX_FILE_SIZE + 1);
    if name in FilesIn(s) {
      TextFits(s, name);
      UpToNul(FilesIn(s)[name], ReadBytes(s, name, MAX_FILE_SIZE + 1));
    }
  }

  lemma UpToNul(text: seq<byte>, bytes: seq<byte>)
    requires |text| <= 4096 && bytes == text[..Min(|text|, 4096)] + [0]
    ensures CStr(bytes) == CStr(text)
  {
    assert text[..Min(|text|, 4096)] == text;
    var t := CStr(text);
    assert bytes[..|t|] == t;
    CStrOfTerminated(bytes, t);
  }

  /** `rm name`: exactly that file goes. */
  lemma RmWord(s: Fs, name: seq<byte>, cmd: seq<byte>, io: Io)
    requires Running(s) && NulFree(name) && cmd == Ascii("rm ") + name
    ensures var (t, reply) := Execute(s, cmd, io);
      && Running(t) && FilesIn(t) == FilesIn(s) - {name}
      && reply == (if name in FilesIn(s) then Removed(name) else NotFound(name))
  {
    RmBytes();
    RmIs(cmd, name);
    DeleteRuns(s, name, io);
  }

  lemma RmIs(cmd: seq<byte>, name: seq<byte>)
    requires cmd == RM + name
    ensures VerbOf(cmd) == VerbRm && cmd[3..] == name
  {
    assert cmd[..3] == RM && cmd[0] == 114;
  }

  /** `calc`, `echo` and `clear` leave the files alone. */
  lemma CalcWord(s: Fs, arg: seq<byte>, cmd: seq<byte>, io: Io)
    requires cmd == Ascii("calc ") + arg
    ensures Execute(s, cmd, io) == (s, Calc(arg))
  {
    CalcBytes();
    CalcIs(cmd, arg);
  }

  lemma CalcIs(cmd: seq<byte>, arg: seq<byte>)
    requires cmd == CALC + arg
    ensures VerbOf(cmd) == VerbCalc && cmd[5..] == arg
  {
    assert cmd[..5] == CALC && cmd[0] == 99 && cmd[2] == 108 && cmd[3] == 99;
    assert cmd[..4][2] == cmd[2];
  }

  lemma EchoWord(s: Fs, text: seq<byte>, cmd: seq<byte>, io: Io)
    requires cmd == Ascii("echo ") + text
    ensures Execute(s, cmd, io) == (s, Printed(text + [10]))
  {
    EchoBytes();
    EchoIs(cmd, text);
  }

  lemma EchoIs(cmd: seq<byte>, text: seq<byte>)
    requires cmd == ECHO + text
    ensures VerbOf(cmd) == VerbEcho && cmd[5..] == text
  {
    assert cmd[..5] == ECHO && cmd[0] == 101;
  }

  lemma ClearWord(s: Fs, cmd: seq<byte>, io: Io)
    requires cmd == Ascii("clear")
    ensures Execute(s, cmd, io) == (s, Cleared)
  {
    ClearBytes();
    assert cmd[1] == 108;
    assert VerbOf(cmd) == VerbClear;
  }

  /** Enter on an empty line does nothing. */
  lemma EmptyLine(s: Fs, io: Io)
    ensures Execute(s, [], io) == (s, Nothing)
  {}

  /** The commands whose output is not modelled. */
  predicate OtherWord(cmd: seq<byte>) {
    || cmd == Ascii("help") || cmd == Ascii("ls") || cmd == Ascii("serial_read") || cmd == Ascii("info")
    || cmd == Ascii("version") || cmd == Ascii("cpuid") || cmd == Ascii("mem") || cmd == Ascii("banner")
    || cmd == Ascii("colors") || cmd == Ascii("reboot") || cmd == Ascii("panic") || cmd == Ascii("disks")
    || StartsWith(cmd, Ascii("serial_print "))
  }

  lemma OtherWordIff(cmd: seq<byte>)
    ensures OtherWord(cmd) <==> IsOther(cmd) || cmd == DISKS
  {
    DisksBytes();
    assert OTHERS[0] == "help" && OTHERS[1] == "ls" && OTHERS[2] == "serial_read" && OTHERS[3] == "info";
    assert OTHERS[4] == "version" && OTHERS[5] == "cpuid" && OTHERS[6] == "mem" && OTHERS[7] == "banner";
    assert OTHERS[8] == "colors" && OTHERS[9] == "reboot" && OTHERS[10] == "panic";
  }

  /** The words and the starts of lines that make a command. */
  predicate KnownWord(cmd: seq<byte>) {
    || cmd == [] || cmd == Ascii("save") || cmd == Ascii("clear")
    || StartsWith(cmd, Ascii("cat ")) || StartsWith(cmd, Ascii("write ")) || StartsWith(cmd, Ascii("rm "))
    || StartsWith(cmd, Ascii("calc ")) || StartsWith(cmd, Ascii("echo ")) || OtherWord(cmd)
  }

  lemma KnownIff(cmd: seq<byte>)
    ensures KnownWord(cmd) <==> VerbOf(cmd) != VerbUnknown
  {
    SaveBytes();
    CatBytes();
    RmBytes();
    WriteBytes();
    CalcBytes();
    EchoBytes();
    ClearBytes();
    OtherWordIff(cmd);
  }

  /** Any other line is answered as unknown and does nothing; and only such a line is. */
  lemma UnknownIff(s: Fs, cmd: seq<byte>, io: Io)
    ensures Execute(s, cmd, io).1.Unknown? <==> !KnownWord(cmd)
    ensures !KnownWord(cmd) ==> Execute(s, cmd, io) == (s, Unknown(cmd))
  {
    KnownIff(cmd);
    AnswersUnknown(s, VerbOf(cmd), cmd[Skip(VerbOf(cmd))..], io);
    assert cmd[0..] == cmd;
  }

  lemma AnswersUnknown(s: Fs, v: Verb, arg: seq<byte>, io: Io)
    ensures Perform(s, v, arg, io).1.Unknown? <==> v.VerbUnknown?
  {}

  /** Of the commands whose output is not modelled none changes memory or the disk. */
  lemma OtherWords(s: Fs, cmd: seq<byte>, io: Io)
    requires OtherWord(cmd)
    ensures Execute(s, cmd, io) == (s, Other)
  {
    OtherWordIff(cmd);
    FirstTwo(cmd);
    OtherVerb(cmd);
    assert Execute(s, cmd, io) == Perform(s, VerbOf(cmd), cmd, io);
  }

  /** No word tested before them starts as they do. */
  lemma FirstTwo(cmd: seq<byte>)
    requires OtherWord(cmd)
    ensures |cmd| >= 2 && (cmd[0] == 99 ==> cmd[1] == 112 || cmd[1] == 111) && cmd[0] != 119 && cmd[0] != 101
    ensures (cmd[0] == 114 || cmd[0] == 115) ==> cmd[1] == 101
  {
    var p := Ascii("serial_print ");
    assert p[0] == 115 && p[1] == 101;
    if StartsWith(cmd, p) {
      assert cmd[..|p|][0] == cmd[0] && cmd[..|p|][1] == cmd[1];
    }
  }

  lemma OtherVerb(cmd: seq<byte>)
    requires IsOther(cmd) || cmd == DISKS
    requires |cmd| >= 2 && (cmd[0] == 99 ==> cmd[1] == 112 || cmd[1] == 111) && cmd[0] != 119 && cmd[0] != 101
    requires (cmd[0] == 114 || cmd[0] == 115) ==> cmd[1] == 101
    ensures VerbOf(cmd) == VerbOther || VerbOf(cmd) == VerbDisks
  {
    NotPrefix(cmd, CAT);
    NotPrefix(cmd, WRITE);
    NotPrefix(cmd, RM);
    NotPrefix(cmd, CALC);
    NotPrefix(cmd, ECHO);
    assert CLEAR[1] == 108 && SAVE[1] == 97;
  }

  lemma NotPrefix(cmd: seq<byte>, p: seq<byte>)
    requires |cmd| >= 2 && |p| >= 2 && (cmd[0] != p[0] || cmd[1] != p[1])
    ensures !StartsWith(cmd, p)
  {
    assert |p| <= |cmd| ==> cmd[..|p|][0] == cmd[0] && cmd[..|p|][1] == cmd[1];
  }

  // ---- write ----

  function Blanks(n: nat): (s: seq<byte>)
    ensures |s| == n
  {
    seq(n, _ => 32)
  }

  predicate NoBlank(s: seq<byte>) { forall i :: 0 <= i < |s| ==> s[i] != 32 }

  /** The arguments of `write`: spaces, a name, spaces, and a content that starts with
      none. */
  function WriteArgs(i: nat, name: seq<byte>, j: nat, content: seq<byte>): seq<byte> {
    Blanks(i) + name + Blanks(j) + content
  }

  predicate ArgsOk(name: seq<byte>, j: nat, content: seq<byte>) {
    && NoBlank(name) && (content != [] ==> content[0] != 32)
    && (name == [] ==> j == 0) && (j == 0 ==> content == [])
  }

  /** Every line has that form. */
  lemma WriteArgsOf(s: seq<byte>) returns (i: nat, name: seq<byte>, j: nat, content: seq<byte>)
    ensures s == WriteArgs(i, name, j, content) && ArgsOk(name, j, content)
  {
    i := Span(s, 0, Spaces);
    var b := Span(s, i, NonSpaces);
    var c := Span(s, b, Spaces);
    name, j, content := s[i..b], c - b, s[c..];
    assert s[..i] == Blanks(i) && s[b..c] == Blanks(j);
    assert s == s[..i] + s[i..b] + s[b..c] + s[c..];
  }

  /** Spaces, something else, and the rest. */
  lemma Parts(n: nat, a: seq<byte>, rest: seq<byte>, s: seq<byte>, at: nat, all: seq<byte>)
    requires at <= |all| && all[at..] == s == Blanks(n) + a + rest
    ensures |all| == at + n + |a| + |rest|
    ensures forall k :: at <= k < at + n ==> all[k] == 32
    ensures all[at + n..at + n + |a|] == a && all[at + n + |a|..] == rest
    ensures forall k :: at + n <= k < at + n + |a| ==> all[k] == a[k - at - n]
  {
    assert forall k :: 0 <= k < n ==> s[k] == 32 && all[at + k] == s[k];
    assert s[n..n + |a|] == a && s[n + |a|..] == rest;
  }

  /** `write` cuts the name after 31 characters, and takes what lies behind the cut
      for the content. */
  lemma ParseWriteIs(i: nat, name: seq<byte>, j: nat, content: seq<byte>)
    requires ArgsOk(name, j, content)
    ensures ParseWrite(WriteArgs(i, name, j, content)) ==
      if |name| <= 31 then (name, content) else (name[..31], name[31..] + (Blanks(j) + content))
  {
    var s := WriteArgs(i, name, j, content);
    assert s == Blanks(i) + name + (Blanks(j) + content);
    ParseParts(s, i, name, j, content, Blanks(j) + content);
  }

  lemma ParseParts(s: seq<byte>, i: nat, name: seq<byte>, j: nat, content: seq<byte>, rest: seq<byte>)
    requires ArgsOk(name, j, content) && s == Blanks(i) + name + rest && rest == Blanks(j) + content
    ensures ParseWrite(s) == if |name| <= 31 then (name, content) else (name[..31], name[31..] + rest)
  {
    var b := i + |name|;
    assert s[0..] == s;
    Parts(i, name, rest, s, 0, s);
    NameSpans(s, i, b, name, j, content, rest);
    if |name| > 31 {
      CutParts(s, i, b, name, rest);
    }
  }

  lemma NameSpans(s: seq<byte>, i: nat, b: nat, name: seq<byte>, j: nat, content: seq<byte>, rest: seq<byte>)
    requires ArgsOk(name, j, content) && b == i + |name| <= |s| && s[i..b] == name && s[b..] == rest
    requires (forall k :: 0 <= k < i ==> s[k] == 32) && rest == Blanks(j) + content
    ensures Span(s, 0, Spaces) == i && Span(s, i, NonSpaces) == b && Span(s, b, Spaces) == b + j <= |s|
    ensures s[b + j..] == content
  {
    assert rest == Blanks(j) + [] + content;
    Parts(j, [], content, rest, b, s);
    NameSpan(s, i, b, name);
    SpanIs(s, b, Spaces, b + j);
  }

  lemma NameSpan(s: seq<byte>, i: nat, b: nat, name: seq<byte>)
    requires NoBlank(name) && b == i + |name| <= |s| && s[i..b] == name && (b == |s| || s[b] == 32)
    requires (forall k :: 0 <= k < i ==> s[k] == 32) && (name == [] ==> b == |s|)
    ensures Span(s, 0, Spaces) == i && Span(s, i, NonSpaces) == b
  {
    assert forall k :: i <= k < b ==> s[k] == name[k - i];
    SpanIs(s, 0, Spaces, i);
    SpanIs(s, i, NonSpaces, b);
  }

  lemma CutParts(s: seq<byte>, i: nat, b: nat, name: seq<byte>, rest: seq<byte>)
    requires b == i + |name| <= |s| && |name| > 31 && s[i..b] == name && s[b..] == rest
    requires NoBlank(name) && Span(s, 0, Spaces) == i && Span(s, i, NonSpaces) == b
    ensures ParseWrite(s) == (name[..31], name[31..] + rest)
  {
    assert s[i + 31] == name[31];
    SpanIs(s, i + 31, Spaces, i + 31);
    assert s[i..i + 31] == s[i..b][..31];
    assert s[i + 31..] == s[i..b][31..] + s[b..];
  }

  /** The name `write` uses, and the content. */
  function WriteName(name: seq<byte>): seq<byte> { if |name| <= 31 then name else name[..31] }

  function WriteText(name: seq<byte>, j: nat, content: seq<byte>): seq<byte> {
    if |name| <= 31 then content else name[31..] + (Blanks(j) + content)
  }

  /** What it answers where there are the files `m`. */
  function WriteAnswer(m: Files, name: seq<byte>, j: nat, content: seq<byte>): Reply {
    if name == [] then NoName
    else if WriteText(name, j, content) == [] then NoContent
    else if WriteName(name) in m then Exists(WriteName(name))
    else if |m| == 32 then Full
    else Created(WriteName(name))
  }

  function WriteFiles(m: Files, name: seq<byte>, j: nat, content: seq<byte>): Files {
    if WriteAnswer(m, name, j, content).Created? then m[WriteName(name) := WriteText(name, j, content)] else m
  }

  /** From `s` to `t`, with that answer: the file is there, or nothing has changed. */
  ghost predicate WriteOutcome(s: Fs, t: Fs, reply: Reply, name: seq<byte>, j: nat, content: seq<byte>) {
    && reply == WriteAnswer(FilesIn(s), name, j, content)
    && Running(t) && FilesIn(t) == WriteFiles(FilesIn(s), name, j, content)
    && (reply.Created? || t == s)
  }

  /** `write`: without a name or a content the files stay; otherwise the name, cut to
      31 characters, is added with the content, unless it exists or 32 files do. */
  lemma WriteWord(s: Fs, i: nat, name: seq<byte>, j: nat, content: seq<byte>, cmd: seq<byte>, io: Io)
    requires Running(s) && ArgsOk(name, j, content) && NulFree(name) && NulFree(content)
    requires cmd == Ascii("write ") + WriteArgs(i, name, j, content) && |cmd| <= 255
    ensures WriteOutcome(s, Execute(s, cmd, io).0, Execute(s, cmd, io).1, name, j, content)
  {
    var args := WriteArgs(i, name, j, content);
    WriteBytes();
    WriteIsWrite(cmd, args);
    ParseWriteIs(i, name, j, content);
    ShortText(i, name, j, content);
    Written(s, args, io, name, j, content);
    assert Execute(s, cmd, io) == Write(s, args, io);
  }

  lemma ShortText(i: nat, name: seq<byte>, j: nat, content: seq<byte>)
    requires ArgsOk(name, j, content)
    ensures |WriteText(name, j, content)| <= |WriteArgs(i, name, j, content)| && |WriteName(name)| < MAX_FILENAME
    ensures WriteName(name) == [] <==> name == []
    ensures NulFree(name) ==> NulFree(WriteName(name))
  {}

  lemma Written(s: Fs, args: seq<byte>, io: Io, name: seq<byte>, j: nat, content: seq<byte>)
    requires Running(s) && ParseWrite(args) == (WriteName(name), WriteText(name, j, content))
    requires |WriteText(name, j, content)| <= 255 && NulFree(WriteName(name)) && |WriteName(name)| < MAX_FILENAME
    requires WriteName(name) == [] <==> name == []
    ensures WriteOutcome(s, Write(s, args, io).0, Write(s, args, io).1, name, j, content)
  {
    CreateRuns(s, WriteName(name), WriteText(name, j, content), io);
  }

  /** So `write` and a name of up to 31 characters alone changes nothing; a longer name
      alone makes a file of what is cut off it. */
  lemma WriteNameOnly(s: Fs, i: nat, name: seq<byte>, j: nat, cmd: seq<byte>, io: Io)
    requires Running(s) && name != [] && NoBlank(name) && NulFree(name)
    requires cmd == Ascii("write ") + WriteArgs(i, name, j, []) && |cmd| <= 255
    ensures |name| <= 31 ==> Execute(s, cmd, io) == (s, NoContent)
    ensures |name| > 31 && name[..31] !in FilesIn(s) && |FilesIn(s)| < 32 ==>
      FilesIn(Execute(s, cmd, io).0) == FilesIn(s)[name[..31] := name[31..] + Blanks(j)]
  {
    WriteWord(s, i, name, j, [], cmd, io);
    assert Blanks(j) + [] == Blanks(j);
  }

  // ---- calc ----

  /** A C int that wraps. */
  function Signed32(v: int): int {
    var w := v % 0x1_0000_0000; if w < 0x8000_0000 then w else w - 0x1_0000_0000
  }

  lemma WrapIsSigned32(v: int)
    ensures Wrap(v) == Signed32(v)
  {}

  predicate Numeric(s: seq<byte>) { forall i :: 0 <= i < |s| ==> IsDigit(s[i]) }

  /** The arguments of `calc`: digits, an operator and digits, with any spaces before
      each of them, and anything behind. */
  function CalcArgs(i: nat, a: seq<byte>, j: nat, op: byte, right: seq<byte>): seq<byte> {
    Blanks(i) + a + (Blanks(j) + [op] + right)
  }

  /** They are read as that. */
  lemma CalcTyped(i: nat, a: seq<byte>, j: nat, op: byte, k: nat, b: seq<byte>, rest: seq<byte>, s: seq<byte>)
    requires Numeric(a) && Numeric(b) && op != 32 && !IsDigit(op)
    requires rest != [] ==> !IsDigit(rest[0]) && (b == [] ==> rest[0] != 32)
    requires a == [] ==> j == 0
    requires s == CalcArgs(i, a, j, op, Blanks(k) + b + rest)
    ensures FirstDigits(s) == a && ParseCalc(s).op == op && SecondDigits(s) == b
  {
    var right := Blanks(k) + b + rest;
    var middle := Blanks(j) + [op] + right;
    var p := i + |a|;
    assert s[0..] == s;
    Parts(i, a, middle, s, 0, s);
    Parts(j, [op], right, middle, p, s);
    assert [op][0] == op;
    FirstSpans(s, i, p, p + j);
    CalcRight(i, p, p + j, k, b, rest, right, s);
  }

  lemma CalcRight(i: nat, p: nat, q: nat, k: nat, b: seq<byte>, rest: seq<byte>, right: seq<byte>, s: seq<byte>)
    requires Numeric(b) && (rest != [] ==> !IsDigit(rest[0]) && (b == [] ==> rest[0] != 32))
    requires right == Blanks(k) + b + rest && q + 1 <= |s| && s[q + 1..] == right
    requires Operand(s, 0).1 == p <= q && Span(s, p, Spaces) == q
    ensures SecondDigits(s) == b && ParseCalc(s).op == s[q]
  {
    Parts(k, b, rest, right, q + 1, s);
    SecondSpans(s, i, p, q, q + 1 + k, q + 1 + k + |b|);
  }

  /** Without an operator it answers with its usage. */
  lemma CalcNoOperator(i: nat, a: seq<byte>, j: nat, s: seq<byte>)
    requires Numeric(a) && s == Blanks(i) + a + Blanks(j) && (a == [] ==> j == 0)
    ensures Calc(s) == CalcUsage
  {
    assert s[0..] == s;
    Parts(i, a, Blanks(j), s, 0, s);
    var p := i + |a|;
    assert s[p..] == Blanks(j) && forall n :: p <= n < |s| ==> s[n] == s[p..][n - p];
    SpanIs(s, 0, Spaces, i);
    SpanIs(s, i, Numerals, p);
    SpanIs(s, p, Spaces, |s|);
  }

  lemma FirstSpans(s: seq<byte>, i: nat, p: nat, q: nat)
    requires i <= p <= q < |s|
    requires forall n :: 0 <= n < i ==> s[n] == 32
    requires forall n :: i <= n < p ==> IsDigit(s[n])
    requires forall n :: p <= n < q ==> s[n] == 32
    requires s[q] != 32 && !IsDigit(s[q]) && (p == i ==> q == p)
    ensures FirstDigits(s) == s[i..p] && Operand(s, 0).1 == p && Span(s, p, Spaces) == q
  {
    SpanIs(s, 0, Spaces, i);
    SpanIs(s, i, Numerals, p);
    SpanIs(s, p, Spaces, q);
  }

  lemma SecondSpans(s: seq<byte>, i: nat, p: nat, q: nat, r: nat, e: nat)
    requires Operand(s, 0).1 == p <= q < r <= e <= |s| && Span(s, p, Spaces) == q
    requires forall n :: q + 1 <= n < r ==> s[n] == 32
    requires forall n :: r <= n < e ==> IsDigit(s[n])
    requires e < |s| ==> !IsDigit(s[e]) && (e == r ==> s[e] != 32)
    ensures SecondDigits(s) == s[r..e] && ParseCalc(s).op == s[q]
  {
    SpanIs(s, q + 1, Spaces, r);
    SpanIs(s, r, Numerals, e);
  }

  /** `q` is `a` divided by `b`, cut towards zero: the rest is smaller than `b` and
      has the sign of `a`. */
  predicate Quotient(a: int, b: int, q: int) {
    var m := a - b * q;
    (if m < 0 then -m else m) < (if b < 0 then -b else b) && (m == 0 || (m > 0 <==> a > 0))
  }

  lemma Rest(x: nat, y: nat)
    requires y > 0
    ensures 0 <= x - y * (x / y) < y && x / y <= x && (y >= 2 ==> 2 * (x / y) <= x)
  {
    var q := x / y;
    assert x == y * q + x % y;
    TimesAtLeast(y, q, 1);
    if y >= 2 { TimesAtLeast(y, q, 2); }
  }

  lemma TimesAtLeast(y: nat, q: nat, k: nat)
    requires k <= y
    ensures k * q <= y * q
  {}

  lemma SignedProduct(b: int, t: int, y: int, q: int, p: int, negative: bool)
    requires y == (if b < 0 then 0 - b else b) && p == y * q
    requires t == if negative == (b < 0) then q else 0 - q
    ensures b * t == if negative then 0 - p else p
  {
    if b < 0 { assert b * t == 0 - y * t; }
    if negative != (b < 0) { assert y * t == 0 - y * q; }
  }

  lemma TruncatedIsQuotient(a: int, b: int)
    requires b != 0
    ensures Quotient(a, b, Truncated(a, b))
  {
    var x, y := if a < 0 then -a else a, if b < 0 then -b else b;
    TruncatedSign(a, b, x, y);
    SignedQuotient(a, b, Truncated(a, b), x, y, x / y);
  }

  lemma TruncatedSign(a: int, b: int, x: int, y: int)
    requires b != 0 && x == (if a < 0 then 0 - a else a) && y == (if b < 0 then 0 - b else b)
    ensures Truncated(a, b) == if (a < 0) == (b < 0) then x / y else 0 - x / y
  {
    if a == 0 { assert x / y == 0; }
  }

  lemma SignedQuotient(a: int, b: int, t: int, x: int, y: int, q: int)
    requires b != 0 && x == (if a < 0 then 0 - a else a) && y == (if b < 0 then 0 - b else b) && q == x / y
    requires t == if (a < 0) == (b < 0) then q else 0 - q
    ensures Quotient(a, b, t)
  {
    var p := y * q;
    RestOf(x, y, q, p);
    SignedProduct(b, t, y, q, p, a < 0);
    RestIsSmall(a, b, t, b * t, x, y, p);
  }

  lemma RestOf(x: int, y: int, q: int, p: int)
    requires x >= 0 && y > 0 && q == x / y && p == y * q
    ensures 0 <= x - p < y && p >= 0
  {
    Rest(x, y);
    assert y * q >= 0;
  }

  lemma RestIsSmall(a: int, b: int, t: int, bt: int, x: int, y: int, p: int)
    requires bt == b * t && x == (if a < 0 then 0 - a else a) && y == (if b < 0 then 0 - b else b)
    requires bt == (if a < 0 then 0 - p else p) && 0 <= x - p < y && p >= 0
    ensures Quotient(a, b, t)
  {}

  /** There is only one such number. */
  lemma QuotientUnique(a: int, b: int, q: int, r: int)
    requires b != 0 && Quotient(a, b, q) && Quotient(a, b, r)
    ensures q == r
  {
    var d := q - r;
    assert b * q - b * r == b * d;
    Multiple(b, d);
  }

  lemma Multiple(b: int, d: int)
    ensures d >= 1 ==> (b > 0 ==> b * d >= b) && (b < 0 ==> b * d <= b)
    ensures d <= -1 ==> (b > 0 ==> b * d <= -b) && (b < 0 ==> b * d >= -b)
  {
    if d >= 1 && b > 0 { assert b * (d - 1) >= 0; }
    if d >= 1 && b < 0 { assert b * (d - 1) <= 0; }
    if d <= -1 && b > 0 { assert b * (d + 1) <= 0; }
    if d <= -1 && b < 0 { assert b * (d + 1) >= 0; }
  }

  /** What a text says behind its first `=` and a space, without the newline. */
  function Answered(text: seq<byte>): seq<byte> {
    var i := IndexOf(text, 61, 0);
    if i + 3 <= |text| then text[i + 2..|text| - 1] else []
  }

  function IndexOf(s: seq<byte>, c: byte, i: nat): (j: nat)
    requires i <= |s|
    ensures i <= j <= |s|
    ensures j < |s| ==> s[j] == c
    ensures forall n :: i <= n < j ==> s[n] != c
    decreases |s| - i
  {
    if i == |s| || s[i] == c then i else IndexOf(s, c, i + 1)
  }

  lemma AnswerAt(left: seq<byte>, right: seq<byte>, text: seq<byte>)
    requires (forall i :: 0 <= i < |left| ==> left[i] != 61) && text == left + [61, 32] + right + [10]
    ensures Answered(text) == right
  {
    var n := |left|;
    assert text[n] == 61 && forall i :: 0 <= i < n ==> text[i] == left[i];
    assert IndexOf(text, 61, 0) == n;
    assert text[n + 2..|text| - 1] == right;
  }

  lemma DecTextChars(n: int)
    requires IsInt(n)
    ensures forall i :: 0 <= i < |DecText(n)| ==> DecText(n)[i] != 61
  {
    if n != 0 && n != INT_MIN { DecimalDigits(if n < 0 then -n else n); }
  }

  lemma CalcTextAnswers(a: int, op: byte, b: int, r: int)
    requires IsInt(a) && IsInt(b) && IsInt(r) && op != 61
    ensures Answered(CalcText(a, op, b, r)) == DecText(r)
    ensures StartsWith(CalcText(a, op, b, r), DecText(a) + [32, op, 32] + DecText(b) + Ascii(" = "))
  {
    var left := DecText(a) + [32, op, 32] + DecText(b) + [32];
    DecTextChars(a);
    DecTextChars(b);
    assert CalcText(a, op, b, r) == left + [61, 32] + DecText(r) + [10];
    AnswerAt(left, DecText(r), CalcText(a, op, b, r));
    EqualsBytes();
    assert CalcText(a, op, b, r)[..|left| + 2] == left + [61, 32];
  }

  lemma EqualsBytes()
    ensures Ascii(" = ") == [32, 61, 32]
  {}

  /** The exact results, before they wrap. */
  function Exact(a: int, op: byte, b: int): int
    requires op == 43 || op == 45 || op == 42
  {
    if op == 43 then a + b else if op == 45 then a - b else a * b
  }

  /** Main result: calc adds, subtracts, multiplies and divides. Of the line printed
      the number behind the `=` is the sum, the difference or the product of the
      numbers typed, wrapped to an int, or their quotient cut towards zero; INT_MIN
      alone has no digits. */
  lemma CalcMeans(s: seq<byte>, text: seq<byte>, a: int, op: byte, b: int, r: int)
    requires Calc(s) == Printed(text)
    requires a == Signed32(Value(FirstDigits(s), Decimal)) && b == Signed32(Value(SecondDigits(s), Decimal))
    requires op == ParseCalc(s).op && r == SignedValue(Answered(text))
    ensures op == 43 || op == 45 || op == 42 || op == 47
    ensures StartsWith(text, DecText(a) + [32, op, 32] + DecText(b) + Ascii(" = "))
    ensures op != 47 && Signed32(Exact(a, op, b)) != -0x8000_0000 ==> r == Signed32(Exact(a, op, b))
    ensures op == 43 && -0x8000_0000 < a + b < 0x8000_0000 ==> r == a + b
    ensures op == 45 && -0x8000_0000 < a - b < 0x8000_0000 ==> r == a - b
    ensures op == 42 && -0x8000_0000 < a * b < 0x8000_0000 ==> r == a * b
    ensures op == 47 && !(a == -0x8000_0000 && b == 1) ==> b != 0 && Quotient(a, b, r)
  {
    NumbersRead(s, a, op, b);
    CalcTextAnswers(a, op, b, Wrap(Operate(a, op, b)));
    if op == 47 {
      DivisionMeans(a, b, Truncated(a, b), r);
    } else {
      ResultMeans(Exact(a, op, b), r);
    }
  }

  /** What the digits of a result say. */
  lemma ResultMeans(n: int, r: int)
    requires r == SignedValue(DecText(Wrap(n)))
    ensures Signed32(n) != -0x8000_0000 ==> r == Signed32(n)
    ensures -0x8000_0000 < n < 0x8000_0000 ==> r == n
  {
    WrapIsSigned32(n);
    DecTextRoundTripIff(Wrap(n));
  }

  lemma DivisionMeans(a: int, b: int, q: int, r: int)
    requires IsInt(a) && IsInt(b) && b != 0 && !(a == INT_MIN && b == -1) && q == Truncated(a, b)
    requires r == SignedValue(DecText(Wrap(q)))
    ensures !(a == INT_MIN && b == 1) ==> Quotient(a, b, r)
  {
    TruncatedIsQuotient(a, b);
    QuotientFits(a, b);
    ResultMeans(q, r);
  }

  lemma NumbersRead(s: seq<byte>, a: int, op: byte, b: int)
    requires a == Signed32(Value(FirstDigits(s), Decimal)) && b == Signed32(Value(SecondDigits(s), Decimal))
    requires op == ParseCalc(s).op && IsOperator(op)
    ensures ParseCalc(s) == Expr(a, op, b)
  {
    AccumulatedWraps(FirstDigits(s));
    AccumulatedWraps(SecondDigits(s));
    WrapIsSigned32(Value(FirstDigits(s), Decimal));
    WrapIsSigned32(Value(SecondDigits(s), Decimal));
  }

  lemma QuotientFits(a: int, b: int)
    requires IsInt(a) && IsInt(b) && b != 0 && !(a == INT_MIN && b == -1)
    ensures IsInt(Truncated(a, b)) && (Truncated(a, b) == INT_MIN ==> a == INT_MIN && b == 1)
  {
    var x, y := if a < 0 then -a else a, if b < 0 then -b else b;
    Rest(x, y);
    assert Truncated(a, b) == if (a < 0) == (b < 0) then x / y else -(x / y);
  }

  /** When calc prints no result. */
  lemma CalcRefusesIff(s: seq<byte>)
    ensures Calc(s) == CalcUsage <==> ParseCalc(s).op !in {43, 45, 42, 47}
    ensures Calc(s) == DivisionByZero <==>
      ParseCalc(s).op == 47 && Value(SecondDigits(s), Decimal) % 0x1_0000_0000 == 0
  {
    if ParseCalc(s).op == 47 {
      NumbersRead(s, Signed32(Value(FirstDigits(s), Decimal)), 47, Signed32(Value(SecondDigits(s), Decimal)));
    }
  }

  lemma OneDigit(n: nat)
    requires 0 < n < 10
    ensures DecText(n) == Digits(n, Decimal) == [48 + n] && Value([48 + n], Decimal) == n
  {
    assert n / 10 == 0 && Digits(0, Decimal) == [];
    assert [48 + n] == [] + [48 + n];
    DecimalReads([], 48 + n);
  }

  lemma SumBytes()
    ensures Ascii("5 + 3") == [53, 32, 43, 32, 51]
    ensures Ascii("5 + 3 = 8\n") == [53, 32, 43, 32, 51, 32, 61, 32, 56, 10]
  {}

  lemma SumReads(s: seq<byte>)
    requires s == [53, 32, 43, 32, 51]
    ensures FirstDigits(s) == [53] && SecondDigits(s) == [51] && ParseCalc(s).op == 43
  {
    assert Blanks(0) == [] && Blanks(1) == [32];
    assert s == CalcArgs(0, [53], 1, 43, Blanks(1) + [51] + []);
    CalcTyped(0, [53], 1, 43, 1, [51], [], s);
  }

  /** `calc 5 + 3` prints 8. */
  lemma FivePlusThree(s: seq<byte>)
    requires s == Ascii("5 + 3")
    ensures Calc(s) == Printed(Ascii("5 + 3 = 8\n"))
  {
    SumBytes();
    SumReads(s);
    OneDigit(5);
    OneDigit(3);
    NumbersRead(s, 5, 43, 3);
    CalcOfParsed(s, 5, 43, 3, 8);
    SumText();
  }

  lemma SumText()
    ensures CalcText(5, 43, 3, 8) == [53, 32, 43, 32, 51, 32, 61, 32, 56, 10]
  {
    OneDigit(5);
    OneDigit(3);
    OneDigit(8);
  }
}
