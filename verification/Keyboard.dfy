// kernel/keyboard.c: scancodes to characters.
module KeyboardCode {
  import opened CLib

  /** keyboard_map and keyboard_map_shifted. */
  datatype Tables = Tables(plain: seq<byte>, shifted: seq<byte>)

  predicate TablesOk(t: Tables) {
    |t.plain| == 128 && |t.shifted| == 128
  }

  function Layout(t: Tables, shift: bool, code: byte): byte
    requires TablesOk(t) && code < 0x80
  {
    if shift then t.shifted[code] else t.plain[code]
  }

  /** Shift keys and scancode 0 have no character. */
  predicate NoCharacterOnShift(t: Tables)
    requires TablesOk(t)
  {
    && t.plain[0] == t.plain[0x2A] == t.plain[0x36] == 0
    && t.shifted[0] == t.shifted[0x2A] == t.shifted[0x36] == 0
  }

  function Pick(shift: bool, plain: char, shifted: char): byte
    requires plain < 128 as char && shifted < 128 as char
  {
    if shift then shifted as int else plain as int
  }

  /** The US layout; 0 where a key has no character. */
  function UsKey(shift: bool, code: byte): byte {
    match code
    case 1 => 27
    case 2 => Pick(shift, '1', '!')
    case 3 => Pick(shift, '2', '@')
    case 4 => Pick(shift, '3', '#')
    case 5 => Pick(shift, '4', '$')
    case 6 => Pick(shift, '5', '%')
    case 7 => Pick(shift, '6', '^')
    case 8 => Pick(shift, '7', '&')
    case 9 => Pick(shift, '8', '*')
    case 10 => Pick(shift, '9', '(')
    case 11 => Pick(shift, '0', ')')
    case 12 => Pick(shift, '-', '_')
    case 13 => Pick(shift, '=', '+')
    case 14 => 8
    case 15 => 9
    case 16 => Pick(shift, 'q', 'Q')
    case 17 => Pick(shift, 'w', 'W')
    case 18 => Pick(shift, 'e', 'E')
    case 19 => Pick(shift, 'r', 'R')
    case 20 => Pick(shift, 't', 'T')
    case 21 => Pick(shift, 'y', 'Y')
    case 22 => Pick(shift, 'u', 'U')
    case 23 => Pick(shift, 'i', 'I')
    case 24 => Pick(shift, 'o', 'O')
    case 25 => Pick(shift, 'p', 'P')
    case 26 => Pick(shift, '[', '{')
    case 27 => Pick(shift, ']', '}')
    case 28 => 10
    case 30 => Pick(shift, 'a', 'A')
    case 31 => Pick(shift, 's', 'S')
    case 32 => Pick(shift, 'd', 'D')
    case 33 => Pick(shift, 'f', 'F')
    case 34 => Pick(shift, 'g', 'G')
    case 35 => Pick(shift, 'h', 'H')
    case 36 => Pick(shift, 'j', 'J')
    case 37 => Pick(shift, 'k', 'K')
    case 38 => Pick(shift, 'l', 'L')
    case 39 => Pick(shift, ';', ':')
    case 40 => Pick(shift, '\'', '\"')
    case 41 => Pick(shift, '`', '~')
    case 43 => Pick(shift, '\\', '|')
    case 44 => Pick(shift, 'z', 'Z')
    case 45 => Pick(shift, 'x', 'X')
    case 46 => Pick(shift, 'c', 'C')
    case 47 => Pick(shift, 'v', 'V')
    case 48 => Pick(shift, 'b', 'B')
    case 49 => Pick(shift, 'n', 'N')
    case 50 => Pick(shift, 'm', 'M')
    case 51 => Pick(shift, ',', '<')
    case 52 => Pick(shift, '.', '>')
    case 53 => Pick(shift, '/', '?')
    case 55 => Pick(shift, '*', '*')
    case 57 => Pick(shift, ' ', ' ')
    case 74 => if shift then 0 else Pick(shift, '-', '-')
    case 78 => if shift then 0 else Pick(shift, '+', '+')
    case _ => 0
  }

  function UsTables(): (t: Tables)
    ensures TablesOk(t)
  {
    Tables(seq(128, i requires 0 <= i < 128 => UsKey(false, i)), seq(128, i requires 0 <= i < 128 => UsKey(true, i)))
  }

  lemma UsTablesFit()
    ensures NoCharacterOnShift(UsTables())
  {
    assert UsKey(false, 0) == 0;
  }

  predicate ShiftPress(code: byte) { code == 0x2A || code == 0x36 }

  predicate ShiftRelease(code: byte) { code == 0xAA || code == 0xB6 }

  // ---- The driver as a state machine ----

  datatype Kbd = Kbd(shift: bool, last: byte)

  /** One scancode: the new state, and the character it yields (0 for none). */
  function Event(t: Tables, k: Kbd, code: byte): (Kbd, byte)
    requires TablesOk(t)
  {
    if code == k.last then (k, 0)
    else if ShiftPress(code) then (Kbd(true, code), 0)
    else if ShiftRelease(code) then (Kbd(false, code), 0)
    else if code >= 0x80 then (Kbd(k.shift, code), 0)
    else (Kbd(k.shift, code), Layout(t, k.shift, code))
  }

  function Emit(text: seq<byte>, c: byte): seq<byte> {
    if c == 0 then text else text + [c]
  }

  /** The characters returned over a stream of scancodes. */
  function KeyRun(t: Tables, k: Kbd, codes: seq<byte>): (Kbd, seq<byte>)
    requires TablesOk(t)
  {
    if codes == [] then (k, []) else
    var (k', text) := KeyRun(t, k, codes[..|codes| - 1]);
    var (k'', c) := Event(t, k', codes[|codes| - 1]);
    (k'', Emit(text, c))
  }

  lemma {:induction false} KeyRunAppend(t: Tables, k: Kbd, a: seq<byte>, b: seq<byte>)
    requires TablesOk(t)
    ensures KeyRun(t, k, a + b).0 == KeyRun(t, KeyRun(t, k, a).0, b).0
    ensures KeyRun(t, k, a + b).1 == KeyRun(t, k, a).1 + KeyRun(t, KeyRun(t, k, a).0, b).1
  {
    if b == [] {
      assert a + b == a;
    } else {
      var n := |b| - 1;
      assert (a + b)[..|a + b| - 1] == a + b[..n];
      KeyRunAppend(t, k, a, b[..n]);
    }
  }

  // ---- What it should do ----

  /** The stream with adjacent repeats removed; `before` precedes it. */
  function NoRepeats(before: byte, codes: seq<byte>): seq<byte> {
    if codes == [] then [] else
    var n := |codes| - 1;
    var front := NoRepeats(before, codes[..n]);
    if codes[n] == (if n == 0 then before else codes[n - 1]) then front else front + [codes[n]]
  }

  /** Whether the last shift event in `codes` is a press. */
  function Shifted(initially: bool, codes: seq<byte>): bool {
    if codes == [] then initially
    else if ShiftPress(codes[|codes| - 1]) then true
    else if ShiftRelease(codes[|codes| - 1]) then false
    else Shifted(initially, codes[..|codes| - 1])
  }

  /** Every key press gives its layout character under the shift in force then. */
  function Decode(t: Tables, initially: bool, codes: seq<byte>): seq<byte>
    requires TablesOk(t)
  {
    if codes == [] then [] else
    var n := |codes| - 1;
    Emit(Decode(t, initially, codes[..n]),
         if ShiftPress(codes[n]) || codes[n] >= 0x80 then 0 else Layout(t, Shifted(initially, codes[..n]), codes[n]))
  }

  /** Main result: on every scancode stream the driver returns the decoding of the
      stream without adjacent repeats. */
  lemma {:induction false} DriverDecodes(t: Tables, k: Kbd, codes: seq<byte>)
    requires TablesOk(t)
    ensures var ds := NoRepeats(k.last, codes);
      && KeyRun(t, k, codes).1 == Decode(t, k.shift, ds)
      && KeyRun(t, k, codes).0.shift == Shifted(k.shift, ds)
      && KeyRun(t, k, codes).0.last == (if codes == [] then k.last else codes[|codes| - 1])
  {
    if codes != [] {
      var n := |codes| - 1;
      DriverDecodes(t, k, codes[..n]);
      var k' := KeyRun(t, k, codes[..n]).0;
      if codes[n] != k'.last {
        DecodeMore(t, k', k.shift, NoRepeats(k.last, codes[..n]), codes[n]);
      }
    }
  }

  /** One event that is not a repeat. */
  lemma DecodeMore(t: Tables, k: Kbd, initially: bool, ds: seq<byte>, c: byte)
    requires TablesOk(t)
    requires c != k.last && k.shift == Shifted(initially, ds)
    ensures Decode(t, initially, ds + [c]) == Emit(Decode(t, initially, ds), Event(t, k, c).1)
    ensures Shifted(initially, ds + [c]) == Event(t, k, c).0.shift
  {
    assert (ds + [c])[..|ds|] == ds;
  }

  // ---- Typing ----

  datatype Key = Key(shift: bool, code: byte)

  predicate Typable(t: Tables, key: Key)
    requires TablesOk(t)
  {
    key.code < 0x80 && Layout(t, key.shift, key.code) != 0
  }

  /** Press and release one key, inside a press and release of left shift if needed. */
  function Strokes(key: Key): seq<byte>
    requires key.code < 0x80
  {
    if key.shift then [0x2A, key.code, key.code + 0x80, 0xAA] else [key.code, key.code + 0x80]
  }

  function Scancodes(t: Tables, keys: seq<Key>): seq<byte>
    requires TablesOk(t)
    requires forall i :: 0 <= i < |keys| ==> Typable(t, keys[i])
  {
    if keys == [] then [] else
    assert Typable(t, keys[0]);
    Strokes(keys[0]) + Scancodes(t, keys[1..])
  }

  function Characters(t: Tables, keys: seq<Key>): seq<byte>
    requires TablesOk(t) && forall i :: 0 <= i < |keys| ==> Typable(t, keys[i])
  {
    if keys == [] then [] else
    assert Typable(t, keys[0]);
    [Layout(t, keys[0].shift, keys[0].code)] + Characters(t, keys[1..])
  }

  /** No shift held, and the last scancode was a release (or none yet). */
  predicate AtRest(k: Kbd) {
    !k.shift && (k.last == 0 || k.last >= 0x80)
  }

  lemma OneKey(t: Tables, k: Kbd, key: Key)
    requires TablesOk(t)
    requires AtRest(k) && NoCharacterOnShift(t) && Typable(t, key)
    ensures AtRest(KeyRun(t, k, Strokes(key)).0)
    ensures KeyRun(t, k, Strokes(key)).1 == [Layout(t, key.shift, key.code)]
  {
    var c := key.code;
    PlainKeys(t, key.shift, c);
    if key.shift {
      TwoCodes(t, k, 0x2A, c, Kbd(true, 0x2A), Kbd(true, c), 0, Layout(t, true, c));
      TwoCodes(t, Kbd(true, c), c + 0x80, 0xAA, Kbd(true, c + 0x80), Kbd(false, 0xAA), 0, 0);
      KeyRunAppend(t, k, [0x2A, c], [c + 0x80, 0xAA]);
      assert Strokes(key) == [0x2A, c] + [c + 0x80, 0xAA];
    } else {
      TwoCodes(t, k, c, c + 0x80, Kbd(false, c), Kbd(false, c + 0x80), Layout(t, false, c), 0);
    }
  }

  lemma TwoCodes(t: Tables, k: Kbd, a: byte, b: byte, k1: Kbd, k2: Kbd, c1: byte, c2: byte)
    requires TablesOk(t) && Event(t, k, a) == (k1, c1) && Event(t, k1, b) == (k2, c2)
    ensures KeyRun(t, k, [a, b]) == (k2, Emit(Emit([], c1), c2))
  {
    OneMore(t, k, [], a);
    assert [] + [a] == [a];
    OneMore(t, k, [a], b);
    assert [a] + [b] == [a, b];
  }

  lemma PlainKeys(t: Tables, shift: bool, code: byte)
    requires TablesOk(t) && NoCharacterOnShift(t) && code < 0x80 && Layout(t, shift, code) != 0
    ensures code != 0 && !ShiftPress(code)
    ensures !ShiftRelease(code + 0x80)
  {
    assert code != 0x2A && code != 0x36 && code != 0;
  }

  lemma OneMore(t: Tables, k: Kbd, codes: seq<byte>, code: byte)
    requires TablesOk(t)
    ensures KeyRun(t, k, codes + [code]).0 == Event(t, KeyRun(t, k, codes).0, code).0
    ensures KeyRun(t, k, codes + [code]).1 == Emit(KeyRun(t, k, codes).1, Event(t, KeyRun(t, k, codes).0, code).1)
  {
    assert (codes + [code])[..|codes|] == codes;
  }

  /** Typing any keys of the layout, one after the other, yields their characters. */
  lemma {:induction false} TypingRoundTrip(t: Tables, k: Kbd, keys: seq<Key>)
    requires TablesOk(t)
    requires AtRest(k) && NoCharacterOnShift(t) && forall i :: 0 <= i < |keys| ==> Typable(t, keys[i])
    ensures KeyRun(t, k, Scancodes(t, keys)).1 == Characters(t, keys)
    ensures AtRest(KeyRun(t, k, Scancodes(t, keys)).0)
    decreases |keys|
  {
    if keys != [] {
      OneKey(t, k, keys[0]);
      var k' := KeyRun(t, k, Strokes(keys[0])).0;
      TypingRoundTrip(t, k', keys[1..]);
      KeyRunAppend(t, k, Strokes(keys[0]), Scancodes(t, keys[1..]));
    }
  }

  // ---- The US keyboard ----

  /** The characters of `n` keys in a row. */
  function KeyRow(shift: bool, from: nat, n: nat): (text: seq<byte>)
    requires from + n <= 0x80
    ensures |text| == n
  {
    seq<byte>(n, i requires 0 <= i < n => Layout(UsTables(), shift, from + i))
  }

  lemma KeyIs(shift: bool, code: byte)
    requires code < 0x80
    ensures Layout(UsTables(), shift, code) == UsKey(shift, code)
  {
    var t := UsTables();
    assert t.plain[code] == UsKey(false, code);
    assert t.shifted[code] == UsKey(true, code);
  }

  lemma RowIs(shift: bool, from: nat, text: seq<byte>)
    requires from + |text| <= 0x80 && forall i :: 0 <= i < |text| ==> UsKey(shift, from + i) == text[i]
    ensures KeyRow(shift, from, |text|) == text
  {
    forall i | 0 <= i < |text| ensures KeyRow(shift, from, |text|)[i] == text[i] {
      KeyIs(shift, from + i);
    }
  }

  /** The four rows without shift. */
  lemma PlainRows()
    ensures KeyRow(false, 2, 12) == Ascii("1234567890-=")
    ensures KeyRow(false, 16, 12) == Ascii("qwertyuiop[]")
    ensures KeyRow(false, 30, 12) == Ascii("asdfghjkl;'`")
    ensures KeyRow(false, 43, 11) == Ascii("\\zxcvbnm,./")
  {
    RowIs(false, 2, Ascii("1234567890-="));
    RowIs(false, 16, Ascii("qwertyuiop[]"));
    RowIs(false, 30, Ascii("asdfghjkl;'`"));
    RowIs(false, 43, Ascii("\\zxcvbnm,./"));
  }

  /** And with it. */
  lemma ShiftedRows()
    ensures KeyRow(true, 2, 12) == Ascii("!@#$%^&*()_+")
    ensures KeyRow(true, 16, 12) == Ascii("QWERTYUIOP{}")
    ensures KeyRow(true, 30, 12) == Ascii("ASDFGHJKL:\"~")
    ensures KeyRow(true, 43, 11) == Ascii("|ZXCVBNM<>?")
  {
    RowIs(true, 2, Ascii("!@#$%^&*()_+"));
    RowIs(true, 16, Ascii("QWERTYUIOP{}"));
    RowIs(true, 30, Ascii("ASDFGHJKL:\"~"));
    RowIs(true, 43, Ascii("|ZXCVBNM<>?"));
  }

  /** Backspace, tab and Enter, the space bar, Escape and the keypad. */
  lemma OtherKeys(shift: bool)
    ensures KeyRow(shift, 14, 2) == [8, 9] && KeyRow(shift, 28, 1) == [10] && KeyRow(shift, 57, 1) == [32]
    ensures KeyRow(shift, 1, 1) == [27] && KeyRow(shift, 55, 1) == Ascii("*")
    ensures KeyRow(shift, 74, 1) == (if shift then [0] else Ascii("-"))
    ensures KeyRow(shift, 78, 1) == (if shift then [0] else Ascii("+"))
  {
    RowIs(shift, 14, [8, 9]);
    RowIs(shift, 28, [10]);
    RowIs(shift, 57, [32]);
    RowIs(shift, 1, [27]);
    RowIs(shift, 55, Ascii("*"));
    RowIs(shift, 74, if shift then [0] else Ascii("-"));
    RowIs(shift, 78, if shift then [0] else Ascii("+"));
  }

  /** No other key has a character. */
  lemma SilentKeys(shift: bool, code: byte)
    requires code == 0 || code == 29 || code == 42 || code == 54 || code == 56 || 58 <= code < 0x80
    requires code != 74 && code != 78
    ensures Layout(UsTables(), shift, code) == 0
  {
    KeyIs(shift, code);
  }

  /** A key by itself, and one with a shift key held, from a keyboard at rest. */
  lemma HeldShift(k: Kbd, shift: byte, code: byte)
    requires AtRest(k) && (shift == 0x2A || shift == 0x36) && 0 < code < 0x80 && code != 0x2A && code != 0x36
    ensures KeyRun(UsTables(), k, [code]).1 == Emit([], KeyRow(false, code, 1)[0])
    ensures KeyRun(UsTables(), k, [shift, code]).1 == Emit([], KeyRow(true, code, 1)[0])
    ensures KeyRun(UsTables(), k, [shift, shift + 0x80, code]).1 == Emit([], KeyRow(false, code, 1)[0])
  {
    var t := UsTables();
    OneMore(t, k, [], code);
    assert [] + [code] == [code];
    TwoCodes(t, k, shift, code, Kbd(true, shift), Kbd(true, code), 0, Layout(t, true, code));
    TwoCodes(t, k, shift, shift + 0x80, Kbd(true, shift), Kbd(false, shift + 0x80), 0, 0);
    OneMore(t, k, [shift, shift + 0x80], code);
    assert [shift, shift + 0x80] + [code] == [shift, shift + 0x80, code];
  }

  /** The key to the right of caps lock: 'a', and 'A' while either shift key is held. */
  lemma KeyA(k: Kbd)
    requires AtRest(k)
    ensures KeyRun(UsTables(), k, [0x1E]).1 == Ascii("a")
    ensures KeyRun(UsTables(), k, [0x2A, 0x1E]).1 == KeyRun(UsTables(), k, [0x36, 0x1E]).1 == Ascii("A")
    ensures KeyRun(UsTables(), k, [0x36, 0xB6, 0x1E]).1 == Ascii("a")
  {
    HeldShift(k, 0x2A, 0x1E);
    HeldShift(k, 0x36, 0x1E);
    PlainRows();
    ShiftedRows();
    assert KeyRow(false, 0x1E, 1)[0] == KeyRow(false, 30, 12)[0] == Ascii("asdfghjkl;'`")[0] == 97;
    assert KeyRow(true, 0x1E, 1)[0] == KeyRow(true, 30, 12)[0] == Ascii("ASDFGHJKL:\"~")[0] == 65;
  }

  // ---- keyboard_getchar ----

  class Keyboard {
    const tables: Tables
    var shift: bool
    var last: byte

    function State(): Kbd
      reads this
    {
      Kbd(shift, last)
    }

    /** keyboard_init */
    constructor (tables: Tables)
      requires TablesOk(tables)
      ensures State() == Kbd(false, 0) && this.tables == tables
    {
      this.tables := tables;
      shift, last := false, 0;
    }

    /** Polls until a scancode yields a character. `input` holds the scancodes the
        controller delivers; 0 stands for still polling when they run out. */
    method GetChar(input: seq<byte>) returns (c: byte, used: nat)
      requires TablesOk(tables)
      modifies this
      ensures used <= |input| && (c == 0 ==> used == |input|)
      ensures (State(), Emit([], c)) == KeyRun(tables, old(State()), input[..used])
    {
      used := 0;
      while used < |input|
        invariant used <= |input|
        invariant (State(), []) == KeyRun(tables, old(State()), input[..used])
      {
        assert input[..used + 1][..used] == input[..used];
        var code := input[used];
        used := used + 1;
        if code == last {
          continue;
        }
        last := code;
        if code == 0x2A || code == 0x36 {
          shift := true;
          continue;
        }
        if code == 0xAA || code == 0xB6 {
          shift := false;
          continue;
        }
        if code >= 0x80 {
          continue;
        }
        c := Layout(tables, shift, code);
        if c != 0 {
          return;
        }
      }
      c := 0;
    }
  }
}
