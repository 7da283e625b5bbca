// SzymFS as functions on its bytes, and the proof that each operation does to
// the map of names to texts what it should.
module FsSpec {
  import opened CLib
  import opened FsLayout
  import opened SlotMap

  // ---- The table as slots ----

  function Content(e: Entry, d: Data): seq<byte> {
    if Offset(e) + Size(e) <= DATA_SIZE then d[Offset(e)..Offset(e) + Size(e)] else []
  }

  function SlotOf(e: Entry, d: Data): Slot {
    if Used(e) then File(Name(e), Content(e, d)) else Empty
  }

  function Slots(h: Header, d: Data): (ss: seq<Slot>)
    ensures |ss| == MAX_FILES
  {
    seq(MAX_FILES, i requires 0 <= i < MAX_FILES => SlotOf(EntryOf(h, i), d))
  }

  /** A used entry: a NUL-terminated name, and a text of at most 4096 bytes in the
      slot's own 4 KiB of the data array. */
  ghost predicate EntryOk(e: Entry, i: nat) {
    Terminated(e[..MAX_FILENAME]) && Size(e) <= MAX_FILE_SIZE && Offset(e) == MAX_FILE_SIZE * i
  }

  ghost predicate EntriesOk(h: Header) {
    forall i :: 0 <= i < MAX_FILES && Used(EntryOf(h, i)) ==> EntryOk(EntryOf(h, i), i)
  }

  /** What makes a table, in memory or on disk, stand for a map. */
  ghost predicate Ok(h: Header, d: Data) {
    Magic(h) == MAGIC && EntriesOk(h) && Distinct(Slots(h, d))
  }

  /** file_count is the number of used entries. No operation looks at it but `ls`. */
  ghost predicate CountFits(h: Header, d: Data) {
    Count(h) == UsedCount(Slots(h, d))
  }

  /** `d'` differs from `d` only inside slot `i`'s part of the data array. */
  ghost predicate OnlySlot(d: Data, d': Data, i: nat) {
    forall k {:trigger d'[k]} :: 0 <= k < DATA_SIZE && !(MAX_FILE_SIZE * i <= k < MAX_FILE_SIZE * i + MAX_FILE_SIZE) ==>
      d'[k] == d[k]
  }

  lemma OtherContent(e: Entry, j: nat, i: nat, d: Data, d': Data)
    requires i < MAX_FILES && j < MAX_FILES && i != j && OnlySlot(d, d', i)
    requires Size(e) <= MAX_FILE_SIZE && Offset(e) == MAX_FILE_SIZE * j
    ensures Content(e, d') == Content(e, d)
  {
    assert j < i || i < j;
    forall k | Offset(e) <= k < Offset(e) + Size(e) ensures d'[k] == d[k] {}
  }

  /** Changing one entry and the count, and data only in that slot, changes one slot. */
  lemma EntryChanged(h: Header, d: Data, i: nat, e: Entry, n: nat, d': Data)
    requires EntriesOk(h) && i < MAX_FILES && n < U32_LIMIT && OnlySlot(d, d', i)
    requires Used(e) ==> EntryOk(e, i)
    ensures var h' := WithCount(WithEntry(h, i, e), n);
      && Magic(h') == Magic(h) && Count(h') == n && EntriesOk(h')
      && Slots(h', d') == Slots(h, d)[i := SlotOf(e, d')]
  {
    WithEntryAndCount(h, i, e, n);
    forall j | 0 <= j < MAX_FILES && j != i && Used(EntryOf(h, j))
      ensures EntryOk(EntryOf(h, j), j) && SlotOf(EntryOf(h, j), d') == SlotOf(EntryOf(h, j), d)
    {
      OtherContent(EntryOf(h, j), j, i, d, d');
    }
  }

  // ---- The state and the operations ----

  /** Everything the file system reads and writes: its static variables and the
      259 sectors it owns on the disk. */
  datatype Fs = Fs(header: Header, data: Data, ready: bool, persistent: bool, selected: bool, disk: Image)

  function SlotsIn(s: Fs): (ss: seq<Slot>)
    ensures |ss| == MAX_FILES
  {
    Slots(s.header, s.data)
  }

  function FilesIn(s: Fs): Files { FilesOf(SlotsIn(s)) }

  /** The outcome of one save: the bytes that lay behind the header, and how many
      sector writes succeed before the first that fails. */
  datatype Io = Io(tail: Tail, good: nat)

  predicate Complete(io: Io) { io.good >= IMAGE_SECTORS }

  function Save(s: Fs, io: Io): Fs {
    if !s.selected then s.(persistent := false)
    else s.(disk := Torn(s.disk, ImageOf(s.header, io.tail, s.data), io.good),
            persistent := s.persistent && Complete(io))
  }

  function CreateCode(s: Fs, name: seq<byte>, content: seq<byte>): int {
    if !s.ready then -1
    else if Find(SlotsIn(s), name) >= 0 then -2
    else if Free(SlotsIn(s)) < 0 then -3
    else if |content| > MAX_FILE_SIZE then -4
    else 0
  }

  function Put(s: Fs, i: nat, e: Entry, count: nat, d: Data): Fs
    requires i < MAX_FILES
  {
    s.(header := WithCount(WithEntry(s.header, i, e), count), data := d)
  }

  /** Memory after the new file is entered in slot `i`, before the save. */
  function EnterAt(s: Fs, i: nat, name: seq<byte>, content: seq<byte>): Fs
    requires i < MAX_FILES && |content| <= MAX_FILE_SIZE
  {
    Put(s, i, FilledEntry(EntryOf(s.header, i), name, |content|, MAX_FILE_SIZE * i),
        (Count(s.header) + 1) % U32_LIMIT, Splice(s.data, MAX_FILE_SIZE * i, content))
  }

  function Entered(s: Fs, name: seq<byte>, content: seq<byte>): Fs
    requires CreateCode(s, name, content) == 0
  {
    EnterAt(s, Free(SlotsIn(s)), name, content)
  }

  function Create(s: Fs, name: seq<byte>, content: seq<byte>, io: Io): Fs {
    if CreateCode(s, name, content) == 0 then Save(Entered(s, name, content), io) else s
  }

  function DeleteCode(s: Fs, name: seq<byte>): int {
    if !s.ready || Find(SlotsIn(s), name) < 0 then -1 else 0
  }

  /** Memory after the file in slot `i` is dropped, before the save. */
  function DropAt(s: Fs, i: nat): Fs
    requires i < MAX_FILES
  {
    Put(s, i, FreedEntry(EntryOf(s.header, i)), (Count(s.header) + U32_LIMIT - 1) % U32_LIMIT, s.data)
  }

  function Dropped(s: Fs, name: seq<byte>): Fs
    requires DeleteCode(s, name) == 0
  {
    DropAt(s, Find(SlotsIn(s), name))
  }

  function Delete(s: Fs, name: seq<byte>, io: Io): Fs {
    if DeleteCode(s, name) == 0 then Save(Dropped(s, name), io) else s
  }

  function Min(a: nat, b: nat): nat { if a < b then a else b }

  function ReadCode(s: Fs, name: seq<byte>, max: nat): int
    requires max >= 1
  {
    var i := Find(SlotsIn(s), name);
    if !s.ready || i < 0 then -1 else Min(Size(EntryOf(s.header, i)), max - 1)
  }

  function Prefix(e: Entry, d: Data, n: nat): seq<byte> {
    if Offset(e) + Size(e) > DATA_SIZE then [] else d[Offset(e)..Offset(e) + Min(Size(e), n)]
  }

  /** The bytes put into the caller's buffer. */
  function ReadBytes(s: Fs, name: seq<byte>, max: nat): seq<byte>
    requires max >= 1
  {
    var i := Find(SlotsIn(s), name);
    if !s.ready || i < 0 then [] else
    Prefix(EntryOf(s.header, i), s.data, max - 1) + [0]
  }

  // ---- What the operations promise ----

  /** fs_create_file adds exactly the new key, with exact result codes. A file_count
      that was right stays right, and one that was wrong stays wrong. */
  lemma CreateRefines(s: Fs, name: seq<byte>, content: seq<byte>, io: Io)
    requires s.ready && Ok(s.header, s.data)
    requires NulFree(name) && |name| < MAX_FILENAME
    ensures var m, code, s' := FilesIn(s), CreateCode(s, name, content), Create(s, name, content, io);
      && code == (if name in m then -2 else if |m| == MAX_FILES then -3 else if |content| > MAX_FILE_SIZE then -4 else 0)
      && FilesIn(s') == (if code == 0 then m[name := content] else m)
      && Ok(s'.header, s'.data)
      && (CountFits(s'.header, s'.data) <==> CountFits(s.header, s.data))
  {
    var ss := SlotsIn(s);
    InFilesIffFound(ss, name);
    NamesCount(ss);
    FullIffNoneFree(ss);
    assert |FilesIn(s)| == |Names(ss)|;
    if CreateCode(s, name, content) == 0 {
      EnterAtRefines(s, Free(ss), name, content);
    }
  }

  /** A filled entry and its text make the slot they should. */
  lemma FilledEntryOk(e: Entry, name: seq<byte>, content: seq<byte>, i: nat, d: Data)
    requires NulFree(name) && |content| <= MAX_FILE_SIZE && i < MAX_FILES
    ensures var f, d' := FilledEntry(e, name, |content|, MAX_FILE_SIZE * i), Splice(d, MAX_FILE_SIZE * i, content);
      Used(f) && EntryOk(f, i) && SlotOf(f, d') == File(CutName(name), content) && OnlySlot(d, d', i)
  {
    FilledEntryFields(e, name, |content|, MAX_FILE_SIZE * i);
    var d' := Splice(d, MAX_FILE_SIZE * i, content);
    assert d'[MAX_FILE_SIZE * i..MAX_FILE_SIZE * i + |content|] == content;
  }

  lemma PutSlots(s: Fs, i: nat, e: Entry, n: nat, d': Data, slot: Slot, t: Fs)
    requires EntriesOk(s.header) && i < MAX_FILES && n < U32_LIMIT && OnlySlot(s.data, d', i)
    requires Used(e) ==> EntryOk(e, i)
    requires SlotOf(e, d') == slot && t == Put(s, i, e, n, d')
    ensures Magic(t.header) == Magic(s.header) && Count(t.header) == n && EntriesOk(t.header)
    ensures SlotsIn(t) == SlotsIn(s)[i := slot]
  {
    EntryChanged(s.header, s.data, i, e, n, d');
  }

  /** Entering a file fills one slot, under the name as stored. */
  lemma EnterAtSlots(s: Fs, i: nat, name: seq<byte>, content: seq<byte>)
    requires EntriesOk(s.header)
    requires i < MAX_FILES && |content| <= MAX_FILE_SIZE && NulFree(name)
    ensures var t := EnterAt(s, i, name, content);
      && Magic(t.header) == Magic(s.header) && EntriesOk(t.header)
      && Count(t.header) == (Count(s.header) + 1) % U32_LIMIT
      && SlotsIn(t) == SlotsIn(s)[i := File(CutName(name), content)]
  {
    FilledEntryOk(EntryOf(s.header, i), name, content, i, s.data);
    PutSlots(s, i, FilledEntry(EntryOf(s.header, i), name, |content|, MAX_FILE_SIZE * i),
             (Count(s.header) + 1) % U32_LIMIT, Splice(s.data, MAX_FILE_SIZE * i, content), File(CutName(name), content),
             EnterAt(s, i, name, content));
  }

  /** Dropping a file empties one slot. */
  lemma DropAtSlots(s: Fs, i: nat)
    requires EntriesOk(s.header) && i < MAX_FILES
    ensures var t := DropAt(s, i);
      && Magic(t.header) == Magic(s.header) && EntriesOk(t.header)
      && Count(t.header) == (Count(s.header) + U32_LIMIT - 1) % U32_LIMIT
      && SlotsIn(t) == SlotsIn(s)[i := Empty]
  {
    PutSlots(s, i, FreedEntry(EntryOf(s.header, i)), (Count(s.header) + U32_LIMIT - 1) % U32_LIMIT,
             s.data, Empty, DropAt(s, i));
  }

  lemma EnterAtRefines(s: Fs, i: nat, name: seq<byte>, content: seq<byte>)
    requires Ok(s.header, s.data) && i < MAX_FILES && SlotsIn(s)[i].Empty? && name !in FilesIn(s)
    requires NulFree(name) && |name| < MAX_FILENAME && |content| <= MAX_FILE_SIZE
    ensures var t := EnterAt(s, i, name, content);
      && Ok(t.header, t.data) && FilesIn(t) == FilesIn(s)[name := content]
      && (CountFits(t.header, t.data) <==> CountFits(s.header, s.data))
  {
    EnterAtSlots(s, i, name, content);
    OneGained(EnterAt(s, i, name, content), SlotsIn(s), Count(s.header), i, name, content);
  }

  lemma OneGained(t: Fs, ss: seq<Slot>, n: nat, i: nat, name: seq<byte>, text: seq<byte>)
    requires Distinct(ss) && i < |ss| == MAX_FILES && ss[i].Empty? && name !in FilesOf(ss) && n < U32_LIMIT
    requires Magic(t.header) == MAGIC && EntriesOk(t.header) && Count(t.header) == (n + 1) % U32_LIMIT
    requires SlotsIn(t) == ss[i := File(name, text)]
    ensures Ok(t.header, t.data) && FilesIn(t) == FilesOf(ss)[name := text]
    ensures CountFits(t.header, t.data) <==> n == UsedCount(ss)
  {
    FillSlot(ss, i, name, text);
    CountMoves(t, ss, n, i, File(name, text));
  }

  /** file_count and the number of used entries change alike. */
  lemma CountMoves(t: Fs, ss: seq<Slot>, n: nat, i: nat, slot: Slot)
    requires i < |ss| == MAX_FILES && Weight(slot) != Weight(ss[i]) && n < U32_LIMIT && SlotsIn(t) == ss[i := slot]
    requires Count(t.header) == (if slot.File? then n + 1 else n + U32_LIMIT - 1) % U32_LIMIT
    ensures CountFits(t.header, t.data) <==> n == UsedCount(ss)
  {
    UsedCountUpdate(ss, i, slot);
    BothMove(n, Count(t.header), UsedCount(ss), UsedCount(SlotsIn(t)), slot.File?);
  }

  lemma BothMove(n: nat, n': nat, u: nat, u': nat, up: bool)
    requires n < U32_LIMIT && u <= MAX_FILES && u' == (if up then u + 1 else u - 1)
    requires n' == (if up then n + 1 else n + U32_LIMIT - 1) % U32_LIMIT
    ensures n' == u' <==> n == u
  {}

  lemma DropAtRefines(s: Fs, i: nat)
    requires Ok(s.header, s.data) && i < MAX_FILES && SlotsIn(s)[i].File?
    ensures var t := DropAt(s, i);
      && Ok(t.header, t.data) && FilesIn(t) == FilesIn(s) - {SlotsIn(s)[i].name}
      && (CountFits(t.header, t.data) <==> CountFits(s.header, s.data))
  {
    DropAtSlots(s, i);
    OneLost(DropAt(s, i), SlotsIn(s), Count(s.header), i);
  }

  lemma OneLost(t: Fs, ss: seq<Slot>, n: nat, i: nat)
    requires Distinct(ss) && i < |ss| == MAX_FILES && ss[i].File? && n < U32_LIMIT
    requires Magic(t.header) == MAGIC && EntriesOk(t.header) && Count(t.header) == (n + U32_LIMIT - 1) % U32_LIMIT
    requires SlotsIn(t) == ss[i := Empty]
    ensures Ok(t.header, t.data) && FilesIn(t) == FilesOf(ss) - {ss[i].name}
    ensures CountFits(t.header, t.data) <==> n == UsedCount(ss)
  {
    EmptySlot(ss, i);
    CountMoves(t, ss, n, i, Empty);
  }

  /** fs_delete_file removes exactly the named key. */
  lemma DeleteRefines(s: Fs, name: seq<byte>, io: Io)
    requires s.ready && Ok(s.header, s.data)
    ensures var m, s' := FilesIn(s), Delete(s, name, io);
      && DeleteCode(s, name) == (if name in m then 0 else -1)
      && FilesIn(s') == m - {name}
      && Ok(s'.header, s'.data)
      && (CountFits(s'.header, s'.data) <==> CountFits(s.header, s.data))
  {
    InFilesIffFound(SlotsIn(s), name);
    if DeleteCode(s, name) == 0 {
      DropAtRefines(s, Find(SlotsIn(s), name));
    } else {
      assert FilesIn(s) - {name} == FilesIn(s);
    }
  }

  lemma PrefixOfContent(e: Entry, i: nat, d: Data, n: nat)
    requires EntryOk(e, i) && i < MAX_FILES
    ensures Prefix(e, d, n) == Content(e, d)[..Min(Size(e), n)] && |Content(e, d)| == Size(e)
  {
    assert MAX_FILE_SIZE * i + MAX_FILE_SIZE <= DATA_SIZE;
  }

  lemma FoundEntry(s: Fs, i: nat, n: nat)
    requires EntriesOk(s.header) && i < MAX_FILES && SlotsIn(s)[i].File?
    ensures var e := EntryOf(s.header, i);
      && Size(e) == |SlotsIn(s)[i].text|
      && Prefix(e, s.data, n) == SlotsIn(s)[i].text[..Min(Size(e), n)]
  {
    PrefixOfContent(EntryOf(s.header, i), i, s.data, n);
  }

  /** fs_read_file finds exactly the named file; what it copies is a prefix. */
  lemma ReadRefines(s: Fs, name: seq<byte>, max: nat)
    requires s.ready && Ok(s.header, s.data) && max >= 1
    ensures var m := FilesIn(s);
      && ReadCode(s, name, max) == (if name in m then Min(|m[name]|, max - 1) else -1)
      && ReadBytes(s, name, max) == (if name in m then m[name][..Min(|m[name]|, max - 1)] + [0] else [])
  {
    InFilesIffFound(SlotsIn(s), name);
    if Find(SlotsIn(s), name) >= 0 {
      FoundRefines(s, name, max, Find(SlotsIn(s), name), FilesIn(s)[name]);
    }
  }

  lemma FoundRefines(s: Fs, name: seq<byte>, max: nat, i: nat, text: seq<byte>)
    requires s.ready && EntriesOk(s.header) && max >= 1
    requires i == Find(SlotsIn(s), name) && text == SlotsIn(s)[i].text
    ensures ReadCode(s, name, max) == Min(|text|, max - 1)
    ensures ReadBytes(s, name, max) == text[..Min(|text|, max - 1)] + [0]
  {
    FoundEntry(s, i, max - 1);
  }

  /** A name of 32 bytes or more is looked up whole but stored cut. Names then
      stay distinct exactly when the cut name was not taken. */
  lemma NamesStayDistinctIff(s: Fs, name: seq<byte>, content: seq<byte>)
    requires s.ready && Ok(s.header, s.data) && CreateCode(s, name, content) == 0
    requires NulFree(name) && NulFree(content)
    ensures Distinct(SlotsIn(Entered(s, name, content))) <==>
            |name| < MAX_FILENAME || name[..MAX_FILENAME - 1] !in FilesIn(s)
  {
    var ss := SlotsIn(s);
    var i := Free(ss);
    EnterAtSlots(s, i, name, content);
    InFilesIffFound(ss, name);
    InFilesIffFound(ss, CutName(name));
    var ss' := SlotsIn(Entered(s, name, content));
    if Find(ss, CutName(name)) >= 0 {
      var j := Find(ss, CutName(name));
      assert j != i && ss'[j] == ss[j] && ss'[i].name == ss'[j].name;
      assert !Distinct(ss');
    } else {
      FillSlot(ss, i, CutName(name), content);
    }
  }

  /** It does happen: on an empty file system every name of 32 bytes collides with
      its own first 31. */
  lemma LongNameCollides(s: Fs, t: Fs, a31: seq<byte>, a32: seq<byte>)
    requires s.ready && Ok(s.header, s.data) && FilesIn(s) == map[]
    requires NulFree(a32) && |a32| == 32 && a31 == a32[..31]
    ensures CreateCode(s, a31, []) == 0
    ensures t == Entered(s, a31, []) ==>
      CreateCode(t, a32, []) == 0 && !Distinct(SlotsIn(Entered(t, a32, [])))
  {
    CreateRefines(s, a31, [], Io(seq(TAIL_SIZE, _ => 0), 0));
    InFilesIffFound(SlotsIn(s), a31);
    EnterAtRefines(s, Free(SlotsIn(s)), a31, []);
    if t == Entered(s, a31, []) {
      CollidesIn(t, a31, a32);
    }
  }

  lemma CollidesIn(t: Fs, a31: seq<byte>, a32: seq<byte>)
    requires t.ready && Ok(t.header, t.data) && FilesIn(t) == map[a31 := []]
    requires NulFree(a32) && |a32| == 32 && a32[..31] == a31
    ensures CreateCode(t, a32, []) == 0 && !Distinct(SlotsIn(Entered(t, a32, [])))
  {
    InFilesIffFound(SlotsIn(t), a32);
    NamesCount(SlotsIn(t));
    FullIffNoneFree(SlotsIn(t));
    assert |FilesIn(t)| == |Names(SlotsIn(t))| == 1;
    NamesStayDistinctIff(t, a32, []);
  }
}
