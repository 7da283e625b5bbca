// What a reboot finds after a save that stopped part-way, from any state: the
// disk may be behind memory by any number of earlier saves that failed.
module FsCrash {
  import opened CLib
  import opened FsLayout
  import opened SlotMap
  import opened FsSpec
  import opened FsRuns
  import opened FsTorn

  // ---- The table a torn save leaves on the disk ----

  /** How many entries have their used byte among the first `good` sectors. */
  function Covered(good: nat): nat {
    if good == 0 then 0 else if good == 1 then 11 else if good == 2 then 23 else MAX_FILES
  }

  lemma CoversIffBelow(good: nat, i: nat)
    requires i < MAX_FILES
    ensures Covers(good, i) <==> i < Covered(good)
  {}

  /** The first byte of slot `i`'s name, but not its used byte, is among the first
      `good` sectors: slots 11 and 23 lie across a sector boundary. */
  predicate Straddles(good: nat, i: nat) {
    EntryAt(i) < SECTOR * good && !Covers(good, i)
  }

  lemma OnlyTwoStraddle(good: nat, i: nat)
    requires i < MAX_FILES
    ensures Straddles(good, i) <==> (i == 11 && good == 1) || (i == 23 && good == 2)
  {}

  /** The data array on the disk: new up to the sector where the save stopped. */
  function DataOnDisk(s: Fs, good: nat): Data {
    var new', old' := s.data, DiskData(s.disk);
    seq(DATA_SIZE, k requires 0 <= k < DATA_SIZE =>
      if HEADER_SECTORS * SECTOR + k < SECTOR * good then new'[k] else old'[k])
  }

  /** The name of an entry whose first `n` bytes are new and whose rest is old. */
  function MixedName(new': Entry, old': Entry, n: nat): seq<byte>
    requires n <= MAX_FILENAME
  {
    CStr(new'[..n] + old'[n..MAX_FILENAME])
  }

  /** Slot `i` on the disk when a save of memory stops after `good` sectors: the
      entry in memory, or the one the disk had, or, across a sector boundary, the
      disk's with the beginning of its name overwritten. */
  function SlotOnDisk(s: Fs, good: nat, i: nat): Slot
    requires i < MAX_FILES
  {
    var new', old' := EntryOf(s.header, i), EntryOf(DiskHeader(s.disk), i);
    if Covers(good, i) then SlotOf(new', DataOnDisk(s, good))
    else if Straddles(good, i) && Used(old') then
      OnlyTwoStraddle(good, i);
      File(MixedName(new', old', SECTOR * good - EntryAt(i)), Content(old', DiskData(s.disk)))
    else SlotOf(old', DiskData(s.disk))
  }

  function TableOnDisk(s: Fs, good: nat): (ss: seq<Slot>)
    ensures |ss| == MAX_FILES
  {
    seq(MAX_FILES, i requires 0 <= i < MAX_FILES => SlotOnDisk(s, good, i))
  }

  /** An entry on a torn disk: bytes before the tear are new, the rest old. */
  lemma TornEntry(old': Image, new': Image, good: nat, i: nat)
    requires i < MAX_FILES
    ensures var e := EntryOf(DiskHeader(Torn(old', new', good)), i);
      forall k :: 0 <= k < ENTRY_SIZE ==>
        e[k] == EntryOf(DiskHeader(if EntryAt(i) + k < SECTOR * good then new' else old'), i)[k]
  {
    var t := Torn(old', new', good);
    forall k | 0 <= k < ENTRY_SIZE
      ensures EntryOf(DiskHeader(t), i)[k] ==
              EntryOf(DiskHeader(if EntryAt(i) + k < SECTOR * good then new' else old'), i)[k]
    {
      var at := EntryAt(i) + k;
      assert EntryOf(DiskHeader(t), i)[k] == t[at];
      assert EntryOf(DiskHeader(new'), i)[k] == new'[at] && EntryOf(DiskHeader(old'), i)[k] == old'[at];
    }
  }

  lemma TornData(s: Fs, img: Image, good: nat)
    requires DiskData(img) == s.data
    ensures DiskData(Torn(s.disk, img, good)) == DataOnDisk(s, good)
    ensures good <= HEADER_SECTORS ==> DataOnDisk(s, good) == DiskData(s.disk)
  {
    var t, b := Torn(s.disk, img, good), HEADER_SECTORS * SECTOR;
    forall k | 0 <= k < DATA_SIZE ensures DiskData(t)[k] == DataOnDisk(s, good)[k] {
      assert DiskData(t)[k] == t[b + k] && DiskData(s.disk)[k] == s.disk[b + k] && s.data[k] == img[b + k];
    }
  }

  lemma MixedSlot(e: Entry, new': Entry, old': Entry, n: nat, d: Data)
    requires n <= MAX_FILENAME && e == new'[..n] + old'[n..]
    ensures SlotOf(e, d) == if Used(old') then File(MixedName(new', old', n), Content(old', d)) else Empty
  {
    assert e[..MAX_FILENAME] == new'[..n] + old'[n..MAX_FILENAME];
    assert e[32..36] == old'[32..36] && e[36..40] == old'[36..40] && e[40] == old'[40];
  }

  lemma TornSlot(s: Fs, img: Image, good: nat, i: nat)
    requires DiskHeader(img) == s.header && DiskData(img) == s.data && i < MAX_FILES
    ensures var t := Torn(s.disk, img, good);
      SlotOf(EntryOf(DiskHeader(t), i), DiskData(t)) == SlotOnDisk(s, good, i)
  {
    var t := Torn(s.disk, img, good);
    var e, new', old' := EntryOf(DiskHeader(t), i), EntryOf(s.header, i), EntryOf(DiskHeader(s.disk), i);
    TornEntry(s.disk, img, good, i);
    TornData(s, img, good);
    if Covers(good, i) {
      assert e[..41] == new'[..41];
      SameFields(e, new', i);
    } else if Straddles(good, i) {
      OnlyTwoStraddle(good, i);
      var n := SECTOR * good - EntryAt(i);
      assert e == new'[..n] + old'[n..];
      MixedSlot(e, new', old', n, DiskData(t));
    } else {
      assert e == old';
    }
  }

  /** Main result: from any state, whatever earlier saves failed, this is the table
      a save leaves on the disk. */
  lemma SavedTable(s: Fs, io: Io, disk: Image)
    requires s.selected && disk == Save(s, io).disk
    ensures Slots(DiskHeader(disk), DiskData(disk)) == TableOnDisk(s, io.good)
  {
    ImageRoundTrip(s.header, io.tail, s.data);
    forall i | 0 <= i < MAX_FILES ensures Slots(DiskHeader(disk), DiskData(disk))[i] == SlotOnDisk(s, io.good, i) {
      TornSlot(s, ImageOf(s.header, io.tail, s.data), io.good, i);
    }
  }

  /** A well-read reboot sees exactly the disk's files. */
  lemma RebootSees(disk: Image, r: Reads, io: Io)
    requires Magic(DiskHeader(disk)) == MAGIC && AllRead(r)
    ensures SlotsIn(Boot(disk, true, r, io)) == Slots(DiskHeader(disk), DiskData(disk))
    ensures FilesIn(Boot(disk, true, r, io)) == DiskFiles(disk)
  {
    assert LoadedData(Zeros(DATA_SIZE), disk, {}) == DiskData(disk);
  }

  /** So this is what the next boot finds. */
  lemma RebootFindsTable(s: Fs, io: Io, r: Reads, io': Io)
    requires s.selected && Magic(s.header) == Magic(DiskHeader(s.disk)) == MAGIC && AllRead(r)
    ensures SlotsIn(Boot(Save(s, io).disk, true, r, io')) == TableOnDisk(s, io.good)
  {
    var disk := Save(s, io).disk;
    SavedTable(s, io, disk);
    ImageRoundTrip(s.header, io.tail, s.data);
    MagicSurvives(s.disk, ImageOf(s.header, io.tail, s.data), io.good);
    RebootSees(disk, r, io');
  }

  // ---- Names on the disk ----

  lemma DistinctSplit(ss: seq<Slot>, n: nat)
    requires n <= |ss|
    ensures Distinct(ss) <==> Distinct(ss[..n]) && Distinct(ss[n..]) && Names(ss[..n]) !! Names(ss[n..])
  {
    var a, b := ss[..n], ss[n..];
    if Distinct(a) && Distinct(b) && Names(a) !! Names(b) {
      forall i, j | 0 <= i < j < |ss| && ss[i].File? && ss[j].File? ensures ss[i].name != ss[j].name {
        if j < n {
          assert a[i] == ss[i] && a[j] == ss[j];
        } else if n <= i {
          assert b[i - n] == ss[i] && b[j - n] == ss[j];
        } else {
          assert a[i].name in Names(a) && b[j - n].name in Names(b);
        }
      }
    }
  }

  /** Slots that are used alike, under the same names. */
  ghost predicate SameNames(ss: seq<Slot>, tt: seq<Slot>) {
    |ss| == |tt| && forall i :: 0 <= i < |ss| ==> ss[i].File? == tt[i].File? && (ss[i].File? ==> ss[i].name == tt[i].name)
  }

  lemma SameNamesAgree(ss: seq<Slot>, tt: seq<Slot>)
    requires SameNames(ss, tt)
    ensures Names(ss) == Names(tt) && (Distinct(ss) <==> Distinct(tt))
  {}

  /** Main result: after a save that stopped anywhere, from any state with distinct
      names in memory, the names on the disk are distinct exactly when the slots it
      did not reach have distinct names, none of them a name it has written. */
  lemma NamesOnDiskDistinctIff(s: Fs, good: nat)
    requires Distinct(SlotsIn(s))
    ensures var n := Covered(good);
      var written, kept := SlotsIn(s)[..n], TableOnDisk(s, good)[n..];
      Distinct(TableOnDisk(s, good)) <==> Distinct(kept) && Names(written) !! Names(kept)
  {
    var n, ss, tt := Covered(good), SlotsIn(s), TableOnDisk(s, good);
    DistinctSplit(ss, n);
    DistinctSplit(tt, n);
    forall i | 0 <= i < n
      ensures ss[..n][i].File? == tt[..n][i].File? && (ss[..n][i].File? ==> ss[..n][i].name == tt[..n][i].name)
    {
      CoversIffBelow(good, i);
    }
    SameNamesAgree(ss[..n], tt[..n]);
  }

  lemma {:induction false} UsedCountSplit(ss: seq<Slot>, n: nat)
    requires n <= |ss|
    ensures UsedCount(ss) == UsedCount(ss[..n]) + UsedCount(ss[n..])
  {
    if n < |ss| {
      var k := |ss| - 1;
      UsedCountSplit(ss[..k], n);
      assert ss[..k][..n] == ss[..n] && ss[n..][..|ss[n..]| - 1] == ss[..k][n..];
    } else {
      assert ss[..n] == ss;
    }
  }

  lemma SameWeights(ss: seq<Slot>, tt: seq<Slot>)
    requires |ss| == |tt| && forall i :: 0 <= i < |ss| ==> Weight(ss[i]) == Weight(tt[i])
    ensures UsedCount(ss) == UsedCount(tt)
  {
    CountLighter(ss, tt);
  }

  lemma WeightOnDisk(s: Fs, good: nat, i: nat)
    requires i < MAX_FILES
    ensures Weight(SlotOnDisk(s, good, i)) ==
      Weight(if i < Covered(good) then SlotsIn(s)[i] else Slots(DiskHeader(s.disk), DiskData(s.disk))[i])
  {
    CoversIffBelow(good, i);
  }

  /** The same for file_count: once a save has written anything, it fits the table
      on the disk exactly when the slots it did not reach hold as many files there
      as in memory. */
  lemma CountOnDiskFitsIff(s: Fs, io: Io, disk: Image)
    requires s.selected && CountFits(s.header, s.data) && io.good > 0 && disk == Save(s, io).disk
    ensures var n := Covered(io.good);
      CountFits(DiskHeader(disk), DiskData(disk)) <==>
      UsedCount(Slots(DiskHeader(s.disk), DiskData(s.disk))[n..]) == UsedCount(SlotsIn(s)[n..])
  {
    var n, ss, tt := Covered(io.good), SlotsIn(s), TableOnDisk(s, io.good);
    var old' := Slots(DiskHeader(s.disk), DiskData(s.disk));
    SavedTable(s, io, disk);
    ImageRoundTrip(s.header, io.tail, s.data);
    TornCount(s.disk, ImageOf(s.header, io.tail, s.data), io.good);
    UsedCountSplit(ss, n);
    UsedCountSplit(tt, n);
    forall i | 0 <= i < MAX_FILES ensures Weight(tt[i]) == Weight(if i < n then ss[i] else old'[i]) {
      WeightOnDisk(s, io.good, i);
    }
    SameWeights(tt[..n], ss[..n]);
    SameWeights(tt[n..], old'[n..]);
  }

  // ---- One operation from a synced state ----

  /** A save of memory that differs from the disk in one slot, its data and the count. */
  lemma OneSlotTorn(s: Fs, i: nat, e: Entry, n: nat, d': Data, good: nat, m: Fs)
    requires Synced(s) && EntriesOk(s.header)
    requires i < MAX_FILES && n < U32_LIMIT && OnlySlot(s.data, d', i) && m == Put(s, i, e, n, d')
    ensures TableOnDisk(m, good) == SlotsIn(s)[i := SlotOnDisk(m, good, i)]
    ensures EntryOf(m.header, i) == e
  {
    WithEntryAndCount(s.header, i, e, n);
    forall j | 0 <= j < MAX_FILES && j != i ensures SlotOnDisk(m, good, j) == SlotsIn(s)[j] {
      OtherSlotTorn(s, i, d', good, m, j);
    }
  }

  lemma OtherSlotTorn(s: Fs, i: nat, d': Data, good: nat, m: Fs, j: nat)
    requires Synced(s) && EntriesOk(s.header) && i < MAX_FILES && OnlySlot(s.data, d', i)
    requires m == s.(header := m.header, data := d') && j < MAX_FILES && j != i
    requires EntryOf(m.header, j) == EntryOf(s.header, j)
    ensures SlotOnDisk(m, good, j) == SlotsIn(s)[j]
  {
    var e := EntryOf(s.header, j);
    if Covers(good, j) {
      assert OnlySlot(s.data, DataOnDisk(m, good), i);
      if Used(e) { OtherContent(e, j, i, s.data, DataOnDisk(m, good)); }
    } else if Straddles(good, j) && Used(e) {
      OnlyTwoStraddle(good, j);
      var n := SECTOR * good - EntryAt(j);
      assert e[..n] + e[n..MAX_FILENAME] == e[..MAX_FILENAME];
    }
  }

  // ---- Create ----

  /** The text of the new file on the disk: what the disk held before, from the
      sector on where the save stopped. */
  function TornText(content: seq<byte>, d: Data, i: nat, good: nat): (text: seq<byte>)
    requires i < MAX_FILES && |content| <= MAX_FILE_SIZE
    ensures |text| == |content|
  {
    seq(|content|, k requires 0 <= k < |content| =>
      var at := MAX_FILE_SIZE * i + k;
      if HEADER_SECTORS * SECTOR + at < SECTOR * good then content[k] else d[at])
  }

  lemma EnteredSlot(s: Fs, i: nat, name: seq<byte>, content: seq<byte>, good: nat, m: Fs)
    requires Synced(s) && i < MAX_FILES && SlotsIn(s)[i].Empty? && |content| <= MAX_FILE_SIZE && NulFree(name)
    requires m == EnterAt(s, i, name, content)
    requires EntryOf(m.header, i) == FilledEntry(EntryOf(s.header, i), name, |content|, MAX_FILE_SIZE * i)
    ensures SlotOnDisk(m, good, i) ==
      if Covers(good, i) then File(CutName(name), TornText(content, s.data, i, good)) else Empty
  {
    FilledEntryFields(EntryOf(s.header, i), name, |content|, MAX_FILE_SIZE * i);
    assert !Used(EntryOf(DiskHeader(s.disk), i));
    if Covers(good, i) {
      var d := DataOnDisk(m, good);
      var text, at := TornText(content, s.data, i, good), MAX_FILE_SIZE * i;
      assert m.data[at..at + |content|] == content;
      assert d[at..at + |content|] == text by {
        forall k | 0 <= k < |content| ensures d[at + k] == text[k] {
          assert m.data[at + k] == content[k];
        }
      }
    }
  }

  /** Main result: a create whose save stops anywhere leaves every other file as it
      was. After a reboot the new name is there exactly when the slot's used byte
      was written. Its text is the content up to the sector where the save stopped
      and older data after that; so it is the content exactly when the data
      further on was the same already. */
  lemma CreateIsCrashSafe(s: Fs, name: seq<byte>, content: seq<byte>, io: Io, r: Reads, io': Io)
    requires Good(s) && NulFree(name) && |name| < MAX_FILENAME && CreateCode(s, name, content) == 0 && AllRead(r)
    ensures var i, m := Free(SlotsIn(s)), FilesIn(s);
      var after := FilesIn(Boot(Create(s, name, content, io).disk, true, r, io'));
      && after == (if Covers(io.good, i) then m[name := TornText(content, s.data, i, io.good)] else m)
      && (after == m[name := content] <==>
           && Covers(io.good, i)
           && forall k :: 0 <= k < |content| ==>
                || HEADER_SECTORS * SECTOR + MAX_FILE_SIZE * i + k < SECTOR * io.good
                || s.data[MAX_FILE_SIZE * i + k] == content[k])
  {
    var i, m := Free(SlotsIn(s)), Entered(s, name, content);
    var text := TornText(content, s.data, i, io.good);
    CreatedTable(s, i, name, content, io.good, m);
    RebootFindsTable(m, io, r, io');
    InFilesIffFound(SlotsIn(s), name);
    CreatedMap(SlotsIn(s), i, name, text, TableOnDisk(m, io.good));
    TextIsContentIff(FilesIn(s), name, content, s.data, i, io.good, text);
  }

  lemma CreatedTable(s: Fs, i: nat, name: seq<byte>, content: seq<byte>, good: nat, m: Fs)
    requires Good(s) && i < MAX_FILES && SlotsIn(s)[i].Empty?
    requires NulFree(name) && |name| < MAX_FILENAME && |content| <= MAX_FILE_SIZE && m == EnterAt(s, i, name, content)
    ensures Magic(m.header) == MAGIC
    ensures TableOnDisk(m, good) ==
      SlotsIn(s)[i := if Covers(good, i) then File(name, TornText(content, s.data, i, good)) else Empty]
  {
    var f := FilledEntry(EntryOf(s.header, i), name, |content|, MAX_FILE_SIZE * i);
    var n, d' := (Count(s.header) + 1) % U32_LIMIT, Splice(s.data, MAX_FILE_SIZE * i, content);
    OneSlotTorn(s, i, f, n, d', good, m);
    EnteredSlot(s, i, name, content, good, m);
    WithEntryAndCount(s.header, i, f, n);
  }

  lemma CreatedMap(ss: seq<Slot>, i: nat, name: seq<byte>, text: seq<byte>, dd: seq<Slot>)
    requires Distinct(ss) && i < |ss| && ss[i].Empty? && name !in FilesOf(ss)
    requires dd == ss[i := File(name, text)] || dd == ss[i := Empty]
    ensures FilesOf(dd) == if dd[i].File? then FilesOf(ss)[name := text] else FilesOf(ss)
  {
    if dd[i].File? {
      FillSlot(ss, i, name, text);
    } else {
      assert dd == ss;
    }
  }

  lemma TextIsContentIff(m: Files, name: seq<byte>, content: seq<byte>, d: Data, i: nat, good: nat, text: seq<byte>)
    requires i < MAX_FILES && |content| <= MAX_FILE_SIZE && text == TornText(content, d, i, good) && name !in m
    ensures m != m[name := content]
    ensures m[name := text] == m[name := content] <==>
      forall k :: 0 <= k < |content| ==>
        || HEADER_SECTORS * SECTOR + MAX_FILE_SIZE * i + k < SECTOR * good
        || d[MAX_FILE_SIZE * i + k] == content[k]
  {
    assert m[name := text][name] == text && m[name := content][name] == content;
    assert text == content <==> forall k :: 0 <= k < |content| ==> text[k] == content[k];
  }

  /** It does happen: a file is deleted, another of no greater length takes its
      slot, and the save stops after the header. The new name then stands for the
      deleted text. */
  lemma DeletedTextShows(s: Fs, a: seq<byte>, io: Io, t: Fs, b: seq<byte>, content: seq<byte>, io2: Io, r: Reads, io': Io)
    requires Good(s) && DeleteCode(s, a) == 0 && Complete(io) && t == Delete(s, a, io)
    requires NulFree(b) && |b| < MAX_FILENAME && NulFree(content) && CreateCode(t, b, content) == 0
    requires Free(SlotsIn(t)) == Find(SlotsIn(s), a) && |content| <= |FilesIn(s)[a]|
    requires io2.good == HEADER_SECTORS && AllRead(r)
    ensures var after := FilesIn(Boot(Create(t, b, content, io2).disk, true, r, io'));
      b in after && after[b] == FilesIn(s)[a][..|content|]
  {
    var i := Find(SlotsIn(s), a);
    InFilesIffFound(SlotsIn(s), a);
    DeleteRefines(s, a, io);
    CompleteSave(Dropped(s, a), io);
    CreateIsCrashSafe(t, b, content, io2, r, io');
    OldText(s, i, content);
  }

  lemma OldText(s: Fs, i: nat, content: seq<byte>)
    requires EntriesOk(s.header) && i < MAX_FILES && SlotsIn(s)[i].File? && |content| <= |SlotsIn(s)[i].text|
    ensures |content| <= MAX_FILE_SIZE && TornText(content, s.data, i, HEADER_SECTORS) == SlotsIn(s)[i].text[..|content|]
  {
    var e := EntryOf(s.header, i);
    assert Used(e) && EntryOk(e, i);
  }

  // ---- Delete ----

  lemma DroppedSlot(s: Fs, i: nat, good: nat, m: Fs)
    requires Synced(s) && i < MAX_FILES && SlotsIn(s)[i].File? && m == DropAt(s, i)
    requires EntryOf(m.header, i) == FreedEntry(EntryOf(s.header, i))
    ensures SlotOnDisk(m, good, i) ==
      if Covers(good, i) then Empty
      else if Straddles(good, i) then File([], SlotsIn(s)[i].text)
      else SlotsIn(s)[i]
  {
    if Straddles(good, i) {
      OnlyTwoStraddle(good, i);
      var e, n := EntryOf(s.header, i), SECTOR * good - EntryAt(i);
      assert (FreedEntry(e)[..n] + e[n..MAX_FILENAME])[0] == 0;
    }
  }

  /** The file in slot `i` gets the empty name. A file that has that name already
      hides it, or is hidden, by which slot comes first. */
  lemma Nameless(ss: seq<Slot>, i: nat, dd: seq<Slot>)
    requires Distinct(ss) && i < |ss| && ss[i].File? && ss[i].name != [] && dd == ss[i := File([], ss[i].text)]
    ensures Distinct(dd) <==> [] !in FilesOf(ss)
    ensures var m := FilesOf(ss) - {ss[i].name};
      FilesOf(dd) == if 0 <= Find(ss, []) < i then m else m[[] := ss[i].text]
  {
    var j, mid := Find(ss, []), ss[i := Empty];
    EmptySlot(ss, i);
    InFilesIffFound(ss, []);
    assert dd == mid[i := File([], ss[i].text)];
    if j < 0 {
      FillSlot(mid, i, [], ss[i].text);
    } else {
      FindIs(mid, [], j);
      Hidden(mid, i, j, ss[i].text, dd);
    }
  }

  lemma Hidden(mid: seq<Slot>, i: nat, j: nat, text: seq<byte>, dd: seq<Slot>)
    requires i < |mid| && j < |mid| && mid[i].Empty? && Find(mid, []) == j && dd == mid[i := File([], text)]
    ensures !Distinct(dd)
    ensures FilesOf(dd) == if j < i then FilesOf(mid) else FilesOf(mid)[[] := text]
  {
    assert dd[i].name == dd[j].name == [];
    InFilesIffFound(mid, []);
    FirstNameless(mid, i, j, text, dd);
    OthersAsBefore(mid, i, dd);
    SameButOne(FilesOf(mid), FilesOf(dd), if j < i then FilesOf(mid)[[]] else text);
  }

  lemma OthersAsBefore(mid: seq<Slot>, i: nat, dd: seq<Slot>)
    requires |dd| == |mid| && i < |mid| && mid[i].Empty? && dd == mid[i := dd[i]] && dd[i].File? && dd[i].name == []
    requires [] in FilesOf(mid)
    ensures FilesOf(dd).Keys == FilesOf(mid).Keys
    ensures forall n :: n in FilesOf(dd) && n != [] ==> FilesOf(dd)[n] == FilesOf(mid)[n]
  {
    NamesWith(mid, dd, i);
    forall n | n in FilesOf(dd) && n != [] ensures FilesOf(dd)[n] == FilesOf(mid)[n] {
      FoundAsBefore(mid, i, n, dd);
    }
  }

  lemma SameButOne(m: Files, m': Files, text: seq<byte>)
    requires m'.Keys == m.Keys && [] in m && m'[[]] == text && forall n :: n in m' && n != [] ==> m'[n] == m[n]
    ensures m' == m[[] := text] && (text == m[[]] ==> m' == m)
  {}

  lemma FirstNameless(mid: seq<Slot>, i: nat, j: nat, text: seq<byte>, dd: seq<Slot>)
    requires i < |mid| && j < |mid| && i != j && Find(mid, []) == j && dd == mid[i := File([], text)]
    ensures Find(dd, []) == if j < i then j else i
  {
    FindIs(dd, [], if j < i then j else i);
  }

  lemma FoundAsBefore(mid: seq<Slot>, i: nat, n: seq<byte>, dd: seq<Slot>)
    requires |dd| == |mid| && i < |mid| && mid[i].Empty? && dd == mid[i := dd[i]] && dd[i].File? && dd[i].name != n
    requires n in Names(mid)
    ensures n in Names(dd) && FilesOf(dd)[n] == FilesOf(mid)[n]
  {
    InFilesIffFound(mid, n);
    FindIs(dd, n, Find(mid, n));
  }

  lemma NamesWith(mid: seq<Slot>, dd: seq<Slot>, i: nat)
    requires |dd| == |mid| && i < |mid| && mid[i].Empty? && dd == mid[i := dd[i]] && dd[i].File?
    ensures Names(dd) == Names(mid) + {dd[i].name}
  {
    forall x | x in Names(mid) ensures x in Names(dd) {
      var k :| 0 <= k < |mid| && mid[k].File? && mid[k].name == x;
      assert dd[k] == mid[k];
    }
    forall x | x in Names(dd) && x != dd[i].name ensures x in Names(mid) {
      var k :| 0 <= k < |dd| && dd[k].File? && dd[k].name == x;
      assert mid[k] == dd[k];
    }
  }

  /** Main result: a delete whose save stops anywhere leaves every other file as it
      was. After a reboot the file is gone exactly when the slot's used byte was
      written; otherwise it is still there, except that a tear through slot 11 or
      23 leaves it under the empty name. That name may be taken, by what an earlier
      tear left: names then are no longer distinct, and one of the two is hidden. */
  lemma DeleteIsCrashSafe(s: Fs, name: seq<byte>, io: Io, r: Reads, io': Io)
    requires Good(s) && DeleteCode(s, name) == 0 && AllRead(r)
    ensures var m, ss, i := FilesIn(s), SlotsIn(s), Find(SlotsIn(s), name);
      var t := Boot(Delete(s, name, io).disk, true, r, io');
      && name in m
      && FilesIn(t) == (if Covers(io.good, i) then m - {name}
                        else if !Straddles(io.good, i) || name == [] then m
                        else if 0 <= Find(ss, []) < i then m - {name}
                        else (m - {name})[[] := m[name]])
      && (Distinct(SlotsIn(t)) <==> !(Straddles(io.good, i) && name != [] && [] in m))
  {
    var ss, i, m := SlotsIn(s), Find(SlotsIn(s), name), Dropped(s, name);
    DroppedTable(s, i, io.good, m);
    RebootFindsTable(m, io, r, io');
    FindsIt(ss, i);
    DroppedMap(ss, i, TableOnDisk(m, io.good));
  }

  lemma DroppedTable(s: Fs, i: nat, good: nat, m: Fs)
    requires Good(s) && i < MAX_FILES && SlotsIn(s)[i].File? && m == DropAt(s, i)
    ensures Magic(m.header) == MAGIC
    ensures TableOnDisk(m, good) == SlotsIn(s)[i :=
      if Covers(good, i) then Empty
      else if Straddles(good, i) then File([], SlotsIn(s)[i].text)
      else SlotsIn(s)[i]]
  {
    var f, n := FreedEntry(EntryOf(s.header, i)), (Count(s.header) + U32_LIMIT - 1) % U32_LIMIT;
    OneSlotTorn(s, i, f, n, s.data, good, m);
    WithEntryAndCount(s.header, i, f, n);
    DroppedSlot(s, i, good, m);
  }

  lemma DroppedMap(ss: seq<Slot>, i: nat, dd: seq<Slot>)
    requires Distinct(ss) && i < |ss| && ss[i].File?
    requires |dd| == |ss| && dd == ss[i := dd[i]]
    requires dd[i] == Empty || dd[i] == ss[i] || dd[i] == File([], ss[i].text)
    ensures FilesOf(dd) ==
      if dd[i] == Empty then FilesOf(ss) - {ss[i].name}
      else if dd[i] == ss[i] then FilesOf(ss)
      else if 0 <= Find(ss, []) < i then FilesOf(ss) - {ss[i].name}
      else (FilesOf(ss) - {ss[i].name})[[] := ss[i].text]
    ensures Distinct(dd) <==> dd[i] == Empty || dd[i] == ss[i] || [] !in FilesOf(ss)
  {
    if dd[i] == Empty {
      EmptySlot(ss, i);
    } else if dd[i] == ss[i] {
      assert dd == ss;
    } else {
      Nameless(ss, i, dd);
    }
  }

  // ---- A save after saves that failed ----

  /** Nothing is written by a save that fails at once. */
  lemma NothingWritten(s: Fs, io: Io)
    requires io.good == 0 && s.selected
    ensures Save(s, io).disk == s.disk
  {}

  /** Distinct names in memory do not keep them distinct on the disk. File `a` lies
      in slot 12 or later and `b` in one of the first eleven. Both are deleted, but
      neither save reaches the disk. `a` is then created again, in the slot `b` had,
      and that save stops after one sector: the disk holds two files called `a`. */
  lemma DeletedFileComesBack(s: Fs, a: seq<byte>, b: seq<byte>, content: seq<byte>, io1: Io, io2: Io, io3: Io,
                             t1: Fs, t2: Fs, t3: Fs)
    requires Good(s) && NulFree(a) && |a| < MAX_FILENAME && NulFree(content) && |content| <= MAX_FILE_SIZE && a != b
    requires 12 <= Find(SlotsIn(s), a) && 0 <= Find(SlotsIn(s), b) < 11
    requires forall i :: 0 <= i < Find(SlotsIn(s), b) ==> SlotsIn(s)[i].File?
    requires io1.good == io2.good == 0 && io3.good == 1
    requires t1 == Delete(s, a, io1) && t2 == Delete(t1, b, io2) && t3 == Create(t2, a, content, io3)
    ensures DeleteCode(s, a) == DeleteCode(t1, b) == CreateCode(t2, a, content) == 0
    ensures Ok(t3.header, t3.data)
    ensures !Distinct(Slots(DiskHeader(t3.disk), DiskData(t3.disk)))
  {
    var j, i, ss := Find(SlotsIn(s), a), Find(SlotsIn(s), b), SlotsIn(s);
    Undone(s, a, j, io1, t1);
    StillFound(ss, b, i, j, SlotsIn(t1));
    Undone(t1, b, i, io2, t2);
    NoMore(ss, i, j);
    BackAgain(t2, a, content, io3, i, t3, j, ss[j]);
  }

  /** A delete that stays in memory. */
  lemma Undone(s: Fs, name: seq<byte>, i: nat, io: Io, t: Fs)
    requires s.ready && s.selected && Ok(s.header, s.data) && i < MAX_FILES && Find(SlotsIn(s), name) == i
    requires io.good == 0 && t == Delete(s, name, io)
    ensures DeleteCode(s, name) == 0 && t.ready && t.selected && Ok(t.header, t.data) && t.disk == s.disk
    ensures SlotsIn(t) == SlotsIn(s)[i := Empty]
  {
    DropAtSlots(s, i);
    DropAtRefines(s, i);
    NothingWritten(Dropped(s, name), io);
  }

  lemma StillFound(ss: seq<Slot>, b: seq<byte>, i: nat, j: nat, tt: seq<Slot>)
    requires i < j < |ss| && Find(ss, b) == i && tt == ss[j := Empty]
    ensures Find(tt, b) == i
  {
    FindIs(tt, b, i);
  }

  lemma NoMore(ss: seq<Slot>, i: nat, j: nat)
    requires Distinct(ss) && i < j < |ss| && ss[i].File? && ss[j].File?
    requires forall k :: 0 <= k < i ==> ss[k].File?
    ensures var tt := ss[j := Empty][i := Empty];
      Find(tt, ss[j].name) == -1 && Free(tt) == i
  {
    var tt := ss[j := Empty][i := Empty];
    FindIs(tt, ss[j].name, -1);
    FreeIs(tt, i);
  }

  lemma BackAgain(t: Fs, a: seq<byte>, content: seq<byte>, io: Io, i: nat, t': Fs, j: nat, old': Slot)
    requires t.ready && t.selected && Ok(t.header, t.data)
    requires NulFree(a) && |a| < MAX_FILENAME && NulFree(content) && |content| <= MAX_FILE_SIZE
    requires i < 11 && 12 <= j < MAX_FILES && old' == Slots(DiskHeader(t.disk), DiskData(t.disk))[j]
    requires old'.File? && old'.name == a
    requires Find(SlotsIn(t), a) == -1 && Free(SlotsIn(t)) == i && io.good == 1
    requires t' == Create(t, a, content, io)
    ensures CreateCode(t, a, content) == 0 && Ok(t'.header, t'.data)
    ensures !Distinct(Slots(DiskHeader(t'.disk), DiskData(t'.disk)))
  {
    var m := EnterAt(t, i, a, content);
    InFilesIffFound(SlotsIn(t), a);
    EnterAtSlots(t, i, a, content);
    EnterAtRefines(t, i, a, content);
    SavedTable(m, io, t'.disk);
    TwoOnDisk(m, i, j, File(a, content), old');
  }

  lemma TwoOnDisk(m: Fs, i: nat, j: nat, new': Slot, old': Slot)
    requires i < 11 && 12 <= j < MAX_FILES && new' == SlotsIn(m)[i]
      && old' == Slots(DiskHeader(m.disk), DiskData(m.disk))[j]
    requires new'.File? && old'.File? && new'.name == old'.name
    ensures !Distinct(TableOnDisk(m, 1))
  {
    var dd := TableOnDisk(m, 1);
    assert dd[i] == SlotOnDisk(m, 1, i) && dd[j] == SlotOnDisk(m, 1, j);
    assert dd[i].File? && dd[i].name == new'.name;
    assert dd[j] == old';
  }

  // ---- Running on after a crash ----

  /** The name field of the entry that lies across the tear. */
  function MixedField(s: Fs, good: nat, i: nat): seq<byte>
    requires i < MAX_FILES && Straddles(good, i)
  {
    OnlyTwoStraddle(good, i);
    var n := SECTOR * good - EntryAt(i);
    EntryOf(s.header, i)[..n] + EntryOf(DiskHeader(s.disk), i)[n..MAX_FILENAME]
  }

  /** If that entry is used, its name still ends within its field. */
  ghost predicate MixedTerminated(s: Fs, good: nat) {
    forall i :: 0 <= i < MAX_FILES && Straddles(good, i) && Used(EntryOf(DiskHeader(s.disk), i)) ==>
      Terminated(MixedField(s, good, i))
  }

  lemma TornEntryOkIff(s: Fs, img: Image, good: nat, i: nat, e: Entry)
    requires DiskHeader(img) == s.header && i < MAX_FILES && e == EntryOf(DiskHeader(Torn(s.disk, img, good)), i)
    requires EntriesOk(s.header) && EntriesOk(DiskHeader(s.disk))
    ensures (Used(e) ==> EntryOk(e, i)) <==>
      (Straddles(good, i) && Used(EntryOf(DiskHeader(s.disk), i)) ==> Terminated(MixedField(s, good, i)))
  {
    var new', old' := EntryOf(s.header, i), EntryOf(DiskHeader(s.disk), i);
    TornEntry(s.disk, img, good, i);
    if Covers(good, i) {
      assert e[..41] == new'[..41];
      SameFields(e, new', i);
    } else if Straddles(good, i) {
      OnlyTwoStraddle(good, i);
      var n := SECTOR * good - EntryAt(i);
      assert e == new'[..n] + old'[n..];
      MixedEntryOk(e, new', old', n, i);
    } else {
      assert e == old';
    }
  }

  lemma MixedEntryOk(e: Entry, new': Entry, old': Entry, n: nat, i: nat)
    requires n <= MAX_FILENAME && e == new'[..n] + old'[n..] && (Used(old') ==> EntryOk(old', i))
    ensures Used(e) == Used(old')
    ensures Used(e) ==> (EntryOk(e, i) <==> Terminated(new'[..n] + old'[n..MAX_FILENAME]))
  {
    assert e[..MAX_FILENAME] == new'[..n] + old'[n..MAX_FILENAME];
    assert e[32..36] == old'[32..36] && e[36..40] == old'[36..40] && e[40] == old'[40];
  }

  /** Main result: after a save that stopped anywhere, from any state, the disk
      stands for a map exactly when the names on it are distinct and the entry
      across the tear has a terminated name. */
  lemma CrashedDiskOkIff(s: Fs, io: Io, disk: Image)
    requires s.selected && Magic(s.header) == Magic(DiskHeader(s.disk)) == MAGIC && disk == Save(s, io).disk
    requires EntriesOk(s.header) && EntriesOk(DiskHeader(s.disk))
    ensures Magic(DiskHeader(disk)) == MAGIC
    ensures Ok(DiskHeader(disk), DiskData(disk)) <==> Distinct(TableOnDisk(s, io.good)) && MixedTerminated(s, io.good)
  {
    var img := ImageOf(s.header, io.tail, s.data);
    ImageRoundTrip(s.header, io.tail, s.data);
    MagicSurvives(s.disk, img, io.good);
    SavedTable(s, io, disk);
    forall i | 0 <= i < MAX_FILES
      ensures (Used(EntryOf(DiskHeader(disk), i)) ==> EntryOk(EntryOf(DiskHeader(disk), i), i)) <==>
        (Straddles(io.good, i) && Used(EntryOf(DiskHeader(s.disk), i)) ==> Terminated(MixedField(s, io.good, i)))
    {
      TornEntryOkIff(s, img, io.good, i, EntryOf(DiskHeader(disk), i));
    }
  }

  /** The last byte of every name field is 0. So it is on a disk that SzymFS has
      formatted over zeros: no operation ever writes another byte there. */
  ghost predicate ZeroEnded(h: Header) {
    forall i :: 0 <= i < MAX_FILES ==> EntryOf(h, i)[MAX_FILENAME - 1] == 0
  }

  /** Then the second condition always holds, and distinct names are all it takes. */
  lemma ZeroEndedTerminates(s: Fs, good: nat)
    requires ZeroEnded(DiskHeader(s.disk))
    ensures MixedTerminated(s, good)
  {
    forall i | 0 <= i < MAX_FILES && Straddles(good, i) ensures Terminated(MixedField(s, good, i)) {
      OnlyTwoStraddle(good, i);
      assert MixedField(s, good, i)[MAX_FILENAME - 1] == EntryOf(DiskHeader(s.disk), i)[MAX_FILENAME - 1];
    }
  }

  lemma PutZeroEnded(h: Header, i: nat, e: Entry, n: nat)
    requires ZeroEnded(h) && i < MAX_FILES && e[MAX_FILENAME - 1] == 0 && n < U32_LIMIT
    ensures ZeroEnded(WithCount(WithEntry(h, i, e), n))
  {
    WithEntryAndCount(h, i, e, n);
  }

  lemma SaveZeroEnded(s: Fs, io: Io)
    requires ZeroEnded(s.header) && ZeroEnded(DiskHeader(s.disk))
    ensures ZeroEnded(DiskHeader(Save(s, io).disk))
  {
    if s.selected {
      var img := ImageOf(s.header, io.tail, s.data);
      ImageRoundTrip(s.header, io.tail, s.data);
      forall i | 0 <= i < MAX_FILES ensures EntryOf(DiskHeader(Torn(s.disk, img, io.good)), i)[MAX_FILENAME - 1] == 0 {
        TornEntry(s.disk, img, io.good, i);
      }
    }
  }

  lemma EnteredZeroEnded(s: Fs, name: seq<byte>, content: seq<byte>)
    requires ZeroEnded(s.header) && CreateCode(s, name, content) == 0
    ensures ZeroEnded(Entered(s, name, content).header)
  {
    var i := Free(SlotsIn(s));
    PutZeroEnded(s.header, i, FilledEntry(EntryOf(s.header, i), name, |content|, MAX_FILE_SIZE * i),
                 (Count(s.header) + 1) % U32_LIMIT);
  }

  lemma CreateZeroEnded(s: Fs, name: seq<byte>, content: seq<byte>, io: Io)
    requires ZeroEnded(s.header) && ZeroEnded(DiskHeader(s.disk))
    ensures var t := Create(s, name, content, io); ZeroEnded(t.header) && ZeroEnded(DiskHeader(t.disk))
  {
    if CreateCode(s, name, content) == 0 {
      EnteredZeroEnded(s, name, content);
      SaveZeroEnded(Entered(s, name, content), io);
    }
  }

  lemma DroppedZeroEnded(s: Fs, name: seq<byte>)
    requires ZeroEnded(s.header) && DeleteCode(s, name) == 0
    ensures ZeroEnded(Dropped(s, name).header)
  {
    var i := Find(SlotsIn(s), name);
    PutZeroEnded(s.header, i, FreedEntry(EntryOf(s.header, i)), (Count(s.header) + U32_LIMIT - 1) % U32_LIMIT);
  }

  lemma DeleteZeroEnded(s: Fs, name: seq<byte>, io: Io)
    requires ZeroEnded(s.header) && ZeroEnded(DiskHeader(s.disk))
    ensures var t := Delete(s, name, io); ZeroEnded(t.header) && ZeroEnded(DiskHeader(t.disk))
  {
    if DeleteCode(s, name) == 0 {
      DroppedZeroEnded(s, name);
      SaveZeroEnded(Dropped(s, name), io);
    }
  }

  lemma ZeroByte(h: Header, i: nat)
    requires i < MAX_FILES
    ensures EntryAt(i) + MAX_FILENAME - 1 < HEADER_SIZE
    ensures EntryOf(h, i)[MAX_FILENAME - 1] == h[EntryAt(i) + MAX_FILENAME - 1]
  {}

  lemma ReformattedZeroEnded(h: Header)
    requires ZeroEnded(h)
    ensures ZeroEnded(Reformatted(h))
  {
    forall i | 0 <= i < MAX_FILES ensures EntryOf(Reformatted(h), i)[MAX_FILENAME - 1] == 0 {
      ZeroByte(h, i);
      ZeroByte(Reformatted(h), i);
      LastNameByte(i);
    }
  }

  lemma BootZeroEnded(disk: Image, selected: bool, r: Reads, io: Io)
    requires ZeroEnded(DiskHeader(disk))
    ensures var t := Boot(disk, selected, r, io); ZeroEnded(t.header) && ZeroEnded(DiskHeader(t.disk))
  {
    var h0, t := InitHeader(Zeros(HEADER_SIZE)), Boot(disk, selected, r, io);
    var h := LoadedHeader(h0, disk, r.header);
    forall i | 0 <= i < MAX_FILES
      ensures EntryOf(h0, i)[MAX_FILENAME - 1] == EntryOf(h, i)[MAX_FILENAME - 1] == 0
    {
      ZeroByte(h0, i);
      ZeroByte(h, i);
      ZeroByte(DiskHeader(disk), i);
      LastNameByte(i);
    }
    ReformattedZeroEnded(h);
    if selected && r.header >= HEADER_SECTORS && Magic(h) != MAGIC {
      SaveZeroEnded(Fs(Reformatted(h), Zeros(DATA_SIZE), true, true, selected, disk), io);
    }
  }

  lemma LastNameByte(i: nat)
    ensures (EntryAt(i) + MAX_FILENAME - 1 - 8) % ENTRY_SIZE == MAX_FILENAME - 1
  {}

  lemma StepZeroEnded(s: Fs, op: Op)
    requires ZeroEnded(s.header) && ZeroEnded(DiskHeader(s.disk))
    ensures var t := Step(s, op).0; ZeroEnded(t.header) && ZeroEnded(DiskHeader(t.disk))
  {
    match op {
      case DoCreate(name, content, io) => CreateZeroEnded(s, name, content, io);
      case DoDelete(name, io) => DeleteZeroEnded(s, name, io);
      case DoRead(_, _) =>
      case DoSave(io) => SaveZeroEnded(s, io);
      case Reboot(selected, r, io, readme, io2) =>
        BootZeroEnded(s.disk, selected, r, io);
        CreateZeroEnded(Boot(s.disk, selected, r, io), README, readme, io2);
    }
  }

  /** And it stays so in memory and on the disk over every run, whatever fails. */
  lemma {:induction false} RunZeroEnded(s: Fs, ops: seq<Op>)
    requires ZeroEnded(s.header) && ZeroEnded(DiskHeader(s.disk))
    ensures var t := Run(s, ops).0; ZeroEnded(t.header) && ZeroEnded(DiskHeader(t.disk))
    decreases |ops|
  {
    if ops != [] {
      StepZeroEnded(s, ops[0]);
      RunZeroEnded(Step(s, ops[0]).0, ops[1..]);
    }
  }

  /** The used entries in memory and on the disk are well formed, and the name
      fields zero-ended. */
  ghost predicate Searchable(s: Fs) {
    && EntriesOk(s.header) && EntriesOk(DiskHeader(s.disk))
    && ZeroEnded(s.header) && ZeroEnded(DiskHeader(s.disk))
  }

  lemma SaveSearchable(s: Fs, io: Io)
    requires Searchable(s)
    ensures EntriesOk(DiskHeader(Save(s, io).disk))
  {
    if s.selected {
      var img := ImageOf(s.header, io.tail, s.data);
      ImageRoundTrip(s.header, io.tail, s.data);
      ZeroEndedTerminates(s, io.good);
      var h := DiskHeader(Torn(s.disk, img, io.good));
      forall i | 0 <= i < MAX_FILES ensures Used(EntryOf(h, i)) ==> EntryOk(EntryOf(h, i), i) {
        TornEntryOkIff(s, img, io.good, i, EntryOf(h, i));
      }
    }
  }

  lemma CreateSearchable(s: Fs, name: seq<byte>, content: seq<byte>, io: Io)
    requires Searchable(s) && NulFree(name)
    ensures Searchable(Create(s, name, content, io))
  {
    CreateEntriesOk(s, name, content, io);
    CreateZeroEnded(s, name, content, io);
    if CreateCode(s, name, content) == 0 {
      EnterAtSlots(s, Free(SlotsIn(s)), name, content);
      EnteredZeroEnded(s, name, content);
      SaveSearchable(Entered(s, name, content), io);
    }
  }

  lemma DeleteSearchable(s: Fs, name: seq<byte>, io: Io)
    requires Searchable(s)
    ensures Searchable(Delete(s, name, io))
  {
    DeleteEntriesOk(s, name, io);
    DeleteZeroEnded(s, name, io);
    if DeleteCode(s, name) == 0 {
      DropAtSlots(s, Find(SlotsIn(s), name));
      DroppedZeroEnded(s, name);
      SaveSearchable(Dropped(s, name), io);
    }
  }

  lemma BootSearchable(disk: Image, selected: bool, r: Reads, io: Io)
    requires EntriesOk(DiskHeader(disk)) && ZeroEnded(DiskHeader(disk))
    ensures Searchable(Boot(disk, selected, r, io))
  {
    BootEntriesOk(disk, selected, r, io);
    BootZeroEnded(disk, selected, r, io);
    var h, h0 := DiskHeader(disk), InitHeader(Zeros(HEADER_SIZE));
    if selected && r.header >= HEADER_SECTORS && Magic(h) != MAGIC {
      EmptyHeader(h, Reformatted(h));
      ReformattedZeroEnded(h);
      SaveSearchable(Fs(Reformatted(h), Zeros(DATA_SIZE), true, true, selected, disk), io);
    }
  }

  lemma StepSearchable(s: Fs, op: Op)
    requires Searchable(s) && Legal(op)
    ensures Searchable(Step(s, op).0)
  {
    match op {
      case DoCreate(name, content, io) => CreateSearchable(s, name, content, io);
      case DoDelete(name, io) => DeleteSearchable(s, name, io);
      case DoRead(_, _) =>
      case DoSave(io) => SaveSearchable(s, io); SaveZeroEnded(s, io);
      case Reboot(selected, r, io, readme, io2) =>
        BootSearchable(s.disk, selected, r, io);
        assert NulFree(README);
        CreateSearchable(Boot(s.disk, selected, r, io), README, readme, io2);
    }
  }

  /** Main result: then the entries stay well formed over every run, wherever saves
      stop and whatever boots can read, so that every boot comes up with a table that
      can be searched. */
  lemma {:induction false} RunSearchable(s: Fs, ops: seq<Op>)
    requires Searchable(s) && forall op :: op in ops ==> Legal(op)
    ensures Searchable(Run(s, ops).0) && forall r :: Bootable(Run(s, ops).0.disk, r)
    decreases |ops|
  {
    if ops != [] {
      assert ops[0] in ops;
      StepSearchable(s, ops[0]);
      RunSearchable(Step(s, ops[0]).0, ops[1..]);
    }
  }

  /** Only a disk without the magic number that held other bytes, which formatting
      leaves in the names, can break it. The second condition then fails when memory
      has a name of 20 bytes or more in slot 11, and no byte of that entry's name on
      the disk is NUL from there on. */
  lemma MixedNameRunsOn(s: Fs)
    requires NulFree(EntryOf(s.header, 11)[..20]) && NulFree(EntryOf(DiskHeader(s.disk), 11)[20..MAX_FILENAME])
    requires Used(EntryOf(DiskHeader(s.disk), 11))
    ensures !MixedTerminated(s, 1)
  {
    var field := MixedField(s, 1, 11);
    assert field == EntryOf(s.header, 11)[..20] + EntryOf(DiskHeader(s.disk), 11)[20..MAX_FILENAME];
    assert NulFree(field);
  }

  /** From there on the system runs as a map again, through every further run, on
      the files the torn save has left. */
  lemma CrashThenRun(s: Fs, io: Io, boot: Op, t: Fs, ops: seq<Op>)
    requires s.selected && Magic(s.header) == Magic(DiskHeader(s.disk)) == MAGIC
    requires EntriesOk(s.header) && EntriesOk(DiskHeader(s.disk))
    requires Distinct(TableOnDisk(s, io.good)) && MixedTerminated(s, io.good)
    requires boot.Reboot? && boot.selected && AllRead(boot.loads) && Legal(boot) && t == Step(Save(s, io), boot).0
    requires SafeReboots(t, ops) && forall op :: op in ops ==> Legal(op)
    ensures Running(t)
    ensures (FilesIn(Run(t, ops).0), Run(t, ops).1) ==
      MapRun(Add(FilesOf(TableOnDisk(s, io.good)), README, boot.readme), ops)
  {
    var disk := Save(s, io).disk;
    CrashedDiskOkIff(s, io, disk);
    SavedTable(s, io, disk);
    KernelBootRefines(disk, true, boot.loads, boot.io, boot.readme, boot.io2);
    RunRefines(t, ops);
  }

  /** One operation from a synced state leaves nothing mixed but its own slot. */
  lemma OneMixed(s: Fs, i: nat, m: Fs, good: nat)
    requires Synced(s) && EntriesOk(s.header) && i < MAX_FILES && m.disk == s.disk
    requires forall j :: 0 <= j < MAX_FILES && j != i ==> EntryOf(m.header, j) == EntryOf(s.header, j)
    requires Straddles(good, i) && Used(EntryOf(s.header, i)) ==> Terminated(MixedField(m, good, i))
    ensures MixedTerminated(m, good)
  {
    forall j | 0 <= j < MAX_FILES && Straddles(good, j) && Used(EntryOf(DiskHeader(m.disk), j)) && j != i
      ensures Terminated(MixedField(m, good, j))
    {
      OnlyTwoStraddle(good, j);
      var e, n := EntryOf(s.header, j), SECTOR * good - EntryAt(j);
      assert e[..n] + e[n..MAX_FILENAME] == e[..MAX_FILENAME];
    }
  }

  /** A create that was torn anywhere, a reboot, and any further run. */
  lemma CreateThenRun(s: Fs, name: seq<byte>, content: seq<byte>, io: Io, boot: Op, t: Fs, ops: seq<Op>)
    requires Good(s) && NulFree(name) && |name| < MAX_FILENAME && CreateCode(s, name, content) == 0
    requires boot.Reboot? && boot.selected && AllRead(boot.loads) && Legal(boot)
    requires t == Step(Create(s, name, content, io), boot).0
    requires SafeReboots(t, ops) && forall op :: op in ops ==> Legal(op)
    ensures var i := Free(SlotsIn(s));
      var after := if Covers(io.good, i) then FilesIn(s)[name := TornText(content, s.data, i, io.good)] else FilesIn(s);
      && Running(t)
      && (FilesIn(Run(t, ops).0), Run(t, ops).1) == MapRun(Add(after, README, boot.readme), ops)
  {
    var i, m := Free(SlotsIn(s)), Entered(s, name, content);
    var text := TornText(content, s.data, i, io.good);
    CreatedTable(s, i, name, content, io.good, m);
    InFilesIffFound(SlotsIn(s), name);
    CreatedMap(SlotsIn(s), i, name, text, TableOnDisk(m, io.good));
    CreatedOk(s, i, name, content, io.good, m);
    CrashThenRun(m, io, boot, t, ops);
  }

  lemma CreatedOk(s: Fs, i: nat, name: seq<byte>, content: seq<byte>, good: nat, m: Fs)
    requires Good(s) && i < MAX_FILES && SlotsIn(s)[i].Empty? && name !in FilesIn(s)
    requires NulFree(name) && |name| < MAX_FILENAME && |content| <= MAX_FILE_SIZE && m == EnterAt(s, i, name, content)
    ensures EntriesOk(m.header) && Distinct(TableOnDisk(m, good)) && MixedTerminated(m, good)
  {
    EnterAtSlots(s, i, name, content);
    CreatedDistinct(s, i, name, content, good, m);
    CreatedMixed(s, i, name, content, good, m);
  }

  lemma CreatedDistinct(s: Fs, i: nat, name: seq<byte>, content: seq<byte>, good: nat, m: Fs)
    requires Good(s) && i < MAX_FILES && SlotsIn(s)[i].Empty? && name !in FilesIn(s)
    requires NulFree(name) && |name| < MAX_FILENAME && |content| <= MAX_FILE_SIZE && m == EnterAt(s, i, name, content)
    ensures Distinct(TableOnDisk(m, good))
  {
    CreatedTable(s, i, name, content, good, m);
    FilledDistinct(SlotsIn(s), i, name, TornText(content, s.data, i, good), TableOnDisk(m, good));
  }

  lemma FilledDistinct(ss: seq<Slot>, i: nat, name: seq<byte>, text: seq<byte>, dd: seq<Slot>)
    requires Distinct(ss) && i < |ss| && ss[i].Empty? && name !in FilesOf(ss)
    requires dd == ss[i := File(name, text)] || dd == ss[i := Empty]
    ensures Distinct(dd)
  {
    FillSlot(ss, i, name, text);
    assert ss[i := Empty] == ss;
  }

  lemma CreatedMixed(s: Fs, i: nat, name: seq<byte>, content: seq<byte>, good: nat, m: Fs)
    requires Good(s) && i < MAX_FILES && SlotsIn(s)[i].Empty? && |content| <= MAX_FILE_SIZE
    requires m == EnterAt(s, i, name, content)
    ensures MixedTerminated(m, good)
  {
    var f := FilledEntry(EntryOf(s.header, i), name, |content|, MAX_FILE_SIZE * i);
    WithEntryAndCount(s.header, i, f, (Count(s.header) + 1) % U32_LIMIT);
    EmptyIsUnused(s, i);
    OneMixed(s, i, m, good);
  }

  lemma EmptyIsUnused(s: Fs, i: nat)
    requires i < MAX_FILES && SlotsIn(s)[i].Empty?
    ensures !Used(EntryOf(s.header, i))
  {}

  /** A delete that was torn anywhere but left names distinct, a reboot, and any
      further run. */
  lemma DeleteThenRun(s: Fs, name: seq<byte>, io: Io, boot: Op, t: Fs, ops: seq<Op>)
    requires Good(s) && DeleteCode(s, name) == 0
    requires !(Straddles(io.good, Find(SlotsIn(s), name)) && name != [] && [] in FilesIn(s))
    requires boot.Reboot? && boot.selected && AllRead(boot.loads) && Legal(boot)
    requires t == Step(Delete(s, name, io), boot).0
    requires SafeReboots(t, ops) && forall op :: op in ops ==> Legal(op)
    ensures var m, i := FilesIn(s), Find(SlotsIn(s), name);
      && name in m && Running(t)
      && var after := if Covers(io.good, i) then m - {name}
                      else if !Straddles(io.good, i) || name == [] then m
                      else (m - {name})[[] := m[name]];
         (FilesIn(Run(t, ops).0), Run(t, ops).1) == MapRun(Add(after, README, boot.readme), ops)
  {
    var i, m := Find(SlotsIn(s), name), Dropped(s, name);
    DroppedTable(s, i, io.good, m);
    InFilesIffFound(SlotsIn(s), name);
    InFilesIffFound(SlotsIn(s), []);
    DroppedMap(SlotsIn(s), i, TableOnDisk(m, io.good));
    DroppedOk(s, i, io.good, m);
    CrashThenRun(m, io, boot, t, ops);
  }

  lemma DroppedOk(s: Fs, i: nat, good: nat, m: Fs)
    requires Good(s) && i < MAX_FILES && SlotsIn(s)[i].File? && m == DropAt(s, i)
    ensures EntriesOk(m.header) && MixedTerminated(m, good)
  {
    var e := EntryOf(s.header, i);
    DropAtSlots(s, i);
    WithEntryAndCount(s.header, i, FreedEntry(e), (Count(s.header) + U32_LIMIT - 1) % U32_LIMIT);
    if Straddles(good, i) { DroppedEnds(m, i, good); }
    OneMixed(s, i, m, good);
  }

  lemma DroppedEnds(m: Fs, i: nat, good: nat)
    requires i < MAX_FILES && Straddles(good, i) && EntryOf(m.header, i)[0] == 0
    ensures Terminated(MixedField(m, good, i))
  {
    OnlyTwoStraddle(good, i);
    assert MixedField(m, good, i)[0] == 0;
  }
}
