// Saves that stop part-way: what they leave on the disk.
module FsTorn {
  import opened CLib
  import opened FsLayout
  import opened SlotMap
  import opened FsSpec
  import opened FsRuns

  // ---- Torn saves do not interfere ----

  function Part(d: Data, i: nat): seq<byte>
    requires i < MAX_FILES
  {
    d[MAX_FILE_SIZE * i..MAX_FILE_SIZE * i + MAX_FILE_SIZE]
  }

  /** Slot `i` of an image: its 44 header bytes and its 4096 data bytes. */
  function SlotBytes(h: Header, d: Data, i: nat): (seq<byte>, seq<byte>)
    requires i < MAX_FILES
  {
    (EntryOf(h, i), Part(d, i))
  }

  function RamSlot(s: Fs, i: nat): (seq<byte>, seq<byte>)
    requires i < MAX_FILES
  {
    SlotBytes(s.header, s.data, i)
  }

  function DiskSlot(s: Fs, i: nat): (seq<byte>, seq<byte>)
    requires i < MAX_FILES
  {
    SlotBytes(DiskHeader(s.disk), DiskData(s.disk), i)
  }

  /** A boot reads all of slot `i`: the header, and the eight sectors of its data. */
  predicate SlotRead(r: Reads, i: nat) {
    r.header >= HEADER_SECTORS && forall n :: 8 * i <= n < 8 * i + 8 ==> n !in r.bad
  }

  /** The slots an operation writes to, or cannot read, in a session that uses the
      disk. */
  function Touched(s: Fs, op: Op): set<nat> {
    match op
    case DoCreate(name, content, _) => Entering(s, name, content)
    case DoDelete(name, _) => if s.selected && DeleteCode(s, name) == 0 then {Find(SlotsIn(s), name)} else {}
    case DoRead(_, _) => {}
    case DoSave(_) => {}
    case Reboot(selected, r, io, readme, _) =>
      var b := Boot(s.disk, selected, r, io);
      (if selected then (set i | 0 <= i < MAX_FILES && !SlotRead(r, i)) else {}) +
      (if Find(SlotsIn(b), README) >= 0 then {} else Entering(b, README, readme))
  }

  function Entering(s: Fs, name: seq<byte>, content: seq<byte>): set<nat> {
    if s.selected && CreateCode(s, name, content) == 0 then {Free(SlotsIn(s))} else {}
  }

  function RunTouched(s: Fs, ops: seq<Op>): set<nat>
    decreases |ops|
  {
    if ops == [] then {} else Touched(s, ops[0]) + RunTouched(Step(s, ops[0]).0, ops[1..])
  }

  /** The disk, and memory while the disk is in use, hold these bytes for slot `i`. */
  ghost predicate Holds(s: Fs, i: nat, bytes: (seq<byte>, seq<byte>)) {
    && i < MAX_FILES
    && Magic(DiskHeader(s.disk)) == MAGIC && DiskSlot(s, i) == bytes
    && (s.selected ==> Magic(s.header) == MAGIC && RamSlot(s, i) == bytes)
  }

  /** A byte the new image has in common with the disk survives any torn save. */
  lemma TornAgree(old': Image, new': Image, good: nat, at: nat, len: nat)
    requires at + len <= IMAGE_SECTORS * SECTOR && old'[at..at + len] == new'[at..at + len]
    ensures Torn(old', new', good)[at..at + len] == old'[at..at + len]
  {
    var t := Torn(old', new', good);
    forall k | at <= k < at + len ensures t[k] == old'[k] {
      assert old'[k] == old'[at..at + len][k - at] && new'[k] == new'[at..at + len][k - at];
    }
  }

  lemma SaveHolds(s: Fs, io: Io, i: nat, bytes: (seq<byte>, seq<byte>))
    requires Holds(s, i, bytes)
    ensures Holds(Save(s, io), i, bytes)
  {
    if s.selected {
      var img := ImageOf(s.header, io.tail, s.data);
      ImageRoundTrip(s.header, io.tail, s.data);
      MagicSurvives(s.disk, img, io.good);
      EntrySurvives(s.disk, img, io.good, i);
      PartSurvives(s.disk, img, io.good, i);
    }
  }

  lemma MagicSurvives(old': Image, new': Image, good: nat)
    requires Magic(DiskHeader(old')) == Magic(DiskHeader(new')) == MAGIC
    ensures Magic(DiskHeader(Torn(old', new', good))) == MAGIC
  {
    U32Injective(DiskHeader(old')[0..4], DiskHeader(new')[0..4]);
    assert old'[0..4] == DiskHeader(old')[0..4] && new'[0..4] == DiskHeader(new')[0..4];
    TornAgree(old', new', good, 0, 4);
    assert DiskHeader(Torn(old', new', good))[0..4] == Torn(old', new', good)[0..4];
  }

  lemma EntrySurvives(old': Image, new': Image, good: nat, i: nat)
    requires i < MAX_FILES && EntryOf(DiskHeader(old'), i) == EntryOf(DiskHeader(new'), i)
    ensures EntryOf(DiskHeader(Torn(old', new', good)), i) == EntryOf(DiskHeader(old'), i)
  {
    EntryBytes(old', i);
    EntryBytes(new', i);
    TornAgree(old', new', good, EntryAt(i), ENTRY_SIZE);
    EntryBytes(Torn(old', new', good), i);
  }

  lemma EntryBytes(x: Image, i: nat)
    requires i < MAX_FILES
    ensures EntryAt(i) + ENTRY_SIZE <= |x| && EntryOf(DiskHeader(x), i) == x[EntryAt(i)..EntryAt(i) + ENTRY_SIZE]
  {}

  lemma PartSurvives(old': Image, new': Image, good: nat, i: nat)
    requires i < MAX_FILES && Part(DiskData(old'), i) == Part(DiskData(new'), i)
    ensures Part(DiskData(Torn(old', new', good)), i) == Part(DiskData(old'), i)
  {
    PartBytes(old', i);
    PartBytes(new', i);
    TornAgree(old', new', good, HEADER_SECTORS * SECTOR + MAX_FILE_SIZE * i, MAX_FILE_SIZE);
    PartBytes(Torn(old', new', good), i);
  }

  lemma PartBytes(x: Image, i: nat)
    requires i < MAX_FILES
    ensures var p := HEADER_SECTORS * SECTOR + MAX_FILE_SIZE * i;
      p + MAX_FILE_SIZE <= |x| && Part(DiskData(x), i) == x[p..p + MAX_FILE_SIZE]
  {}

  lemma U32Injective(a: seq<byte>, b: seq<byte>)
    requires |a| == |b| == 4 && U32(a) == U32(b)
    ensures a == b
  {
    var a0: int, a1: int, a2: int, a3: int := a[0], a[1], a[2], a[3];
    var b0: int, b1: int, b2: int, b3: int := b[0], b[1], b[2], b[3];
    LowestDigit(a0, a1 + 0x100 * a2 + 0x1_0000 * a3, b0, b1 + 0x100 * b2 + 0x1_0000 * b3);
    LowestDigit(a1, a2 + 0x100 * a3, b1, b2 + 0x100 * b3);
    LowestDigit(a2, a3, b2, b3);
    assert a == [a[0], a[1], a[2], a[3]] && b == [b[0], b[1], b[2], b[3]];
  }

  lemma LowestDigit(x: int, p: int, y: int, q: int)
    requires 0 <= x < 0x100 && 0 <= y < 0x100 && x + 0x100 * p == y + 0x100 * q
    ensures x == y && p == q
  {}

  /** Writing another slot's entry, the count, and that slot's data. */
  lemma PutHolds(s: Fs, j: nat, e: Entry, n: nat, d': Data, i: nat, bytes: (seq<byte>, seq<byte>))
    requires Holds(s, i, bytes) && j < MAX_FILES && n < U32_LIMIT && OnlySlot(s.data, d', j)
    requires s.selected ==> i != j
    ensures Holds(Put(s, j, e, n, d'), i, bytes)
  {
    WithEntryAndCount(s.header, j, e, n);
    if s.selected {
      assert i < j || j < i;
      assert Part(d', i) == Part(s.data, i);
    }
  }

  lemma CreateHolds(s: Fs, name: seq<byte>, content: seq<byte>, io: Io, i: nat, bytes: (seq<byte>, seq<byte>))
    requires Holds(s, i, bytes) && i !in Entering(s, name, content)
    ensures Holds(Create(s, name, content, io), i, bytes)
  {
    if CreateCode(s, name, content) == 0 {
      EnterAtHolds(s, Free(SlotsIn(s)), name, content, i, bytes, Entered(s, name, content));
      SaveHolds(Entered(s, name, content), io, i, bytes);
    }
  }

  lemma EnterAtHolds(s: Fs, j: nat, name: seq<byte>, content: seq<byte>, i: nat, bytes: (seq<byte>, seq<byte>), m: Fs)
    requires Holds(s, i, bytes) && j < MAX_FILES && |content| <= MAX_FILE_SIZE && (s.selected ==> i != j)
    requires m == EnterAt(s, j, name, content)
    ensures Holds(m, i, bytes)
  {
    PutHolds(s, j, FilledEntry(EntryOf(s.header, j), name, |content|, MAX_FILE_SIZE * j),
             (Count(s.header) + 1) % U32_LIMIT, Splice(s.data, MAX_FILE_SIZE * j, content), i, bytes);
  }

  lemma DropAtHolds(s: Fs, j: nat, i: nat, bytes: (seq<byte>, seq<byte>), m: Fs)
    requires Holds(s, i, bytes) && j < MAX_FILES && (s.selected ==> i != j) && m == DropAt(s, j)
    ensures Holds(m, i, bytes)
  {
    PutHolds(s, j, FreedEntry(EntryOf(s.header, j)), (Count(s.header) + U32_LIMIT - 1) % U32_LIMIT, s.data, i, bytes);
  }

  lemma DeleteHolds(s: Fs, name: seq<byte>, io: Io, i: nat, bytes: (seq<byte>, seq<byte>))
    requires Holds(s, i, bytes)
    requires s.selected && DeleteCode(s, name) == 0 ==> i != Find(SlotsIn(s), name)
    ensures Holds(Delete(s, name, io), i, bytes)
  {
    if DeleteCode(s, name) == 0 {
      DropAtHolds(s, Find(SlotsIn(s), name), i, bytes, Dropped(s, name));
      SaveHolds(Dropped(s, name), io, i, bytes);
    }
  }

  lemma RebootHolds(s: Fs, selected: bool, r: Reads, io: Io, readme: seq<byte>, io2: Io,
                    i: nat, bytes: (seq<byte>, seq<byte>))
    requires Holds(s, i, bytes)
    requires i !in Touched(s, Reboot(selected, r, io, readme, io2))
    ensures Holds(KernelBoot(s.disk, selected, r, io, readme, io2), i, bytes)
  {
    var b := Boot(s.disk, selected, r, io);
    BootHolds(s, selected, r, io, i, bytes);
    if Find(SlotsIn(b), README) < 0 {
      CreateHolds(b, README, readme, io2, i, bytes);
    }
  }

  lemma BootHolds(s: Fs, selected: bool, r: Reads, io: Io, i: nat, bytes: (seq<byte>, seq<byte>))
    requires Holds(s, i, bytes)
    requires selected ==> SlotRead(r, i)
    ensures Holds(Boot(s.disk, selected, r, io), i, bytes)
  {
    if selected {
      PartRead(Zeros(DATA_SIZE), s.disk, r, i);
    }
  }

  lemma PartRead(d: Data, disk: Image, r: Reads, i: nat)
    requires i < MAX_FILES && SlotRead(r, i)
    ensures Part(LoadedData(d, disk, r.bad), i) == Part(DiskData(disk), i)
  {
    var x, y := LoadedData(d, disk, r.bad), DiskData(disk);
    forall j | MAX_FILE_SIZE * i <= j < MAX_FILE_SIZE * i + MAX_FILE_SIZE ensures x[j] == y[j] {
      assert 8 * i <= j / SECTOR < 8 * i + 8;
    }
  }

  lemma StepHolds(s: Fs, op: Op, i: nat, bytes: (seq<byte>, seq<byte>))
    requires Holds(s, i, bytes) && i !in Touched(s, op)
    ensures Holds(Step(s, op).0, i, bytes)
  {
    match op {
      case DoCreate(name, content, io) => CreateHolds(s, name, content, io, i, bytes);
      case DoDelete(name, io) => DeleteHolds(s, name, io, i, bytes);
      case DoRead(_, _) =>
      case DoSave(io) => SaveHolds(s, io, i, bytes);
      case Reboot(selected, r, io, readme, io2) =>
        RebootHolds(s, selected, r, io, readme, io2, i, bytes);
    }
  }

  lemma {:induction false} RunHolds(s: Fs, ops: seq<Op>, i: nat, bytes: (seq<byte>, seq<byte>))
    requires Holds(s, i, bytes) && i !in RunTouched(s, ops)
    ensures Holds(Run(s, ops).0, i, bytes)
    decreases |ops|
  {
    if ops != [] {
      StepHolds(s, ops[0], i, bytes);
      RunHolds(Step(s, ops[0]).0, ops[1..], i, bytes);
    }
  }

  /** Main result: from a synced state on, through any run in which any save may
      stop after any number of sectors, and through reboots that may not read
      everything, a slot that no operation writes to and every reboot reads keeps its
      44 + 4096 bytes on the disk, and so the same file. */
  lemma TornSavesDoNotInterfere(s: Fs, ops: seq<Op>, i: nat)
    requires s.selected && Magic(s.header) == MAGIC && Synced(s) && i < MAX_FILES
    requires i !in RunTouched(s, ops)
    ensures var disk := Run(s, ops).0.disk;
      && SlotBytes(DiskHeader(disk), DiskData(disk), i) == RamSlot(s, i)
      && (EntriesOk(s.header) ==> Slots(DiskHeader(disk), DiskData(disk))[i] == SlotsIn(s)[i])
  {
    RunHolds(s, ops, i, RamSlot(s, i));
    var disk := Run(s, ops).0.disk;
    if EntriesOk(s.header) {
      SameSlot(EntryOf(s.header, i), i, s.data, DiskData(disk));
    }
  }

  lemma SameSlot(e: Entry, i: nat, d: Data, d': Data)
    requires i < MAX_FILES && Part(d, i) == Part(d', i) && (Used(e) ==> EntryOk(e, i))
    ensures SlotOf(e, d) == SlotOf(e, d')
  {
    if Used(e) {
      var n := Size(e);
      assert Offset(e) + n <= DATA_SIZE;
      assert d[Offset(e)..Offset(e) + n] == Part(d, i)[..n];
      assert d'[Offset(e)..Offset(e) + n] == Part(d', i)[..n];
    }
  }

  // ---- When a torn image is consistent ----

  /** The used byte of slot `i` is among the first `good` sectors. */
  predicate Covers(good: nat, i: nat) {
    EntryAt(i) + 40 < SECTOR * good
  }

  /** Pointwise lighter slots count as much exactly when they weigh the same. */
  lemma {:induction false} CountLighter(ss: seq<Slot>, tt: seq<Slot>)
    requires |ss| == |tt| && forall i :: 0 <= i < |ss| ==> Weight(ss[i]) <= Weight(tt[i])
    ensures UsedCount(ss) <= UsedCount(tt)
    ensures UsedCount(ss) == UsedCount(tt) <==> forall i :: 0 <= i < |ss| ==> Weight(ss[i]) == Weight(tt[i])
  {
    if ss != [] {
      var n := |ss| - 1;
      CountLighter(ss[..n], tt[..n]);
      assert forall i :: 0 <= i < n ==> ss[..n][i] == ss[i] && tt[..n][i] == tt[i];
    }
  }

  /** The used byte on a disk that has the first `good` sectors of one image and
      the rest of another. */
  lemma TornUsed(old': Image, new': Image, good: nat, i: nat)
    requires i < MAX_FILES
    ensures Used(EntryOf(DiskHeader(Torn(old', new', good)), i))
         == Used(EntryOf(DiskHeader(if Covers(good, i) then new' else old'), i))
  {
    var at := EntryAt(i) + 40;
    var t := Torn(old', new', good);
    assert EntryOf(DiskHeader(t), i)[40] == t[at];
    assert EntryOf(DiskHeader(new'), i)[40] == new'[at];
    assert EntryOf(DiskHeader(old'), i)[40] == old'[at];
  }

  lemma TornCount(old': Image, new': Image, good: nat)
    ensures Count(DiskHeader(Torn(old', new', good))) == Count(DiskHeader(if good == 0 then old' else new'))
  {
    var t := Torn(old', new', good);
    assert DiskHeader(t)[4..8] == t[4..8];
    assert DiskHeader(new')[4..8] == new'[4..8];
    assert DiskHeader(old')[4..8] == old'[4..8];
  }

  /** A save that moves one file into or out of slot `i`, stopped after `good`
      sectors, leaves an image whose file_count equals its number of used entries
      exactly when nothing was written or the slot's used byte was. */
  lemma TornCountFitsIff(old': Image, new': Image, good: nat, i: nat)
    requires i < MAX_FILES
    requires CountFits(DiskHeader(old'), DiskData(old')) && CountFits(DiskHeader(new'), DiskData(new'))
    requires forall j :: 0 <= j < MAX_FILES ==>
      (Used(EntryOf(DiskHeader(old'), j)) == Used(EntryOf(DiskHeader(new'), j)) <==> j != i)
    ensures var t := Torn(old', new', good);
      CountFits(DiskHeader(t), DiskData(t)) <==> good == 0 || Covers(good, i)
  {
    var t := Torn(old', new', good);
    var ss, tt, nn := Slots(DiskHeader(old'), DiskData(old')), Slots(DiskHeader(t), DiskData(t)),
        Slots(DiskHeader(new'), DiskData(new'));
    TornCount(old', new', good);
    forall j | 0 <= j < MAX_FILES
      ensures Weight(tt[j]) == Weight(if j == i && Covers(good, i) then nn[j] else ss[j])
      ensures j != i ==> Weight(ss[j]) == Weight(nn[j])
      ensures j == i ==> Weight(ss[j]) != Weight(nn[j])
    {
      TornUsed(old', new', good, j);
    }
    SameOrder(ss, tt, nn, i);
  }

  lemma SameOrder(ss: seq<Slot>, tt: seq<Slot>, nn: seq<Slot>, i: nat)
    requires |ss| == |tt| == |nn| && i < |ss|
    requires forall j :: 0 <= j < |ss| && j != i ==> Weight(ss[j]) == Weight(tt[j]) == Weight(nn[j])
    requires Weight(ss[i]) != Weight(nn[i])
    ensures UsedCount(tt) == UsedCount(ss) <==> Weight(tt[i]) == Weight(ss[i])
    ensures UsedCount(tt) == UsedCount(nn) <==> Weight(tt[i]) == Weight(nn[i])
    ensures UsedCount(ss) != UsedCount(nn)
  {
    if Weight(ss[i]) <= Weight(tt[i]) { CountLighter(ss, tt); } else { CountLighter(tt, ss); }
    if Weight(nn[i]) <= Weight(tt[i]) { CountLighter(nn, tt); } else { CountLighter(tt, nn); }
    if Weight(ss[i]) <= Weight(nn[i]) { CountLighter(ss, nn); } else { CountLighter(nn, ss); }
  }

  /** fs_create_file with a save that stops part-way. */
  lemma TornCreateIff(s: Fs, name: seq<byte>, content: seq<byte>, io: Io)
    requires Good(s) && NulFree(name) && |name| < MAX_FILENAME && NulFree(content)
    requires CreateCode(s, name, content) == 0 && CountFits(s.header, s.data)
    ensures var disk := Create(s, name, content, io).disk;
      CountFits(DiskHeader(disk), DiskData(disk)) <==> io.good == 0 || Covers(io.good, Free(SlotsIn(s)))
  {
    var i := Free(SlotsIn(s));
    EnterAtSlots(s, i, name, content);
    InFilesIffFound(SlotsIn(s), name);
    EnterAtRefines(s, i, name, content);
    MovedOne(s, Entered(s, name, content), i, File(name, content), io);
  }

  /** fs_delete_file with a save that stops part-way. */
  lemma TornDeleteIff(s: Fs, name: seq<byte>, io: Io)
    requires Good(s) && DeleteCode(s, name) == 0 && CountFits(s.header, s.data)
    ensures var disk := Delete(s, name, io).disk;
      CountFits(DiskHeader(disk), DiskData(disk)) <==> io.good == 0 || Covers(io.good, Find(SlotsIn(s), name))
  {
    var i := Find(SlotsIn(s), name);
    DropAtSlots(s, i);
    DropAtRefines(s, i);
    MovedOne(s, Dropped(s, name), i, Empty, io);
  }

  /** It does happen: the twelfth file, and a save that stops after one sector. */
  lemma TornTwelfthFile(s: Fs, name: seq<byte>, content: seq<byte>, io: Io)
    requires Good(s) && NulFree(name) && |name| < MAX_FILENAME && NulFree(content)
    requires CreateCode(s, name, content) == 0 && CountFits(s.header, s.data)
    requires Free(SlotsIn(s)) == 11 && io.good == 1
    ensures var disk := Create(s, name, content, io).disk;
      !CountFits(DiskHeader(disk), DiskData(disk))
  {
    TornCreateIff(s, name, content, io);
  }

  lemma MovedOne(s: Fs, m: Fs, i: nat, slot: Slot, io: Io)
    requires Good(s) && i < MAX_FILES && m.disk == s.disk
    requires CountFits(s.header, s.data) && CountFits(m.header, m.data)
    requires Weight(slot) != Weight(SlotsIn(s)[i]) && SlotsIn(m) == SlotsIn(s)[i := slot]
    ensures var d := Torn(s.disk, ImageOf(m.header, io.tail, m.data), io.good);
      CountFits(DiskHeader(d), DiskData(d)) <==> io.good == 0 || Covers(io.good, i)
  {
    ImageRoundTrip(m.header, io.tail, m.data);
    forall j | 0 <= j < MAX_FILES
      ensures Used(EntryOf(s.header, j)) == Used(EntryOf(m.header, j)) <==> j != i
    {
      assert SlotsIn(s)[j].File? == Used(EntryOf(s.header, j));
      assert SlotsIn(m)[j].File? == Used(EntryOf(m.header, j));
    }
    TornCountFitsIff(s.disk, ImageOf(m.header, io.tail, m.data), io.good, i);
  }

  /** A boot whose header read stops after one or two sectors keeps what it read:
      file_count then fits exactly when no used entry lay further on. */
  lemma HalfReadHeaderIff(disk: Image, r: Reads, io: Io)
    requires Magic(DiskHeader(disk)) == MAGIC && CountFits(DiskHeader(disk), DiskData(disk))
      && 1 <= r.header < HEADER_SECTORS
    ensures var s := Boot(disk, true, r, io);
      && !s.persistent
      && (CountFits(s.header, s.data) <==>
          forall i :: 0 <= i < MAX_FILES && Used(EntryOf(DiskHeader(disk), i)) ==> Covers(r.header, i))
  {
    var s := Boot(disk, true, r, io);
    var h0 := InitHeader(Zeros(HEADER_SIZE));
    EmptyHeader(Zeros(HEADER_SIZE), h0);
    var ss, tt := SlotsIn(s), Slots(DiskHeader(disk), DiskData(disk));
    assert s.header[4..8] == DiskHeader(disk)[4..8];
    forall i | 0 <= i < MAX_FILES
      ensures Weight(ss[i]) == if Covers(r.header, i) then Weight(tt[i]) else 0
    {
      HalfReadUsed(disk, h0, s.header, r.header, i);
    }
    CountLighter(ss, tt);
  }

  lemma HalfReadUsed(disk: Image, h0: Header, h: Header, good: nat, i: nat)
    requires i < MAX_FILES && good < HEADER_SECTORS && h == LoadedHeader(h0, disk, good) && !Used(EntryOf(h0, i))
    ensures Used(EntryOf(h, i)) <==> Covers(good, i) && Used(EntryOf(DiskHeader(disk), i))
  {
    var at := EntryAt(i) + 40;
    assert EntryOf(h, i)[40] == h[at];
    assert EntryOf(DiskHeader(disk), i)[40] == DiskHeader(disk)[at];
    assert EntryOf(h0, i)[40] == h0[at];
  }

  /** It does happen: the last slot is used and only one header sector is read. */
  lemma HalfReadLastSlot(disk: Image, io: Io)
    requires Magic(DiskHeader(disk)) == MAGIC && CountFits(DiskHeader(disk), DiskData(disk))
    requires Used(EntryOf(DiskHeader(disk), 31))
    ensures var s := Boot(disk, true, Reads(1, {}), io);
      !CountFits(s.header, s.data)
  {
    HalfReadHeaderIff(disk, Reads(1, {}), io);
  }

  // ---- Boots that cannot read everything, and the save after them ----

  /** Byte `k` of slot `i`'s text was not read. */
  predicate Unread(r: Reads, i: nat, k: nat) {
    r.header < HEADER_SECTORS || (MAX_FILE_SIZE * i + k) / SECTOR in r.bad
  }

  /** What a boot makes of a slot of the disk: nothing if its used byte was not read,
      and zeros where its text was not. */
  function ReadSlot(slot: Slot, r: Reads, i: nat): Slot {
    if slot.Empty? || !Covers(r.header, i) then Empty
    else File(slot.name, seq(|slot.text|, k requires 0 <= k < |slot.text| => if Unread(r, i, k) then 0 else slot.text[k]))
  }

  /** Its used byte is read, and what is not read of its text is zero. */
  predicate Survives(slot: Slot, r: Reads, i: nat) {
    slot.File? ==>
      Covers(r.header, i) && forall k :: 0 <= k < |slot.text| && Unread(r, i, k) ==> slot.text[k] == 0
  }

  lemma BootedSlot(disk: Image, r: Reads, io: Io, i: nat, s: Fs)
    requires Magic(DiskHeader(disk)) == MAGIC && EntriesOk(DiskHeader(disk)) && i < MAX_FILES
    requires s == Boot(disk, true, r, io)
    ensures SlotsIn(s)[i] == ReadSlot(Slots(DiskHeader(disk), DiskData(disk))[i], r, i)
  {
    var h0, e, d := InitHeader(Zeros(HEADER_SIZE)), EntryOf(s.header, i), EntryOf(DiskHeader(disk), i);
    EmptyHeader(Zeros(HEADER_SIZE), h0);
    if r.header < HEADER_SECTORS { HalfReadUsed(disk, h0, s.header, r.header, i); }
    if Used(e) {
      BootedEntry(disk, true, r, io, i);
      SameFields(e, d, i);
      BootedText(disk, r, s.data, d, i);
    }
  }

  lemma BootedText(disk: Image, r: Reads, data: Data, d: Entry, i: nat)
    requires EntryOk(d, i) && i < MAX_FILES
    requires data == if r.header < HEADER_SECTORS then Zeros(DATA_SIZE) else LoadedData(Zeros(DATA_SIZE), disk, r.bad)
    ensures var text := Content(d, DiskData(disk));
      |Content(d, data)| == |text| &&
      forall k :: 0 <= k < |text| ==> Content(d, data)[k] == if Unread(r, i, k) then 0 else text[k]
  {
    assert MAX_FILE_SIZE * i + MAX_FILE_SIZE <= DATA_SIZE;
  }

  /** A complete save after a boot that could not read everything makes that final:
      a slot of the disk survives exactly when its used byte was read and what was
      not read of its text is zero. */
  lemma PoorBootThenSave(disk: Image, r: Reads, io: Io, io2: Io, i: nat, after: Image)
    requires Magic(DiskHeader(disk)) == MAGIC && EntriesOk(DiskHeader(disk)) && i < MAX_FILES
    requires Complete(io2) && after == Save(Boot(disk, true, r, io), io2).disk
    ensures var was, now := Slots(DiskHeader(disk), DiskData(disk))[i], Slots(DiskHeader(after), DiskData(after))[i];
      now == ReadSlot(was, r, i) && (now == was <==> Survives(was, r, i))
  {
    var s := Boot(disk, true, r, io);
    CompleteSave(s, io2);
    BootedSlot(disk, r, io, i, s);
    SameTextIff(Slots(DiskHeader(disk), DiskData(disk))[i], r, i);
  }

  lemma SameTextIff(was: Slot, r: Reads, i: nat)
    ensures ReadSlot(was, r, i) == was <==> Survives(was, r, i)
  {
    var now := ReadSlot(was, r, i);
    if was.File? && now.File? {
      assert now.text == was.text <==> forall k :: 0 <= k < |was.text| ==> now.text[k] == was.text[k];
    }
  }

  /** So one unreadable header sector and one complete save wipe every text. */
  lemma UnreadHeaderWipes(disk: Image, r: Reads, io: Io, io2: Io, after: Image)
    requires r.header < HEADER_SECTORS && Complete(io2) && after == Save(Boot(disk, true, r, io), io2).disk
    ensures DiskData(after) == Zeros(DATA_SIZE)
  {
    CompleteSave(Boot(disk, true, r, io), io2);
  }
}
