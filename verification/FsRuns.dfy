// Boots, runs of operations, and what holds over every run.
module FsRuns {
  import opened CLib
  import opened FsLayout
  import opened SlotMap
  import opened FsSpec

  // ---- Loading and booting ----

  /** The outcome of one load: how many header sectors are read before the first
      that fails, and which data sectors cannot be read. */
  datatype Reads = Reads(header: nat, bad: set<nat>)

  predicate AllRead(r: Reads) { r.header >= HEADER_SECTORS && r.bad == {} }

  function Zeros(n: nat): (s: seq<byte>)
    ensures |s| == n
  {
    seq(n, _ => 0)
  }

  function Load(s: Fs, r: Reads, io: Io): Fs {
    if !s.selected then s
    else
      var h := LoadedHeader(s.header, s.disk, r.header);
      if r.header < HEADER_SECTORS then s.(header := h)
      else if Magic(h) != MAGIC then
        Save(s.(header := Reformatted(h), data := Zeros(DATA_SIZE), persistent := true), io)
      else s.(header := h, data := LoadedData(s.data, s.disk, r.bad), persistent := true)
  }

  /** fs_init on zeroed static memory. */
  function Boot(disk: Image, selected: bool, r: Reads, io: Io): Fs {
    Load(Fs(InitHeader(Zeros(HEADER_SIZE)), Zeros(DATA_SIZE), true, false, selected, disk), r, io)
  }

  /** "README.txt" */
  const README: seq<byte> := [82, 69, 65, 68, 77, 69, 46, 116, 120, 116]

  /** kernel_main: fs_init, then README.txt if there is none. */
  function KernelBoot(disk: Image, selected: bool, r: Reads, io: Io, readme: seq<byte>, io2: Io): Fs {
    WithReadme(Boot(disk, selected, r, io), readme, io2)
  }

  function WithReadme(s: Fs, readme: seq<byte>, io: Io): Fs {
    if Find(SlotsIn(s), README) >= 0 then s else Create(s, README, readme, io)
  }

  // ---- Runs ----

  datatype Op =
    | DoCreate(name: seq<byte>, content: seq<byte>, io: Io)
    | DoDelete(name: seq<byte>, io: Io)
    | DoRead(name: seq<byte>, max: nat)
    | DoSave(io: Io)
    | Reboot(selected: bool, loads: Reads, io: Io, readme: seq<byte>, io2: Io)

  datatype Out = Code(code: int) | Bytes(code: int, bytes: seq<byte>) | Silent

  /** What the callers in the kernel guarantee: C strings, names under 32 bytes,
      room for the NUL. */
  ghost predicate Legal(op: Op) {
    match op
    case DoCreate(name, content, _) => NulFree(name) && |name| < MAX_FILENAME && NulFree(content)
    case DoDelete(name, _) => NulFree(name)
    case DoRead(name, max) => max >= 1
    case DoSave(_) => true
    case Reboot(_, _, _, readme, _) => NulFree(readme) && |readme| <= MAX_FILE_SIZE
  }

  function Step(s: Fs, op: Op): (Fs, Out) {
    match op
    case DoCreate(name, content, io) => (Create(s, name, content, io), Code(CreateCode(s, name, content)))
    case DoDelete(name, io) => (Delete(s, name, io), Code(DeleteCode(s, name)))
    case DoRead(name, max) => (s, if max >= 1 then Bytes(ReadCode(s, name, max), ReadBytes(s, name, max)) else Silent)
    case DoSave(io) => (Save(s, io), Silent)
    case Reboot(selected, r, io, readme, io2) => (KernelBoot(s.disk, selected, r, io, readme, io2), Silent)
  }

  function Run(s: Fs, ops: seq<Op>): (Fs, seq<Out>)
    decreases |ops|
  {
    if ops == [] then (s, []) else
    var (t, o) := Step(s, ops[0]);
    var (u, os) := Run(t, ops[1..]);
    (u, [o] + os)
  }

  // ---- The same runs on a map ----

  function AddCode(m: Files, name: seq<byte>, content: seq<byte>): int {
    if name in m then -2 else if |m| == MAX_FILES then -3 else if |content| > MAX_FILE_SIZE then -4 else 0
  }

  function Add(m: Files, name: seq<byte>, content: seq<byte>): Files {
    if AddCode(m, name, content) == 0 then m[name := content] else m
  }

  function MapStep(m: Files, op: Op): (Files, Out) {
    match op
    case DoCreate(name, content, _) => (Add(m, name, content), Code(AddCode(m, name, content)))
    case DoDelete(name, _) => (m - {name}, Code(if name in m then 0 else -1))
    case DoRead(name, max) =>
      (m, if max < 1 then Silent
          else if name in m then var n := Min(|m[name]|, max - 1); Bytes(n, m[name][..n] + [0])
          else Bytes(-1, []))
    case DoSave(_) => (m, Silent)
    case Reboot(selected, _, _, readme, _) => (Add(if selected then m else map[], README, readme), Silent)
  }

  function MapRun(m: Files, ops: seq<Op>): (Files, seq<Out>)
    decreases |ops|
  {
    if ops == [] then (m, []) else
    var (m', o) := MapStep(m, ops[0]);
    var (m'', os) := MapRun(m', ops[1..]);
    (m'', [o] + os)
  }

  // ---- The disk image and memory ----

  /** The disk decodes to exactly what is in memory. */
  predicate Synced(s: Fs) {
    DiskHeader(s.disk) == s.header && DiskData(s.disk) == s.data
  }

  ghost predicate Good(s: Fs) {
    s.ready && s.selected && Ok(s.header, s.data) && Synced(s)
  }

  lemma CompleteSave(s: Fs, io: Io)
    requires s.selected && Complete(io)
    ensures Synced(Save(s, io))
  {
    ImageRoundTrip(s.header, io.tail, s.data);
  }

  /** Save then load is the identity on every header and data byte, whatever the
      bytes behind the header and whatever memory held before. */
  lemma SaveThenLoad(s: Fs, io: Io, before: Fs, r: Reads, io': Io)
    requires s.selected && Complete(io) && Magic(s.header) == MAGIC
    requires before.selected && before.disk == Save(s, io).disk && r.header >= HEADER_SECTORS && r.bad == {}
    ensures var t := Load(before, r, io');
      t.header == s.header && t.data == s.data && t.persistent && t.disk == before.disk
  {
    CompleteSave(s, io);
    assert LoadedData(before.data, before.disk, {}) == DiskData(before.disk);
  }

  lemma EmptyOk(h: Header, d: Data)
    requires Magic(h) == MAGIC && Count(h) == 0
    requires forall i :: 0 <= i < MAX_FILES ==> !Used(EntryOf(h, i))
    ensures Ok(h, d) && CountFits(h, d) && FilesOf(Slots(h, d)) == map[]
  {
    NoneUsed(Slots(h, d));
    assert Names(Slots(h, d)) == {};
  }

  /** A starting disk: without the magic number, or with a table that stands for a
      map. */
  ghost predicate StartingDisk(disk: Image) {
    Magic(DiskHeader(disk)) == MAGIC ==> Ok(DiskHeader(disk), DiskData(disk))
  }

  function DiskFiles(disk: Image): Files {
    if Magic(DiskHeader(disk)) == MAGIC then FilesOf(Slots(DiskHeader(disk), DiskData(disk))) else map[]
  }

  // ---- fs_persistent ----

  ghost predicate PersistentIsSound(s: Fs) {
    s.persistent ==> s.selected && Synced(s)
  }

  lemma SaveIsSound(s: Fs, io: Io)
    requires s.persistent ==> s.selected
    ensures PersistentIsSound(Save(s, io))
  {
    if s.selected && Complete(io) { CompleteSave(s, io); }
  }

  lemma BootIsSound(disk: Image, selected: bool, r: Reads, io: Io)
    requires r.bad == {}
    ensures PersistentIsSound(Boot(disk, selected, r, io))
  {
    var h := LoadedHeader(InitHeader(Zeros(HEADER_SIZE)), disk, r.header);
    if selected && r.header >= HEADER_SECTORS {
      if Magic(h) == MAGIC {
        assert LoadedData(Zeros(DATA_SIZE), disk, {}) == DiskData(disk);
      } else {
        SaveIsSound(Fs(Reformatted(h), Zeros(DATA_SIZE), true, true, selected, disk), io);
      }
    }
  }

  lemma CreateIsSound(s: Fs, name: seq<byte>, content: seq<byte>, io: Io)
    requires PersistentIsSound(s)
    ensures PersistentIsSound(Create(s, name, content, io))
  {
    if CreateCode(s, name, content) == 0 { SaveIsSound(Entered(s, name, content), io); }
  }

  lemma DeleteIsSound(s: Fs, name: seq<byte>, io: Io)
    requires PersistentIsSound(s)
    ensures PersistentIsSound(Delete(s, name, io))
  {
    if DeleteCode(s, name) == 0 { SaveIsSound(Dropped(s, name), io); }
  }

  lemma StepIsSound(s: Fs, op: Op)
    requires PersistentIsSound(s) && (op.Reboot? ==> op.loads.bad == {})
    ensures PersistentIsSound(Step(s, op).0)
  {
    match op {
      case DoCreate(name, content, io) => CreateIsSound(s, name, content, io);
      case DoDelete(name, io) => DeleteIsSound(s, name, io);
      case DoRead(_, _) =>
      case DoSave(io) => SaveIsSound(s, io);
      case Reboot(selected, r, io, readme, io2) =>
        BootIsSound(s.disk, selected, r, io);
        CreateIsSound(Boot(s.disk, selected, r, io), README, readme, io2);
    }
  }

  /** In every run, whatever writes and header reads fail: between operations
      fs_persistent == 1 means that the disk decodes to the memory image. */
  lemma {:induction false} PersistentSound(s: Fs, ops: seq<Op>)
    requires PersistentIsSound(s)
    requires forall op :: op in ops && op.Reboot? ==> op.loads.bad == {}
    ensures PersistentIsSound(Run(s, ops).0)
    decreases |ops|
  {
    if ops != [] {
      assert ops[0] in ops;
      StepIsSound(s, ops[0]);
      PersistentSound(Step(s, ops[0]).0, ops[1..]);
    }
  }

  /** When data sectors cannot be read at boot the flag is set all the same. It is
      then right exactly when the sectors missed held nothing but zeros. */
  lemma PersistentAfterBadReadsIff(disk: Image, r: Reads, io: Io)
    requires r.header >= HEADER_SECTORS && Magic(DiskHeader(disk)) == MAGIC
    ensures Boot(disk, true, r, io).persistent
    ensures PersistentIsSound(Boot(disk, true, r, io)) <==>
            forall k :: 0 <= k < DATA_SIZE && k / SECTOR in r.bad ==> DiskData(disk)[k] == 0
  {
    var s := Boot(disk, true, r, io);
    if forall k :: 0 <= k < DATA_SIZE && k / SECTOR in r.bad ==> DiskData(disk)[k] == 0 {
      assert s.data == DiskData(disk);
    } else {
      var k :| 0 <= k < DATA_SIZE && k / SECTOR in r.bad && DiskData(disk)[k] != 0;
      assert s.data[k] == 0;
    }
  }

  /** It does happen: the first data sector holds text and cannot be read. */
  lemma BadReadUnsound(disk: Image, r: Reads, io: Io)
    requires r.header >= HEADER_SECTORS && Magic(DiskHeader(disk)) == MAGIC
    requires DiskData(disk)[0] != 0 && r.bad == {0}
    ensures Boot(disk, true, r, io).persistent && !Synced(Boot(disk, true, r, io))
  {
    PersistentAfterBadReadsIff(disk, r, io);
    assert 0 / SECTOR in r.bad;
  }

  /** Once a save has failed the flag stays 0 until the next boot. */
  lemma {:induction false} NotPersistentUntilReboot(s: Fs, ops: seq<Op>)
    requires !s.persistent && forall op :: op in ops ==> !op.Reboot?
    ensures !Run(s, ops).0.persistent
    decreases |ops|
  {
    if ops != [] {
      assert ops[0] in ops;
      NotPersistentUntilReboot(Step(s, ops[0]).0, ops[1..]);
    }
  }

  // ---- Refinement over runs ----

  /** All that a run as a map needs: any count, any texts, any disk. */
  ghost predicate Running(s: Fs) {
    s.ready && Ok(s.header, s.data)
  }

  lemma CreateRuns(s: Fs, name: seq<byte>, content: seq<byte>, io: Io)
    requires Running(s) && NulFree(name) && |name| < MAX_FILENAME
    ensures Running(Create(s, name, content, io))
    ensures FilesIn(Create(s, name, content, io)) == Add(FilesIn(s), name, content)
    ensures CreateCode(s, name, content) == AddCode(FilesIn(s), name, content)
  {
    CreateRefines(s, name, content, io);
  }

  lemma DeleteRuns(s: Fs, name: seq<byte>, io: Io)
    requires Running(s)
    ensures Running(Delete(s, name, io))
    ensures FilesIn(Delete(s, name, io)) == FilesIn(s) - {name}
    ensures DeleteCode(s, name) == if name in FilesIn(s) then 0 else -1
  {
    DeleteRefines(s, name, io);
  }

  lemma ReadRuns(s: Fs, name: seq<byte>, max: nat)
    requires Running(s) && max >= 1
    ensures (FilesIn(s), Bytes(ReadCode(s, name, max), ReadBytes(s, name, max))) == MapStep(FilesIn(s), DoRead(name, max))
  {
    ReadRefines(s, name, max);
  }

  /** fs_init brings up what the disk holds, or an empty file system. */
  lemma BootRefines(disk: Image, r: Reads, io: Io)
    requires StartingDisk(disk) && AllRead(r)
    ensures var s := Boot(disk, true, r, io);
      && Running(s) && FilesIn(s) == DiskFiles(disk) && PersistentIsSound(s)
      && (Magic(DiskHeader(disk)) == MAGIC || Complete(io) ==> Good(s) && s.persistent)
  {
    var h := DiskHeader(disk);
    BootIsSound(disk, true, r, io);
    if Magic(h) == MAGIC {
      assert LoadedData(Zeros(DATA_SIZE), disk, {}) == DiskData(disk);
    } else {
      EmptyHeader(h, Reformatted(h));
      EmptyOk(Reformatted(h), Zeros(DATA_SIZE));
    }
  }

  /** Without a drive fs_init brings up an empty file system in memory. */
  lemma RamBootRefines(disk: Image, r: Reads, io: Io)
    ensures Running(Boot(disk, false, r, io)) && FilesIn(Boot(disk, false, r, io)) == map[]
  {
    var h := Zeros(HEADER_SIZE);
    EmptyHeader(h, InitHeader(h));
    EmptyOk(InitHeader(h), Zeros(DATA_SIZE));
  }

  /** The boot order of kernel_main keeps the map, but for README.txt. */
  lemma KernelBootRefines(disk: Image, selected: bool, r: Reads, io: Io, readme: seq<byte>, io2: Io)
    requires selected ==> StartingDisk(disk) && AllRead(r)
    requires NulFree(readme) && |readme| <= MAX_FILE_SIZE
    ensures var t := KernelBoot(disk, selected, r, io, readme, io2);
      Running(t) && FilesIn(t) == Add(if selected then DiskFiles(disk) else map[], README, readme)
  {
    var b := Boot(disk, selected, r, io);
    if selected { BootRefines(disk, r, io); } else { RamBootRefines(disk, r, io); }
    CreateRuns(b, README, readme, io2);
    InFilesIffFound(SlotsIn(b), README);
  }

  /** A reboot without a drive, or one that reads the disk well when it decodes to
      memory, as it does whenever fs_persistent is set. */
  predicate SafeReboot(s: Fs, op: Op) {
    op.Reboot? && op.selected ==> Synced(s) && AllRead(op.loads)
  }

  predicate SafeReboots(s: Fs, ops: seq<Op>)
    decreases |ops|
  {
    ops == [] || (SafeReboot(s, ops[0]) && SafeReboots(Step(s, ops[0]).0, ops[1..]))
  }

  lemma StepRefines(s: Fs, op: Op)
    requires Running(s) && Legal(op) && SafeReboot(s, op)
    ensures Running(Step(s, op).0)
    ensures (FilesIn(Step(s, op).0), Step(s, op).1) == MapStep(FilesIn(s), op)
  {
    match op {
      case DoCreate(name, content, io) => CreateRuns(s, name, content, io);
      case DoDelete(name, io) => DeleteRuns(s, name, io);
      case DoRead(name, max) => ReadRuns(s, name, max);
      case DoSave(io) =>
      case Reboot(selected, r, io, readme, io2) => KernelBootRefines(s.disk, selected, r, io, readme, io2);
    }
  }

  /** Main result: over every run of creates, deletes, reads, saves and reboots,
      whatever saves fail, SzymFS is a map from names to texts, with the same
      result codes and the same bytes read, with or without a drive. A reboot
      keeps the map when the disk held what memory holds and is read well, and
      starts from the empty map when no drive is selected. */
  lemma {:induction false} RunRefines(s: Fs, ops: seq<Op>)
    requires Running(s) && SafeReboots(s, ops)
    requires forall op :: op in ops ==> Legal(op)
    ensures Running(Run(s, ops).0)
    ensures (FilesIn(Run(s, ops).0), Run(s, ops).1) == MapRun(FilesIn(s), ops)
    decreases |ops|
  {
    if ops != [] {
      assert ops[0] in ops;
      StepRefines(s, ops[0]);
      RunRefines(Step(s, ops[0]).0, ops[1..]);
    }
  }

  /** No sector operation fails. */
  predicate Smooth(op: Op) {
    match op
    case DoCreate(_, _, io) => Complete(io)
    case DoDelete(_, io) => Complete(io)
    case DoRead(_, _) => true
    case DoSave(io) => Complete(io)
    case Reboot(selected, r, io, _, io2) => selected && AllRead(r) && Complete(io) && Complete(io2)
  }

  /** When nothing fails fs_persistent stays set, and every reboot is safe. */
  lemma {:induction false} SmoothIsSafe(s: Fs, ops: seq<Op>)
    requires s.persistent && PersistentIsSound(s) && forall op :: op in ops ==> Smooth(op)
    ensures SafeReboots(s, ops) && Run(s, ops).0.persistent
    decreases |ops|
  {
    if ops != [] {
      assert ops[0] in ops;
      SmoothStep(s, ops[0]);
      StepIsSound(s, ops[0]);
      SmoothIsSafe(Step(s, ops[0]).0, ops[1..]);
    }
  }

  lemma SmoothStep(s: Fs, op: Op)
    requires s.persistent && s.selected && Smooth(op)
    ensures Step(s, op).0.persistent && Step(s, op).0.selected
  {}

  // ---- file_count over runs ----

  /** A starting disk whose file_count is right, if it has the magic number. */
  ghost predicate CountedDisk(disk: Image) {
    Magic(DiskHeader(disk)) == MAGIC ==> CountFits(DiskHeader(disk), DiskData(disk))
  }

  /** The boot order comes up with a right file_count. */
  lemma KernelBootCount(disk: Image, selected: bool, r: Reads, io: Io, readme: seq<byte>, io2: Io)
    requires selected ==> StartingDisk(disk) && AllRead(r) && CountedDisk(disk)
    ensures var t := KernelBoot(disk, selected, r, io, readme, io2); CountFits(t.header, t.data)
  {
    var b, z, h := Boot(disk, selected, r, io), Zeros(HEADER_SIZE), DiskHeader(disk);
    if !selected {
      EmptyHeader(z, InitHeader(z));
      EmptyOk(InitHeader(z), Zeros(DATA_SIZE));
    } else if Magic(h) == MAGIC {
      assert LoadedData(Zeros(DATA_SIZE), disk, {}) == DiskData(disk);
    } else {
      EmptyHeader(h, Reformatted(h));
      EmptyOk(Reformatted(h), Zeros(DATA_SIZE));
    }
    if selected { BootRefines(disk, r, io); } else { RamBootRefines(disk, r, io); }
    CreateRefines(b, README, readme, io2);
  }

  lemma StepCount(s: Fs, op: Op)
    requires Running(s) && CountFits(s.header, s.data) && Legal(op) && SafeReboot(s, op)
    ensures CountFits(Step(s, op).0.header, Step(s, op).0.data)
  {
    match op {
      case DoCreate(name, content, io) => CreateRefines(s, name, content, io);
      case DoDelete(name, io) => DeleteRefines(s, name, io);
      case DoRead(_, _) =>
      case DoSave(io) =>
      case Reboot(selected, r, io, readme, io2) => KernelBootCount(s.disk, selected, r, io, readme, io2);
    }
  }

  lemma {:induction false} RunCount(s: Fs, ops: seq<Op>)
    requires Running(s) && CountFits(s.header, s.data) && SafeReboots(s, ops)
    requires forall op :: op in ops ==> Legal(op)
    ensures CountFits(Run(s, ops).0.header, Run(s, ops).0.data)
    decreases |ops|
  {
    if ops != [] {
      assert ops[0] in ops;
      StepRefines(s, ops[0]);
      StepCount(s, ops[0]);
      RunCount(Step(s, ops[0]).0, ops[1..]);
    }
  }

  /** The table invariant: a right file_count, which is the number of files and at
      most 32, distinct terminated names, and texts in regions of the data array
      that do not overlap. */
  ghost predicate TableInvariant(s: Fs) {
    && Running(s) && CountFits(s.header, s.data)
    && Count(s.header) == |FilesIn(s)| <= MAX_FILES
    && forall i, j :: (0 <= i < MAX_FILES && 0 <= j < MAX_FILES && i != j &&
                       Used(EntryOf(s.header, i)) && Used(EntryOf(s.header, j)))
         ==> NoOverlap(EntryOf(s.header, i), EntryOf(s.header, j))
  }

  /** Both regions are within the data array, and one ends before the other begins. */
  predicate NoOverlap(e: Entry, f: Entry) {
    && Offset(e) + Size(e) <= DATA_SIZE && Offset(f) + Size(f) <= DATA_SIZE
    && (Offset(e) + Size(e) <= Offset(f) || Offset(f) + Size(f) <= Offset(e))
  }

  lemma RegionsApart(e: Entry, i: nat, f: Entry, j: nat)
    requires EntryOk(e, i) && EntryOk(f, j) && i < MAX_FILES && j < MAX_FILES && i != j
    ensures NoOverlap(e, f)
  {
    assert i < j || j < i;
  }

  lemma InvariantHolds(s: Fs)
    requires Running(s) && CountFits(s.header, s.data)
    ensures TableInvariant(s)
  {
    NamesCount(SlotsIn(s));
    assert |FilesIn(s)| == |Names(SlotsIn(s))|;
    forall i, j | 0 <= i < MAX_FILES && 0 <= j < MAX_FILES && i != j &&
                  Used(EntryOf(s.header, i)) && Used(EntryOf(s.header, j))
      ensures NoOverlap(EntryOf(s.header, i), EntryOf(s.header, j))
    {
      RegionsApart(EntryOf(s.header, i), i, EntryOf(s.header, j), j);
    }
  }

  /** Main result: the table invariant holds in every state of every run, whatever
      saves fail. */
  lemma RunKeepsInvariant(s: Fs, ops: seq<Op>)
    requires TableInvariant(s) && SafeReboots(s, ops) && forall op :: op in ops ==> Legal(op)
    ensures TableInvariant(Run(s, ops).0)
  {
    RunRefines(s, ops);
    RunCount(s, ops);
    InvariantHolds(Run(s, ops).0);
  }

  /** From power-on, in a run in which nothing fails. */
  lemma RunFromPowerOnRefines(disk: Image, boot: Op, ops: seq<Op>)
    requires StartingDisk(disk) && boot.Reboot? && Legal(boot) && Smooth(boot)
    requires forall op :: op in ops ==> Legal(op) && Smooth(op)
    ensures var s := KernelBoot(disk, true, boot.loads, boot.io, boot.readme, boot.io2);
      && Running(Run(s, ops).0)
      && (FilesIn(Run(s, ops).0), Run(s, ops).1) == MapRun(Add(DiskFiles(disk), README, boot.readme), ops)
      && (CountedDisk(disk) ==> TableInvariant(Run(s, ops).0))
  {
    var b := Boot(disk, true, boot.loads, boot.io);
    var s := KernelBoot(disk, true, boot.loads, boot.io, boot.readme, boot.io2);
    KernelBootRefines(disk, true, boot.loads, boot.io, boot.readme, boot.io2);
    BootRefines(disk, boot.loads, boot.io);
    CreateIsSound(b, README, boot.readme, boot.io2);
    SmoothIsSafe(s, ops);
    RunRefines(s, ops);
    if CountedDisk(disk) {
      KernelBootCount(disk, true, boot.loads, boot.io, boot.readme, boot.io2);
      InvariantHolds(s);
      RunKeepsInvariant(s, ops);
    }
  }

  // ---- Runs whose reboots find a disk behind memory ----

  /** Every reboot onto the disk reads it well and finds a table that stands for a
      map, memory's or not. */
  ghost predicate Rebootable(s: Fs, ops: seq<Op>)
    decreases |ops|
  {
    ops == [] ||
    (&& (ops[0].Reboot? && ops[0].selected ==> StartingDisk(s.disk) && AllRead(ops[0].loads))
     && Rebootable(Step(s, ops[0]).0, ops[1..]))
  }

  /** The run on a map; a reboot replaces it by the one the disk has by then. */
  function TableRun(s: Fs, m: Files, ops: seq<Op>): (Files, seq<Out>)
    decreases |ops|
  {
    if ops == [] then (m, []) else
    var seen := if ops[0].Reboot? && ops[0].selected then DiskFiles(s.disk) else m;
    var (m', o) := MapStep(seen, ops[0]);
    var (m'', os) := TableRun(Step(s, ops[0]).0, m', ops[1..]);
    (m'', [o] + os)
  }

  /** Main result: over every run, whatever saves stop part-way and however far the
      disk is behind at a reboot, SzymFS is a map between reboots, and goes on after
      each with what the disk holds. */
  lemma {:induction false} AnyRunRefines(s: Fs, ops: seq<Op>)
    requires Running(s) && Rebootable(s, ops) && forall op :: op in ops ==> Legal(op)
    ensures Running(Run(s, ops).0)
    ensures (FilesIn(Run(s, ops).0), Run(s, ops).1) == TableRun(s, FilesIn(s), ops)
    decreases |ops|
  {
    if ops != [] {
      assert ops[0] in ops;
      var op := ops[0];
      if op.Reboot? {
        KernelBootRefines(s.disk, op.selected, op.loads, op.io, op.readme, op.io2);
      } else {
        StepRefines(s, op);
      }
      AnyRunRefines(Step(s, op).0, ops[1..]);
    }
  }

  // ---- Boots that cannot read everything ----

  /** A header with its first `good` sectors read into an unused one: its used
      entries are used entries of the disk. */
  lemma LoadedEntry(disk: Image, h0: Header, h: Header, good: nat, i: nat)
    requires i < MAX_FILES && !Used(EntryOf(h0, i)) && Used(EntryOf(h, i)) && h == LoadedHeader(h0, disk, good)
    ensures EntryOf(h, i)[..41] == EntryOf(DiskHeader(disk), i)[..41]
  {
    var n := if good >= HEADER_SECTORS then HEADER_SECTORS else good;
    var at, d := EntryAt(i), EntryOf(DiskHeader(disk), i);
    assert EntryOf(h, i)[40] == h[at + 40] && EntryOf(h0, i)[40] == h0[at + 40];
    assert at + 40 < SECTOR * n;
    forall k | 0 <= k <= 40 ensures EntryOf(h, i)[k] == d[k] {
      assert EntryOf(h, i)[k] == h[at + k] == DiskHeader(disk)[at + k];
    }
  }

  /** Only the name, size, offset and used byte of an entry matter. */
  lemma SameFields(e: Entry, f: Entry, i: nat)
    requires e[..41] == f[..41]
    ensures Used(e) == Used(f) && Name(e) == Name(f) && Size(e) == Size(f) && Offset(e) == Offset(f)
    ensures EntryOk(e, i) <==> EntryOk(f, i)
  {
    assert e[..MAX_FILENAME] == e[..41][..MAX_FILENAME] && f[..MAX_FILENAME] == f[..41][..MAX_FILENAME];
    assert e[32..36] == e[..41][32..36] && f[32..36] == f[..41][32..36];
    assert e[36..40] == e[..41][36..40] && f[36..40] == f[..41][36..40];
    assert e[40] == e[..41][40] && f[40] == f[..41][40];
  }

  /** What a boot needs for its table to be searched: well-formed entries on the
      disk, unless it reads the whole header and finds no magic number. */
  ghost predicate Bootable(disk: Image, r: Reads) {
    Magic(DiskHeader(disk)) == MAGIC || r.header < HEADER_SECTORS ==> EntriesOk(DiskHeader(disk))
  }

  /** Whatever part of the disk is read at boot, the used entries are those of the
      disk. */
  lemma BootedEntry(disk: Image, selected: bool, r: Reads, io: Io, i: nat)
    requires i < MAX_FILES && Used(EntryOf(Boot(disk, selected, r, io).header, i))
    ensures selected && (Magic(DiskHeader(disk)) == MAGIC || r.header < HEADER_SECTORS)
    ensures EntryOf(Boot(disk, selected, r, io).header, i)[..41] == EntryOf(DiskHeader(disk), i)[..41]
  {
    var h0 := InitHeader(Zeros(HEADER_SIZE));
    EmptyHeader(Zeros(HEADER_SIZE), h0);
    EmptyHeader(DiskHeader(disk), Reformatted(DiskHeader(disk)));
    LoadedEntry(disk, h0, Boot(disk, selected, r, io).header, r.header, i);
  }

  lemma BootEntriesOk(disk: Image, selected: bool, r: Reads, io: Io)
    requires selected ==> Bootable(disk, r)
    ensures EntriesOk(Boot(disk, selected, r, io).header)
  {
    var h := Boot(disk, selected, r, io).header;
    forall i | 0 <= i < MAX_FILES && Used(EntryOf(h, i)) ensures EntryOk(EntryOf(h, i), i) {
      BootedEntry(disk, selected, r, io, i);
      SameFields(EntryOf(h, i), EntryOf(DiskHeader(disk), i), i);
    }
  }

  /** From a disk whose table stands for a map a boot comes up with one, whatever
      sectors it can read. */
  lemma AnyBootRuns(disk: Image, selected: bool, r: Reads, io: Io)
    requires Ok(DiskHeader(disk), DiskData(disk))
    ensures Running(Boot(disk, selected, r, io))
  {
    var s := Boot(disk, selected, r, io);
    BootEntriesOk(disk, selected, r, io);
    BootMagic(disk, selected, r, io);
    var ss, dd := SlotsIn(s), Slots(DiskHeader(disk), DiskData(disk));
    forall i | 0 <= i < MAX_FILES && ss[i].File? ensures dd[i].File? && dd[i].name == ss[i].name {
      BootedEntry(disk, selected, r, io, i);
      SameFields(EntryOf(s.header, i), EntryOf(DiskHeader(disk), i), i);
    }
  }

  lemma BootMagic(disk: Image, selected: bool, r: Reads, io: Io)
    requires Magic(DiskHeader(disk)) == MAGIC
    ensures Magic(Boot(disk, selected, r, io).header) == MAGIC
  {
    var h0 := InitHeader(Zeros(HEADER_SIZE));
    EmptyHeader(Zeros(HEADER_SIZE), h0);
    if selected && 0 < r.header < HEADER_SECTORS {
      assert LoadedHeader(h0, disk, r.header)[0..4] == DiskHeader(disk)[0..4];
    }
  }

  // ---- Tables that need not stand for a map ----

  lemma CreateEntriesOk(s: Fs, name: seq<byte>, content: seq<byte>, io: Io)
    requires EntriesOk(s.header) && NulFree(name)
    ensures EntriesOk(Create(s, name, content, io).header)
  {
    if CreateCode(s, name, content) == 0 { EnterAtSlots(s, Free(SlotsIn(s)), name, content); }
  }

  lemma DeleteEntriesOk(s: Fs, name: seq<byte>, io: Io)
    requires EntriesOk(s.header)
    ensures EntriesOk(Delete(s, name, io).header)
  {
    if DeleteCode(s, name) == 0 { DropAtSlots(s, Find(SlotsIn(s), name)); }
  }

  /** kernel_main's boot leaves well-formed entries, whatever it can read. */
  lemma KernelBootEntriesOk(disk: Image, selected: bool, r: Reads, io: Io, readme: seq<byte>, io2: Io)
    requires selected ==> Bootable(disk, r)
    ensures EntriesOk(KernelBoot(disk, selected, r, io, readme, io2).header)
  {
    BootEntriesOk(disk, selected, r, io);
    assert NulFree(README);
    CreateEntriesOk(Boot(disk, selected, r, io), README, readme, io2);
  }

  /** And a table that stands for a map, when the disk's does. */
  lemma KernelBootRuns(disk: Image, selected: bool, r: Reads, io: Io, readme: seq<byte>, io2: Io)
    requires Ok(DiskHeader(disk), DiskData(disk))
    ensures Running(KernelBoot(disk, selected, r, io, readme, io2))
  {
    AnyBootRuns(disk, selected, r, io);
    CreateRuns(Boot(disk, selected, r, io), README, readme, io2);
  }
}
