// kernel/filesystem.c: the static header and data array, the flags, and the
// functions that update them in place and move them to and from the disk.
module FileSystemCode {
  import opened CLib
  import opened Ata
  import opened FsLayout
  import opened SlotMap
  import opened FsSpec
  import opened FsRuns
  import opened FsDevice

  const BASE := START_SECTOR * SECTOR
  const REGION := IMAGE_SECTORS * SECTOR

  predicate HasRegion(disk: seq<byte>) { BASE + REGION <= |disk| }

  /** The 259 sectors from LBA 2048 on. A drive that is too small has none. */
  function Region(disk: seq<byte>): Image {
    if HasRegion(disk) then disk[BASE..BASE + REGION] else seq(REGION, _ => 0)
  }

  /** The other drive, and every sector outside 2048..2306, are the same. */
  ghost predicate SameElsewhere(a: seq<seq<byte>>, b: seq<seq<byte>>, drive: nat) {
    && |a| == |b| && drive < |a|
    && (forall d :: 0 <= d < |a| && d != drive ==> b[d] == a[d])
    && |a[drive]| == |b[drive]|
    && if HasRegion(a[drive]) then
         && b[drive][..BASE] == a[drive][..BASE]
         && b[drive][BASE + REGION..] == a[drive][BASE + REGION..]
       else b[drive] == a[drive]
  }

  /** On that drive only bytes 1048576 to 1181183 may differ. */
  ghost predicate SameOutside(a: seq<byte>, b: seq<byte>) {
    |b| == |a| && forall k :: 0 <= k < |a| && !(1048576 <= k < 1181184) ==> b[k] == a[k]
  }

  lemma OutsideRegion(a: seq<seq<byte>>, b: seq<seq<byte>>, drive: nat)
    requires SameElsewhere(a, b, drive)
    ensures SameOutside(a[drive], b[drive])
  {
    var x, y := a[drive], b[drive];
    if HasRegion(x) {
      forall k | 0 <= k < |x| && !(1048576 <= k < 1181184) ensures y[k] == x[k] {
        if k < BASE {
          assert y[k] == y[..BASE][k] && x[k] == x[..BASE][k];
        } else {
          assert y[k] == y[BASE + REGION..][k - (BASE + REGION)] && x[k] == x[BASE + REGION..][k - (BASE + REGION)];
        }
      }
    }
  }

  /** A complete save puts the 1416 bytes of the header at byte 1048576 of the drive,
      and the 131072 bytes of data at 1050112. */
  lemma WhereItIs(drive: seq<byte>, h: Header, tail: Tail, d: Data)
    requires HasRegion(drive) && Region(drive) == ImageOf(h, tail, d)
    ensures |drive| >= 1181184 && drive[1048576..1049992] == h && drive[1050112..1181184] == d
  {
    ImageRoundTrip(h, tail, d);
    assert drive[1048576..1049992] == Region(drive)[..1416];
    assert drive[1050112..1181184] == Region(drive)[1536..];
  }

  /** Drives `b` are drives `a` with the first `n` sectors of an image written. */
  ghost predicate SavedUpTo(a: seq<seq<byte>>, b: seq<seq<byte>>, drive: nat, img: Image, n: nat) {
    && SameElsewhere(a, b, drive) && HasRegion(a[drive])
    && Region(b[drive]) == Torn(Region(a[drive]), img, n)
  }

  lemma NothingSaved(a: seq<seq<byte>>, drive: nat, img: Image)
    requires drive < |a| && HasRegion(a[drive])
    ensures SavedUpTo(a, a, drive, img, 0)
  {}

  /** One more sector of a save. */
  lemma SectorWritten(a: seq<seq<byte>>, b: seq<seq<byte>>, c: seq<seq<byte>>, drive: nat, img: Image, n: nat)
    requires SavedUpTo(a, b, drive, img, n) && n < IMAGE_SECTORS
    requires c == Stored(b, drive, Low28(START_SECTOR + n), Sector(img, n))
    ensures SavedUpTo(a, c, drive, img, n + 1)
  {
    Low28Small(START_SECTOR + n);
    SectorInRegion(b[drive], c[drive], img, n);
    TornFurther(Region(a[drive]), img, n);
  }

  lemma SectorInRegion(b: seq<byte>, c: seq<byte>, img: Image, n: nat)
    requires HasRegion(b) && n < IMAGE_SECTORS && c == Splice(b, BASE + SECTOR * n, Sector(img, n))
    ensures c[..BASE] == b[..BASE] && c[BASE + REGION..] == b[BASE + REGION..]
    ensures Region(c) == Splice(Region(b), SECTOR * n, Sector(img, n))
  {
    RegionSpliced(b, img, n);
  }

  lemma RegionSpliced(b: seq<byte>, img: Image, n: nat)
    requires HasRegion(b) && n < IMAGE_SECTORS
    ensures Region(Splice(b, BASE + SECTOR * n, Sector(img, n))) == Splice(Region(b), SECTOR * n, Sector(img, n))
  {}

  lemma TornFurther(old': Image, img: Image, n: nat)
    requires n < IMAGE_SECTORS
    ensures Splice(Torn(old', img, n), SECTOR * n, Sector(img, n)) == Torn(old', img, n + 1)
  {}

  lemma Low28Small(n: nat)
    requires n < LBA_LIMIT
    ensures Low28(n) == n
  {}

  /** What a sector read of the region delivers. */
  lemma SectorRead(disk: seq<byte>, n: nat)
    requires HasRegion(disk) && n < IMAGE_SECTORS
    ensures InRange(disk, Low28(START_SECTOR + n))
    ensures SectorAt(disk, Low28(START_SECTOR + n)) == Sector(Region(disk), n)
  {
    Low28Small(START_SECTOR + n);
    SliceOfSlice(disk, BASE, REGION, SECTOR * n, SECTOR);
    assert SECTOR_SIZE * (START_SECTOR + n) == BASE + SECTOR * n;
  }

  lemma SliceOfSlice(s: seq<byte>, b: nat, n: nat, a: nat, m: nat)
    requires b + n <= |s| && a + m <= n
    ensures s[b..b + n][a..a + m] == s[b + a..b + a + m]
  {
    var x, y := s[b..b + n][a..a + m], s[b + a..b + a + m];
    forall k | 0 <= k < m ensures x[k] == y[k] {
      assert x[k] == s[b..b + n][a + k] == s[b + a + k];
    }
  }

  /** The data array when the sectors up to `n` but for those in `bad` are loaded. */
  ghost predicate LoadedUpTo(x: seq<byte>, d: Data, img: Image, bad: set<nat>, n: nat) {
    && |x| == DATA_SIZE
    && forall j {:trigger x[j]} :: 0 <= j < DATA_SIZE ==>
         x[j] == if j >= SECTOR * n || j / SECTOR in bad then d[j] else img[HEADER_SECTORS * SECTOR + j]
  }

  lemma SectorCopied(x: seq<byte>, d: Data, img: Image, bad: set<nat>, n: nat)
    requires LoadedUpTo(x, d, img, bad, n) && n < DATA_SECTORS && n !in bad
    ensures LoadedUpTo(Splice(x, SECTOR * n, Sector(img, HEADER_SECTORS + n)), d, img, bad, n + 1)
  {
    var y := Splice(x, SECTOR * n, Sector(img, HEADER_SECTORS + n));
    forall j | 0 <= j < DATA_SIZE
      ensures y[j] == if j >= SECTOR * (n + 1) || j / SECTOR in bad then d[j] else img[HEADER_SECTORS * SECTOR + j]
    {
      if SECTOR * n <= j < SECTOR * n + SECTOR {
        assert j / SECTOR == n;
      }
    }
  }

  lemma SectorSkipped(x: seq<byte>, d: Data, img: Image, bad: set<nat>, n: nat)
    requires LoadedUpTo(x, d, img, bad, n) && n < DATA_SECTORS && n in bad
    ensures LoadedUpTo(x, d, img, bad, n + 1)
  {
    forall j | 0 <= j < DATA_SIZE
      ensures x[j] == if j >= SECTOR * (n + 1) || j / SECTOR in bad then d[j] else img[HEADER_SECTORS * SECTOR + j]
    {
      assert SECTOR * n <= j < SECTOR * n + SECTOR <==> j / SECTOR == n;
    }
  }

  lemma OffsetInEntry(i: nat, j: nat)
    requires EntryAt(i) <= j < EntryAt(i) + ENTRY_SIZE
    ensures (j - 8) % ENTRY_SIZE == j - EntryAt(i)
  {}

  /** The header bytes a load leaves, one sector further. */
  lemma HeaderCopied(h: Header, img: Image, n: nat, size: nat)
    requires n < HEADER_SECTORS && size == if n < 2 then SECTOR else HEADER_SIZE - 2 * SECTOR
    ensures Splice(LoadedHeader(h, img, n), SECTOR * n, Sector(img, n)[..size]) == LoadedHeader(h, img, n + 1)
  {}

  /** Clearing some bytes of every entry up to `n`. */
  ghost predicate ClearedUpTo(x: seq<byte>, h: Header, init: bool, n: nat) {
    && |x| == HEADER_SIZE
    && x[..8] == U32Bytes(MAGIC) + U32Bytes(0)
    && forall j {:trigger x[j]} :: 8 <= j < HEADER_SIZE ==>
         x[j] == if j < EntryAt(n) && Clears(init, (j - 8) % ENTRY_SIZE) then 0 else h[j]
  }

  predicate Clears(init: bool, k: nat) {
    k == 40 || (init && (k == 0 || 32 <= k < 40))
  }

  lemma EntryCleared(x: seq<byte>, y: seq<byte>, h: Header, init: bool, n: nat)
    requires ClearedUpTo(x, h, init, n) && n < MAX_FILES && |y| == |x|
    requires forall j :: 0 <= j < |x| ==>
      y[j] == if EntryAt(n) <= j < EntryAt(n) + ENTRY_SIZE && Clears(init, j - EntryAt(n)) then 0 else x[j]
    ensures ClearedUpTo(y, h, init, n + 1)
  {
    forall j | 8 <= j < HEADER_SIZE
      ensures y[j] == if j < EntryAt(n + 1) && Clears(init, (j - 8) % ENTRY_SIZE) then 0 else h[j]
    {
      if EntryAt(n) <= j < EntryAt(n) + ENTRY_SIZE { OffsetInEntry(n, j); }
    }
  }

  lemma AllCleared(x: seq<byte>, h: Header, init: bool)
    requires ClearedUpTo(x, h, init, MAX_FILES)
    ensures x == if init then InitHeader(h) else Reformatted(h)
  {
    var y := if init then InitHeader(h) else Reformatted(h);
    forall j | 0 <= j < HEADER_SIZE ensures x[j] == y[j] {
      if j < 8 { assert x[j] == x[..8][j]; }
    }
  }

  lemma NulAfter(h: seq<byte>, h': seq<byte>, at: nat, name: seq<byte>)
    requires at + |name| < |h| && h' == Splice(h, at, name)[at + |name| := 0]
    ensures h' == Splice(h, at, name + [0])
  {}

  lemma CountKept(h: Header, h': Header, i: nat, e: Entry)
    requires i < MAX_FILES && h' == WithEntry(h, i, e)
    ensures h'[4..8] == h[4..8]
  {}

  lemma FreedInPlace(h: Header, h': Header, i: nat)
    requires i < MAX_FILES && h' == h[EntryAt(i) + 40 := 0][EntryAt(i) := 0]
    ensures h' == WithEntry(h, i, FreedEntry(EntryOf(h, i))) && h'[4..8] == h[4..8]
  {}

  lemma FoundUsed(s: Fs, i: nat)
    requires i < MAX_FILES && SlotsIn(s)[i].File?
    ensures Used(EntryOf(s.header, i))
  {}

  /** The stores to the fields of one entry, in the order of the source. */
  lemma FilledInPlace(h: Header, h': Header, i: nat, name: seq<byte>, size: nat, offset: nat)
    requires i < MAX_FILES
    requires var at := EntryAt(i);
      h' == Splice(Splice(Splice(h, at, CutName(name) + [0]), at + 32, U32Bytes(size)),
          at + 36, U32Bytes(offset))[at + 40 := 1]
    ensures h' == WithEntry(h, i, FilledEntry(EntryOf(h, i), name, size, offset))
  {
  }

  method GetU32(a: array<byte>, at: nat) returns (n: nat)
    requires at + 4 <= a.Length
    ensures n == U32(a[at..at + 4])
  {
    n := U32([a[at], a[at + 1], a[at + 2], a[at + 3]]);
    assert a[at..at + 4] == [a[at], a[at + 1], a[at + 2], a[at + 3]];
  }

  method PutU32(a: array<byte>, at: nat, n: nat)
    requires at + 4 <= a.Length
    modifies a
    ensures a[..] == Splice(old(a[..]), at, U32Bytes(n))
  {
    var b := U32Bytes(n);
    a[at], a[at + 1], a[at + 2], a[at + 3] := b[0], b[1], b[2], b[3];
  }

  lemma HeaderSector(m: seq<byte>, d: Data, n: nat)
    requires |m| == HEADER_SECTORS * SECTOR && n < HEADER_SECTORS
    ensures m[SECTOR * n..][..SECTOR] == Sector(m + d, n)
  {}

  lemma DataSector(m: seq<byte>, d: Data, n: nat)
    requires |m| == HEADER_SECTORS * SECTOR && n < DATA_SECTORS
    ensures d[n * SECTOR..][..SECTOR] == Sector(m + d, HEADER_SECTORS + n)
  {}

  lemma EntryInit(x: seq<byte>, y: seq<byte>, at: nat)
    requires at + ENTRY_SIZE <= |x|
    requires y == Splice(Splice(x[at + 40 := 0][at := 0], at + 32, U32Bytes(0)), at + 36, U32Bytes(0))
    ensures |y| == |x|
    ensures forall j :: 0 <= j < |x| ==> y[j] == if at <= j < at + ENTRY_SIZE && Clears(true, j - at) then 0 else x[j]
  {}

  /** What the disk selector was told. */
  datatype Selection = NoDrive | Drive(number: nat)

  class FileSystem {
    const header: array<byte>
    const data: array<byte>
    const ch: Channel
    var initialized: bool
    var persistent: bool
    var selected: bool
    var drive: nat

    ghost predicate Valid()
      reads this, ch
    {
      && header.Length == HEADER_SIZE && data.Length == DATA_SIZE && header != data
      && ch.Valid() && drive < 2 && (selected ==> HasRegion(ch.disks[drive]))
    }

    ghost function State(): Fs
      requires Valid()
      reads this, header, data, ch
    {
      Fs(header[..], data[..], initialized, persistent, selected, Region(ch.disks[drive]))
    }

    /** Static memory at power-on. */
    constructor (ch: Channel)
      requires ch.Valid()
      ensures Valid() && fresh(header) && fresh(data) && this.ch == ch
      ensures State() == Fs(Zeros(HEADER_SIZE), Zeros(DATA_SIZE), false, false, false, Region(ch.disks[0]))
    {
      this.ch := ch;
      header := new byte[HEADER_SIZE](_ => 0);
      data := new byte[DATA_SIZE](_ => 0);
      initialized, persistent, selected, drive := false, false, false, 0;
      new;
      assert header[..] == Zeros(HEADER_SIZE) && data[..] == Zeros(DATA_SIZE);
    }

    /** fs_set_drive_info, after the disk selector has selected a drive. */
    method SetDriveInfo(drive: nat)
      requires Valid() && drive < 2 && HasRegion(ch.disks[drive])
      modifies this`selected, this`drive
      ensures Valid() && selected && this.drive == drive
      ensures State() == old(State()).(selected := true, disk := Region(ch.disks[drive]))
    {
      selected, this.drive := true, drive;
    }

    // ---- The device ----

    /** `k` commands in a row were let through since poll `p`. */
    ghost predicate Through(dir: Direction, p: nat, k: nat)
      reads ch
    {
      ch.polls == PollsAt(ch.status, dir, p, k) && forall j :: 0 <= j < k ==> Accepted(ch.status, dir, p, j)
    }

    /** Of `n` commands in a row since poll `p` the first `g` were let through, and
        the next was not. */
    ghost predicate Stopped(dir: Direction, p: nat, n: nat, g: nat)
      reads ch
    {
      g < n && Successes(ch.status, dir, p, n, g) && ch.polls == PollsAt(ch.status, dir, p, g + 1)
    }

    // ---- Saving ----

    /** One sector of a save, through the stack buffer. */
    method SaveSector(n: nat, buffer: array<byte>, memory: seq<byte>, size: nat,
                      ghost p: nat, ghost a: seq<seq<byte>>, ghost img: Image)
      returns (r: int)
      requires Valid() && selected && n < IMAGE_SECTORS && buffer.Length == SECTOR
      requires size == SECTOR <= |memory| && memory[..size] == Sector(img, n)
      requires SavedUpTo(a, ch.disks, drive, img, n) && Through(Writing, p, n)
      modifies buffer, ch
      ensures Valid() && SavedUpTo(a, ch.disks, drive, img, if r == 0 then n + 1 else n)
      ensures if r == 0 then Through(Writing, p, n + 1) else Stopped(Writing, p, IMAGE_SECTORS, n)
    {
      MemSet(buffer, 0);
      MemCpy(buffer, 0, memory, size);
      assert buffer[..] == Sector(img, n);
      ghost var b := ch.disks;
      OneMoreCommand(ch.status, Writing, p, IMAGE_SECTORS, n, ch.polls, CommandOk(ch.status, ch.polls, 0));
      r := FsWriteSector(ch, selected, drive, START_SECTOR + n, buffer);
      if r == 0 {
        SectorWritten(a, b, ch.disks, drive, img, n);
      }
    }

    method SaveToDisk(tail: Tail)
      requires Valid()
      modifies this`persistent, ch
      ensures Valid() && State() == Save(old(State()), SaveIo(ch.status, old(ch.polls), tail))
      ensures ch.polls == SaveEnd(ch.status, old(ch.polls), selected)
      ensures SameElsewhere(old(ch.disks), ch.disks, drive) && SameOutside(old(ch.disks)[drive], ch.disks[drive])
    {
      if !selected {
        persistent := false;
        return;
      }
      var ok := WriteImage(header[..] + tail);  // the struct and what lies behind it
      OutsideRegion(old(ch.disks), ch.disks, drive);
      if !ok {
        persistent := false;
      }
    }

    /** All 259 sectors, up to the first that cannot be written. */
    method WriteImage(memory: seq<byte>) returns (ok: bool)
      requires Valid() && selected && |memory| == HEADER_SECTORS * SECTOR
      modifies ch
      ensures Valid() && SameElsewhere(old(ch.disks), ch.disks, drive)
      ensures var good := SuccessCount(ch.status, Writing, old(ch.polls), IMAGE_SECTORS);
        && (ok <==> good == IMAGE_SECTORS)
        && Region(ch.disks[drive]) == Torn(Region(old(ch.disks)[drive]), memory + data[..], good)
      ensures ch.polls == RunEnd(ch.status, Writing, old(ch.polls), IMAGE_SECTORS)
    {
      ghost var disks, p := ch.disks, ch.polls;
      var buffer := new byte[SECTOR];
      ghost var good;
      ok, good := SaveHeader(buffer, memory, p, disks);
      if ok {
        ok, good := SaveData(buffer, memory, p, disks);
      }
      SuccessCountIs(ch.status, Writing, p, IMAGE_SECTORS, good);
    }

    /** The header sectors of a save. */
    method SaveHeader(buffer: array<byte>, memory: seq<byte>, ghost p: nat, ghost a: seq<seq<byte>>)
      returns (ok: bool, ghost good: nat)
      requires Valid() && selected && buffer.Length == SECTOR && buffer != data && a == ch.disks && p == ch.polls
      requires |memory| == HEADER_SECTORS * SECTOR
      modifies buffer, ch
      ensures Valid() && SavedUpTo(a, ch.disks, drive, memory + data[..], good)
      ensures if ok then good == HEADER_SECTORS && Through(Writing, p, good) else Stopped(Writing, p, IMAGE_SECTORS, good)
    {
      ghost var img := memory + data[..];
      NothingSaved(a, drive, img);
      for i := 0 to HEADER_SECTORS
        invariant Valid() && SavedUpTo(a, ch.disks, drive, img, i) && Through(Writing, p, i)
      {
        HeaderSector(memory, data[..], i);
        var r := SaveSector(i, buffer, memory[SECTOR * i..], SECTOR, p, a, img);
        if r != 0 {
          return false, i;
        }
      }
      return true, HEADER_SECTORS;
    }

    /** The data sectors of a save. */
    method SaveData(buffer: array<byte>, ghost memory: seq<byte>, ghost p: nat, ghost a: seq<seq<byte>>)
      returns (ok: bool, ghost good: nat)
      requires Valid() && selected && buffer.Length == SECTOR && buffer != data
      requires |memory| == HEADER_SECTORS * SECTOR
      requires SavedUpTo(a, ch.disks, drive, memory + data[..], HEADER_SECTORS) && Through(Writing, p, HEADER_SECTORS)
      modifies buffer, ch
      ensures Valid() && SavedUpTo(a, ch.disks, drive, memory + data[..], good)
      ensures if ok then good == IMAGE_SECTORS && Through(Writing, p, good) else Stopped(Writing, p, IMAGE_SECTORS, good)
    {
      ghost var img := memory + data[..];
      for i := 0 to DATA_SECTORS
        invariant Valid() && SavedUpTo(a, ch.disks, drive, img, HEADER_SECTORS + i)
          && Through(Writing, p, HEADER_SECTORS + i)
      {
        var offset, size := i * SECTOR, SECTOR;
        if offset < DATA_SIZE && size > DATA_SIZE - offset {
          size := DATA_SIZE - offset;
        }
        DataSector(memory, data[..], i);
        var r := SaveSector(HEADER_SECTORS + i, buffer, data[offset..], size, p, a, img);
        if r != 0 {
          return false, HEADER_SECTORS + i;
        }
      }
      return true, IMAGE_SECTORS;
    }

    // ---- Loading ----

    method ReadImageSector(n: nat, buffer: array<byte>) returns (r: int)
      requires Valid() && selected && n < IMAGE_SECTORS && buffer.Length == SECTOR
      modifies buffer, ch
      ensures Valid() && ch.disks == old(ch.disks)
      ensures r == 0 <==> CommandOk(ch.status, old(ch.polls), 0)
      ensures ch.polls == CommandEnd(ch.status, Reading, old(ch.polls), 0)
      ensures r == 0 ==> buffer[..] == Sector(Region(ch.disks[drive]), n)
    {
      SectorRead(ch.disks[drive], n);
      r := FsReadSector(ch, selected, drive, START_SECTOR + n, buffer);
    }

    /** Copies one header sector; the last copy is clamped to the struct. */
    method CopyHeaderSector(i: nat, buffer: array<byte>, ghost h: Header, ghost img: Image)
      requires Valid() && i < HEADER_SECTORS && buffer.Length == SECTOR && buffer[..] == Sector(img, i)
      requires header[..] == LoadedHeader(h, img, i)
      modifies header
      ensures header[..] == LoadedHeader(h, img, i + 1)
    {
      var offset, size := i * SECTOR, SECTOR;
      if offset < HEADER_SIZE {
        if size > HEADER_SIZE - offset {
          size := HEADER_SIZE - offset;
        }
        HeaderCopied(h, img, i, size);
        MemCpy(header, offset, buffer[..], size);
      }
    }

    /** Reads the header sectors, up to the first that cannot be read. */
    method LoadHeader() returns (ok: bool, ghost good: nat)
      requires Valid() && selected
      modifies header, ch
      ensures Valid() && ch.disks == old(ch.disks)
      ensures if ok then good == HEADER_SECTORS && Through(Reading, old(ch.polls), good)
              else Stopped(Reading, old(ch.polls), HEADER_SECTORS, good)
      ensures header[..] == LoadedHeader(old(header[..]), Region(ch.disks[drive]), good)
    {
      ghost var img := Region(ch.disks[drive]);
      ghost var h := header[..];
      var buffer := new byte[SECTOR];
      for i := 0 to HEADER_SECTORS
        invariant Valid() && fresh(buffer) && ch.disks == old(ch.disks) && Through(Reading, old(ch.polls), i)
        invariant header[..] == LoadedHeader(h, img, i)
      {
        var r := ReadImageSector(i, buffer);
        if r != 0 {
          return false, i;
        }
        CopyHeaderSector(i, buffer, h, img);
      }
      return true, HEADER_SECTORS;
    }

    /** One sector of the data array, unless it cannot be read. */
    method LoadDataSector(i: nat, buffer: array<byte>, ghost d: Data, ghost img: Image, ghost bad: set<nat>)
      requires Valid() && selected && i < DATA_SECTORS && buffer.Length == SECTOR && buffer != data
      requires img == Region(ch.disks[drive]) && LoadedUpTo(data[..], d, img, bad, i)
      requires i in bad <==> !CommandOk(ch.status, ch.polls, 0)
      modifies data, buffer, ch
      ensures Valid() && ch.disks == old(ch.disks) && LoadedUpTo(data[..], d, img, bad, i + 1)
      ensures ch.polls == CommandEnd(ch.status, Reading, old(ch.polls), 0)
    {
      var r := ReadImageSector(HEADER_SECTORS + i, buffer);
      if r == 0 {
        ghost var before := data[..];
        MemCpy(data, i * SECTOR, buffer[..], SECTOR);
        SectorCopied(before, d, img, bad, i);
      } else {
        SectorSkipped(data[..], d, img, bad, i);
      }
    }

    /** Reads the data sectors; one that cannot be read is skipped. */
    method LoadData(ghost p: nat)
      requires Valid() && selected && ch.polls == PollsAt(ch.status, Reading, p, HEADER_SECTORS)
      modifies data, ch
      ensures Valid() && ch.disks == old(ch.disks)
      ensures data[..] == LoadedData(old(data[..]), Region(ch.disks[drive]), LoadReads(ch.status, p).bad)
      ensures ch.polls == PollsAt(ch.status, Reading, p, HEADER_SECTORS + DATA_SECTORS)
    {
      ghost var img := Region(ch.disks[drive]);
      ghost var d := data[..];
      ghost var bad := LoadReads(ch.status, p).bad;
      var buffer := new byte[SECTOR];
      for i := 0 to DATA_SECTORS
        invariant Valid() && fresh(buffer) && ch.disks == old(ch.disks)
        invariant ch.polls == PollsAt(ch.status, Reading, p, HEADER_SECTORS + i)
        invariant LoadedUpTo(data[..], d, img, bad, i)
      {
        NextDataSector(ch.status, p, i, ch.polls, bad);
        LoadDataSector(i, buffer, d, img, bad);
      }
      assert data[..] == LoadedData(d, img, bad);
    }

    /** A new file system in memory. */
    method Reformat()
      requires Valid()
      modifies header, data
      ensures header[..] == Reformatted(old(header[..])) && data[..] == Zeros(DATA_SIZE)
    {
      ghost var h := header[..];
      PutU32(header, 0, MAGIC);
      PutU32(header, 4, 0);
      for i := 0 to MAX_FILES
        invariant ClearedUpTo(header[..], h, false, i)
      {
        ghost var x := header[..];
        header[EntryAt(i) + 40] := 0;
        EntryCleared(x, header[..], h, false, i);
      }
      AllCleared(header[..], h, false);
      MemSet(data, 0);
      assert data[..] == Zeros(DATA_SIZE);
    }

    method LoadFromDisk(tail: Tail)
      requires Valid()
      modifies this`persistent, header, data, ch
      ensures Valid()
      ensures State() == Load(old(State()), LoadReads(ch.status, old(ch.polls)), FormatIo(ch.status, old(ch.polls), tail))
      ensures ch.polls == LoadEnd(ch.status, old(ch.polls), selected, old(State()).disk)
      ensures SameElsewhere(old(ch.disks), ch.disks, drive)
    {
      if !selected { return; }
      ghost var p := ch.polls;
      var ok; ghost var good;
      ok, good := LoadHeader();
      SuccessCountIs(ch.status, Reading, p, HEADER_SECTORS, good);
      if !ok { return; }
      var magic := GetU32(header, 0);
      if magic != MAGIC {
        Reformat();
        persistent := true;
        SaveToDisk(tail);
        return;
      }
      LoadData(p);
      persistent := true;
    }

    /** Empty memory, as fs_init sets it up first. */
    method InitMemory()
      requires Valid()
      modifies header, data
      ensures header[..] == InitHeader(old(header[..])) && data[..] == Zeros(DATA_SIZE)
    {
      ghost var h := header[..];
      PutU32(header, 0, MAGIC);
      PutU32(header, 4, 0);
      for i := 0 to MAX_FILES
        invariant ClearedUpTo(header[..], h, true, i)
      {
        ghost var x := header[..];
        header[EntryAt(i) + 40] := 0;
        header[EntryAt(i)] := 0;
        PutU32(header, EntryAt(i) + 32, 0);
        PutU32(header, EntryAt(i) + 36, 0);
        EntryInit(x, header[..], EntryAt(i));
        EntryCleared(x, header[..], h, true, i);
      }
      AllCleared(header[..], h, true);
      MemSet(data, 0);
      assert data[..] == Zeros(DATA_SIZE);
    }

    /** fs_init. At boot the static memory is zero. */
    method Init(tail: Tail)
      requires Valid()
      modifies this`initialized, this`persistent, header, data, ch
      ensures Valid()
      ensures State() == Load(old(State()).(header := InitHeader(old(header[..])), data := Zeros(DATA_SIZE), ready := true),
                              LoadReads(ch.status, old(ch.polls)), FormatIo(ch.status, old(ch.polls), tail))
      ensures old(header[..]) == Zeros(HEADER_SIZE) && !old(persistent) ==>
        State() == Boot(old(State()).disk, selected, LoadReads(ch.status, old(ch.polls)),
                      FormatIo(ch.status, old(ch.polls), tail))
      ensures ch.polls == LoadEnd(ch.status, old(ch.polls), selected, old(State()).disk)
      ensures SameElsewhere(old(ch.disks), ch.disks, drive)
    {
      InitMemory();
      initialized := true;
      LoadFromDisk(tail);
    }

    // ---- Files ----

    /** Every used name ends within its 32 bytes. */
    ghost predicate NamesTerminated()
      requires Valid()
      reads this, header, ch
    {
      forall i :: 0 <= i < MAX_FILES && Used(EntryOf(header[..], i)) ==> Terminated(EntryOf(header[..], i)[..MAX_FILENAME])
    }

    method FindFreeSlot() returns (r: int)
      requires Valid()
      ensures r == Free(SlotsIn(State()))
    {
      ghost var h := header[..];
      ghost var ss := SlotsIn(State());
      for i := 0 to MAX_FILES
        invariant forall j :: 0 <= j < i ==> ss[j].File?
      {
        assert ss[i].File? == Used(EntryOf(h, i));
        if header[EntryAt(i) + 40] == 0 {
          FreeIs(ss, i);
          return i;
        }
      }
      FreeIs(ss, -1);
      return -1;
    }

    /** What strcmp needs to stop inside the name field of every used entry. */
    ghost predicate Comparable(name: seq<byte>)
      requires Valid()
      reads this, header, ch
    {
      Terminated(name) && (|CStr(name)| < MAX_FILENAME || NamesTerminated())
    }

    method FindFile(name: seq<byte>) returns (r: int)
      requires Valid() && Comparable(name)
      ensures r == Find(SlotsIn(State()), CStr(name))
    {
      ghost var h := header[..];
      ghost var ss := SlotsIn(State());
      for i := 0 to MAX_FILES
        invariant forall j :: 0 <= j < i ==> !(ss[j].File? && ss[j].name == CStr(name))
      {
        ghost var e := EntryOf(h, i);
        assert ss[i] == SlotOf(e, data[..]);
        assert header[EntryAt(i)..EntryAt(i) + MAX_FILENAME] == e[..MAX_FILENAME];
        if header[EntryAt(i) + 40] != 0 {
          var c := StrCmp(header[EntryAt(i)..EntryAt(i) + MAX_FILENAME], name);
          if c == 0 {
            FindIs(ss, CStr(name), i);
            return i;
          }
        }
      }
      FindIs(ss, CStr(name), -1);
      return -1;
    }

    /** Copies a name, cut to 31 bytes, and its NUL. */
    method PutName(at: nat, name: seq<byte>)
      requires at + MAX_FILENAME <= header.Length && Terminated(name)
      modifies header
      ensures header[..] == Splice(old(header[..]), at, CutName(CStr(name)) + [0])
    {
      ghost var h := header[..];
      var len := StrLen(name);
      if len >= MAX_FILENAME {
        len := MAX_FILENAME - 1;
      }
      ghost var stored := CutName(CStr(name));
      assert name[..len] == stored;
      MemCpy(header, at, name, len);
      header[at + len] := 0;
      NulAfter(h, header[..], at, stored);
    }

    /** Fills the struct fields of one entry. */
    method FillEntry(slot: nat, name: seq<byte>, size: nat)
      requires Valid() && slot < MAX_FILES && Terminated(name)
      modifies header
      ensures Valid()
      ensures header[..] == WithEntry(old(header[..]), slot,
        FilledEntry(EntryOf(old(header[..]), slot), CStr(name), size, MAX_FILE_SIZE * slot))
    {
      ghost var h := header[..];
      var at := EntryAt(slot);
      PutName(at, name);
      PutU32(header, at + 32, size);
      PutU32(header, at + 36, MAX_FILE_SIZE * slot);
      header[at + 40] := 1;
      FilledInPlace(h, header[..], slot, CStr(name), size, MAX_FILE_SIZE * slot);
    }

    /** The new file in memory: entry, text, count. */
    method Enter(slot: nat, name: seq<byte>, content: seq<byte>, len: nat)
      requires Valid() && slot < MAX_FILES && Terminated(name)
      requires Terminated(content) && len == |CStr(content)| <= MAX_FILE_SIZE
      modifies header, data
      ensures State() == EnterAt(old(State()), slot, CStr(name), CStr(content))
    {
      ghost var h, d := header[..], data[..];
      ghost var f := FilledEntry(EntryOf(h, slot), CStr(name), len, MAX_FILE_SIZE * slot);
      FillEntry(slot, name, len);
      CountKept(h, header[..], slot, f);
      MemCpy(data, MAX_FILE_SIZE * slot, content, len);
      assert content[..len] == CStr(content);
      AddToCount(1, h);
      assert header[..] == WithCount(WithEntry(h, slot, f), (Count(h) + 1) % U32_LIMIT);
      assert data[..] == Splice(d, MAX_FILE_SIZE * slot, CStr(content));
    }

    method AddToCount(n: nat, ghost h: Header)
      requires Valid() && header[4..8] == h[4..8]
      modifies header
      ensures header[..] == WithCount(old(header[..]), (Count(h) + n) % U32_LIMIT)
    {
      var count := GetU32(header, 4);
      PutU32(header, 4, (count + n) % U32_LIMIT);
    }

    method CreateFile(name: seq<byte>, content: seq<byte>, tail: Tail) returns (code: int)
      requires Valid() && Comparable(name) && Terminated(content)
      modifies this`persistent, header, data, ch
      ensures Valid()
      ensures code == CreateCode(old(State()), CStr(name), CStr(content))
      ensures State() == Create(old(State()), CStr(name), CStr(content), SaveIo(ch.status, old(ch.polls), tail))
      ensures ch.polls == SaveEnd(ch.status, old(ch.polls), selected && code == 0)
      ensures SameElsewhere(old(ch.disks), ch.disks, drive)
    {
      if !initialized { return -1; }
      var found := FindFile(name);
      if found >= 0 { return -2; }
      var slot := FindFreeSlot();
      if slot < 0 { return -3; }
      var len := StrLen(content);
      if len > MAX_FILE_SIZE { return -4; }
      Enter(slot, name, content, len);
      SaveToDisk(tail);
      code := 0;
    }

    method FreeEntry(slot: nat)
      requires Valid() && slot < MAX_FILES
      modifies header
      ensures header[..] == WithEntry(old(header[..]), slot, FreedEntry(EntryOf(old(header[..]), slot)))
      ensures header[4..8] == old(header[..])[4..8]
    {
      ghost var h := header[..];
      header[EntryAt(slot) + 40] := 0;
      header[EntryAt(slot)] := 0;
      FreedInPlace(h, header[..], slot);
    }

    method Drop(slot: nat)
      requires Valid() && slot < MAX_FILES
      modifies header
      ensures State() == DropAt(old(State()), slot)
    {
      ghost var h := header[..];
      FreeEntry(slot);
      AddToCount(U32_LIMIT - 1, h);
    }

    method DeleteFile(name: seq<byte>, tail: Tail) returns (code: int)
      requires Valid() && Comparable(name)
      modifies this`persistent, header, ch
      ensures Valid()
      ensures code == DeleteCode(old(State()), CStr(name))
      ensures State() == Delete(old(State()), CStr(name), SaveIo(ch.status, old(ch.polls), tail))
      ensures ch.polls == SaveEnd(ch.status, old(ch.polls), selected && code == 0)
      ensures SameElsewhere(old(ch.disks), ch.disks, drive)
    {
      if !initialized { return -1; }
      var slot := FindFile(name);
      if slot < 0 { return -1; }
      Drop(slot);
      SaveToDisk(tail);
      code := 0;
    }

    method CopyOut(slot: nat, buffer: array<byte>, max: nat) returns (size: nat)
      requires Valid() && slot < MAX_FILES && EntryOk(EntryOf(header[..], slot), slot)
      requires 1 <= max <= buffer.Length && buffer != header && buffer != data
      modifies buffer
      ensures size == Min(Size(EntryOf(header[..], slot)), max - 1)
      ensures buffer[..] == Splice(old(buffer[..]), 0, Prefix(EntryOf(header[..], slot), data[..], max - 1) + [0])
    {
      ghost var e := EntryOf(header[..], slot);
      size := GetU32(header, EntryAt(slot) + 32);
      var offset := GetU32(header, EntryAt(slot) + 36);
      assert header[EntryAt(slot) + 32..EntryAt(slot) + 36] == e[32..36];
      assert header[EntryAt(slot) + 36..EntryAt(slot) + 40] == e[36..40];
      if size > max - 1 {
        size := max - 1;
      }
      ghost var copied := Prefix(e, data[..], max - 1);
      ghost var b := buffer[..];
      assert data[offset..][..size] == copied;
      MemCpy(buffer, 0, data[offset..], size);
      buffer[size] := 0;
      NulAfter(b, buffer[..], 0, copied);
    }

    method ReadFile(name: seq<byte>, buffer: array<byte>, max: nat) returns (code: int)
      requires Valid() && EntriesOk(header[..]) && Terminated(name)
      requires 1 <= max <= buffer.Length && buffer != header && buffer != data
      modifies buffer
      ensures Valid()
      ensures code == ReadCode(State(), CStr(name), max)
      ensures buffer[..] == if code < 0 then old(buffer[..])
                            else Splice(old(buffer[..]), 0, ReadBytes(State(), CStr(name), max))
    {
      if !initialized { return -1; }
      var slot := FindFile(name);
      if slot < 0 { return -1; }
      FoundUsed(State(), slot);
      code := CopyOut(slot, buffer, max);
    }
  }

  /** A save, then a power cycle: new static memory, the drive selected again, and
      fs_init. When the device lets all 259 writes and all 259 reads through, and
      so on every responsive device, all header and data bytes are back. */
  method SaveAndRestart(fs: FileSystem, tail: Tail, tail': Tail) returns (after: FileSystem)
    requires fs.Valid() && fs.selected && Magic(fs.header[..]) == MAGIC
    modifies fs`persistent, fs.ch
    ensures fs.Valid() && fresh(after) && after.Valid() && after.ch == fs.ch
    ensures var status, p := fs.ch.status, old(fs.ch.polls);
      Complete(SaveIo(status, p, tail)) && AllRead(LoadReads(status, SaveEnd(status, p, true))) ==>
        after.State() == old(fs.State()).(ready := true, persistent := true, disk := Region(fs.ch.disks[fs.drive]))
    ensures Responsive(fs.ch.status) ==>
      after.header[..] == old(fs.header[..]) && after.data[..] == old(fs.data[..]) && after.persistent
  {
    ghost var s, p := fs.State(), fs.ch.polls;
    fs.SaveToDisk(tail);
    ghost var q := fs.ch.polls;
    after := Restart(fs.ch, fs.drive, tail');
    Restored(s, fs.ch.status, p, q, tail, tail', after.State());
  }

  /** New static memory, a drive selected, and fs_init. */
  method Restart(ch: Channel, drive: nat, tail: Tail) returns (fs: FileSystem)
    requires ch.Valid() && drive < 2 && HasRegion(ch.disks[drive])
    modifies ch
    ensures fresh(fs) && fresh(fs.header) && fresh(fs.data) && fs.Valid() && fs.ch == ch
    ensures SameElsewhere(old(ch.disks), ch.disks, drive) && fs.State().disk == Region(ch.disks[drive])
    ensures fs.State() == Boot(Region(old(ch.disks)[drive]), true, LoadReads(ch.status, old(ch.polls)),
                               FormatIo(ch.status, old(ch.polls), tail))
  {
    fs := new FileSystem(ch);
    fs.SetDriveInfo(drive);
    fs.Init(tail);
  }

  lemma Restored(s: Fs, status: nat -> byte, p: nat, q: nat, tail: Tail, tail': Tail, t: Fs)
    requires s.selected && Magic(s.header) == MAGIC
    requires t == Boot(Save(s, SaveIo(status, p, tail)).disk, true, LoadReads(status, q), FormatIo(status, q, tail'))
    ensures Complete(SaveIo(status, p, tail)) && AllRead(LoadReads(status, q)) ==>
      t == s.(ready := true, persistent := true, disk := t.disk)
    ensures Responsive(status) ==> t == s.(ready := true, persistent := true, disk := t.disk)
  {
    var io, r := SaveIo(status, p, tail), LoadReads(status, q);
    var zero := Fs(InitHeader(Zeros(HEADER_SIZE)), Zeros(DATA_SIZE), true, false, true, Save(s, io).disk);
    if Responsive(status) {
      ResponsiveNeverFails(status, p, tail);
      ResponsiveNeverFails(status, q, tail');
    }
    if Complete(io) && AllRead(r) {
      SaveThenLoad(s, io, zero, r, FormatIo(status, q, tail'));
    }
  }
}
