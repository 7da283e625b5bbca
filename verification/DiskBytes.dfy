// The bytes of SzymFS on the disk, at their offsets.
module DiskBytes {
  import opened CLib
  import opened FsLayout
  import opened SlotMap
  import opened FsSpec
  import opened FsRuns
  import opened FsTorn

  /** A 32-bit field, least significant byte first. */
  predicate FieldIs(disk: seq<byte>, at: nat, n: nat) {
    && at + 4 <= |disk|
    && disk[at] == n % 0x100 && disk[at + 1] == n / 0x100 % 0x100
    && disk[at + 2] == n / 0x1_0000 % 0x100 && disk[at + 3] == n / 0x100_0000 % 0x100
  }

  lemma FieldOf(disk: seq<byte>, at: nat, n: nat)
    requires at + 4 <= |disk| && disk[at..at + 4] == U32Bytes(n)
    ensures FieldIs(disk, at, n)
  {
    var b := disk[at..at + 4];
    assert b[0] == disk[at] && b[1] == disk[at + 1] && b[2] == disk[at + 2] && b[3] == disk[at + 3];
  }

  /** The file's entry of 44 bytes behind the first 8: the name and a NUL, the length
      at 32, the place of the text at 36, and 1 at 40. The text in its 4096 bytes
      behind the three header sectors. */
  ghost predicate FileAt(disk: Image, i: nat, name: seq<byte>, content: seq<byte>)
    requires i < 32 && |name| < 32 && |content| <= 4096
  {
    var e := 8 + 44 * i;
    && disk[e..e + |name|] == name && disk[e + |name|] == 0
    && FieldIs(disk, e + 32, |content|) && FieldIs(disk, e + 36, 4096 * i) && disk[e + 40] == 1
    && disk[1536 + 4096 * i..1536 + 4096 * i + |content|] == content
  }

  lemma EntryBytesOf(e: Entry, f: Entry, name: seq<byte>, size: nat, offset: nat)
    requires |name| < 32 && f == FilledEntry(e, name, size, offset)
    ensures f[..|name|] == name && f[|name|] == 0
    ensures f[32..36] == U32Bytes(size) && f[36..40] == U32Bytes(offset) && f[40] == 1
  {}

  lemma FilledIsAt(h: Header, d: Data, tail: Tail, i: nat, e: Entry, name: seq<byte>, content: seq<byte>, disk: Image)
    requires i < 32 && |name| < 32 && |content| <= 4096 && disk == ImageOf(h, tail, d)
    requires EntryOf(h, i) == FilledEntry(e, name, |content|, 4096 * i)
    requires d[4096 * i..4096 * i + |content|] == content
    ensures FileAt(disk, i, name, content)
  {
    var f, at := EntryOf(h, i), 8 + 44 * i;
    EntryBytesOf(e, f, name, |content|, 4096 * i);
    assert forall k :: 0 <= k < 44 ==> disk[at + k] == h[at + k] == f[k];
    assert disk[at..at + |name|] == f[..|name|];
    assert disk[at + 32..at + 36] == f[32..36] && disk[at + 36..at + 40] == f[36..40];
    FieldOf(disk, at + 32, |content|);
    FieldOf(disk, at + 36, 4096 * i);
    TextBytes(h, d, tail, i, content, disk);
  }

  lemma TextBytes(h: Header, d: Data, tail: Tail, i: nat, content: seq<byte>, disk: Image)
    requires i < 32 && |content| <= 4096 && disk == ImageOf(h, tail, d)
    requires d[4096 * i..4096 * i + |content|] == content
    ensures disk[1536 + 4096 * i..1536 + 4096 * i + |content|] == content
  {
    ImageRoundTrip(h, tail, d);
    assert DiskData(disk) == disk[1536..];
    assert disk[1536 + 4096 * i..1536 + 4096 * i + |content|] == d[4096 * i..4096 * i + |content|];
  }

  lemma HeadBytes(h: Header, d: Data, tail: Tail, disk: Image)
    requires disk == ImageOf(h, tail, d) && Magic(h) == MAGIC
    ensures disk[0..4] == [0x4D, 0x59, 0x5A, 0x53] && FieldIs(disk, 4, Count(h))
  {
    U32RoundTrip(MAGIC);
    U32Injective(h[0..4], U32Bytes(MAGIC));
    assert disk[0..4] == h[0..4];
    U32BytesBack(h[4..8]);
    assert disk[4..8] == h[4..8];
    FieldOf(disk, 4, Count(h));
  }

  lemma U32BytesBack(s: seq<byte>)
    requires |s| == 4
    ensures U32Bytes(U32(s)) == s
  {
    U32RoundTrip(U32(s));
    U32Injective(s, U32Bytes(U32(s)));
  }

  /** Main result: what a create whose save is complete puts on the disk: the magic
      number, the number of files, the entry and the text, byte for byte. */
  lemma CreateWrites(s: Fs, name: seq<byte>, content: seq<byte>, io: Io, i: nat, t: Fs)
    requires Running(s) && s.selected && Complete(io) && CreateCode(s, name, content) == 0
    requires NulFree(name) && |name| < 32 && i == Free(SlotsIn(s)) && t == Create(s, name, content, io)
    ensures |content| <= 4096 && t.disk[0..4] == [0x4D, 0x59, 0x5A, 0x53]
    ensures CountFits(s.header, s.data) ==> FieldIs(t.disk, 4, |FilesIn(s)| + 1)
    ensures FileAt(t.disk, i, name, content)
  {
    var e, m := EntryOf(s.header, i), Entered(s, name, content);
    EnteredParts(s, name, content, i, m);
    HeadBytes(m.header, m.data, io.tail, t.disk);
    FilledIsAt(m.header, m.data, io.tail, i, e, name, content, t.disk);
    FilesCount(s, Count(m.header));
  }

  lemma EnteredParts(s: Fs, name: seq<byte>, content: seq<byte>, i: nat, m: Fs)
    requires i < 32 && |content| <= 4096 && m == EnterAt(s, i, name, content)
    ensures Magic(m.header) == Magic(s.header) && Count(m.header) == (Count(s.header) + 1) % U32_LIMIT
    ensures EntryOf(m.header, i) == FilledEntry(EntryOf(s.header, i), name, |content|, 4096 * i)
    ensures m.data[4096 * i..4096 * i + |content|] == content
  {
    var f := FilledEntry(EntryOf(s.header, i), name, |content|, 4096 * i);
    WithEntryAndCount(s.header, i, f, (Count(s.header) + 1) % U32_LIMIT);
  }

  lemma FilesCount(s: Fs, n: nat)
    requires Distinct(SlotsIn(s)) && n == (Count(s.header) + 1) % U32_LIMIT
    ensures CountFits(s.header, s.data) ==> n == |FilesIn(s)| + 1
  {
    CountOneMore(Count(s.header), SlotsIn(s), n);
  }

  lemma CountOneMore(count: nat, ss: seq<Slot>, n: nat)
    requires Distinct(ss) && |ss| == 32 && n == (count + 1) % U32_LIMIT
    ensures count == UsedCount(ss) ==> n == |FilesOf(ss)| + 1
  {
    NamesCount(ss);
    assert |FilesOf(ss)| == |FilesOf(ss).Keys| == |Names(ss)|;
  }

  /** And a delete clears the entry's byte 40 and the first byte of its name. */
  lemma DeleteWrites(s: Fs, name: seq<byte>, io: Io, i: nat, t: Fs)
    requires Running(s) && s.selected && Complete(io) && DeleteCode(s, name) == 0
    requires i == Find(SlotsIn(s), name) && t == Delete(s, name, io)
    ensures i < 32 && t.disk[8 + 44 * i] == 0 && t.disk[8 + 44 * i + 40] == 0
    ensures forall k :: 0 <= k < 131072 ==> t.disk[1536 + k] == s.data[k]
  {
    var m, f := Dropped(s, name), FreedEntry(EntryOf(s.header, i));
    WithEntryAndCount(s.header, i, f, (Count(s.header) + U32_LIMIT - 1) % U32_LIMIT);
    ImageRoundTrip(m.header, io.tail, m.data);
    assert t.disk[8 + 44 * i] == m.header[8 + 44 * i] == EntryOf(m.header, i)[0];
    assert t.disk[8 + 44 * i + 40] == m.header[8 + 44 * i + 40] == EntryOf(m.header, i)[40];
    assert forall k :: 0 <= k < 131072 ==> t.disk[1536 + k] == DiskData(t.disk)[k];
  }

  /** The limits of the file system, in numbers. */
  lemma CreateLimits(s: Fs, name: seq<byte>, content: seq<byte>, io: Io)
    requires Running(s) && NulFree(name) && |name| < 32
    ensures CreateCode(s, name, content) ==
      if name in FilesIn(s) then -2 else if |FilesIn(s)| == 32 then -3 else if |content| > 4096 then -4 else 0
  {
    CreateRefines(s, name, content, io);
  }

  /** Before fs_init every operation answers -1 and does nothing. */
  lemma NotReady(s: Fs, name: seq<byte>, content: seq<byte>, max: nat, io: Io)
    requires !s.ready && max >= 1
    ensures CreateCode(s, name, content) == DeleteCode(s, name) == ReadCode(s, name, max) == -1
    ensures Create(s, name, content, io) == Delete(s, name, io) == s && ReadBytes(s, name, max) == []
  {}

  /** The file that every boot makes, if it is missing, is called README.txt. */
  lemma FirstBoot(disk: Image, r: Reads, io: Io, readme: seq<byte>, io2: Io)
    requires Magic(DiskHeader(disk)) != MAGIC && AllRead(r) && NulFree(readme) && |readme| <= 4096
    ensures FilesIn(KernelBoot(disk, true, r, io, readme, io2)) == map[Ascii("README.txt") := readme]
  {
    KernelBootRefines(disk, true, r, io, readme, io2);
    ReadmeBytes();
    var none: Files := map[];
    assert |none| == 0;
  }

  lemma ReadmeBytes()
    ensures README == Ascii("README.txt")
  {}
}
