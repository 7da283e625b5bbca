// The bytes of filesystem_header_t (i386 layout) and of the disk image, with
// typed views of them. A file entry is 44 bytes: name[32], size, offset, used
// and three bytes of padding. The header is magic, file_count and 32 entries.
module FsLayout {
  import opened CLib

  const MAGIC := 0x535A594D
  const MAX_FILES := 32
  const MAX_FILENAME := 32
  const MAX_FILE_SIZE := 4096
  const SECTOR := 512
  const ENTRY_SIZE := 44
  const HEADER_SIZE := 1416
  const TAIL_SIZE := 120           // from the end of the struct to the end of the third sector
  const HEADER_SECTORS := 3
  const DATA_SIZE := 131072
  const DATA_SECTORS := 256
  const IMAGE_SECTORS := 259
  const START_SECTOR := 2048

  type Entry = e: seq<byte> | |e| == ENTRY_SIZE witness seq(ENTRY_SIZE, _ => 0)
  type Header = h: seq<byte> | |h| == HEADER_SIZE witness seq(HEADER_SIZE, _ => 0)
  type Tail = t: seq<byte> | |t| == TAIL_SIZE witness seq(TAIL_SIZE, _ => 0)
  type Data = d: seq<byte> | |d| == DATA_SIZE witness seq(DATA_SIZE, _ => 0)
  type Image = i: seq<byte> | |i| == IMAGE_SECTORS * SECTOR witness seq(IMAGE_SECTORS * SECTOR, _ => 0)

  // ---- uint32_t in memory ----

  const U32_LIMIT := 0x1_0000_0000

  function U32(s: seq<byte>): (n: nat)
    requires |s| == 4
  {
    var a: int, b: int, c: int, d: int := s[0], s[1], s[2], s[3];
    a + 0x100 * b + 0x1_0000 * c + 0x100_0000 * d
  }

  function U32Bytes(n: nat): (s: seq<byte>)
    ensures |s| == 4
  {
    [n % 0x100, n / 0x100 % 0x100, n / 0x1_0000 % 0x100, n / 0x100_0000 % 0x100]
  }

  lemma U32RoundTrip(n: nat)
    requires n < U32_LIMIT
    ensures U32(U32Bytes(n)) == n
  {
    var a, b, c := n / 0x100, n / 0x1_0000, n / 0x100_0000;
    Quotient(n, a, n % 0x100, b, a % 0x100, c, b % 0x100);
  }

  lemma Quotient(n: nat, a: nat, r0: nat, b: nat, r1: nat, c: nat, r2: nat)
    requires n == 0x100 * a + r0 && r0 < 0x100 && r1 < 0x100 && r2 < 0x100
    requires r1 == a % 0x100 && r2 == b % 0x100 && b == n / 0x1_0000 && c == n / 0x100_0000
    ensures n == r0 + 0x100 * r1 + 0x1_0000 * r2 + 0x100_0000 * c
  {
    assert a / 0x100 == b;
    assert b / 0x100 == c;
  }

  // ---- One entry ----

  function Name(e: Entry): (s: seq<byte>)
    ensures NulFree(s)
  {
    CStr(e[..MAX_FILENAME])
  }

  function Size(e: Entry): nat { U32(e[32..36]) }

  function Offset(e: Entry): nat { U32(e[36..40]) }

  predicate Used(e: Entry) { e[40] != 0 }

  /** The name as it is stored: cut at 31 bytes. */
  function CutName(name: seq<byte>): (s: seq<byte>)
    ensures |s| < MAX_FILENAME
  {
    if |name| >= MAX_FILENAME then name[..MAX_FILENAME - 1] else name
  }

  /** An entry filled in for a new file; bytes nobody writes stay. */
  function FilledEntry(e: Entry, name: seq<byte>, size: nat, offset: nat): Entry {
    var named := Splice(e, 0, CutName(name) + [0]);
    Splice(named, MAX_FILENAME, U32Bytes(size) + U32Bytes(offset) + [1])
  }

  function FreedEntry(e: Entry): Entry {
    e[40 := 0][0 := 0]
  }

  lemma FilledEntryFields(e: Entry, name: seq<byte>, size: nat, offset: nat)
    requires NulFree(name) && size < U32_LIMIT && offset < U32_LIMIT
    ensures var f := FilledEntry(e, name, size, offset);
      && Used(f) && Name(f) == CutName(name) && Size(f) == size && Offset(f) == offset
      && Terminated(f[..MAX_FILENAME])
  {
    var f := FilledEntry(e, name, size, offset);
    var t := CutName(name);
    assert f[..MAX_FILENAME][..|t|] == t;
    CStrOfTerminated(f[..MAX_FILENAME], t);
    assert f[32..36] == U32Bytes(size);
    assert f[36..40] == U32Bytes(offset);
    U32RoundTrip(size);
    U32RoundTrip(offset);
  }

  // ---- The header ----

  function EntryAt(i: nat): nat { 8 + ENTRY_SIZE * i }

  function EntryOf(h: Header, i: nat): Entry
    requires i < MAX_FILES
  {
    h[EntryAt(i)..EntryAt(i) + ENTRY_SIZE]
  }

  function Magic(h: Header): nat { U32(h[0..4]) }

  function Count(h: Header): nat { U32(h[4..8]) }

  function WithEntry(h: Header, i: nat, e: Entry): Header
    requires i < MAX_FILES
  {
    Splice(h, EntryAt(i), e)
  }

  function WithCount(h: Header, n: nat): Header {
    Splice(h, 4, U32Bytes(n))
  }

  /** Writing one entry and the count changes no other entry and not the magic. */
  lemma WithEntryAndCount(h: Header, i: nat, e: Entry, n: nat)
    requires i < MAX_FILES && n < U32_LIMIT
    ensures var h' := WithCount(WithEntry(h, i, e), n);
      && Count(h') == n && Magic(h') == Magic(h)
      && EntryOf(h', i) == e
      && forall j :: 0 <= j < MAX_FILES && j != i ==> EntryOf(h', j) == EntryOf(h, j)
  {
    var h' := WithCount(WithEntry(h, i, e), n);
    assert EntryOf(h', i) == e;
    forall j | 0 <= j < MAX_FILES && j != i ensures EntryOf(h', j) == EntryOf(h, j) {
      assert j < i || i < j;
    }
    assert h'[4..8] == U32Bytes(n);
    assert h'[0..4] == h[0..4];
    U32RoundTrip(n);
  }

  /** What fs_init leaves of a header in memory. */
  function InitHeader(h: Header): Header {
    U32Bytes(MAGIC) + U32Bytes(0) +
    seq(HEADER_SIZE - 8, j requires 0 <= j < HEADER_SIZE - 8 =>
      if j % ENTRY_SIZE == 0 || 32 <= j % ENTRY_SIZE <= 40 then 0 else h[8 + j])
  }

  /** What fs_load_from_disk makes of a header without the magic number. */
  function Reformatted(h: Header): Header {
    U32Bytes(MAGIC) + U32Bytes(0) +
    seq(HEADER_SIZE - 8, j requires 0 <= j < HEADER_SIZE - 8 => if j % ENTRY_SIZE == 40 then 0 else h[8 + j])
  }

  lemma EmptyHeader(h: Header, h': Header)
    requires h' == InitHeader(h) || h' == Reformatted(h)
    ensures Magic(h') == MAGIC && Count(h') == 0
    ensures forall i :: 0 <= i < MAX_FILES ==> !Used(EntryOf(h', i))
  {
    assert h'[0..4] == U32Bytes(MAGIC) && h'[4..8] == U32Bytes(0);
    U32RoundTrip(MAGIC);
    U32RoundTrip(0);
    forall i | 0 <= i < MAX_FILES ensures !Used(EntryOf(h', i)) {
      assert (ENTRY_SIZE * i + 40) % ENTRY_SIZE == 40;
      assert EntryOf(h', i)[40] == h'[EntryAt(i) + 40] == 0;
    }
  }

  // ---- The image: 3 header sectors and 256 data sectors ----

  function ImageOf(h: Header, tail: Tail, d: Data): Image {
    h + tail + d
  }

  function DiskHeader(i: Image): Header { i[..HEADER_SIZE] }

  function DiskData(i: Image): Data { i[HEADER_SECTORS * SECTOR..] }

  /** Decoding an image gives back every header byte and every data byte,
      whatever lay behind the header in memory when it was written. */
  lemma ImageRoundTrip(h: Header, tail: Tail, d: Data)
    ensures DiskHeader(ImageOf(h, tail, d)) == h
    ensures DiskData(ImageOf(h, tail, d)) == d
  {
    assert |h + tail| == HEADER_SECTORS * SECTOR;
  }

  function Sector(img: Image, n: nat): (s: seq<byte>)
    requires n < IMAGE_SECTORS
    ensures |s| == SECTOR
  {
    img[SECTOR * n..SECTOR * n + SECTOR]
  }

  /** The disk after the first `good` sector writes of a save. */
  function Torn(old': Image, new': Image, good: nat): Image {
    if good >= IMAGE_SECTORS then new' else new'[..SECTOR * good] + old'[SECTOR * good..]
  }

  /** The data array after a load in which the sectors in `bad` could not be read. */
  function LoadedData(d: Data, i: Image, bad: set<nat>): Data {
    seq(DATA_SIZE, j requires 0 <= j < DATA_SIZE =>
      if j / SECTOR in bad then d[j] else i[HEADER_SECTORS * SECTOR + j])
  }

  /** The header after its first `good` sectors were read. */
  function LoadedHeader(h: Header, i: Image, good: nat): Header {
    if good >= HEADER_SECTORS then DiskHeader(i) else i[..SECTOR * good] + h[SECTOR * good..]
  }
}
