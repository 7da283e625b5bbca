// An ATA channel as a register-level state machine (PIO data-in and data-out
// commands), and the drivers of kernel/filesystem.c and kernel/ata.c on top.
module Ata {
  import opened CLib

  type word = w: int | 0 <= w < 0x10000

  const SECTOR_SIZE := 512
  const SECTOR_WORDS := 256
  const LBA_LIMIT := 0x1000_0000  // 28-bit addresses
  const POLL_LIMIT := 100000

  // ---- 16-bit data port ----

  function WordOf(lo: byte, hi: byte): word {
    var l: int, h: int := lo, hi; l + 256 * h
  }

  function LowByte(w: word): byte { w % 256 }

  function HighByte(w: word): byte { w / 256 }

  lemma SplitWord(lo: byte, hi: byte)
    ensures LowByte(WordOf(lo, hi)) == lo && HighByte(WordOf(lo, hi)) == hi
  {}

  /** The low byte of a word comes first in memory. */
  lemma WordIsLittleEndian(bytes: seq<byte>, i: nat)
    requires 2 * i + 1 < |bytes|
    ensures WordsOf(bytes)[i] % 0x100 == bytes[2 * i] && WordsOf(bytes)[i] / 0x100 == bytes[2 * i + 1]
  {}

  /** The words of a byte buffer, little-endian. */
  function WordsOf(bytes: seq<byte>): (ws: seq<word>)
    ensures |ws| == |bytes| / 2
  {
    seq(|bytes| / 2, i requires 0 <= i < |bytes| / 2 => WordOf(bytes[2 * i], bytes[2 * i + 1]))
  }

  function BytesOf(words: seq<word>): (bs: seq<byte>)
    ensures |bs| == 2 * |words|
  {
    if words == [] then [] else [LowByte(words[0]), HighByte(words[0])] + BytesOf(words[1..])
  }

  lemma {:induction false} BytesOfAppend(words: seq<word>, w: word)
    ensures BytesOf(words + [w]) == BytesOf(words) + [LowByte(w), HighByte(w)]
  {
    if words == [] {
      assert words + [w] == [w];
    } else {
      assert (words + [w])[1..] == words[1..] + [w];
      BytesOfAppend(words[1..], w);
    }
  }

  lemma {:induction false} BytesOfWordsOf(bytes: seq<byte>)
    requires |bytes| % 2 == 0
    ensures BytesOf(WordsOf(bytes)) == bytes
  {
    if bytes == [] {
    } else {
      SplitWord(bytes[0], bytes[1]);
      assert WordsOf(bytes)[1..] == WordsOf(bytes[2..]);
      BytesOfWordsOf(bytes[2..]);
      assert bytes == [bytes[0], bytes[1]] + bytes[2..];
    }
  }

  // ---- Polling ----

  datatype Wait = NotBusy | DataRequest

  /** BSY (0x80) clear, or DRQ (0x08) set. */
  predicate Ready(w: Wait, status: byte) {
    match w
    case NotBusy => status / 0x80 % 2 == 0
    case DataRequest => status / 0x08 % 2 == 1
  }

  /** The bits of the status register that the waits look at: BSY is 0x80, DRQ 0x08. */
  lemma ReadyBits(s: bv8)
    ensures Ready(NotBusy, s as int) <==> s & 0x80 == 0
    ensures Ready(DataRequest, s as int) <==> s & 0x08 != 0
  {
    assert s & 0x80 == 0 <==> s < 0x80;
    assert s & 0x08 != 0 <==> s / 8 % 2 == 1;
  }

  /** How many polls in a row from `p` on are not ready, counted up to `end`. */
  ghost function NotReadyRun(status: nat -> byte, w: Wait, p: nat, end: nat): (n: nat)
    requires p <= end
    decreases end - p
  {
    if p == end || Ready(w, status(p)) then 0 else 1 + NotReadyRun(status, w, p + 1, end)
  }

  lemma {:induction false} NotReadyRunIs(status: nat -> byte, w: Wait, p: nat, end: nat, n: nat)
    requires p <= end && n == NotReadyRun(status, w, p, end)
    ensures p + n <= end
    ensures p + n < end ==> Ready(w, status(p + n))
    ensures forall j :: p <= j < p + n ==> !Ready(w, status(j))
    decreases end - p
  {
    if p < end && !Ready(w, status(p)) { NotReadyRunIs(status, w, p + 1, end, n - 1); }
  }

  ghost predicate WaitOk(status: nat -> byte, w: Wait, p: nat) {
    NotReadyRun(status, w, p, p + POLL_LIMIT) < POLL_LIMIT
  }

  ghost function WaitEnd(status: nat -> byte, w: Wait, p: nat): nat {
    p + NotReadyRun(status, w, p, p + POLL_LIMIT) + 1
  }

  ghost predicate ReadyWithin(status: nat -> byte, w: Wait, p: nat) {
    exists j :: p <= j < p + POLL_LIMIT && Ready(w, status(j))
  }

  /** A wait succeeds exactly on the streams that show a ready status within
      the first 100000 polls, and never polls more than 100001 times. */
  lemma WaitOkIffReadyInTime(status: nat -> byte, w: Wait, p: nat)
    ensures WaitOk(status, w, p) <==> ReadyWithin(status, w, p)
    ensures p < WaitEnd(status, w, p) <= p + POLL_LIMIT + 1
  {
    var n := NotReadyRun(status, w, p, p + POLL_LIMIT);
    NotReadyRunIs(status, w, p, p + POLL_LIMIT, n);
    if j :| p <= j < p + POLL_LIMIT && Ready(w, status(j)) {
      assert n <= j - p;
    }
  }

  /** The two data-phase waits of one sector command; `settle` status reads lie
      between the drive select and the command. */
  ghost predicate CommandOk(status: nat -> byte, p: nat, settle: nat) {
    && WaitOk(status, NotBusy, p)
    && WaitOk(status, DataRequest, WaitEnd(status, NotBusy, p) + settle)
  }

  /** The first of 100000 polls from `p` on that is ready is poll `p + i`. */
  ghost predicate FirstReady(status: nat -> byte, w: Wait, p: nat, i: nat) {
    i < 100000 && Ready(w, status(p + i)) && forall k :: p <= k < p + i ==> !Ready(w, status(k))
  }

  lemma {:induction false} RunIs(status: nat -> byte, w: Wait, p: nat, end: nat, n: nat)
    requires p + n <= end && (forall k :: p <= k < p + n ==> !Ready(w, status(k)))
    requires p + n < end ==> Ready(w, status(p + n))
    ensures NotReadyRun(status, w, p, end) == n
    decreases n
  {
    if n > 0 { RunIs(status, w, p + 1, end, n - 1); }
  }

  /** A wait ends with the first of 100000 polls that is ready, and otherwise fails
      after 100001. */
  lemma WaitIs(status: nat -> byte, w: Wait, p: nat)
    ensures WaitOk(status, w, p) <==> exists i: nat :: FirstReady(status, w, p, i)
    ensures forall i: nat :: FirstReady(status, w, p, i) ==> WaitEnd(status, w, p) == p + i + 1
    ensures !WaitOk(status, w, p) ==> WaitEnd(status, w, p) == p + 100001
  {
    var n := NotReadyRun(status, w, p, p + 100000);
    NotReadyRunIs(status, w, p, p + 100000, n);
    if n < 100000 { assert FirstReady(status, w, p, n); }
    forall i: nat | FirstReady(status, w, p, i) ensures n == i {
      RunIs(status, w, p, p + 100000, i);
    }
  }

  /** BSY first shows clear `i` polls on, and after the settling reads DRQ set `j`
      polls on, each within 100000. */
  ghost predicate LetsThrough(status: nat -> byte, p: nat, settle: nat, i: nat, j: nat) {
    FirstReady(status, NotBusy, p, i) && FirstReady(status, DataRequest, p + i + 1 + settle, j)
  }

  /** Exactly on such streams a command is let through. */
  lemma CommandOkIff(status: nat -> byte, p: nat, settle: nat)
    ensures CommandOk(status, p, settle) <==> exists i: nat, j: nat :: LetsThrough(status, p, settle, i, j)
  {
    var q := WaitEnd(status, NotBusy, p) + settle;
    WaitIs(status, NotBusy, p);
    WaitIs(status, DataRequest, q);
    if CommandOk(status, p, settle) {
      var i: nat :| FirstReady(status, NotBusy, p, i);
      var j: nat :| FirstReady(status, DataRequest, q, j);
      assert LetsThrough(status, p, settle, i, j);
    }
  }

  /** A device that always shows ready and DRQ, 0x58, lets every command through. */
  lemma SteadyDevice(status: nat -> byte)
    requires forall k: nat :: status(k) == 0x58
    ensures Responsive(status) && forall p: nat, settle: nat :: CommandOk(status, p, settle)
  {
    ReadyBits(0x58);
    forall w: Wait, p: nat ensures ReadyWithin(status, w, p) { assert Ready(w, status(p)); }
    forall p: nat, settle: nat ensures CommandOk(status, p, settle) {
      SteadyWait(status, NotBusy, p);
      SteadyWait(status, DataRequest, WaitEnd(status, NotBusy, p) + settle);
    }
  }

  lemma SteadyWait(status: nat -> byte, w: Wait, p: nat)
    requires Responsive(status)
    ensures WaitOk(status, w, p)
  {
    assert ReadyWithin(status, w, p);
    WaitOkIffReadyInTime(status, w, p);
  }

  /** One that always shows BSY, or never DRQ, lets none through. */
  lemma DeadDevice(status: nat -> byte, p: nat, settle: nat, bits: bv8)
    requires (bits & 0x80 != 0 || bits & 0x08 == 0) && forall k: nat :: status(k) == bits as int
    ensures !CommandOk(status, p, settle)
  {
    ReadyBits(bits);
    CommandOkIff(status, p, settle);
  }

  /** The wait after the last data word. */
  ghost predicate CompletionOk(status: nat -> byte, p: nat, settle: nat) {
    WaitOk(status, NotBusy, WaitEnd(status, DataRequest, WaitEnd(status, NotBusy, p) + settle))
  }

  datatype Direction = Reading | Writing

  /** The polls made when one sector command from poll `p` is over; a write also
      waits for completion. */
  ghost function CommandEnd(status: nat -> byte, dir: Direction, p: nat, settle: nat): nat {
    var q := WaitEnd(status, NotBusy, p);
    if !WaitOk(status, NotBusy, p) then q else
    var r := WaitEnd(status, DataRequest, q + settle);
    if dir.Writing? && WaitOk(status, DataRequest, q + settle) then WaitEnd(status, NotBusy, r) else r
  }

  /** How many polls a command makes: up to and with the first that shows BSY clear,
      the settling reads, up to and with the first that shows DRQ set; and a write as
      many more as it takes for BSY to clear again, at most 100001. */
  lemma CommandPolls(status: nat -> byte, dir: Direction, p: nat, settle: nat, i: nat, j: nat, q: nat)
    requires LetsThrough(status, p, settle, i, j) && q == p + i + 1 + settle + j + 1
    ensures dir.Reading? ==> CommandEnd(status, dir, p, settle) == q
    ensures CompletionOk(status, p, settle) <==> exists k: nat :: FirstReady(status, NotBusy, q, k)
    ensures dir.Writing? ==> forall k: nat :: FirstReady(status, NotBusy, q, k) ==>
      CommandEnd(status, dir, p, settle) == q + k + 1
    ensures dir.Writing? && !CompletionOk(status, p, settle) ==> CommandEnd(status, dir, p, settle) == q + 100001
  {
    CommandOkIff(status, p, settle);
    WaitIs(status, NotBusy, p);
    WaitIs(status, DataRequest, p + i + 1 + settle);
    WaitIs(status, NotBusy, q);
  }

  /** A command that is not let through gives up after 100001 polls of one wait. */
  lemma FailedPolls(status: nat -> byte, dir: Direction, p: nat, settle: nat)
    requires !CommandOk(status, p, settle)
    ensures CommandEnd(status, dir, p, settle) == p + 100001 ||
      exists i: nat :: FirstReady(status, NotBusy, p, i)
        && CommandEnd(status, dir, p, settle) == p + i + 1 + settle + 100001
  {
    WaitIs(status, NotBusy, p);
    WaitIs(status, DataRequest, WaitEnd(status, NotBusy, p) + settle);
  }

  // ---- Sector commands one after the other ----

  /** The polls made when `k` commands in a row from poll `p` are over. */
  ghost function PollsAt(status: nat -> byte, dir: Direction, p: nat, k: nat): nat {
    if k == 0 then p else CommandEnd(status, dir, PollsAt(status, dir, p, k - 1), 0)
  }

  /** The device lets the command after `k` others through. */
  ghost predicate Accepted(status: nat -> byte, dir: Direction, p: nat, k: nat) {
    CommandOk(status, PollsAt(status, dir, p, k), 0)
  }

  /** Of `n` commands in a row the first `g` succeed, and the next fails. */
  ghost predicate Successes(status: nat -> byte, dir: Direction, p: nat, n: nat, g: nat) {
    && g <= n
    && (forall k :: 0 <= k < g ==> Accepted(status, dir, p, k))
    && (g < n ==> !Accepted(status, dir, p, g))
  }

  lemma PollsNext(status: nat -> byte, dir: Direction, p: nat, k: nat, polls: nat)
    requires polls == PollsAt(status, dir, p, k)
    ensures PollsAt(status, dir, p, k + 1) == CommandEnd(status, dir, polls, 0)
  {}

  /** One more command, let through or not. */
  lemma OneMoreCommand(status: nat -> byte, dir: Direction, p: nat, n: nat, k: nat, polls: nat, ok: bool)
    requires k < n && polls == PollsAt(status, dir, p, k) && ok == CommandOk(status, polls, 0)
    requires forall j :: 0 <= j < k ==> Accepted(status, dir, p, j)
    ensures PollsAt(status, dir, p, k + 1) == CommandEnd(status, dir, polls, 0)
    ensures if ok then forall j :: 0 <= j < k + 1 ==> Accepted(status, dir, p, j) else Successes(status, dir, p, n, k)
  {}

  lemma {:induction false} FirstFailure(ok: nat -> bool, n: nat) returns (g: nat)
    ensures g <= n && (forall k :: 0 <= k < g ==> ok(k)) && (g < n ==> !ok(g))
    decreases n
  {
    g := 0;
    if n > 0 {
      g := FirstFailure(ok, n - 1);
      if g == n - 1 && ok(g) { g := n; }
    }
  }

  lemma SuccessesExist(status: nat -> byte, dir: Direction, p: nat, n: nat)
    ensures exists g :: Successes(status, dir, p, n, g)
  {
    var ok := (k: nat) => Accepted(status, dir, p, k);
    var g := FirstFailure(ok, n);
    assert Successes(status, dir, p, n, g) by {
      forall k | 0 <= k < g ensures Accepted(status, dir, p, k) { assert ok(k); }
      assert g < n ==> !ok(g);
    }
  }

  /** How many of `n` commands in a row succeed before the first that fails. */
  ghost function SuccessCount(status: nat -> byte, dir: Direction, p: nat, n: nat): (g: nat)
    ensures Successes(status, dir, p, n, g)
  {
    SuccessesExist(status, dir, p, n);
    var g: nat :| Successes(status, dir, p, n, g);
    g
  }

  lemma SuccessCountIs(status: nat -> byte, dir: Direction, p: nat, n: nat, g: nat)
    requires Successes(status, dir, p, n, g)
    ensures SuccessCount(status, dir, p, n) == g
  {
    var c := SuccessCount(status, dir, p, n);
    assert Successes(status, dir, p, n, c);
  }

  /** A device that shows both ready states within any 100000 polls in a row. */
  ghost predicate Responsive(status: nat -> byte) {
    forall w: Wait, p: nat :: ReadyWithin(status, w, p)
  }

  /** Such a device lets every command through. */
  lemma ResponsiveAccepts(status: nat -> byte, dir: Direction, p: nat, n: nat)
    requires Responsive(status)
    ensures SuccessCount(status, dir, p, n) == n && forall k :: 0 <= k ==> Accepted(status, dir, p, k)
  {
    forall k: nat ensures Accepted(status, dir, p, k) {
      ResponsiveLets(status, PollsAt(status, dir, p, k));
    }
  }

  lemma ResponsiveLets(status: nat -> byte, p: nat)
    requires Responsive(status)
    ensures CommandOk(status, p, 0)
  {
    SteadyWait(status, NotBusy, p);
    SteadyWait(status, DataRequest, WaitEnd(status, NotBusy, p));
  }

  // ---- Addressing ----

  predicate InRange(disk: seq<byte>, lba: nat) {
    SECTOR_SIZE * lba + SECTOR_SIZE <= |disk|
  }

  function SectorAt(disk: seq<byte>, lba: nat): (s: seq<byte>)
    requires InRange(disk, lba)
    ensures |s| == SECTOR_SIZE
  {
    disk[SECTOR_SIZE * lba..SECTOR_SIZE * lba + SECTOR_SIZE]
  }

  /** Device register: LBA mode, the drive in bit 4, and bits 24 to 27 of the LBA. */
  function DeviceByte(drive: nat, lba: nat): byte
    requires drive < 2
  {
    0xE0 + 0x10 * drive + lba / 0x100_0000 % 0x10
  }

  /** It is 0xE0 or-ed with the drive in bit 4 and the bits of the LBA, and bit 6,
      which says that the address is an LBA, is set. */
  lemma DeviceByteIsBitwiseOr(drive: bv8, nibble: bv8, lba: nat)
    requires drive < 2 && nibble < 16 && lba / 0x100_0000 % 0x10 == nibble as nat
    ensures DeviceByte(drive as nat, lba) == (0xE0 | (drive << 4) | nibble) as int
    ensures DeviceByte(drive as nat, lba) / 0x40 % 2 == 1
  {
    assert 0xE0 | (drive << 4) | nibble == 0xE0 + 0x10 * drive + nibble;
  }

  function Reassemble(lo: byte, mid: byte, hi: byte, dev: byte): nat {
    lo + 0x100 * mid + 0x1_0000 * hi + 0x100_0000 * (dev % 0x10)
  }

  function Low28(lba: nat): nat { lba % LBA_LIMIT }

  /** The four address registers carry exactly the low 28 bits of the LBA. */
  lemma ReassembleLba(lba: nat, drive: nat)
    requires drive < 2
    ensures Reassemble(lba % 0x100, lba / 0x100 % 0x100, lba / 0x1_0000 % 0x100, DeviceByte(drive, lba))
         == Low28(lba)
    ensures DeviceByte(drive, lba) / 0x10 % 2 == drive && DeviceByte(drive, lba) / 0x40 % 2 == 1
  {
    var b0, b1, b2, b3 := lba % 0x100, lba / 0x100 % 0x100, lba / 0x1_0000 % 0x100, lba / 0x100_0000 % 0x10;
    Join(lba, 0x100, lba / 0x100, b0, lba / 0x100 / 0x100, b1);
    Join(lba, 0x1_0000, lba / 0x1_0000, lba % 0x1_0000, lba / 0x1_0000 / 0x100, b2);
    Join(lba, 0x100_0000, lba / 0x100_0000, lba % 0x100_0000, lba / 0x100_0000 / 0x10, b3);
  }

  /** Two adjacent digits of `n`, given by quotients and remainders, make one. */
  lemma Join(n: nat, base: nat, q: nat, r: nat, q2: nat, digit: nat)
    requires base == 0x100 || base == 0x1_0000 || base == 0x100_0000
    requires n == base * q + r && r < base
    requires q == (if base == 0x100_0000 then 0x10 else 0x100) * q2 + digit
    requires digit < if base == 0x100_0000 then 0x10 else 0x100
    ensures n % (if base == 0x100_0000 then LBA_LIMIT else 0x100 * base) == base * digit + r
  {
    if base == 0x100 {
      ModUnique(n, 0x1_0000, q2, 0x100 * digit + r);
    } else if base == 0x1_0000 {
      ModUnique(n, 0x100_0000, q2, 0x1_0000 * digit + r);
    } else {
      ModUnique(n, LBA_LIMIT, q2, 0x100_0000 * digit + r);
    }
  }

  lemma ModUnique(n: nat, m: nat, q: nat, r: nat)
    requires m > 0 && n == m * q + r && r < m
    ensures n % m == r
  {
    var d := n / m - q;
    assert m * d == r - n % m;
    assert d >= 1 ==> m * d >= m;
    assert d <= -1 ==> m * d <= 0 - m;
  }

  // ---- The device ----

  datatype Phase =
    | Idle
    | DataIn(left: seq<word>)
    | DataOut(drive: nat, lba: nat, taken: seq<word>)

  /** The phase a command for one sector of a drive starts. */
  function Commanded(disks: seq<seq<byte>>, drive: nat, lba: nat, cmd: byte): Phase
    requires drive < |disks|
  {
    if !InRange(disks[drive], lba) then Idle
    else if cmd == 0x20 then DataIn(WordsOf(SectorAt(disks[drive], lba)))
    else if cmd == 0x30 then DataOut(drive, lba, [])
    else Idle
  }

  /** 0x20 reads the sector, and 0x30 stores it with the 256th word. */
  lemma SectorCommands(disks: seq<seq<byte>>, drive: nat, lba: nat)
    requires drive < |disks| && InRange(disks[drive], lba)
    ensures var p := Commanded(disks, drive, lba, 0x20);
      p.DataIn? && |p.left| == 256 && BytesOf(p.left) == disks[drive][512 * lba..512 * lba + 512]
    ensures Commanded(disks, drive, lba, 0x30) == DataOut(drive, lba, [])
  {
    BytesOfWordsOf(SectorAt(disks[drive], lba));
  }

  /** One channel with two drives. The status register answers from an
      arbitrary stream: the device may be slow, or never answer. */
  class Channel {
    const status: nat -> byte
    var polls: nat
    var lo: byte
    var mid: byte
    var hi: byte
    var dev: byte
    var phase: Phase
    var disks: seq<seq<byte>>

    ghost predicate Valid()
      reads this
    {
      && |disks| == 2
      && (phase.DataOut? ==>
           phase.drive < 2 && InRange(disks[phase.drive], phase.lba) && |phase.taken| < SECTOR_WORDS)
    }

    constructor (status: nat -> byte, disk0: seq<byte>, disk1: seq<byte>)
      ensures Valid() && disks == [disk0, disk1] && polls == 0 && this.status == status
    {
      this.status := status;
      polls := 0;
      lo, mid, hi, dev := 0, 0, 0, 0;
      phase := Idle;
      disks := [disk0, disk1];
    }

    method ReadStatus() returns (s: byte)
      requires Valid()
      modifies this`polls
      ensures Valid() && s == status(old(polls)) && polls == old(polls) + 1
    {
      s := status(polls);
      polls := polls + 1;
    }

    /** Registers 3..6: the address; drive select is bit 4 of register 6. */
    method SelectSector(device: byte, lo: byte, mid: byte, hi: byte)
      requires Valid()
      modifies this`lo, this`mid, this`hi, this`dev
      ensures Valid() && this.lo == lo && this.mid == mid && this.hi == hi && dev == device
    {
      dev, this.lo, this.mid, this.hi := device, lo, mid, hi;
    }

    /** Register 7. A new command drops a transfer that was under way; an
        address past the end of the drive aborts, and so here does one that is not
        an LBA. */
    method Command(cmd: byte)
      requires Valid()
      modifies this`phase
      ensures Valid()
      ensures phase == if dev / 0x40 % 2 == 1 then Commanded(disks, dev / 0x10 % 2, Reassemble(lo, mid, hi, dev), cmd)
                       else Idle
    {
      phase := if dev / 0x40 % 2 == 1 then Commanded(disks, dev / 0x10 % 2, Reassemble(lo, mid, hi, dev), cmd)
               else Idle;
    }

    method ReadData() returns (w: word)
      requires Valid()
      modifies this`phase
      ensures Valid()
      ensures old(phase.DataIn?) && old(phase.left) != [] ==>
        w == old(phase.left)[0] && phase == DataIn(old(phase.left)[1..])
    {
      w := 0xFFFF;
      if phase.DataIn? && phase.left != [] {
        w := phase.left[0];
        phase := DataIn(phase.left[1..]);
      }
    }

    /** The 256th word stores the sector. */
    method WriteData(w: word)
      requires Valid()
      modifies this`phase, this`disks
      ensures Valid()
      ensures !old(phase.DataOut?) ==> phase == old(phase) && disks == old(disks)
      ensures old(phase.DataOut?) && |old(phase).taken| + 1 < SECTOR_WORDS ==>
        phase == DataOut(old(phase).drive, old(phase).lba, old(phase).taken + [w]) && disks == old(disks)
      ensures old(phase.DataOut?) && |old(phase).taken| + 1 == SECTOR_WORDS ==>
        var d, at := old(phase).drive, SECTOR_SIZE * old(phase).lba;
        phase == Idle && disks == old(disks)[d := Splice(old(disks)[d], at, BytesOf(old(phase).taken + [w]))]
    {
      if phase.DataOut? {
        var words := phase.taken + [w];
        if |words| < SECTOR_WORDS {
          phase := phase.(taken := words);
        } else {
          var d, at := phase.drive, SECTOR_SIZE * phase.lba;
          phase := Idle;
          disks := disks[d := Splice(disks[d], at, BytesOf(words))];
        }
      }
    }
  }

  // ---- Waiting: the two idioms ----

  /** The idiom of filesystem.c: the counter is decremented after every poll that is
      not ready, below zero at the end, and a positive rest means success. */
  method FsWait(ch: Channel, w: Wait) returns (ok: bool)
    requires ch.Valid()
    modifies ch`polls
    ensures ch.Valid()
    ensures ok == WaitOk(ch.status, w, old(ch.polls))
    ensures ch.polls == WaitEnd(ch.status, w, old(ch.polls))
  {
    var timeout: int := POLL_LIMIT;
    var done := false;
    ghost var start, end := ch.polls, ch.polls + POLL_LIMIT;
    ghost var total := NotReadyRun(ch.status, w, start, end);
    while !done
      invariant ch.Valid()
      invariant timeout <= POLL_LIMIT
      invariant !done ==> 0 <= timeout && ch.polls + timeout == end
      invariant !done ==> total == ch.polls - start + NotReadyRun(ch.status, w, ch.polls, end)
      invariant done ==> ch.polls == start + total + 1 && (timeout > 0 <==> total < POLL_LIMIT)
      decreases !done, timeout
    {
      var s := ch.ReadStatus();
      if Ready(w, s) {
        done := true;
      } else {
        done := timeout == 0;
        timeout := timeout - 1;
      }
    }
    ok := timeout > 0;
  }

  /** The idiom of ata.c: the counter is tested before it is decremented. */
  method AtaWait(ch: Channel, w: Wait) returns (ok: bool)
    requires ch.Valid()
    modifies ch`polls
    ensures ch.Valid()
    ensures ok == WaitOk(ch.status, w, old(ch.polls))
    ensures ch.polls == WaitEnd(ch.status, w, old(ch.polls))
  {
    var timeout: int := POLL_LIMIT;
    var done := false;
    ghost var start, end := ch.polls, ch.polls + POLL_LIMIT;
    ghost var total := NotReadyRun(ch.status, w, start, end);
    while !done
      invariant ch.Valid()
      invariant 0 <= timeout
      invariant !done ==> ch.polls + timeout == end
      invariant !done ==> total == ch.polls - start + NotReadyRun(ch.status, w, ch.polls, end)
      invariant done ==> ch.polls == start + total + 1 && (timeout > 0 <==> total < POLL_LIMIT)
      decreases !done, timeout
    {
      var s := ch.ReadStatus();
      if !Ready(w, s) && timeout > 0 {
        timeout := timeout - 1;
      } else {
        done := true;
      }
    }
    ok := timeout > 0;
  }

  // ---- Data transfer loops ----

  method TransferIn(ch: Channel, buffer: array<byte>, ghost sector: seq<byte>)
    requires ch.Valid() && buffer.Length == |sector| == SECTOR_SIZE
    modifies ch`phase, buffer
    ensures ch.Valid()
    ensures old(ch.phase) == DataIn(WordsOf(sector)) ==> buffer[..] == sector
  {
    ghost var words := WordsOf(sector);
    for i := 0 to SECTOR_WORDS
      invariant ch.Valid()
      invariant old(ch.phase) == DataIn(words) ==> ch.phase == DataIn(words[i..])
      invariant old(ch.phase) == DataIn(words) ==> buffer[..2 * i] == sector[..2 * i]
    {
      var w := ch.ReadData();
      buffer[2 * i] := LowByte(w);
      buffer[2 * i + 1] := HighByte(w);
      SplitWord(sector[2 * i], sector[2 * i + 1]);
    }
    assert buffer[..2 * SECTOR_WORDS] == buffer[..] && sector[..2 * SECTOR_WORDS] == sector;
  }

  method TransferOut(ch: Channel, buffer: array<byte>)
    requires ch.Valid() && buffer.Length == SECTOR_SIZE
    requires ch.phase.DataOut? ==> ch.phase.taken == []
    modifies ch`phase, ch`disks
    ensures ch.Valid()
    ensures old(ch.phase.DataOut?) ==>
      var d, at := old(ch.phase).drive, SECTOR_SIZE * old(ch.phase).lba;
      ch.disks == old(ch.disks)[d := Splice(old(ch.disks)[d], at, buffer[..])]
    ensures !old(ch.phase.DataOut?) ==> ch.disks == old(ch.disks)
  {
    ghost var words := WordsOf(buffer[..]);
    BytesOfWordsOf(buffer[..]);
    ghost var start := ch.phase;
    ghost var disks := ch.disks;
    for i := 0 to SECTOR_WORDS
      invariant ch.Valid()
      invariant !start.DataOut? ==> ch.phase == start && ch.disks == disks
      invariant start.DataOut? && i < SECTOR_WORDS ==> ch.phase == start.(taken := words[..i]) && ch.disks == disks
      invariant start.DataOut? && i == SECTOR_WORDS ==>
        ch.disks == disks[start.drive := Splice(disks[start.drive], SECTOR_SIZE * start.lba, buffer[..])]
    {
      assert words[..i] + [words[i]] == words[..i + 1];
      assert i + 1 == SECTOR_WORDS ==> words[..i + 1] == words;
      ch.WriteData(WordOf(buffer[2 * i], buffer[2 * i + 1]));
    }
  }

  /** Loads the address registers and issues a command for one sector. */
  method Issue(ch: Channel, drive: nat, lba: nat, settle: nat, cmd: byte)
    requires ch.Valid() && drive < 2
    modifies ch
    ensures ch.Valid() && ch.disks == old(ch.disks) && ch.polls == old(ch.polls) + settle
    ensures ch.lo == lba % 0x100 && ch.mid == lba / 0x100 % 0x100 && ch.hi == lba / 0x1_0000 % 0x100
    ensures ch.dev == DeviceByte(drive, lba) && ch.phase == Commanded(ch.disks, drive, Low28(lba), cmd)
  {
    ReassembleLba(lba, drive);
    ch.SelectSector(DeviceByte(drive, lba), lba % 0x100, lba / 0x100 % 0x100, lba / 0x1_0000 % 0x100);
    for i := 0 to settle
      invariant ch.Valid() && ch.polls == old(ch.polls) + i
      invariant ch.dev / 0x40 % 2 == 1 && ch.dev / 0x10 % 2 == drive
      invariant Reassemble(ch.lo, ch.mid, ch.hi, ch.dev) == Low28(lba)
      invariant ch.lo == lba % 0x100 && ch.mid == lba / 0x100 % 0x100 && ch.hi == lba / 0x1_0000 % 0x100
      invariant ch.dev == DeviceByte(drive, lba) && ch.disks == old(ch.disks)
    {
      var _ := ch.ReadStatus();
    }
    ch.Command(cmd);
  }

  // ---- fs_read_sector_direct, fs_write_sector_direct ----

  method FsReadSector(ch: Channel, selected: bool, drive: nat, lba: nat, buffer: array<byte>) returns (r: int)
    requires ch.Valid() && drive < 2 && buffer.Length == SECTOR_SIZE
    modifies ch, buffer
    ensures ch.Valid() && ch.disks == old(ch.disks)
    ensures r == if selected && CommandOk(ch.status, old(ch.polls), 0) then 0 else -1
    ensures ch.polls == if selected then CommandEnd(ch.status, Reading, old(ch.polls), 0) else old(ch.polls)
    ensures r == 0 && InRange(ch.disks[drive], Low28(lba)) ==>
      buffer[..] == SectorAt(ch.disks[drive], Low28(lba))
    ensures r != 0 ==> buffer[..] == old(buffer[..])
  {
    if !selected { return -1; }
    var ok := FsWait(ch, NotBusy);
    if !ok { return -1; }
    Issue(ch, drive, lba, 0, 0x20);
    ok := FsWait(ch, DataRequest);
    if !ok { return -1; }
    TransferIn(ch, buffer, if InRange(ch.disks[drive], Low28(lba))
                           then SectorAt(ch.disks[drive], Low28(lba)) else seq(SECTOR_SIZE, _ => 0));
    r := 0;
  }

  method FsWriteSector(ch: Channel, selected: bool, drive: nat, lba: nat, buffer: array<byte>) returns (r: int)
    requires ch.Valid() && drive < 2 && buffer.Length == SECTOR_SIZE
    modifies ch
    ensures ch.Valid()
    ensures r == if selected && CommandOk(ch.status, old(ch.polls), 0) then 0 else -1
    ensures ch.polls == if selected then CommandEnd(ch.status, Writing, old(ch.polls), 0) else old(ch.polls)
    ensures ch.disks == if r == 0 then Stored(old(ch.disks), drive, Low28(lba), buffer[..]) else old(ch.disks)
  {
    if !selected { return -1; }
    var ok := FsWait(ch, NotBusy);
    if !ok { return -1; }
    Issue(ch, drive, lba, 0, 0x30);
    ok := FsWait(ch, DataRequest);
    if !ok { return -1; }
    TransferOut(ch, buffer);
    ok := FsWait(ch, NotBusy);  // the outcome is ignored
    r := 0;
  }

  /** The drives after `sector` is stored at `lba` of one of them. */
  ghost function Stored(disks: seq<seq<byte>>, drive: nat, lba: nat, sector: seq<byte>): (r: seq<seq<byte>>)
    requires drive < |disks| && |sector| == SECTOR_SIZE
    ensures |r| == |disks|
  {
    if InRange(disks[drive], lba) then disks[drive := Splice(disks[drive], SECTOR_SIZE * lba, sector)] else disks
  }

  /** Reading back what was stored gives the same 512 bytes; every other sector
      of that drive, and the other drive, still reads as before. */
  lemma StoredRoundTrip(disks: seq<seq<byte>>, drive: nat, lba: nat, sector: seq<byte>)
    requires drive < |disks| && |sector| == SECTOR_SIZE && InRange(disks[drive], lba)
    ensures var r := Stored(disks, drive, lba, sector);
      && |r[drive]| == |disks[drive]|
      && SectorAt(r[drive], lba) == sector
      && (forall other :: other != lba && InRange(disks[drive], other) ==>
          SectorAt(r[drive], other) == SectorAt(disks[drive], other))
      && (forall d :: 0 <= d < |disks| && d != drive ==> r[d] == disks[d])
  {
    var r := Stored(disks, drive, lba, sector);
    assert SectorAt(r[drive], lba) == sector;
    forall other: nat | other != lba && InRange(disks[drive], other)
      ensures SectorAt(r[drive], other) == SectorAt(disks[drive], other)
    {
      assert SECTOR_SIZE * other + SECTOR_SIZE <= SECTOR_SIZE * lba
        || SECTOR_SIZE * lba + SECTOR_SIZE <= SECTOR_SIZE * other;
    }
  }

  // ---- ata_read_sector, ata_write_sector ----

  method AtaReadSector(ch: Channel, usable: bool, drive: nat, lba: nat, buffer: array<byte>) returns (r: int)
    requires ch.Valid() && drive < 2 && buffer.Length == SECTOR_SIZE
    modifies ch, buffer
    ensures ch.Valid() && ch.disks == old(ch.disks)
    ensures r == if usable && CommandOk(ch.status, old(ch.polls), 4) then 0 else -1
    ensures ch.polls == if usable then CommandEnd(ch.status, Reading, old(ch.polls), 4) else old(ch.polls)
    ensures r == 0 && InRange(ch.disks[drive], Low28(lba)) ==>
      buffer[..] == SectorAt(ch.disks[drive], Low28(lba))
    ensures r != 0 ==> buffer[..] == old(buffer[..])
  {
    if !usable { return -1; }
    var ok := AtaWait(ch, NotBusy);
    if !ok { return -1; }
    Issue(ch, drive, lba, 4, 0x20);
    ok := AtaWait(ch, DataRequest);
    if !ok { return -1; }
    TransferIn(ch, buffer, if InRange(ch.disks[drive], Low28(lba))
                           then SectorAt(ch.disks[drive], Low28(lba)) else seq(SECTOR_SIZE, _ => 0));
    r := 0;
  }

  /** Unlike its twin in filesystem.c it reports a completion timeout: the
      sector is then stored although the result is -1. */
  method AtaWriteSector(ch: Channel, usable: bool, drive: nat, lba: nat, buffer: array<byte>) returns (r: int)
    requires ch.Valid() && drive < 2 && buffer.Length == SECTOR_SIZE
    modifies ch
    ensures ch.Valid()
    ensures var stored := usable && CommandOk(ch.status, old(ch.polls), 4);
      && ch.disks == (if stored then Stored(old(ch.disks), drive, Low28(lba), buffer[..]) else old(ch.disks))
      && r == if stored && CompletionOk(ch.status, old(ch.polls), 4) then 0 else -1
    ensures ch.polls == if usable then CommandEnd(ch.status, Writing, old(ch.polls), 4) else old(ch.polls)
  {
    if !usable { return -1; }
    var ok := AtaWait(ch, NotBusy);
    if !ok { return -1; }
    Issue(ch, drive, lba, 4, 0x30);
    ok := AtaWait(ch, DataRequest);
    if !ok { return -1; }
    TransferOut(ch, buffer);
    ok := AtaWait(ch, NotBusy);
    r := if ok then 0 else -1;
  }
}
