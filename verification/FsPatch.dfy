// What the disk is made of after a run of saves that stopped part-way: each sector
// shows memory as it was at one moment of the run.
module FsPatch {
  import opened FsLayout
  import opened SlotMap
  import opened FsSpec
  import opened FsRuns

  // ---- One operation ----

  /** Whether an operation between two boots ends in a save. */
  predicate EndsInSave(s: Fs, op: Op) {
    match op
    case DoCreate(name, content, _) => CreateCode(s, name, content) == 0
    case DoDelete(name, _) => DeleteCode(s, name) == 0
    case DoRead(_, _) => false
    case DoSave(_) => true
    case Reboot(_, _, _, _, _) => false
  }

  function SaveOutcome(op: Op): Io
    requires !op.DoRead?
  {
    op.io
  }

  /** The save of this operation reaches sector `n`. */
  predicate Reaches(s: Fs, op: Op, n: nat) {
    EndsInSave(s, op) && n < SaveOutcome(op).good
  }

  lemma SectorOfTorn(old': Image, new': Image, good: nat, n: nat)
    requires n < IMAGE_SECTORS
    ensures Sector(Torn(old', new', good), n) == Sector(if n < good then new' else old', n)
  {
    var t := Torn(old', new', good);
    assert SECTOR * n + SECTOR <= SECTOR * good || SECTOR * good <= SECTOR * n;
  }

  /** A sector is written from memory as the operation leaves it, or stays. */
  lemma StepSector(s: Fs, op: Op, n: nat, t: Fs)
    requires s.selected && !op.Reboot? && n < IMAGE_SECTORS && t == Step(s, op).0
    ensures t.selected
    ensures Sector(t.disk, n) ==
      Sector(if Reaches(s, op, n) then ImageOf(t.header, SaveOutcome(op).tail, t.data) else s.disk, n)
  {
    if EndsInSave(s, op) {
      var m := match op {
        case DoCreate(name, content, _) => Entered(s, name, content)
        case DoDelete(name, _) => Dropped(s, name)
        case DoSave(_) => s
      };
      assert t == Save(m, SaveOutcome(op));
      SectorOfTorn(s.disk, ImageOf(m.header, SaveOutcome(op).tail, m.data), SaveOutcome(op).good, n);
    }
  }

  // ---- Runs between two boots ----

  predicate NoReboot(ops: seq<Op>) {
    forall op :: op in ops ==> !op.Reboot?
  }

  /** Memory and disk after the first `k` operations. */
  function Moment(s: Fs, ops: seq<Op>, k: nat): Fs
    requires k <= |ops|
  {
    Run(s, ops[..k]).0
  }

  lemma {:induction false} RunOneMore(s: Fs, ops: seq<Op>, op: Op)
    ensures Run(s, ops + [op]).0 == Step(Run(s, ops).0, op).0
    decreases |ops|
  {
    if ops == [] {
      assert [] + [op] == [op];
      assert [op][1..] == [];
    } else {
      assert (ops + [op])[1..] == ops[1..] + [op];
      RunOneMore(Step(s, ops[0]).0, ops[1..], op);
    }
  }

  lemma NextMoment(s: Fs, ops: seq<Op>, k: nat)
    requires k < |ops|
    ensures Moment(s, ops, k + 1) == Step(Moment(s, ops, k), ops[k]).0
  {
    assert ops[..k + 1] == ops[..k] + [ops[k]];
    RunOneMore(s, ops[..k], ops[k]);
  }

  /** The number of the last of the first `k` operations whose save reached sector
      `n`; 0 when none did. */
  function LastReached(s: Fs, ops: seq<Op>, k: nat, n: nat): (m: nat)
    requires k <= |ops|
    ensures m <= k
  {
    if k == 0 then 0
    else if Reaches(Moment(s, ops, k - 1), ops[k - 1], n) then k
    else LastReached(s, ops, k - 1, n)
  }

  /** The image a sector last written by operation `m` comes from. */
  function ImageAt(s: Fs, ops: seq<Op>, m: nat): Image
    requires m <= |ops|
  {
    if m == 0 || ops[m - 1].DoRead? then s.disk
    else ImageOf(Moment(s, ops, m).header, SaveOutcome(ops[m - 1]).tail, Moment(s, ops, m).data)
  }

  /** Main result: in every run between two boots, wherever the saves stop, every
      sector of the disk shows memory as it was after the last operation whose save
      reached that sector, or what it held at the start. */
  lemma {:induction false} DiskIsPatchwork(s: Fs, ops: seq<Op>, k: nat, n: nat)
    requires s.selected && NoReboot(ops) && k <= |ops| && n < IMAGE_SECTORS
    ensures Moment(s, ops, k).selected
    ensures Sector(Moment(s, ops, k).disk, n) == Sector(ImageAt(s, ops, LastReached(s, ops, k, n)), n)
  {
    if k == 0 {
      assert ops[..0] == [];
    } else {
      DiskIsPatchwork(s, ops, k - 1, n);
      NextMoment(s, ops, k - 1);
      assert ops[k - 1] in ops;
      StepSector(Moment(s, ops, k - 1), ops[k - 1], n, Moment(s, ops, k));
    }
  }

  /** Later sectors are never newer. */
  lemma {:induction false} LaterSectorsAreOlder(s: Fs, ops: seq<Op>, k: nat, n: nat, n': nat)
    requires k <= |ops| && n <= n'
    ensures LastReached(s, ops, k, n') <= LastReached(s, ops, k, n)
  {
    if k > 0 { LaterSectorsAreOlder(s, ops, k - 1, n, n'); }
  }

  lemma SectorBytes(x: Image, y: Image, n: nat, k: nat)
    requires n < IMAGE_SECTORS && Sector(x, n) == Sector(y, n) && SECTOR * n <= k < SECTOR * n + SECTOR
    ensures x[k] == y[k]
  {
    assert x[k] == Sector(x, n)[k - SECTOR * n];
    assert y[k] == Sector(y, n)[k - SECTOR * n];
  }

  lemma {:induction false} LastReachedSaves(s: Fs, ops: seq<Op>, k: nat, n: nat)
    requires k <= |ops|
    ensures var m := LastReached(s, ops, k, n);
      m > 0 ==> Reaches(Moment(s, ops, m - 1), ops[m - 1], n) && !ops[m - 1].DoRead?
  {
    if k > 0 { LastReachedSaves(s, ops, k - 1, n); }
  }

  /** The header a sector last written by operation `m` comes from. */
  function HeaderAt(s: Fs, ops: seq<Op>, m: nat): Header
    requires m <= |ops|
  {
    if m == 0 then DiskHeader(s.disk) else Moment(s, ops, m).header
  }

  /** The moments the first and the last byte of entry `i` on the disk are from. */
  function FirstMoment(s: Fs, ops: seq<Op>, i: nat): (m: nat)
    ensures m <= |ops|
  {
    LastReached(s, ops, |ops|, EntryAt(i) / SECTOR)
  }

  function LastMoment(s: Fs, ops: seq<Op>, i: nat): (m: nat)
    ensures m <= |ops|
  {
    LastReached(s, ops, |ops|, (EntryAt(i) + ENTRY_SIZE - 1) / SECTOR)
  }

  /** Byte `k` of entry `i` lies in the sector the entry starts in. */
  predicate BeforeBoundary(i: nat, k: nat) { (EntryAt(i) + k) / SECTOR == EntryAt(i) / SECTOR }

  lemma OneOrNextSector(i: nat, k: nat)
    requires i < MAX_FILES && k < ENTRY_SIZE
    ensures (EntryAt(i) + k) / SECTOR < HEADER_SECTORS
    ensures BeforeBoundary(i, k) || (EntryAt(i) + k) / SECTOR == (EntryAt(i) + ENTRY_SIZE - 1) / SECTOR
    ensures i != 11 && i != 23 ==> BeforeBoundary(i, ENTRY_SIZE - 1)
  {}

  lemma EntryByte(s: Fs, ops: seq<Op>, i: nat, k: nat, m: nat)
    requires s.selected && NoReboot(ops) && i < MAX_FILES && k < ENTRY_SIZE
    requires m == LastReached(s, ops, |ops|, (EntryAt(i) + k) / SECTOR)
    ensures EntryOf(DiskHeader(Run(s, ops).0.disk), i)[k] == EntryOf(HeaderAt(s, ops, m), i)[k]
  {
    var n, at := (EntryAt(i) + k) / SECTOR, EntryAt(i) + k;
    OneOrNextSector(i, k);
    assert ops[..|ops|] == ops;
    DiskIsPatchwork(s, ops, |ops|, n);
    LastReachedSaves(s, ops, |ops|, n);
    var x, y := Run(s, ops).0.disk, ImageAt(s, ops, m);
    SectorBytes(x, y, n, at);
    if m > 0 { ImageRoundTrip(Moment(s, ops, m).header, SaveOutcome(ops[m - 1]).tail, Moment(s, ops, m).data); }
    ByteOfEntry(x, i, k);
    ByteOfEntry(y, i, k);
  }

  lemma ByteOfEntry(x: Image, i: nat, k: nat)
    requires i < MAX_FILES && k < ENTRY_SIZE
    ensures EntryAt(i) + k < HEADER_SIZE && EntryOf(DiskHeader(x), i)[k] == x[EntryAt(i) + k]
  {}

  /** So every entry of the disk's table is that slot's entry at one moment, the
      last written one; but entries 11 and 23, which lie across a sector boundary,
      can be of one moment before the boundary and of an earlier one after it. */
  lemma EntryIsOfTwoMoments(s: Fs, ops: seq<Op>, i: nat)
    requires s.selected && NoReboot(ops) && i < MAX_FILES
    ensures LastMoment(s, ops, i) <= FirstMoment(s, ops, i)
    ensures i != 11 && i != 23 ==> LastMoment(s, ops, i) == FirstMoment(s, ops, i)
    ensures var e := EntryOf(DiskHeader(Run(s, ops).0.disk), i);
      forall k :: 0 <= k < ENTRY_SIZE ==>
        e[k] == EntryOf(HeaderAt(s, ops, if BeforeBoundary(i, k) then FirstMoment(s, ops, i)
              else LastMoment(s, ops, i)), i)[k]
  {
    OneOrNextSector(i, 0);
    LaterSectorsAreOlder(s, ops, |ops|, EntryAt(i) / SECTOR, (EntryAt(i) + ENTRY_SIZE - 1) / SECTOR);
    var e := EntryOf(DiskHeader(Run(s, ops).0.disk), i);
    forall k | 0 <= k < ENTRY_SIZE
      ensures e[k] == EntryOf(HeaderAt(s, ops, if BeforeBoundary(i, k) then FirstMoment(s, ops, i)
              else LastMoment(s, ops, i)), i)[k]
    {
      OneOrNextSector(i, k);
      EntryByte(s, ops, i, k, LastReached(s, ops, |ops|, (EntryAt(i) + k) / SECTOR));
    }
  }

  lemma EntryIsOfOneMoment(s: Fs, ops: seq<Op>, i: nat, m: nat)
    requires s.selected && NoReboot(ops) && i < MAX_FILES && FirstMoment(s, ops, i) == LastMoment(s, ops, i) == m
    ensures EntryOf(DiskHeader(Run(s, ops).0.disk), i) == EntryOf(HeaderAt(s, ops, m), i)
  {
    EntryIsOfTwoMoments(s, ops, i);
  }

  lemma {:induction false} NoRebootIsSafe(s: Fs, ops: seq<Op>)
    requires NoReboot(ops)
    ensures SafeReboots(s, ops)
    decreases |ops|
  {
    if ops != [] {
      assert ops[0] in ops;
      NoRebootIsSafe(Step(s, ops[0]).0, ops[1..]);
    }
  }

  /** Every moment of a run from a synced state has a well-formed table in memory. */
  lemma MomentIsOk(s: Fs, ops: seq<Op>, m: nat)
    requires Good(s) && NoReboot(ops) && m <= |ops| && forall op :: op in ops ==> Legal(op)
    ensures Running(Moment(s, ops, m))
  {
    NoRebootIsSafe(s, ops[..m]);
    RunRefines(s, ops[..m]);
  }

  lemma UsedNamesDiffer(h: Header, d: Data, i: nat, j: nat)
    requires i < MAX_FILES && j < MAX_FILES && i != j && Distinct(Slots(h, d))
    requires Used(EntryOf(h, i)) && Used(EntryOf(h, j))
    ensures Name(EntryOf(h, i)) != Name(EntryOf(h, j))
  {
    assert Slots(h, d)[i].name != Slots(h, d)[j].name by {
      assert i < j || j < i;
    }
  }

  /** Two entries of the disk that were last written at the same moment never share
      a name: a double name takes one entry that is older than the other. */
  lemma NamesOfOneMomentDiffer(s: Fs, ops: seq<Op>, i: nat, j: nat, m: nat, h: Header)
    requires Good(s) && NoReboot(ops) && (forall op :: op in ops ==> Legal(op)) && h == DiskHeader(Run(s, ops).0.disk)
    requires i < MAX_FILES && FirstMoment(s, ops, i) == LastMoment(s, ops, i) == m
    requires j < MAX_FILES && FirstMoment(s, ops, j) == LastMoment(s, ops, j) == m && i != j
    requires Used(EntryOf(h, i)) && Used(EntryOf(h, j))
    ensures Name(EntryOf(h, i)) != Name(EntryOf(h, j))
  {
    EntryIsOfOneMoment(s, ops, i, m);
    EntryIsOfOneMoment(s, ops, j, m);
    MomentIsOk(s, ops, m);
    var t := if m == 0 then s else Moment(s, ops, m);
    UsedNamesDiffer(t.header, t.data, i, j);
  }
}
