// What the status stream of the device makes of a save, a load and a boot: which
// sector commands succeed, and where the polling stands afterwards.
module FsDevice {
  import opened CLib
  import opened Ata
  import opened FsLayout
  import opened SlotMap
  import opened FsSpec
  import opened FsRuns

  /** The polls made when `n` commands in a row, up to the first that fails, are over. */
  ghost function RunEnd(status: nat -> byte, dir: Direction, p: nat, n: nat): nat {
    var g := SuccessCount(status, dir, p, n);
    PollsAt(status, dir, p, if g < n then g + 1 else g)
  }

  /** A save from poll `p` on. */
  ghost function SaveIo(status: nat -> byte, p: nat, tail: Tail): Io {
    Io(tail, SuccessCount(status, Writing, p, IMAGE_SECTORS))
  }

  ghost function SaveEnd(status: nat -> byte, p: nat, selected: bool): nat {
    if selected then RunEnd(status, Writing, p, IMAGE_SECTORS) else p
  }

  /** Data sectors are read after the header sectors. */
  ghost predicate DataRead(status: nat -> byte, p: nat, i: nat) {
    Accepted(status, Reading, p, HEADER_SECTORS + i)
  }

  /** A load from poll `p` on. */
  ghost function LoadReads(status: nat -> byte, p: nat): Reads {
    Reads(SuccessCount(status, Reading, p, HEADER_SECTORS),
          set i: nat | 0 <= i < DATA_SECTORS && !DataRead(status, p, i))
  }

  /** The next data sector of a load. */
  lemma NextDataSector(status: nat -> byte, p: nat, i: nat, polls: nat, bad: set<nat>)
    requires i < DATA_SECTORS && polls == PollsAt(status, Reading, p, HEADER_SECTORS + i) && bad == LoadReads(status, p).bad
    ensures i in bad <==> !CommandOk(status, polls, 0)
    ensures PollsAt(status, Reading, p, HEADER_SECTORS + (i + 1)) == CommandEnd(status, Reading, polls, 0)
  {
    assert DataRead(status, p, i) == CommandOk(status, polls, 0);
    PollsNext(status, Reading, p, HEADER_SECTORS + i, polls);
  }

  /** The save of a load that finds no magic number. */
  ghost function FormatIo(status: nat -> byte, p: nat, tail: Tail): Io {
    SaveIo(status, RunEnd(status, Reading, p, HEADER_SECTORS), tail)
  }

  ghost function LoadEnd(status: nat -> byte, p: nat, selected: bool, disk: Image): nat {
    if !selected then p else
    var g := SuccessCount(status, Reading, p, HEADER_SECTORS);
    if g < HEADER_SECTORS then PollsAt(status, Reading, p, g + 1)
    else if Magic(DiskHeader(disk)) == MAGIC then PollsAt(status, Reading, p, g + DATA_SECTORS)
    else SaveEnd(status, PollsAt(status, Reading, p, g), true)
  }

  /** kernel_main's fs_init and README.txt from poll `p` on. */
  ghost function DeviceBoot(status: nat -> byte, p: nat, disk: Image, selected: bool, readme: seq<byte>,
                            tail: Tail, tail2: Tail): Fs {
    KernelBoot(disk, selected, LoadReads(status, p), FormatIo(status, p, tail), readme,
               SaveIo(status, LoadEnd(status, p, selected, disk), tail2))
  }

  ghost function DeviceBootEnd(status: nat -> byte, p: nat, disk: Image, selected: bool,
                               readme: seq<byte>, tail: Tail): nat {
    var b := Boot(disk, selected, LoadReads(status, p), FormatIo(status, p, tail));
    SaveEnd(status, LoadEnd(status, p, selected, disk),
            selected && Find(SlotsIn(b), README) < 0 && CreateCode(b, README, readme) == 0)
  }

  // ---- When nothing fails ----

  /** A save is complete exactly when the device lets all 259 writes through. */
  lemma CompleteIff(status: nat -> byte, p: nat, tail: Tail)
    ensures Complete(SaveIo(status, p, tail)) <==>
            forall k :: 0 <= k < IMAGE_SECTORS ==> Accepted(status, Writing, p, k)
  {
    var g := SuccessCount(status, Writing, p, IMAGE_SECTORS);
    assert Successes(status, Writing, p, IMAGE_SECTORS, g);
  }

  /** A load reads everything exactly when the device lets all 259 reads through. */
  lemma AllReadIff(status: nat -> byte, p: nat)
    ensures AllRead(LoadReads(status, p)) <==>
            forall k :: 0 <= k < IMAGE_SECTORS ==> Accepted(status, Reading, p, k)
  {
    var r := LoadReads(status, p);
    assert Successes(status, Reading, p, HEADER_SECTORS, r.header);
    if AllRead(r) {
      forall k | 0 <= k < IMAGE_SECTORS ensures Accepted(status, Reading, p, k) {
        if k >= HEADER_SECTORS {
          assert k - HEADER_SECTORS !in r.bad;
          assert DataRead(status, p, k - HEADER_SECTORS);
        }
      }
    }
  }

  /** A responsive device fails no save and no load. */
  lemma ResponsiveNeverFails(status: nat -> byte, p: nat, tail: Tail)
    requires Responsive(status)
    ensures Complete(SaveIo(status, p, tail)) && AllRead(LoadReads(status, p)) && Complete(FormatIo(status, p, tail))
  {
    ResponsiveAccepts(status, Writing, p, IMAGE_SECTORS);
    ResponsiveAccepts(status, Reading, p, HEADER_SECTORS);
    ResponsiveAccepts(status, Writing, RunEnd(status, Reading, p, HEADER_SECTORS), IMAGE_SECTORS);
    AllReadIff(status, p);
  }
}
