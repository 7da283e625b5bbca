// A file table seen as 32 slots, and the map from names to texts it stands for.
module SlotMap {
  import opened CLib

  datatype Slot = Empty | File(name: seq<byte>, text: seq<byte>)

  type Files = map<seq<byte>, seq<byte>>

  /** The first file called `name` at or after slot `i`, or -1. */
  function FindFrom(ss: seq<Slot>, name: seq<byte>, i: nat): (r: int)
    requires i <= |ss|
    ensures r == -1 || i <= r < |ss|
    ensures r >= 0 ==> ss[r].File? && ss[r].name == name
    ensures forall j :: i <= j < (if r == -1 then |ss| else r) ==> !(ss[j].File? && ss[j].name == name)
    decreases |ss| - i
  {
    if i == |ss| then -1
    else if ss[i].File? && ss[i].name == name then i
    else FindFrom(ss, name, i + 1)
  }

  function Find(ss: seq<Slot>, name: seq<byte>): int { FindFrom(ss, name, 0) }

  /** The first empty slot at or after `i`, or -1. */
  function FreeFrom(ss: seq<Slot>, i: nat): (r: int)
    requires i <= |ss|
    ensures r == -1 || i <= r < |ss|
    ensures r >= 0 ==> ss[r].Empty?
    ensures forall j :: i <= j < (if r == -1 then |ss| else r) ==> ss[j].File?
    decreases |ss| - i
  {
    if i == |ss| then -1 else if ss[i].Empty? then i else FreeFrom(ss, i + 1)
  }

  function Free(ss: seq<Slot>): int { FreeFrom(ss, 0) }

  /** `Find` and `Free` are the only indices with their defining property. */
  lemma FindIs(ss: seq<Slot>, name: seq<byte>, r: int)
    requires r == -1 || (0 <= r < |ss| && ss[r].File? && ss[r].name == name)
    requires forall j :: 0 <= j < (if r == -1 then |ss| else r) ==> !(ss[j].File? && ss[j].name == name)
    ensures Find(ss, name) == r
  {}

  lemma FreeIs(ss: seq<Slot>, r: int)
    requires r == -1 || (0 <= r < |ss| && ss[r].Empty?)
    requires forall j :: 0 <= j < (if r == -1 then |ss| else r) ==> ss[j].File?
    ensures Free(ss) == r
  {}

  function Weight(s: Slot): nat { if s.File? then 1 else 0 }

  function UsedCount(ss: seq<Slot>): (n: nat)
    ensures n <= |ss|
  {
    if ss == [] then 0 else UsedCount(ss[..|ss| - 1]) + Weight(ss[|ss| - 1])
  }

  function Names(ss: seq<Slot>): set<seq<byte>> {
    set i | 0 <= i < |ss| && ss[i].File? :: ss[i].name
  }

  /** What a lookup of each name yields. */
  function FilesOf(ss: seq<Slot>): (m: Files)
    ensures m.Keys == Names(ss)
    ensures forall n :: n in m ==> Find(ss, n) >= 0 && m[n] == ss[Find(ss, n)].text
  {
    map n | n in Names(ss) :: ss[Find(ss, n)].text
  }

  ghost predicate Distinct(ss: seq<Slot>) {
    forall i, j :: 0 <= i < j < |ss| && ss[i].File? && ss[j].File? ==> ss[i].name != ss[j].name
  }

  lemma {:induction false} UsedCountUpdate(ss: seq<Slot>, i: nat, s: Slot)
    requires i < |ss|
    ensures UsedCount(ss[i := s]) == UsedCount(ss) - Weight(ss[i]) + Weight(s)
  {
    var n := |ss| - 1;
    if i == n {
      assert ss[i := s][..n] == ss[..n];
    } else {
      assert ss[i := s][..n] == ss[..n][i := s];
      UsedCountUpdate(ss[..n], i, s);
    }
  }

  /** No slot is free exactly when every slot counts. */
  lemma {:induction false} FullIffNoneFree(ss: seq<Slot>)
    ensures UsedCount(ss) == |ss| <==> Free(ss) == -1
  {
    if ss != [] {
      var n := |ss| - 1;
      FullIffNoneFree(ss[..n]);
      assert forall i :: 0 <= i < n ==> ss[..n][i] == ss[i];
    }
  }

  lemma {:induction false} NoneUsed(ss: seq<Slot>)
    requires forall i :: 0 <= i < |ss| ==> ss[i].Empty?
    ensures UsedCount(ss) == 0
  {
    if ss != [] {
      NoneUsed(ss[..|ss| - 1]);
    }
  }

  /** With distinct names there are as many files as used slots. */
  lemma {:induction false} NamesCount(ss: seq<Slot>)
    requires Distinct(ss)
    ensures |Names(ss)| == UsedCount(ss)
  {
    if ss == [] {
      assert Names(ss) == {};
    } else {
      var front := ss[..|ss| - 1];
      assert forall i :: 0 <= i < |front| ==> front[i] == ss[i];
      NamesCount(front);
      NamesSplit(ss, front);
    }
  }

  lemma NamesSplit(ss: seq<Slot>, front: seq<Slot>)
    requires ss != [] && front == ss[..|ss| - 1] && Distinct(ss)
    ensures var s := ss[|ss| - 1];
      if s.File? then s.name !in Names(front) && Names(ss) == Names(front) + {s.name} else Names(ss) == Names(front)
  {
    var s := ss[|ss| - 1];
    assert forall i :: 0 <= i < |front| ==> front[i] == ss[i];
    forall x | x in Names(front) ensures x in Names(ss) && (s.File? ==> x != s.name) {
      var i :| 0 <= i < |front| && front[i].File? && front[i].name == x;
      assert ss[i].File? && ss[i].name == x;
    }
    forall x | x in Names(ss) && !(s.File? && x == s.name) ensures x in Names(front) {
      var i :| 0 <= i < |ss| && ss[i].File? && ss[i].name == x;
      assert front[i].File? && front[i].name == x;
    }
  }

  /** A name is present exactly when a lookup finds it. */
  lemma InFilesIffFound(ss: seq<Slot>, name: seq<byte>)
    ensures name in FilesOf(ss) <==> Find(ss, name) >= 0
  {}

  /** With distinct names the file in slot `i` is the one a lookup finds. */
  lemma FindsIt(ss: seq<Slot>, i: nat)
    requires Distinct(ss) && i < |ss| && ss[i].File?
    ensures Find(ss, ss[i].name) == i
    ensures ss[i].name in FilesOf(ss) && FilesOf(ss)[ss[i].name] == ss[i].text
  {
    InFilesIffFound(ss, ss[i].name);
  }

  /** A map that agrees with every used slot and has no other name is FilesOf. */
  lemma SameFiles(ss: seq<Slot>, m: Files)
    requires Distinct(ss)
    requires forall i :: 0 <= i < |ss| && ss[i].File? ==> ss[i].name in m && m[ss[i].name] == ss[i].text
    requires m.Keys <= Names(ss)
    ensures FilesOf(ss) == m
  {
    forall n | n in Names(ss) ensures n in m && FilesOf(ss)[n] == m[n] {
      InFilesIffFound(ss, n);
    }
  }

  /** Filling a free slot under a new name adds that key. */
  lemma FillSlot(ss: seq<Slot>, i: nat, name: seq<byte>, text: seq<byte>)
    requires Distinct(ss) && i < |ss| && ss[i].Empty? && name !in Names(ss)
    ensures Distinct(ss[i := File(name, text)])
    ensures FilesOf(ss[i := File(name, text)]) == FilesOf(ss)[name := text]
  {
    var ss' := ss[i := File(name, text)];
    var m := FilesOf(ss)[name := text];
    forall j | 0 <= j < |ss'| && ss'[j].File? ensures ss'[j].name in m && m[ss'[j].name] == ss'[j].text {
      if j != i { FindsIt(ss, j); }
    }
    forall n | n in m ensures n in Names(ss') {
      if n == name {
        assert ss'[i].name == n;
      } else {
        assert ss'[Find(ss, n)].name == n;
      }
    }
    SameFiles(ss', m);
  }

  /** Emptying a slot removes its key. */
  lemma EmptySlot(ss: seq<Slot>, i: nat)
    requires Distinct(ss) && i < |ss| && ss[i].File?
    ensures Distinct(ss[i := Empty])
    ensures FilesOf(ss[i := Empty]) == FilesOf(ss) - {ss[i].name}
  {
    var ss' := ss[i := Empty];
    var m := FilesOf(ss) - {ss[i].name};
    forall j | 0 <= j < |ss'| && ss'[j].File? ensures ss'[j].name in m && m[ss'[j].name] == ss'[j].text {
      FindsIt(ss, j);
    }
    forall n | n in m ensures n in Names(ss') {
      assert ss'[Find(ss, n)].name == n;
    }
    SameFiles(ss', m);
  }
}
