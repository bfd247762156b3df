// Two things that the file system does not keep, in runs from a mounted device:
// a descriptor that is closed while it is shared, and an unlink that fails.
module FsCases {
  import opened Bits
  import opened Disk
  import opened Constants
  import opened FsCounts
  import opened FsSpec
  import opened FsInvariant
  import opened FsSteps
  import opened FsRuns
  import opened FsEffects
  import opened InodeDisk
  import Extents

  // ------------------------------------------------- slots keep their inode

  predicate SameNums(s: Fs, s': Fs)
    requires Sized(s) && Sized(s')
  {
    s'.root == s.root && forall k :: 0 <= k < NR_INODES ==> s'.inodes[k].num == s.inodes[k].num
  }

  // The slots in use hold the inodes they held.
  predicate LiveNums(s: Fs, s': Fs)
    requires Sized(s) && Sized(s')
  {
    s'.root == s.root && forall k :: 0 <= k < NR_INODES && s.inodes[k].cnt != 0 ==> s'.inodes[k].num == s.inodes[k].num
  }

  lemma ThenSame(s: Fs, t: Fs, s': Fs)
    requires Sized(s) && Sized(t) && Sized(s') && LiveNums(s, t) && SameNums(t, s')
    ensures LiveNums(s, s')
  {
  }

  lemma FinishOpenNums(s: Fs, p: nat, k: nat, flags: set<OpenFlag>)
    requires Sized(s) && p < NR_ALL && CanOpen(s, p) && k < NR_INODES && IsInode(s.inodes[k].num)
    ensures
      var r := FinishOpen(s, p, k, flags);
      r.Ret? ==> Sized(r.fs) && SameNums(s, r.fs)
  {
  }

  lemma OpenFoundNums(s: Fs, p: nat, num: nat, flags: set<OpenFlag>)
    requires Sized(s) && p < NR_ALL && CanOpen(s, p) && IsInode(num) && SlotOf(s.inodes, num) < NR_INODES
    ensures
      var r := OpenFound(s, p, num, flags);
      r.Ret? ==> Sized(r.fs) && LiveNums(s, r.fs)
  {
    FinishOpenNums(GetInode(s, num), p, SlotOf(s.inodes, num), flags);
  }

  lemma CreateFileNums(s: Fs, k: nat, firstSect: nat)
    requires Sized(s) && RootCached(s) && MapsHaveRoom(s) && firstSect > 0
    requires k < NR_INODES && k != s.root && s.inodes[k].cnt == 0
    ensures LiveNums(s, CreateFile(s, k, firstSect))
  {
  }

  lemma OpenNewNums(s: Fs, extra: seq<nat>, firstSect: nat, p: nat, flags: set<OpenFlag>)
    requires Inv(s, extra, firstSect) && FreeExtent(s, firstSect) && RootCached(s) && MapsHaveRoom(s)
    requires p < NR_ALL && CanOpen(s, p) && SlotOf(s.inodes, FirstClear(s.maps.inodeMap)) < NR_INODES
    ensures
      var r := OpenNew(s, p, true, flags, firstSect);
      r.Ret? ==> Sized(r.fs) && LiveNums(s, r.fs)
  {
    var k := SlotOf(s.inodes, FirstClear(s.maps.inodeMap));
    RoomFacts(s, extra, firstSect);
    SlotOfNewInode(s, extra, firstSect, FirstClear(s.maps.inodeMap));
    CreateFileNums(s, k, firstSect);
    var t := CreateFile(s, k, firstSect);
    assert OpenNew(s, p, true, flags, firstSect) == FinishOpen(t, p, k, flags);
    FinishOpenNums(t, p, k, flags);
    var r := FinishOpen(t, p, k, flags);
    if r.Ret? { ThenSame(s, t, r.fs); }
  }

  lemma OpenNums(s: Fs, extra: seq<nat>, firstSect: nat, p: nat, path: Lookup, flags: set<OpenFlag>)
    requires Inv(s, extra, firstSect) && Legal(s, OpenCall(p, path, flags), firstSect)
    ensures
      var r := Open(s, p, path, flags, firstSect);
      r.Ret? ==> Sized(r.fs) && LiveNums(s, r.fs)
  {
    if MustHalt(s, p, path, flags) {
      OpenHalts(s, p, path, flags, firstSect);
    } else if path.Nowhere? && O_CREATE in flags {
      OpenNewNums(s, extra, firstSect, p, flags);
    } else if path.Found? && O_RW in flags && (O_CREATE in flags ==> O_TRUNC in flags) {
      OpenFoundNums(s, p, path.num, flags);
    }
  }

  lemma {:induction false} ReleaseNums(s: Fs, p: nat, from: nat)
    requires Sized(s) && p < NR_ALL && from <= NR_FILES
    ensures SameNums(s, ReleaseFrom(s, p, from))
    decreases NR_FILES - from
  {
    if from < NR_FILES { ReleaseNums(ReleaseEntry(s, p, from), p, from + 1); }
  }

  lemma {:induction false} ShareNums(s: Fs, parent: nat, child: nat, n: nat)
    requires Sized(s) && parent < NR_ALL && child < NR_ALL && n <= NR_FILES
    ensures SameNums(s, ShareUpTo(s, parent, child, n))
  {
    if n > 0 { ShareNums(s, parent, child, n - 1); }
  }

  lemma UnlinkNums(s: Fs, extra: seq<nat>, firstSect: nat, num: nat, newSize: Word, last: bool)
    requires Inv(s, extra, firstSect) && Exists(s.maps.files, num) && SlotOf(s.inodes, num) < NR_INODES
    ensures RootCached(s) && RegularIsFile(s, num)
    ensures
      var r := UnlinkFound(s, num, newSize, last);
      r.Ret? && Sized(r.fs) && LiveNums(s, r.fs)
  {
    if CanGo(s, num) {
      UnlinkKeepsSlots(s, extra, firstSect, num, newSize, last);
    } else {
      FailedUnlinkKeeps(s, extra, firstSect, num, newSize, last);
      GetKeepsSlots(s, num);
    }
  }

  lemma StatNums(s: Fs, path: Lookup)
    requires Sized(s) && (path.Found? ==> IsInode(path.num))
    ensures
      var r := Stat(s, path);
      r.Ret? ==> Sized(r.fs) && LiveNums(s, r.fs)
  {
  }

  lemma UnlinkCallNums(s: Fs, extra: seq<nat>, firstSect: nat, path: Lookup, newSize: Word, last: bool)
    requires Inv(s, extra, firstSect) && Legal(s, UnlinkCall(path, newSize, last), firstSect)
    ensures
      var r := Unlink(s, path, newSize, last);
      r.Ret? ==> Sized(r.fs) && LiveNums(s, r.fs)
  {
    if path.Found? && SlotOf(s.inodes, path.num) < NR_INODES {
      UnlinkNums(s, extra, firstSect, path.num, newSize, last);
    }
  }

  lemma PathCallNums(s: Fs, extra: seq<nat>, firstSect: nat, c: Call)
    requires Inv(s, extra, firstSect) && Legal(s, c, firstSect) && TakesPath(c)
    ensures
      var r := Perform(s, c, firstSect);
      r.Ret? ==> Sized(r.fs) && LiveNums(s, r.fs)
  {
    match c
    case OpenCall(p, path, flags) => OpenNums(s, extra, firstSect, p, path, flags);
    case StatCall(path) => StatNums(s, path);
    case UnlinkCall(path, newSize, last) => UnlinkCallNums(s, extra, firstSect, path, newSize, last);
  }

  lemma EntryCallNums(s: Fs, firstSect: nat, c: Call)
    requires 0 < firstSect <= INSTALL_FIRST_SECTOR && Legal(s, c, firstSect) && !TakesPath(c)
    ensures
      var r := Perform(s, c, firstSect);
      r.Ret? && Sized(r.fs) && LiveNums(s, r.fs)
  {
    match c
    case CloseCall(p, fd) =>
    case ForkCall(parent, child) => ShareNums(s, parent, child, NR_FILES);
    case ExitCall(p) => ReleaseNums(s, p, 0);
    case TransferCall(p, fd, bytes) =>
  }

  // ---------------------------------------------- a reference nobody gives back

  // Slot k holds inode num, with a reference that no open file accounts for.
  predicate Stranded(st: State, k: nat, num: nat) {
    && Sized(st.fs) && |st.extra| == NR_INODES && Spare(st.fs, st.extra, k) && st.fs.inodes[k].num == num
  }

  lemma NextKeeps(st: State, c: Call, firstSect: nat)
    requires Inv(st.fs, st.extra, firstSect)
    ensures Inv(Next(st, c, firstSect).fs, Next(st, c, firstSect).extra, firstSect)
  {
    if Legal(st.fs, c, firstSect) {
      PerformKeeps(st.fs, st.extra, firstSect, c);
      NextIs(st, c, firstSect);
    }
  }

  lemma NextIs(st: State, c: Call, firstSect: nat)
    requires 0 < firstSect <= INSTALL_FIRST_SECTOR && |st.extra| == NR_INODES && Legal(st.fs, c, firstSect)
    ensures
      var r := Perform(st.fs, c, firstSect);
      Next(st, c, firstSect) == if r.Ret? then State(r.fs, Left(State(st.fs, st.extra), c, r)) else st
  {
  }

  lemma PerformNums(s: Fs, extra: seq<nat>, firstSect: nat, c: Call)
    requires Inv(s, extra, firstSect) && Legal(s, c, firstSect)
    ensures
      var r := Perform(s, c, firstSect);
      r.Ret? ==> Sized(r.fs) && LiveNums(s, r.fs)
  {
    if TakesPath(c) {
      PathCallNums(s, extra, firstSect, c);
    } else {
      EntryCallNums(s, firstSect, c);
    }
  }

  lemma NextNums(st: State, c: Call, firstSect: nat)
    requires Inv(st.fs, st.extra, firstSect)
    ensures
      var st' := Next(st, c, firstSect);
      Sized(st'.fs) && LiveNums(st.fs, st'.fs)
  {
    if Legal(st.fs, c, firstSect) { PerformNums(st.fs, st.extra, firstSect, c); }
  }

  lemma LeftGrows(st: State, c: Call, r: Outcome, k: nat)
    requires Sized(st.fs) && |st.extra| == NR_INODES && k < NR_INODES
    ensures |Left(st, c, r)| == NR_INODES && Left(st, c, r)[k] >= st.extra[k]
  {
  }

  lemma NextExtra(st: State, c: Call, firstSect: nat, k: nat)
    requires 0 < firstSect <= INSTALL_FIRST_SECTOR && Sized(st.fs) && |st.extra| == NR_INODES && k < NR_INODES
    ensures |Next(st, c, firstSect).extra| == NR_INODES && Next(st, c, firstSect).extra[k] >= st.extra[k]
  {
    if Legal(st.fs, c, firstSect) { LeftGrows(st, c, Perform(st.fs, c, firstSect), k); }
  }

  lemma StillStranded(st: State, st': State, k: nat, num: nat)
    requires Stranded(st, k, num) && st.fs.inodes[k].cnt != 0
    requires Sized(st'.fs) && LiveNums(st.fs, st'.fs) && |st'.extra| == NR_INODES && st'.extra[k] >= st.extra[k]
    ensures Stranded(st', k, num)
  {
  }

  lemma NextStranded(st: State, c: Call, firstSect: nat, k: nat, num: nat)
    requires Inv(st.fs, st.extra, firstSect) && Stranded(st, k, num)
    ensures
      var st' := Next(st, c, firstSect);
      Inv(st'.fs, st'.extra, firstSect) && Stranded(st', k, num)
  {
    NextKeeps(st, c, firstSect);
    NextNums(st, c, firstSect);
    NextExtra(st, c, firstSect, k);
    SlotFacts(st.fs, st.extra, k);
    StillStranded(st, Next(st, c, firstSect), k, num);
  }

  lemma {:induction false} RunStranded(st: State, calls: seq<Call>, firstSect: nat, k: nat, num: nat)
    requires Inv(st.fs, st.extra, firstSect) && Stranded(st, k, num)
    ensures
      var st' := Run(st, calls, firstSect);
      Inv(st'.fs, st'.extra, firstSect) && Stranded(st', k, num)
    decreases |calls|
  {
    if calls != [] {
      var front := calls[..|calls| - 1];
      RunStranded(st, front, firstSect, k, num);
      NextStranded(Run(st, front, firstSect), calls[|calls| - 1], firstSect, k, num);
    }
  }

  // No unlink of the file succeeds.
  ghost predicate NeverGoes(s: Fs, num: nat) {
    && Sized(s) && RootCached(s) && IsInode(num) && RegularIsFile(s, num) && InUse(s, num)
    && forall newSize, last ::
         Unlink(s, Found(num), newSize, last).Ret? && Unlink(s, Found(num), newSize, last).value == -1
  }

  lemma StrandedNeverGoes(st: State, firstSect: nat, k: nat, num: nat)
    requires Inv(st.fs, st.extra, firstSect) && Stranded(st, k, num)
    ensures NeverGoes(st.fs, num)
  {
    var s := st.fs;
    SlotFacts(s, st.extra, k);
    assert Holds(s.inodes[k], num) && Exists(s.maps.files, num);
    RegularFilesOnly(s, st.extra, firstSect, num);
    forall newSize, last
      ensures Unlink(s, Found(num), newSize, last).Ret? && Unlink(s, Found(num), newSize, last).value == -1
    {
      FailedUnlinkKeeps(s, st.extra, firstSect, num, newSize, last);
    }
  }

  lemma NextUnlink(st: State, firstSect: nat, num: nat, newSize: Word, last: bool)
    requires 0 < firstSect <= INSTALL_FIRST_SECTOR && Sized(st.fs) && |st.extra| == NR_INODES && RootCached(st.fs)
    requires Exists(st.fs.maps.files, num) && RegularIsFile(st.fs, num) && SlotOf(st.fs.inodes, num) < NR_INODES
    requires UnlinkFound(st.fs, num, newSize, last) == Ret(GetInode(st.fs, num), -1)
    ensures Next(st, UnlinkCall(Found(num), newSize, last), firstSect)
         == State(GetInode(st.fs, num), Plus(st.extra, SlotOf(st.fs.inodes, num)))
  {
  }

  // The unlink of a file that somebody has open.
  lemma FailedUnlinkStrands(st: State, firstSect: nat, num: nat, newSize: Word, last: bool)
    requires Inv(st.fs, st.extra, firstSect) && Exists(st.fs.maps.files, num) && InUse(st.fs, num)
    ensures
      var st1 := Next(st, UnlinkCall(Found(num), newSize, last), firstSect);
      && st1.fs.filp == st.fs.filp && Inv(st1.fs, st1.extra, firstSect)
      && Stranded(st1, SlotOf(st.fs.inodes, num), num)
  {
    var s := st.fs;
    FailedUnlinkKeeps(s, st.extra, firstSect, num, newSize, last);
    NextUnlink(st, firstSect, num, newSize, last);
    GetKeeps(s, st.extra, firstSect, num);
  }

  // Once an unlink has failed because somebody had the file open, every later
  // unlink of it fails, whatever is called in between: also when all have
  // closed it.
  lemma FailedUnlinkIsForGood(st: State, firstSect: nat, num: nat, newSize: Word, last: bool, calls: seq<Call>)
    requires Inv(st.fs, st.extra, firstSect) && Exists(st.fs.maps.files, num) && InUse(st.fs, num)
    ensures
      var st1 := Next(st, UnlinkCall(Found(num), newSize, last), firstSect);
      NeverGoes(Run(st1, calls, firstSect).fs, num)
  {
    var k, st1 := SlotOf(st.fs.inodes, num), Next(st, UnlinkCall(Found(num), newSize, last), firstSect);
    FailedUnlinkStrands(st, firstSect, num, newSize, last);
    RunStranded(st1, calls, firstSect, k, num);
    StrandedNeverGoes(Run(st1, calls, firstSect), firstSect, k, num);
  }

  // -------------------------------------------------- closing after a fork

  // After a fork, whoever closes one of the files they share leaves the entry
  // of the other one pointing at a free descriptor, and no counts are right.
  lemma CloseAfterFork(s: Fs, extra: seq<nat>, firstSect: nat, parent: nat, child: nat, fd: nat)
    requires Core(s, extra, firstSect) && IsOpen(s, parent, fd) && child < NR_ALL && parent != child
    requires Bare(s.filp[child])
    ensures
      var s' := ShareUpTo(s, parent, child, NR_FILES);
      && IsOpen(s', parent, fd) && IsOpen(s', child, fd) && s'.filp[child][fd] == s'.filp[parent][fd]
      && (forall more :: !Counted(Close(s', parent, fd), more))
      && (forall more :: !Counted(Close(s', child, fd), more))
  {
    var s' := ShareUpTo(s, parent, child, NR_FILES);
    ForkKeeps(s, extra, firstSect, parent, child, NR_FILES);
    assert s'.filp[child] == s.filp[parent] && s'.filp[parent] == s.filp[parent];
    EntryIsOpen(s', extra, parent, fd);
    EntryIsOpen(s', extra, child, fd);
    Dangles(s', parent, fd, child);
    Dangles(s', child, fd, parent);
  }

  lemma Dangles(s: Fs, p: nat, fd: nat, q: nat)
    requires Sized(s) && IsOpen(s, p, fd) && q < NR_ALL && q != p && s.filp[q][fd] == s.filp[p][fd]
    ensures forall more :: !Counted(Close(s, p, fd), more)
  {
    var s' := Close(s, p, fd);
    assert s'.filp[q][fd] == s.filp[p][fd] && !IsLive(s'.desc, s'.filp[q][fd]);
  }

  // ----------------------------------------------------- runs from the mount

  predicate OnDevice(recs: seq<Record>, maps: Extents.Maps, firstSect: nat, num: nat) {
    && |recs| == NR_DISK_INODES && 0 < firstSect <= INSTALL_FIRST_SECTOR
    && Extents.Inv(maps, TarBit(firstSect)) && num in maps.files && IsInode(num)
  }

  function Start(recs: seq<Record>, maps: Extents.Maps): State
    requires |recs| == NR_DISK_INODES
  {
    State(Mounted(recs, maps), OnlyRoot())
  }

  lemma FileIsNoTerminal(maps: Extents.Maps, tarBit: nat, num: nat)
    requires Extents.Inv(maps, tarBit) && num in maps.files
    ensures num !in {2, 3, 4}
  {
  }

  lemma RoomForOne(inodes: seq<Inode>, num: nat, j: nat)
    requires j < |inodes| && inodes[j].cnt == 0
    ensures SlotOf(inodes, num) < |inodes|
  {
    assert IsFreeInode(inodes[j]);
  }

  lemma MountedCanOpen(recs: seq<Record>, maps: Extents.Maps, p: nat, num: nat)
    requires |recs| == NR_DISK_INODES && p < NR_ALL && SlotOf(Empty(recs, maps).inodes, ROOT) == 0
    ensures
      var s := Mounted(recs, maps);
      NoneOpen(s) && CanOpen(s, p) && SlotOf(s.inodes, num) < NR_INODES && s.maps == maps
  {
    var s := Mounted(recs, maps);
    assert IsNil(s.filp[p][0]) && IsFreeDesc(s.desc[0]);
    RoomForOne(s.inodes, num, 1);
  }

  // Process p has one file open, num, in its entry 0, and nobody has another.
  predicate OneOpen(s: Fs, p: nat, num: nat) {
    && Sized(s) && IsOpen(s, p, 0) && NumOfFile(s, p, 0) == num
    && forall q, j :: 0 <= q < NR_ALL && 0 <= j < NR_FILES && (q != p || j != 0) ==> s.filp[q][j] == NIL
  }

  predicate NoneOpen(s: Fs) {
    Sized(s) && forall q, i :: 0 <= q < NR_ALL && 0 <= i < NR_FILES ==> s.filp[q][i] == NIL
  }

  lemma OpenTheFirst(s: Fs, extra: seq<nat>, firstSect: nat, p: nat, num: nat)
    requires Inv(s, extra, firstSect) && NoneOpen(s) && p < NR_ALL && CanOpen(s, p)
    requires Exists(s.maps.files, num) && SlotOf(s.inodes, num) < NR_INODES
    ensures RootCached(s)
    ensures
      var r := Open(s, p, Found(num), {O_RW}, firstSect);
      r.Ret? && Inv(r.fs, extra, firstSect) && OneOpen(r.fs, p, num)
  {
    OpenGives(s, extra, firstSect, p, Found(num), {O_RW});
    OpenKeeps(s, extra, firstSect, p, Found(num), {O_RW});
    var r := Open(s, p, Found(num), {O_RW}, firstSect);
    OnlyOneOpen(s, r.fs, p, r.value, num);
  }

  lemma OnlyOneOpen(s: Fs, s': Fs, p: nat, fd: nat, num: nat)
    requires NoneOpen(s) && Sized(s') && p < NR_ALL && IsInode(num) && fd < NR_FILES
    requires FreshlyOpened(s, s', p, fd, num, {O_RW})
    ensures OneOpen(s', p, num)
  {
    assert s.filp[p][0] == NIL;
    assert fd == 0;
  }

  lemma NextOpen(st: State, firstSect: nat, p: nat, num: nat)
    requires 0 < firstSect <= INSTALL_FIRST_SECTOR && Sized(st.fs) && |st.extra| == NR_INODES && RootCached(st.fs)
    requires p < NR_ALL && Exists(st.fs.maps.files, num) && RegularIsFile(st.fs, num)
    requires Open(st.fs, p, Found(num), {O_RW}, firstSect).Ret?
    ensures Next(st, OpenCall(p, Found(num), {O_RW}), firstSect)
         == State(Open(st.fs, p, Found(num), {O_RW}, firstSect).fs, st.extra)
  {
  }

  lemma RunOfOne(st: State, c: Call, firstSect: nat)
    requires 0 < firstSect <= INSTALL_FIRST_SECTOR
    ensures Run(st, [c], firstSect) == Next(st, c, firstSect)
  {
    assert [c][..0] == [];
  }

  // The first open of a process, on a file of the device.
  lemma FirstOpen(recs: seq<Record>, maps: Extents.Maps, firstSect: nat, p: nat, num: nat)
    requires OnDevice(recs, maps, firstSect, num) && RecordsOk(recs, maps.files, firstSect) && p < NR_ALL
    ensures
      var st := Run(Start(recs, maps), [OpenCall(p, Found(num), {O_RW})], firstSect);
      Inv(st.fs, st.extra, firstSect) && OneOpen(st.fs, p, num)
  {
    var st := Start(recs, maps);
    MountKeeps(recs, maps, firstSect);
    MountedCanOpen(recs, maps, p, num);
    RegularFilesOnly(st.fs, st.extra, firstSect, num);
    OpenTheFirst(st.fs, st.extra, firstSect, p, num);
    NextOpen(st, firstSect, p, num);
    RunOfOne(st, OpenCall(p, Found(num), {O_RW}), firstSect);
  }

  lemma RunMore(st: State, calls: seq<Call>, c: Call, firstSect: nat)
    requires 0 < firstSect <= INSTALL_FIRST_SECTOR
    ensures Run(st, calls + [c], firstSect) == Next(Run(st, calls, firstSect), c, firstSect)
  {
    assert (calls + [c])[..|calls|] == calls;
  }

  // Open, fork: from here no close of the file by either of the two keeps the
  // counts.
  lemma OpenForkClose(recs: seq<Record>, maps: Extents.Maps, firstSect: nat, p: nat, child: nat, num: nat)
    requires OnDevice(recs, maps, firstSect, num) && RecordsOk(recs, maps.files, firstSect)
    requires p < NR_ALL && child < NR_ALL && p != child
    ensures
      var calls := [OpenCall(p, Found(num), {O_RW})] + [ForkCall(p, child)];
      var s := Run(Start(recs, maps), calls, firstSect).fs;
      && Sized(s) && IsOpen(s, p, 0) && IsOpen(s, child, 0)
      && (forall more :: !Counted(Close(s, p, 0), more)) && (forall more :: !Counted(Close(s, child, 0), more))
  {
    var open := [OpenCall(p, Found(num), {O_RW})];
    FirstOpen(recs, maps, firstSect, p, num);
    RunMore(Start(recs, maps), open, ForkCall(p, child), firstSect);
    var st := Run(Start(recs, maps), open, firstSect);
    SlotFacts(st.fs, st.extra, 0);
    NextFork(st, firstSect, p, child);
    CloseAfterFork(st.fs, st.extra, firstSect, p, child, 0);
  }

  lemma NextFork(st: State, firstSect: nat, p: nat, child: nat)
    requires 0 < firstSect <= INSTALL_FIRST_SECTOR && Sized(st.fs) && |st.extra| == NR_INODES && RootCached(st.fs)
    requires p < NR_ALL && child < NR_ALL && p != child && Bare(st.fs.filp[child])
    ensures Next(st, ForkCall(p, child), firstSect) == State(ShareUpTo(st.fs, p, child, NR_FILES), st.extra)
  {
  }

  // Open, unlink, exit: no process has a file open any more, and still the file
  // can never be unlinked.
  lemma OpenUnlinkExit(recs: seq<Record>, maps: Extents.Maps, firstSect: nat, p: nat, num: nat,
                       newSize: Word, last: bool)
    requires OnDevice(recs, maps, firstSect, num) && RecordsOk(recs, maps.files, firstSect) && p < NR_ALL
    ensures
      var calls := [OpenCall(p, Found(num), {O_RW})] + [UnlinkCall(Found(num), newSize, last)] + [ExitCall(p)];
      var s := Run(Start(recs, maps), calls, firstSect).fs;
      NeverGoes(s, num) && NoneOpen(s)
  {
    var open, unlink := [OpenCall(p, Found(num), {O_RW})], UnlinkCall(Found(num), newSize, last);
    FileIsNoTerminal(maps, TarBit(firstSect), num);
    FirstOpen(recs, maps, firstSect, p, num);
    RunMore(Start(recs, maps), open, unlink, firstSect);
    RunMore(Start(recs, maps), open + [unlink], ExitCall(p), firstSect);
    UnlinkThenExit(Run(Start(recs, maps), open, firstSect), firstSect, p, num, newSize, last);
  }

  lemma UnlinkThenExit(st: State, firstSect: nat, p: nat, num: nat, newSize: Word, last: bool)
    requires Inv(st.fs, st.extra, firstSect) && OneOpen(st.fs, p, num) && num !in {2, 3, 4}
    ensures
      var st1 := Next(st, UnlinkCall(Found(num), newSize, last), firstSect);
      var s := Next(st1, ExitCall(p), firstSect).fs;
      NeverGoes(s, num) && NoneOpen(s)
  {
    var k, st1 := SlotOf(st.fs.inodes, num), Next(st, UnlinkCall(Found(num), newSize, last), firstSect);
    OpenFileFacts(st.fs, st.extra, firstSect, p, 0);
    assert Exists(st.fs.maps.files, num);
    FailedUnlinkStrands(st, firstSect, num, newSize, last);
    NextStranded(st1, ExitCall(p), firstSect, k, num);
    StrandedNeverGoes(Next(st1, ExitCall(p), firstSect), firstSect, k, num);
    LastExits(st1, firstSect, p);
  }

  lemma NextExit(st: State, firstSect: nat, p: nat)
    requires 0 < firstSect <= INSTALL_FIRST_SECTOR && Sized(st.fs) && |st.extra| == NR_INODES && RootCached(st.fs)
    requires p < NR_ALL
    ensures Next(st, ExitCall(p), firstSect) == State(ReleaseFrom(st.fs, p, 0), st.extra)
  {
  }

  lemma LastExits(st: State, firstSect: nat, p: nat)
    requires Inv(st.fs, st.extra, firstSect) && p < NR_ALL
    requires forall q, j :: 0 <= q < NR_ALL && 0 <= j < NR_FILES && q != p ==> st.fs.filp[q][j] == NIL
    ensures NoneOpen(Next(st, ExitCall(p), firstSect).fs)
  {
    SlotFacts(st.fs, st.extra, 0);
    NextExit(st, firstSect, p);
    ExitKeeps(st.fs, st.extra, firstSect, p, 0);
    AllClosed(st.fs, ReleaseFrom(st.fs, p, 0), p);
  }

  lemma AllClosed(s: Fs, s': Fs, p: nat)
    requires Sized(s) && Sized(s') && p < NR_ALL && s'.filp == s.filp[p := Emptied(s.filp[p], 0)]
    requires forall q, j :: 0 <= q < NR_ALL && 0 <= j < NR_FILES && q != p ==> s.filp[q][j] == NIL
    ensures NoneOpen(s')
  {
  }
}
