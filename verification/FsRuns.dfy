// Unlink, and what holds after any sequence of calls of the file system.
module FsRuns {
  import opened Bits
  import opened Disk
  import opened Constants
  import opened FsCounts
  import opened FsSpec
  import opened FsInvariant
  import opened FsSteps
  import opened InodeDisk
  import Extents

  // ----------------------------------------------------------------- unlink

  predicate InUse(s: Fs, num: nat)
    requires Sized(s)
  {
    exists k :: 0 <= k < NR_INODES && Holds(s.inodes[k], num)
  }

  lemma RegularFilesOnly(s: Fs, extra: seq<nat>, firstSect: nat, num: nat)
    requires Core(s, extra, firstSect) && Exists(s.maps.files, num)
    ensures RootCached(s) && RegularIsFile(s, num)
  {
    SlotFacts(s, extra, s.root);
    assert RecordOk(s.recs[num - 1], num, s.maps.files, firstSect);
    forall k | 0 <= k < NR_INODES && Holds(s.inodes[k], num) ensures s.inodes[k].rec == s.recs[num - 1] {}
  }

  // An unlink that fails leaves a reference behind.
  lemma FailedUnlinkKeeps(s: Fs, extra: seq<nat>, firstSect: nat, num: nat, newSize: Word, last: bool)
    requires Core(s, extra, firstSect) && Exists(s.maps.files, num) && SlotOf(s.inodes, num) < NR_INODES
    requires InUse(s, num) || num !in s.maps.files || num == ROOT
    ensures RootCached(s) && RegularIsFile(s, num)
    ensures UnlinkFound(s, num, newSize, last) == Ret(GetInode(s, num), -1)
    ensures Core(GetInode(s, num), Plus(extra, SlotOf(s.inodes, num)), firstSect)
  {
    var k := SlotOf(s.inodes, num);
    SlotFacts(s, extra, k);
    RegularFilesOnly(s, extra, firstSect, num);
    GetKeeps(s, extra, firstSect, num);
    var x := GetInode(s, num).inodes[k];
    if InUse(s, num) {
      assert x.cnt > 1;
    } else {
      assert x.rec == s.recs[num - 1] && RecordOk(s.recs[num - 1], num, s.maps.files, firstSect);
    }
  }

  predicate CanGo(s: Fs, num: nat)
    requires Sized(s)
  {
    num in s.maps.files && IsInode(num) && num != ROOT && !InUse(s, num) && SlotOf(s.inodes, num) < NR_INODES
  }

  // The file system without file num, the slot of the cache free again.
  function Without(s: Fs, num: nat): Fs
    requires Sized(s) && CanGo(s, num)
  {
    Erase(GetInode(s, num), SlotOf(s.inodes, num))
  }

  lemma WithoutKeeps(s: Fs, extra: seq<nat>, firstSect: nat, num: nat)
    requires Inv(s, extra, firstSect) && CanGo(s, num)
    ensures Inv(Without(s, num), extra, firstSect)
  {
    var k := SlotOf(s.inodes, num);
    SlotFacts(s, extra, k);
    GetKeeps(s, extra, firstSect, num);
    EraseKeeps(GetInode(s, num), Plus(extra, k), firstSect, k);
    PlusMinus(extra, k);
  }

  lemma UnlinkIsWithout(s: Fs, extra: seq<nat>, firstSect: nat, num: nat, newSize: Word, last: bool)
    requires Core(s, extra, firstSect) && CanGo(s, num)
    ensures RootCached(s) && RegularIsFile(s, num) && RootCached(Without(s, num))
    ensures
      var w := Without(s, num);
      UnlinkFound(s, num, newSize, last) == Ret(if last then SetSize(w, w.root, newSize) else w, 0)
  {
    SlotFacts(s, extra, SlotOf(s.inodes, num));
    assert Exists(s.maps.files, num);
    RegularFilesOnly(s, extra, firstSect, num);
    assert RecordOk(s.recs[num - 1], num, s.maps.files, firstSect);
  }

  // A regular file that nobody uses goes.
  lemma UnlinkKeeps(s: Fs, extra: seq<nat>, firstSect: nat, num: nat, newSize: Word, last: bool)
    requires Inv(s, extra, firstSect) && CanGo(s, num)
    ensures RootCached(s) && RegularIsFile(s, num)
    ensures
      var r := UnlinkFound(s, num, newSize, last);
      && r.Ret? && r.value == 0 && Inv(r.fs, extra, firstSect)
      && r.fs.maps == Extents.Unlink(s.maps, num) && r.fs.filp == s.filp && r.fs.desc == s.desc
  {
    WithoutKeeps(s, extra, firstSect, num);
    UnlinkIsWithout(s, extra, firstSect, num, newSize, last);
    var w := Without(s, num);
    if last { SetSizeKeeps(w, extra, firstSect, w.root, newSize); }
  }

  // ------------------------------------------------------- files that are open

  // An open file is marked in the inode map, all its sectors are marked in the
  // sector map, and its record on the device says where they are.
  ghost predicate Intact(s: Fs, num: nat, firstSect: nat) {
    && num in s.maps.files && IsInode(num) && num < |s.maps.inodeMap| && s.maps.inodeMap[num]
    && s.maps.files[num] + NR_DEFAULT_FILE_SECTS <= |s.maps.sectorMap|
    && (forall g :: s.maps.files[num] <= g < s.maps.files[num] + NR_DEFAULT_FILE_SECTS ==> s.maps.sectorMap[g])
    && |s.recs| == NR_DISK_INODES && RecordOk(s.recs[num - 1], num, s.maps.files, firstSect)
  }

  function NumOfFile(s: Fs, p: nat, fd: nat): nat
    requires Sized(s) && IsOpen(s, p, fd)
  {
    s.inodes[SlotOfFile(s, p, fd)].num
  }

  lemma FilesAreIntact(s: Fs, extra: seq<nat>, firstSect: nat, num: nat)
    requires Inv(s, extra, firstSect) && num in s.maps.files
    ensures Intact(s, num, firstSect)
  {
    var tarBit, f := TarBit(firstSect), s.maps.files[num];
    assert Exists(s.maps.files, num);
    if Extents.InSlot(f, tarBit) {
      var m := f / 2048;
      assert f == Extents.SlotBit(m);
      assert Extents.Owned(s.maps, m) && Extents.SlotWhole(s.maps.sectorMap, m);
    } else {
      assert num == Extents.TAR_INODE && Extents.TarLives(s.maps, tarBit);
    }
  }

  // What an entry of an open-file table leads to is in use, and is a terminal
  // or a file that is intact.
  lemma OpenFileFacts(s: Fs, extra: seq<nat>, firstSect: nat, p: nat, fd: nat)
    requires Inv(s, extra, firstSect) && IsOpen(s, p, fd)
    ensures InUse(s, NumOfFile(s, p, fd))
    ensures NumOfFile(s, p, fd) in {2, 3, 4} || Intact(s, NumOfFile(s, p, fd), firstSect)
  {
    var k := SlotOfFile(s, p, fd);
    CountsFacts(s.filp, s.desc, Cnts(s.inodes), extra, s.filp[p][fd]);
    assert Holds(s.inodes[k], s.inodes[k].num);
    assert Exists(s.maps.files, s.inodes[k].num);
    if s.inodes[k].num in s.maps.files { FilesAreIntact(s, extra, firstSect, s.inodes[k].num); }
  }

  // The record of an open file lies in the inode array, and its extent in the
  // data area, up to the end of that of cmd.tar.
  lemma OpenFilesArePlaced(s: Fs, extra: seq<nat>, firstSect: nat, p: nat, fd: nat)
    requires Inv(s, extra, firstSect) && IsOpen(s, p, fd) && NumOfFile(s, p, fd) !in {2, 3, 4}
    ensures
      var x := s.inodes[SlotOfFile(s, p, fd)];
      && IsInode(x.num) && x.rec == s.recs[x.num - 1] && x.rec.mode != I_CHAR_SPECIAL
      && firstSect <= Value(x.rec.start) <= INSTALL_FIRST_SECTOR && x.rec.nrSects == FILE_SECTS
  {
    var k := SlotOfFile(s, p, fd);
    OpenFileFacts(s, extra, firstSect, p, fd);
    CountsFacts(s.filp, s.desc, Cnts(s.inodes), extra, s.filp[p][fd]);
    assert s.inodes[k].cnt > 0;
  }

  // Open files with different inodes share no sector.
  lemma OpenFilesAreApart(s: Fs, extra: seq<nat>, firstSect: nat, p: nat, fd: nat, q: nat, gd: nat)
    requires Inv(s, extra, firstSect) && IsOpen(s, p, fd) && IsOpen(s, q, gd)
    requires NumOfFile(s, p, fd) !in {2, 3, 4} && NumOfFile(s, q, gd) !in {2, 3, 4}
    requires NumOfFile(s, p, fd) != NumOfFile(s, q, gd)
    ensures IsInode(NumOfFile(s, p, fd)) && IsInode(NumOfFile(s, q, gd))
    ensures
      var a, b := Value(s.recs[NumOfFile(s, p, fd) - 1].start), Value(s.recs[NumOfFile(s, q, gd) - 1].start);
      a + NR_DEFAULT_FILE_SECTS <= b || b + NR_DEFAULT_FILE_SECTS <= a
  {
    OpenFileFacts(s, extra, firstSect, p, fd);
    OpenFileFacts(s, extra, firstSect, q, gd);
    Extents.LiveExtentsAreDisjoint(s.maps, TarBit(firstSect));
  }

  // The slots in use keep their inode, and the open files their descriptors.
  predicate SlotsStay(s: Fs, s': Fs) {
    && Sized(s) && Sized(s') && s'.filp == s.filp && s'.desc == s.desc && s'.root == s.root
    && forall k :: 0 <= k < NR_INODES && s.inodes[k].cnt != 0 ==> s'.inodes[k].num == s.inodes[k].num
  }

  lemma GetKeepsSlots(s: Fs, num: nat)
    requires Sized(s) && IsInode(num) && SlotOf(s.inodes, num) < NR_INODES
    ensures SlotsStay(s, GetInode(s, num))
  {
  }

  lemma UnlinkKeepsSlots(s: Fs, extra: seq<nat>, firstSect: nat, num: nat, newSize: Word, last: bool)
    requires Core(s, extra, firstSect) && CanGo(s, num)
    ensures RootCached(s) && RegularIsFile(s, num)
    ensures UnlinkFound(s, num, newSize, last).Ret? && SlotsStay(s, UnlinkFound(s, num, newSize, last).fs)
  {
    GetKeepsSlots(s, num);
    UnlinkIsWithout(s, extra, firstSect, num, newSize, last);
  }

  lemma FilesInUseStay(s: Fs, extra: seq<nat>, firstSect: nat, num: nat, newSize: Word, last: bool)
    requires Inv(s, extra, firstSect) && CanGo(s, num)
    ensures RootCached(s) && RegularIsFile(s, num)
    ensures UnlinkFound(s, num, newSize, last).Ret?
    ensures forall i :: i in s.maps.files && InUse(s, i) ==> i in UnlinkFound(s, num, newSize, last).fs.maps.files
  {
    UnlinkKeeps(s, extra, firstSect, num, newSize, last);
  }

  lemma OpenFileStays(s: Fs, s': Fs, extra: seq<nat>, more: seq<nat>, firstSect: nat, p: nat, fd: nat)
    requires Inv(s, extra, firstSect) && Inv(s', more, firstSect) && SlotsStay(s, s') && IsOpen(s, p, fd)
    requires NumOfFile(s, p, fd) in s'.maps.files
    ensures NumOfFile(s', p, fd) == NumOfFile(s, p, fd) && Intact(s', NumOfFile(s, p, fd), firstSect)
  {
    CountsFacts(s.filp, s.desc, Cnts(s.inodes), extra, s.filp[p][fd]);
    FilesAreIntact(s', more, firstSect, NumOfFile(s, p, fd));
  }

  ghost predicate OpenFilesStay(s: Fs, s': Fs, firstSect: nat) {
    && SlotsStay(s, s')
    && forall p, fd :: IsOpen(s, p, fd) && NumOfFile(s, p, fd) !in {2, 3, 4} ==>
         NumOfFile(s', p, fd) == NumOfFile(s, p, fd) && Intact(s', NumOfFile(s, p, fd), firstSect)
  }

  lemma AllOpenFilesStay(s: Fs, s': Fs, extra: seq<nat>, more: seq<nat>, firstSect: nat)
    requires Inv(s, extra, firstSect) && Inv(s', more, firstSect) && SlotsStay(s, s')
    requires forall i :: i in s.maps.files && InUse(s, i) ==> i in s'.maps.files
    ensures OpenFilesStay(s, s', firstSect)
  {
    forall p, fd | IsOpen(s, p, fd) && NumOfFile(s, p, fd) !in {2, 3, 4}
      ensures NumOfFile(s', p, fd) == NumOfFile(s, p, fd) && Intact(s', NumOfFile(s, p, fd), firstSect)
    {
      OpenFileFacts(s, extra, firstSect, p, fd);
      OpenFileStays(s, s', extra, more, firstSect, p, fd);
    }
  }

  lemma SuccessSparesOpenFiles(s: Fs, extra: seq<nat>, firstSect: nat, num: nat, newSize: Word, last: bool)
    requires Inv(s, extra, firstSect) && CanGo(s, num)
    ensures RootCached(s) && RegularIsFile(s, num) && UnlinkFound(s, num, newSize, last).Ret?
    ensures OpenFilesStay(s, UnlinkFound(s, num, newSize, last).fs, firstSect)
  {
    UnlinkKeeps(s, extra, firstSect, num, newSize, last);
    UnlinkKeepsSlots(s, extra, firstSect, num, newSize, last);
    FilesInUseStay(s, extra, firstSect, num, newSize, last);
    AllOpenFilesStay(s, UnlinkFound(s, num, newSize, last).fs, extra, extra, firstSect);
  }

  lemma GetSparesOpenFiles(s: Fs, extra: seq<nat>, firstSect: nat, num: nat)
    requires Inv(s, extra, firstSect) && Exists(s.maps.files, num) && SlotOf(s.inodes, num) < NR_INODES
    ensures OpenFilesStay(s, GetInode(s, num), firstSect)
  {
    GetKeeps(s, extra, firstSect, num);
    GetKeepsSlots(s, num);
    AllOpenFilesStay(s, GetInode(s, num), extra, Plus(extra, SlotOf(s.inodes, num)), firstSect);
  }

  // Unlink takes a file away exactly if it is a regular file that no process
  // has open and no failed unlink has left a reference to; every open file
  // keeps its inode, its sectors and its record.
  lemma UnlinkSparesOpenFiles(s: Fs, extra: seq<nat>, firstSect: nat, num: nat, newSize: Word, last: bool)
    requires Inv(s, extra, firstSect) && Exists(s.maps.files, num) && SlotOf(s.inodes, num) < NR_INODES
    ensures RootCached(s) && RegularIsFile(s, num)
    ensures
      var r := UnlinkFound(s, num, newSize, last);
      && r.Ret? && (r.value == 0 <==> num in s.maps.files && num != ROOT && !InUse(s, num))
      && OpenFilesStay(s, r.fs, firstSect)
  {
    RegularFilesOnly(s, extra, firstSect, num);
    if CanGo(s, num) {
      UnlinkKeeps(s, extra, firstSect, num, newSize, last);
      SuccessSparesOpenFiles(s, extra, firstSect, num, newSize, last);
    } else {
      FailedUnlinkKeeps(s, extra, firstSect, num, newSize, last);
      GetSparesOpenFiles(s, extra, firstSect, num);
    }
  }

  // --------------------------------------------------------------- all runs

  datatype Call =
    | OpenCall(p: nat, path: Lookup, flags: set<OpenFlag>)
    | CloseCall(p: nat, fd: nat)
    | ForkCall(parent: nat, child: nat)
    | ExitCall(p: nat)
    | StatCall(path: Lookup)
    | TransferCall(p: nat, fd: nat, bytes: nat)
    | UnlinkCall(path: Lookup, newSize: Word, last: bool)

  datatype State = State(fs: Fs, extra: seq<nat>)

  predicate PathOk(s: Fs, path: Lookup)
    requires Sized(s)
  {
    path.Found? ==> Exists(s.maps.files, path.num) && RegularIsFile(s, path.num)
  }

  // What a call takes for granted.  Paths name inodes that exist; a file is
  // created while there is room for its extent; nobody closes a descriptor
  // that is shared; the slot of a new process has no open files.
  predicate Legal(s: Fs, c: Call, firstSect: nat)
    requires 0 < firstSect <= INSTALL_FIRST_SECTOR
  {
    && Sized(s) && RootCached(s)
    && match c
       case OpenCall(p, path, flags) =>
         && p < NR_ALL && PathOk(s, path)
         && (path.Nowhere? && O_CREATE in flags ==> FreeExtent(s, firstSect) && MapsHaveRoom(s))
       case CloseCall(p, fd) => IsOpen(s, p, fd) && s.desc[s.filp[p][fd]].cnt == 1
       case ForkCall(parent, child) =>
         && parent < NR_ALL && child < NR_ALL && parent != child
         && Bare(s.filp[child])
       case ExitCall(p) => p < NR_ALL
       case StatCall(path) => PathOk(s, path)
       case TransferCall(p, fd, bytes) =>
         && IsOpen(s, p, fd) && s.desc[s.filp[p][fd]].pos >= 0 && IsInode(s.inodes[SlotOfFile(s, p, fd)].num)
       case UnlinkCall(path, newSize, last) => PathOk(s, path)
  }

  function Perform(s: Fs, c: Call, firstSect: nat): Outcome
    requires 0 < firstSect <= INSTALL_FIRST_SECTOR && Legal(s, c, firstSect)
  {
    match c
    case OpenCall(p, path, flags) => Open(s, p, path, flags, firstSect)
    case CloseCall(p, fd) => Ret(Close(s, p, fd), 0)
    case ForkCall(parent, child) => Ret(ShareUpTo(s, parent, child, NR_FILES), 0)
    case ExitCall(p) => Ret(ReleaseFrom(s, p, 0), 0)
    case StatCall(path) => Stat(s, path)
    case TransferCall(p, fd, bytes) => Ret(Advance(s, p, fd, bytes), bytes)
    case UnlinkCall(path, newSize, last) => Unlink(s, path, newSize, last)
  }

  // A failing unlink of a path that exists leaves one reference for good.
  function Left(st: State, c: Call, r: Outcome): seq<nat>
    requires Sized(st.fs) && |st.extra| == NR_INODES
  {
    if c.UnlinkCall? && c.path.Found? && r.Ret? && r.value == -1 && SlotOf(st.fs.inodes, c.path.num) < NR_INODES
    then Plus(st.extra, SlotOf(st.fs.inodes, c.path.num)) else st.extra
  }

  // A call that halts, or whose callers break the rules, ends the story.
  function Next(st: State, c: Call, firstSect: nat): State
    requires 0 < firstSect <= INSTALL_FIRST_SECTOR
  {
    if |st.extra| != NR_INODES || !Legal(st.fs, c, firstSect) then st
    else
      var r := Perform(st.fs, c, firstSect);
      if r.Halt? then st else State(r.fs, Left(st, c, r))
  }

  function Run(st: State, calls: seq<Call>, firstSect: nat): State
    requires 0 < firstSect <= INSTALL_FIRST_SECTOR
    decreases |calls|
  {
    if calls == [] then st else Next(Run(st, calls[..|calls| - 1], firstSect), calls[|calls| - 1], firstSect)
  }

  lemma UnlinkFoundKeeps(s: Fs, extra: seq<nat>, firstSect: nat, num: nat, newSize: Word, last: bool)
    requires Inv(s, extra, firstSect) && Exists(s.maps.files, num) && SlotOf(s.inodes, num) < NR_INODES
    ensures RootCached(s) && RegularIsFile(s, num)
    ensures
      var r := UnlinkFound(s, num, newSize, last);
      r.Ret? && Inv(r.fs, if r.value == -1 then Plus(extra, SlotOf(s.inodes, num)) else extra, firstSect)
  {
    if CanGo(s, num) {
      UnlinkKeeps(s, extra, firstSect, num, newSize, last);
    } else {
      FailedUnlinkKeeps(s, extra, firstSect, num, newSize, last);
    }
  }

  lemma UnlinkCallKeeps(s: Fs, extra: seq<nat>, firstSect: nat, path: Lookup, newSize: Word, last: bool)
    requires Inv(s, extra, firstSect) && Legal(s, UnlinkCall(path, newSize, last), firstSect)
    ensures
      var r := Unlink(s, path, newSize, last);
      r.Ret? ==> Inv(r.fs, Left(State(s, extra), UnlinkCall(path, newSize, last), r), firstSect)
  {
    if path.Found? && SlotOf(s.inodes, path.num) < NR_INODES {
      UnlinkFoundKeeps(s, extra, firstSect, path.num, newSize, last);
    }
  }

  lemma OpenCallKeeps(s: Fs, extra: seq<nat>, firstSect: nat, p: nat, path: Lookup, flags: set<OpenFlag>)
    requires Inv(s, extra, firstSect) && Legal(s, OpenCall(p, path, flags), firstSect)
    ensures
      var r := Open(s, p, path, flags, firstSect);
      r.Ret? ==> Inv(r.fs, extra, firstSect)
  {
    if MustHalt(s, p, path, flags) {
      OpenHalts(s, p, path, flags, firstSect);
    } else {
      OpenKeeps(s, extra, firstSect, p, path, flags);
    }
  }

  predicate TakesPath(c: Call) { c.OpenCall? || c.StatCall? || c.UnlinkCall? }

  lemma StatCallKeeps(s: Fs, extra: seq<nat>, firstSect: nat, path: Lookup)
    requires Inv(s, extra, firstSect) && Legal(s, StatCall(path), firstSect)
    ensures Stat(s, path).Ret? ==> Inv(Stat(s, path).fs, extra, firstSect)
  {
    if path.Found? { StatKeeps(s, extra, firstSect, path.num); }
  }

  lemma PathCallKeeps(s: Fs, extra: seq<nat>, firstSect: nat, c: Call)
    requires Inv(s, extra, firstSect) && Legal(s, c, firstSect) && TakesPath(c)
    ensures
      var r := Perform(s, c, firstSect);
      r.Ret? ==> Inv(r.fs, Left(State(s, extra), c, r), firstSect)
  {
    match c
    case OpenCall(p, path, flags) =>
      OpenCallKeeps(s, extra, firstSect, p, path, flags);
    case StatCall(path) => StatCallKeeps(s, extra, firstSect, path);
    case UnlinkCall(path, newSize, last) => UnlinkCallKeeps(s, extra, firstSect, path, newSize, last);
  }

  lemma EntryCallKeeps(s: Fs, extra: seq<nat>, firstSect: nat, c: Call)
    requires Inv(s, extra, firstSect) && Legal(s, c, firstSect) && !TakesPath(c)
    ensures Perform(s, c, firstSect).Ret?
    ensures Core(Perform(s, c, firstSect).fs, extra, firstSect) && Perform(s, c, firstSect).fs.maps == s.maps
  {
    match c
    case CloseCall(p, fd) => CloseKeeps(s, extra, firstSect, p, fd);
    case ForkCall(parent, child) => ForkKeeps(s, extra, firstSect, parent, child, NR_FILES);
    case ExitCall(p) => ExitKeeps(s, extra, firstSect, p, 0);
    case TransferCall(p, fd, bytes) => AdvanceKeeps(s, extra, firstSect, p, fd, bytes);
  }

  lemma PerformKeeps(s: Fs, extra: seq<nat>, firstSect: nat, c: Call)
    requires Inv(s, extra, firstSect) && Legal(s, c, firstSect)
    ensures
      var r := Perform(s, c, firstSect);
      r.Ret? ==> Inv(r.fs, Left(State(s, extra), c, r), firstSect)
  {
    if TakesPath(c) {
      PathCallKeeps(s, extra, firstSect, c);
    } else {
      EntryCallKeeps(s, extra, firstSect, c);
    }
  }

  // ---------------------------------------------------------------- the start

  // The one reference that the file system holds itself.
  function OnlyRoot(): (extra: seq<nat>)
    ensures |extra| == NR_INODES && forall k :: 0 <= k < NR_INODES ==> extra[k] == if k == 0 then 1 else 0
  {
    seq(NR_INODES, k => if k == 0 then 1 else 0)
  }

  lemma EmptyCounts(recs: seq<Record>, maps: Extents.Maps)
    requires |recs| == NR_DISK_INODES
    ensures
      var s := Empty(recs, maps);
      CountsOk(s.filp, s.desc, Cnts(s.inodes), OnlyRoot()[0 := 0])
  {
    var s := Empty(recs, maps);
    forall k | 0 <= k < NR_INODES ensures Reaching(s.desc, Refs(s.filp), k) == 0 {
      ReachingNone(s.desc, Refs(s.filp), k);
    }
  }

  lemma MountedCached(recs: seq<Record>, maps: Extents.Maps, firstSect: nat)
    requires |recs| == NR_DISK_INODES && RecordsOk(recs, maps.files, firstSect) && ROOT in maps.files
    ensures SlotOf(Empty(recs, maps).inodes, ROOT) == 0
    ensures Cached(Mounted(recs, maps), firstSect)
  {
    assert Exists(maps.files, ROOT);
  }

  lemma MountKeeps(recs: seq<Record>, maps: Extents.Maps, firstSect: nat)
    requires |recs| == NR_DISK_INODES && 0 < firstSect <= INSTALL_FIRST_SECTOR
    requires RecordsOk(recs, maps.files, firstSect) && Extents.Inv(maps, TarBit(firstSect))
    ensures SlotOf(Empty(recs, maps).inodes, ROOT) == 0
    ensures Inv(Mounted(recs, maps), OnlyRoot(), firstSect)
  {
    var s, zero := Empty(recs, maps), OnlyRoot()[0 := 0];
    EmptyCounts(recs, maps);
    ExtraKeepsCounts(s.filp, s.desc, Cnts(s.inodes), zero, 0, 1);
    CountsOfUpdate(s.inodes, 0, Inode(recs[0], 1, ROOT));
    assert zero[0 := 1] == OnlyRoot();
    MountedCached(recs, maps, firstSect);
  }

  // Whatever calls follow, counts are exact, the cache agrees with the device
  // and both with the bitmaps, and every open file has its sectors to itself.
  lemma {:induction false} RunsAreSafe(recs: seq<Record>, maps: Extents.Maps, firstSect: nat, calls: seq<Call>)
    requires |recs| == NR_DISK_INODES && 0 < firstSect <= INSTALL_FIRST_SECTOR
    requires RecordsOk(recs, maps.files, firstSect) && Extents.Inv(maps, TarBit(firstSect))
    ensures SlotOf(Empty(recs, maps).inodes, ROOT) == 0
    ensures
      var st := Run(State(Mounted(recs, maps), OnlyRoot()), calls, firstSect);
      Inv(st.fs, st.extra, firstSect)
    decreases |calls|
  {
    MountKeeps(recs, maps, firstSect);
    if calls != [] {
      var front, c := calls[..|calls| - 1], calls[|calls| - 1];
      RunsAreSafe(recs, maps, firstSect, front);
      var st := Run(State(Mounted(recs, maps), OnlyRoot()), front, firstSect);
      if Legal(st.fs, c, firstSect) { PerformKeeps(st.fs, st.extra, firstSect, c); }
    }
  }
}
