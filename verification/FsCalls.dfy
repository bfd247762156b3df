// What each call of the file system answers and does, as the dispatcher serves
// it (fs/fs.c:292-320), in every state that runs lead to.
module FsCalls {
  import opened Bits
  import opened Disk
  import opened Constants
  import opened FsCounts
  import opened FsSpec
  import opened FsInvariant
  import opened FsSteps
  import opened FsRuns
  import opened FsEffects
  import opened FsRecords
  import opened InodeDisk
  import Extents

  predicate OpenDone(s: Fs, s': Fs, value: int, p: nat, path: Lookup, flags: set<OpenFlag>)
    requires Sized(s) && Sized(s') && p < NR_ALL
  {
    if value == -1 then s' == s
    else value >= 0 && IsInode(Opened(s, path)) && FreshlyOpened(s, s', p, value, Opened(s, path), flags)
  }

  predicate Done(s: Fs, c: Call, s': Fs, value: int, firstSect: nat)
    requires 0 < firstSect <= INSTALL_FIRST_SECTOR && Legal(s, c, firstSect) && Sized(s')
  {
    match c
    case OpenCall(p, path, flags) => OpenDone(s, s', value, p, path, flags)
    case CloseCall(p, fd) => value == 0 && s'.filp[p][fd] == NIL && IsFreeDesc(s'.desc[s.filp[p][fd]])
    case ForkCall(parent, child) =>
      value == 0 && forall fd :: 0 <= fd < NR_FILES ==> s'.filp[child][fd] == s.filp[parent][fd]
    case ExitCall(p) => value == 0 && forall fd :: 0 <= fd < NR_FILES ==> s'.filp[p][fd] == NIL
    case StatCall(path) => value == if path.Found? then Value(s.recs[path.num - 1].size) else -1
    case TransferCall(p, fd, bytes) =>
      value == bytes && s'.desc == s.desc[s.filp[p][fd] := DescMoved(s.desc[s.filp[p][fd]], bytes)]
    case UnlinkCall(path, newSize, last) => UnlinkAnswered(s, s', value, path)
  }

  predicate UnlinkAnswered(s: Fs, s': Fs, value: int, path: Lookup)
    requires Sized(s)
  {
    && (value == 0 <==> path.Found? && path.num in s.maps.files && path.num != ROOT && !InUse(s, path.num))
    && (value == 0 ==> path.num !in s'.maps.files) && (value == 0 || value == -1)
  }

  function DescMoved(d: Desc, bytes: nat): Desc { d.(pos := d.pos + bytes) }

  lemma UnlinkDone(s: Fs, extra: seq<nat>, firstSect: nat, num: nat, newSize: Word, last: bool)
    requires Inv(s, extra, firstSect) && Exists(s.maps.files, num) && SlotOf(s.inodes, num) < NR_INODES
    ensures RootCached(s) && RegularIsFile(s, num)
    ensures
      var r := UnlinkFound(s, num, newSize, last);
      r.Ret? && Sized(r.fs) && UnlinkAnswered(s, r.fs, r.value, Found(num))
  {
    RegularFilesOnly(s, extra, firstSect, num);
    if CanGo(s, num) {
      UnlinkKeeps(s, extra, firstSect, num, newSize, last);
    } else {
      FailedUnlinkKeeps(s, extra, firstSect, num, newSize, last);
    }
  }

  lemma OpenIsDone(s: Fs, extra: seq<nat>, firstSect: nat, p: nat, path: Lookup, flags: set<OpenFlag>)
    requires Inv(s, extra, firstSect) && Legal(s, OpenCall(p, path, flags), firstSect)
    ensures
      var r := Open(s, p, path, flags, firstSect);
      r.Ret? ==> Sized(r.fs) && OpenDone(s, r.fs, r.value, p, path, flags)
  {
    if MustHalt(s, p, path, flags) {
      OpenHalts(s, p, path, flags, firstSect);
    } else {
      OpenGives(s, extra, firstSect, p, path, flags);
    }
  }

  lemma StatIsDone(s: Fs, extra: seq<nat>, firstSect: nat, path: Lookup)
    requires Inv(s, extra, firstSect) && Legal(s, StatCall(path), firstSect)
    ensures
      var r := Stat(s, path);
      r.Ret? ==> Sized(r.fs) && r.value == if path.Found? then Value(s.recs[path.num - 1].size) else -1
  {
    if path.Found? { StatKeeps(s, extra, firstSect, path.num); }
  }

  lemma UnlinkIsDone(s: Fs, extra: seq<nat>, firstSect: nat, path: Lookup, newSize: Word, last: bool)
    requires Inv(s, extra, firstSect) && RootCached(s)
    requires path.Found? ==> Exists(s.maps.files, path.num) && RegularIsFile(s, path.num)
    ensures
      var r := Unlink(s, path, newSize, last);
      r.Ret? ==> Sized(r.fs) && UnlinkAnswered(s, r.fs, r.value, path)
  {
    if path.Found? && SlotOf(s.inodes, path.num) < NR_INODES {
      UnlinkDone(s, extra, firstSect, path.num, newSize, last);
      assert Unlink(s, path, newSize, last) == UnlinkFound(s, path.num, newSize, last);
    } else {
      NoUnlink(s, path, newSize, last);
    }
  }

  lemma NoUnlink(s: Fs, path: Lookup, newSize: Word, last: bool)
    requires Sized(s) && RootCached(s) && (path.Found? ==> IsInode(path.num) && RegularIsFile(s, path.num))
    requires path.Found? ==> SlotOf(s.inodes, path.num) == NR_INODES
    ensures Unlink(s, path, newSize, last) == if path.Found? then Halt else Ret(s, -1)
  {
  }

  lemma PathCallIsDone(s: Fs, extra: seq<nat>, firstSect: nat, c: Call)
    requires Inv(s, extra, firstSect) && Legal(s, c, firstSect) && TakesPath(c)
    ensures
      var r := Perform(s, c, firstSect);
      r.Ret? ==> Sized(r.fs) && Done(s, c, r.fs, r.value, firstSect)
  {
    if c.OpenCall? {
      OpenIsDone(s, extra, firstSect, c.p, c.path, c.flags);
    } else if c.StatCall? {
      StatIsDone(s, extra, firstSect, c.path);
    } else {
      UnlinkIsDone(s, extra, firstSect, c.path, c.newSize, c.last);
    }
  }

  lemma CloseIsDone(s: Fs, extra: seq<nat>, firstSect: nat, p: nat, fd: nat)
    requires Core(s, extra, firstSect) && IsOpen(s, p, fd)
    ensures Close(s, p, fd).filp[p][fd] == NIL && IsFreeDesc(Close(s, p, fd).desc[s.filp[p][fd]])
  {
  }

  lemma ExitIsDone(s: Fs, extra: seq<nat>, firstSect: nat, p: nat)
    requires Core(s, extra, firstSect) && p < NR_ALL
    ensures forall fd :: 0 <= fd < NR_FILES ==> ReleaseFrom(s, p, 0).filp[p][fd] == NIL
  {
    ExitKeeps(s, extra, firstSect, p, 0);
    EmptiedRow(s.filp, ReleaseFrom(s, p, 0).filp, p);
  }

  lemma EmptiedRow(filp: Filp, filp': Filp, p: nat)
    requires Shape(filp) && p < NR_ALL && filp' == filp[p := Emptied(filp[p], 0)]
    ensures Shape(filp') && forall fd :: 0 <= fd < NR_FILES ==> filp'[p][fd] == NIL
  {
  }

  lemma TransferIsDone(s: Fs, p: nat, fd: nat, bytes: nat)
    requires Sized(s) && IsOpen(s, p, fd) && s.desc[s.filp[p][fd]].pos >= 0 && IsInode(NumOfFile(s, p, fd))
    ensures Advance(s, p, fd, bytes).desc == s.desc[s.filp[p][fd] := DescMoved(s.desc[s.filp[p][fd]], bytes)]
  {
  }

  lemma EntryCallIsDone(s: Fs, extra: seq<nat>, firstSect: nat, c: Call)
    requires Inv(s, extra, firstSect) && Legal(s, c, firstSect) && !TakesPath(c)
    ensures
      var r := Perform(s, c, firstSect);
      r.Ret? && Sized(r.fs) && Done(s, c, r.fs, r.value, firstSect)
  {
    match c
    case CloseCall(p, fd) => CloseIsDone(s, extra, firstSect, p, fd);
    case ForkCall(parent, child) => ForkSharesFiles(s, extra, firstSect, parent, child);
    case ExitCall(p) => ExitIsDone(s, extra, firstSect, p);
    case TransferCall(p, fd, bytes) => TransferIsDone(s, p, fd, bytes);
  }

  lemma CallIsDone(st: State, c: Call, firstSect: nat)
    requires Inv(st.fs, st.extra, firstSect) && Legal(st.fs, c, firstSect)
    ensures
      var r, st' := Perform(st.fs, c, firstSect), Next(st, c, firstSect);
      if r.Ret? then Sized(st'.fs) && st'.fs == r.fs && Done(st.fs, c, st'.fs, r.value, firstSect) else st' == st
  {
    if TakesPath(c) {
      PathCallIsDone(st.fs, st.extra, firstSect, c);
    } else {
      EntryCallIsDone(st.fs, st.extra, firstSect, c);
    }
  }

  // After any run from a file system that is mounted, a call that does not halt
  // does what it is for.
  lemma CallsDoTheirWork(recs: seq<Record>, maps: Extents.Maps, firstSect: nat, calls: seq<Call>, c: Call)
    requires |recs| == NR_DISK_INODES && 0 < firstSect <= INSTALL_FIRST_SECTOR
    requires RecordsOk(recs, maps.files, firstSect) && Extents.Inv(maps, TarBit(firstSect))
    requires Legal(Run(State(Mounted(recs, maps), OnlyRoot()), calls, firstSect).fs, c, firstSect)
    ensures
      var st := Run(State(Mounted(recs, maps), OnlyRoot()), calls, firstSect);
      var r, st' := Perform(st.fs, c, firstSect), Next(st, c, firstSect);
      if r.Ret? then Sized(st'.fs) && st'.fs == r.fs && Done(st.fs, c, st'.fs, r.value, firstSect) else st' == st
  {
    RunsAreSafe(recs, maps, firstSect, calls);
    CallIsDone(Run(State(Mounted(recs, maps), OnlyRoot()), calls, firstSect), c, firstSect);
  }
}
