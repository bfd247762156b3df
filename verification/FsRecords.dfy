// What the calls of the file system leave alone: the records on the device,
// the bitmaps, and the files that others have open.
module FsRecords {
  import opened Bits
  import opened Disk
  import opened Constants
  import opened FsCounts
  import opened FsSpec
  import opened FsInvariant
  import opened FsSteps
  import opened FsRuns
  import opened FsEffects
  import opened InodeDisk
  import Extents

  // ------------------------------------------------------------------- open

  // The records of all inodes but these two are as before.
  predicate OtherRecords(recs: seq<Record>, recs': seq<Record>, a: nat, b: nat) {
    && |recs'| == |recs|
    && forall i: nat :: i < |recs| && i + 1 != a && i + 1 != b ==> recs'[i] == recs[i]
  }

  // An open of a file that was found, in slot k: with O_TRUNC its size is 0,
  // without it nothing about it changes.
  predicate FoundKept(s: Fs, s': Fs, k: nat, num: nat, flags: set<OpenFlag>)
    requires Sized(s) && Sized(s') && k < NR_INODES && IsInode(num)
  {
    && s'.maps == s.maps && s'.root == s.root && OtherRecords(s.recs, s'.recs, num, num)
    && s'.inodes[k].rec == s'.recs[num - 1]
    && s'.recs[num - 1] == s.recs[num - 1].(size := s'.recs[num - 1].size)
    && if O_TRUNC in flags then Value(s'.recs[num - 1].size) == 0 else s'.recs[num - 1].size == s.recs[num - 1].size
  }

  // An open that creates inode num, in slot k: an empty regular file, and one
  // entry of 16 bytes more in the root directory.
  predicate NewKept(s: Fs, s': Fs, k: nat, num: nat)
    requires Sized(s) && Sized(s') && k < NR_INODES && IsInode(num) && num != ROOT
  {
    && s'.maps == Extents.Create(s.maps) && s'.root == s.root && OtherRecords(s.recs, s'.recs, num, ROOT)
    && s'.inodes[k].rec == s'.recs[num - 1] && s'.recs[num - 1].mode == I_REGULAR
    && Value(s'.recs[num - 1].size) == 0
    && s'.recs[ROOT - 1] == s.recs[ROOT - 1].(size := s'.recs[ROOT - 1].size)
    && (Value(s.recs[ROOT - 1].size) + 16 < Pow2(32) ==>
          Value(s'.recs[ROOT - 1].size) == Value(s.recs[ROOT - 1].size) + 16)
  }

  lemma TruncateKept(s: Fs, k: nat, flags: set<OpenFlag>)
    requires Sized(s) && k < NR_INODES && IsInode(s.inodes[k].num) && s.inodes[k].rec == s.recs[s.inodes[k].num - 1]
    ensures
      var s', num := Truncate(s, k, flags), s.inodes[k].num;
      && s'.maps == s.maps && s'.root == s.root && OtherRecords(s.recs, s'.recs, num, num)
      && s'.inodes[k].rec == s'.recs[num - 1] == s.recs[num - 1].(size := s'.recs[num - 1].size)
      && (if O_TRUNC in flags then Value(s'.recs[num - 1].size) == 0 else s'.recs[num - 1].size == s.recs[num - 1].size)
  {
    ZeroValue();
  }

  // The descriptor that an open returns leads to slot k.
  predicate LeadsTo(s: Fs, p: nat, fd: int, k: nat)
    requires Sized(s)
  {
    fd >= 0 && IsOpen(s, p, fd) && SlotOfFile(s, p, fd) == k
  }

  lemma AttachLeads(s: Fs, p: nat, k: nat, flags: set<OpenFlag>)
    requires Sized(s) && p < NR_ALL && CanOpen(s, p) && k < NR_INODES
    ensures LeadsTo(Attach(s, p, k, flags), p, FirstWhere(s.filp[p], IsNil), k)
  {
  }

  lemma FinishKept(s: Fs, p: nat, k: nat, flags: set<OpenFlag>)
    requires Sized(s) && p < NR_ALL && CanOpen(s, p) && k < NR_INODES && IsInode(s.inodes[k].num)
    requires s.inodes[k].rec == s.recs[s.inodes[k].num - 1]
    ensures
      var r, num := FinishOpen(s, p, k, flags), s.inodes[k].num;
      r.Ret? ==> Sized(r.fs) && FoundKept(s, r.fs, k, num, flags) && LeadsTo(r.fs, p, r.value, k)
  {
    TruncateKept(s, k, flags);
    AttachLeads(Truncate(s, k, flags), p, k, flags);
  }

  lemma OpenFoundKept(s: Fs, extra: seq<nat>, firstSect: nat, p: nat, num: nat, flags: set<OpenFlag>)
    requires Core(s, extra, firstSect) && p < NR_ALL && CanOpen(s, p) && Exists(s.maps.files, num)
    requires SlotOf(s.inodes, num) < NR_INODES
    ensures
      var r, k := OpenFound(s, p, num, flags), SlotOf(s.inodes, num);
      r.Ret? ==> Sized(r.fs) && FoundKept(s, r.fs, k, num, flags) && LeadsTo(r.fs, p, r.value, k)
  {
    GotRecord(s, extra, firstSect, num);
    FoundAfterGet(s, GetInode(s, num), p, SlotOf(s.inodes, num), num, flags);
  }

  lemma FoundAfterGet(s: Fs, t: Fs, p: nat, k: nat, num: nat, flags: set<OpenFlag>)
    requires Sized(s) && Sized(t) && p < NR_ALL && CanOpen(s, p) && IsInode(num)
    requires k == SlotOf(s.inodes, num) && k < NR_INODES && t == GetInode(s, num)
    requires t.inodes[k].num == num && t.inodes[k].rec == t.recs[num - 1]
    ensures
      var r := OpenFound(s, p, num, flags);
      r.Ret? ==> Sized(r.fs) && FoundKept(s, r.fs, k, num, flags) && LeadsTo(r.fs, p, r.value, k)
  {
    assert OpenFound(s, p, num, flags) == FinishOpen(t, p, k, flags);
    FinishKept(t, p, k, flags);
    var r := FinishOpen(t, p, k, flags);
    if r.Ret? { FoundThenFinished(s, t, r.fs, k, num, flags); }
  }

  lemma GotRecord(s: Fs, extra: seq<nat>, firstSect: nat, num: nat)
    requires Core(s, extra, firstSect) && Exists(s.maps.files, num) && SlotOf(s.inodes, num) < NR_INODES
    ensures
      var k, t := SlotOf(s.inodes, num), GetInode(s, num);
      && t.recs == s.recs && t.maps == s.maps && t.root == s.root
      && t.inodes[k].num == num && t.inodes[k].rec == t.recs[num - 1]
  {
    GetKeeps(s, extra, firstSect, num);
  }

  lemma FoundThenFinished(s: Fs, t: Fs, s': Fs, k: nat, num: nat, flags: set<OpenFlag>)
    requires Sized(s) && Sized(t) && Sized(s') && k < NR_INODES && IsInode(num)
    requires t.recs == s.recs && t.maps == s.maps && t.root == s.root && FoundKept(t, s', k, num, flags)
    ensures FoundKept(s, s', k, num, flags)
  {
  }

  lemma RootGrows(s: Fs)
    requires Sized(s) && s.inodes[s.root].num == ROOT && s.inodes[s.root].rec == s.recs[ROOT - 1]
    ensures
      var s' := AddDirEntry(s);
      && s'.maps == s.maps && s'.root == s.root && OtherRecords(s.recs, s'.recs, ROOT, ROOT)
      && s'.recs[ROOT - 1] == s.recs[ROOT - 1].(size := s'.recs[ROOT - 1].size)
      && (Value(s.recs[ROOT - 1].size) + 16 < Pow2(32) ==>
            Value(s'.recs[ROOT - 1].size) == Value(s.recs[ROOT - 1].size) + 16)
      && (forall k :: 0 <= k < NR_INODES && k != s.root ==> s'.inodes[k] == s.inodes[k])
  {
    var size := Value(s.recs[ROOT - 1].size) + 16;
    if size < Pow2(32) { WordRoundTrip(size); }
  }

  lemma NewFileKept(s: Fs, k: nat, firstSect: nat)
    requires Sized(s) && RootCached(s) && MapsHaveRoom(s) && firstSect > 0 && k < NR_INODES && k != s.root
    requires s.inodes[s.root].rec == s.recs[ROOT - 1]
    ensures
      var s', num := NewFile(s, k, firstSect), FirstClear(s.maps.inodeMap);
      && s'.maps == Extents.Create(s.maps) && s'.root == s.root && OtherRecords(s.recs, s'.recs, num, num)
      && s'.inodes[k].rec == s'.recs[num - 1] && s'.inodes[k].num == num && s'.recs[num - 1].mode == I_REGULAR
      && Value(s'.recs[num - 1].size) == 0
      && s'.inodes[s'.root].num == ROOT && s'.inodes[s'.root].rec == s'.recs[ROOT - 1] == s.recs[ROOT - 1]
  {
    ZeroValue();
  }

  lemma CreateFileKept(s: Fs, k: nat, firstSect: nat)
    requires Sized(s) && RootCached(s) && MapsHaveRoom(s) && firstSect > 0 && k < NR_INODES && k != s.root
    requires s.inodes[s.root].rec == s.recs[ROOT - 1]
    ensures NewKept(s, CreateFile(s, k, firstSect), k, FirstClear(s.maps.inodeMap))
    ensures CreateFile(s, k, firstSect).inodes[k].num == FirstClear(s.maps.inodeMap)
  {
    NewFileKept(s, k, firstSect);
    RootGrows(NewFile(s, k, firstSect));
  }

  lemma NewThenFinished(s: Fs, t: Fs, s': Fs, k: nat, num: nat, flags: set<OpenFlag>)
    requires Sized(s) && Sized(t) && Sized(s') && k < NR_INODES && IsInode(num) && num != ROOT
    requires NewKept(s, t, k, num) && FoundKept(t, s', k, num, flags)
    ensures NewKept(s, s', k, num)
  {
    assert s'.recs[ROOT - 1] == t.recs[ROOT - 1];
  }

  lemma OpenNewKept(s: Fs, extra: seq<nat>, firstSect: nat, p: nat, flags: set<OpenFlag>)
    requires Inv(s, extra, firstSect) && p < NR_ALL && CanOpen(s, p) && FreeExtent(s, firstSect)
    requires SlotOf(s.inodes, FirstClear(s.maps.inodeMap)) < NR_INODES
    ensures RootCached(s) && MapsHaveRoom(s)
    ensures
      var r, num := OpenNew(s, p, true, flags, firstSect), FirstClear(s.maps.inodeMap);
      var k := SlotOf(s.inodes, num);
      r.Ret? ==> Sized(r.fs) && NewKept(s, r.fs, k, num) && LeadsTo(r.fs, p, r.value, k)
  {
    CreatedSlot(s, extra, firstSect);
    RootIsCoherent(s, extra, firstSect);
    OpenAfterCreate(s, p, SlotOf(s.inodes, FirstClear(s.maps.inodeMap)), flags, firstSect);
  }

  lemma RootIsCoherent(s: Fs, extra: seq<nat>, firstSect: nat)
    requires Core(s, extra, firstSect)
    ensures s.inodes[s.root].rec == s.recs[ROOT - 1]
  {
    SlotFacts(s, extra, s.root);
  }

  lemma OpenAfterCreate(s: Fs, p: nat, k: nat, flags: set<OpenFlag>, firstSect: nat)
    requires Sized(s) && RootCached(s) && MapsHaveRoom(s) && firstSect > 0 && p < NR_ALL && CanOpen(s, p)
    requires k == SlotOf(s.inodes, FirstClear(s.maps.inodeMap)) && k < NR_INODES && k != s.root
    requires s.inodes[s.root].rec == s.recs[ROOT - 1]
    ensures
      var r := OpenNew(s, p, true, flags, firstSect);
      r.Ret? ==> Sized(r.fs) && NewKept(s, r.fs, k, FirstClear(s.maps.inodeMap)) && LeadsTo(r.fs, p, r.value, k)
  {
    var num, t := FirstClear(s.maps.inodeMap), CreateFile(s, k, firstSect);
    CreateFileKept(s, k, firstSect);
    CreatedThenOpened(s, t, p, k, flags, firstSect);
    FinishKept(t, p, k, flags);
    var r := FinishOpen(t, p, k, flags);
    if r.Ret? { NewThenFinished(s, t, r.fs, k, num, flags); }
  }

  // What an open that succeeds does to the records on the device and to the
  // record in the cache that its descriptor leads to: nothing, if it finds the
  // file and does not truncate it.
  lemma OpenLeavesRecords(s: Fs, extra: seq<nat>, firstSect: nat, p: nat, path: Lookup, flags: set<OpenFlag>)
    requires Inv(s, extra, firstSect) && p < NR_ALL && !MustHalt(s, p, path, flags)
    requires path.Found? ==> Exists(s.maps.files, path.num)
    requires path.Nowhere? && O_CREATE in flags ==> FreeExtent(s, firstSect)
    ensures RootCached(s) && (path.Nowhere? && O_CREATE in flags ==> MapsHaveRoom(s))
    ensures
      var r := Open(s, p, path, flags, firstSect);
      r.Ret? && Sized(r.fs) && (r.value != -1 ==>
        && r.value >= 0 && IsOpen(r.fs, p, r.value)
        && var k := SlotOfFile(r.fs, p, r.value);
           && (path.Found? ==> FoundKept(s, r.fs, k, path.num, flags))
           && (path.Nowhere? ==>
                 IsInode(Opened(s, path)) && Opened(s, path) != ROOT && NewKept(s, r.fs, k, Opened(s, path))))
  {
    OpenGives(s, extra, firstSect, p, path, flags);
    match path
    case Nested =>
    case Nowhere(room) =>
      if O_CREATE in flags {
        OpenNewKept(s, extra, firstSect, p, flags);
      }
    case Found(num) =>
      if O_RW in flags && (O_CREATE in flags ==> O_TRUNC in flags) {
        OpenFoundKept(s, extra, firstSect, p, num, flags);
      }
  }

  // ------------------------------------------------------ fork, exit and close

  // A descriptor that is still in use differs at most in its count.
  predicate DescKept(x: Desc, x': Desc) {
    x'.inode == NIL || x' == x.(cnt := x'.cnt)
  }

  // Only counts and free descriptors differ: files keep their position, their
  // flags, their inode and everything that is known of it.
  predicate OnlyCounts(s: Fs, s': Fs) {
    && Sized(s) && Sized(s') && s'.recs == s.recs && s'.maps == s.maps && s'.root == s.root
    && (forall d :: 0 <= d < NR_FILE_DESC ==> DescKept(s.desc[d], s'.desc[d]))
    && (forall k :: 0 <= k < NR_INODES ==> s'.inodes[k] == s.inodes[k].(cnt := s'.inodes[k].cnt))
  }

  lemma OnlyCountsTwice(s: Fs, t: Fs, s': Fs)
    requires OnlyCounts(s, t) && OnlyCounts(t, s')
    ensures OnlyCounts(s, s')
  {
  }

  lemma ReleaseEntryOnlyCounts(s: Fs, p: nat, fd: nat)
    requires Sized(s)
    ensures OnlyCounts(s, ReleaseEntry(s, p, fd))
  {
  }

  lemma {:induction false} ReleaseOnlyCounts(s: Fs, p: nat, from: nat)
    requires Sized(s) && p < NR_ALL && from <= NR_FILES
    ensures OnlyCounts(s, ReleaseFrom(s, p, from))
    decreases NR_FILES - from
  {
    if from < NR_FILES {
      var t := ReleaseEntry(s, p, from);
      ReleaseEntryOnlyCounts(s, p, from);
      ReleaseOnlyCounts(t, p, from + 1);
      OnlyCountsTwice(s, t, ReleaseFrom(t, p, from + 1));
    }
  }

  lemma ShareEntryOnlyCounts(s: Fs, parent: nat, child: nat, fd: nat)
    requires Sized(s) && child < NR_ALL
    ensures OnlyCounts(s, ShareEntry(s, parent, child, fd))
    ensures forall d :: 0 <= d < NR_FILE_DESC ==> ShareEntry(s, parent, child, fd).desc[d].inode == s.desc[d].inode
  {
  }

  lemma {:induction false} ShareOnlyCounts(s: Fs, parent: nat, child: nat, n: nat)
    requires Sized(s) && parent < NR_ALL && child < NR_ALL && n <= NR_FILES
    ensures OnlyCounts(s, ShareUpTo(s, parent, child, n))
    ensures forall d :: 0 <= d < NR_FILE_DESC ==> ShareUpTo(s, parent, child, n).desc[d].inode == s.desc[d].inode
  {
    if n > 0 {
      var t := ShareUpTo(s, parent, child, n - 1);
      ShareOnlyCounts(s, parent, child, n - 1);
      ShareEntryOnlyCounts(t, parent, child, n - 1);
      OnlyCountsTwice(s, t, ShareEntry(t, parent, child, n - 1));
    }
  }

  // The file in entry fd of process q is the one it was, at the position where
  // it was.
  predicate SameFile(s: Fs, s': Fs, q: nat, fd: nat) {
    && Sized(s) && Sized(s') && IsOpen(s, q, fd) && IsOpen(s', q, fd)
    && s'.filp[q][fd] == s.filp[q][fd] && SlotOfFile(s', q, fd) == SlotOfFile(s, q, fd)
    && NumOfFile(s', q, fd) == NumOfFile(s, q, fd)
    && s'.desc[s'.filp[q][fd]].pos == s.desc[s.filp[q][fd]].pos
    && s'.desc[s'.filp[q][fd]].flags == s.desc[s.filp[q][fd]].flags
    && s'.inodes[SlotOfFile(s', q, fd)].rec == s.inodes[SlotOfFile(s, q, fd)].rec
  }

  lemma EntryKept(s: Fs, s': Fs, extra: seq<nat>, q: nat, fd: nat)
    requires OnlyCounts(s, s') && Counted(s', extra) && IsOpen(s, q, fd) && s'.filp[q][fd] == s.filp[q][fd]
    ensures SameFile(s, s', q, fd)
  {
    EntryIsOpen(s', extra, q, fd);
  }

  // An exit leaves the files of all other processes alone, also those that were
  // shared with the process that exits.
  lemma ExitSparesOthers(s: Fs, extra: seq<nat>, firstSect: nat, p: nat)
    requires Core(s, extra, firstSect) && p < NR_ALL
    ensures
      var s' := ReleaseFrom(s, p, 0);
      && s'.recs == s.recs && s'.maps == s.maps
      && forall q, fd :: q != p && IsOpen(s, q, fd) ==> SameFile(s, s', q, fd)
  {
    var s' := ReleaseFrom(s, p, 0);
    ExitKeeps(s, extra, firstSect, p, 0);
    ReleaseOnlyCounts(s, p, 0);
    forall q, fd | q != p && IsOpen(s, q, fd) ensures SameFile(s, s', q, fd) { EntryKept(s, s', extra, q, fd); }
  }

  // A fork leaves all files alone, and gives the child those of its parent.
  lemma ForkSharesFiles(s: Fs, extra: seq<nat>, firstSect: nat, parent: nat, child: nat)
    requires Core(s, extra, firstSect) && parent < NR_ALL && child < NR_ALL && parent != child && Bare(s.filp[child])
    ensures
      var s' := ShareUpTo(s, parent, child, NR_FILES);
      && s'.recs == s.recs && s'.maps == s.maps
      && (forall q, fd :: q != child && IsOpen(s, q, fd) ==> SameFile(s, s', q, fd))
      && (forall fd :: 0 <= fd < NR_FILES ==> s'.filp[child][fd] == s.filp[parent][fd])
  {
    var s' := ShareUpTo(s, parent, child, NR_FILES);
    ForkKeeps(s, extra, firstSect, parent, child, NR_FILES);
    ShareOnlyCounts(s, parent, child, NR_FILES);
    forall q, fd | q != child && IsOpen(s, q, fd) ensures SameFile(s, s', q, fd) { EntryKept(s, s', extra, q, fd); }
    assert s'.filp[child] == s.filp[parent][..NR_FILES] + s.filp[child][NR_FILES..];
  }

  // A close leaves every file alone that does not share the descriptor.
  lemma CloseSparesOthers(s: Fs, extra: seq<nat>, firstSect: nat, p: nat, fd: nat)
    requires Core(s, extra, firstSect) && IsOpen(s, p, fd)
    ensures
      var s' := Close(s, p, fd);
      && s'.recs == s.recs && s'.maps == s.maps
      && forall q: nat, j: nat :: IsOpen(s, q, j) && s.filp[q][j] != s.filp[p][fd] ==> SameFile(s, s', q, j)
  {
    forall q: nat, j: nat | IsOpen(s, q, j) && s.filp[q][j] != s.filp[p][fd]
      ensures SameFile(s, Close(s, p, fd), q, j)
    {
      OtherAfterClose(s, p, fd, q, j);
    }
  }

  lemma OtherAfterClose(s: Fs, p: nat, fd: nat, q: nat, j: nat)
    requires Sized(s) && IsOpen(s, p, fd) && IsOpen(s, q, j) && s.filp[q][j] != s.filp[p][fd]
    ensures SameFile(s, Close(s, p, fd), q, j)
  {
    assert Close(s, p, fd).filp[q][j] == s.filp[q][j];
  }

  // --------------------------------------------------------- stat, transfer, unlink

  // stat leaves everything alone that is in use.
  lemma StatSparesAll(s: Fs, extra: seq<nat>, firstSect: nat, num: nat)
    requires Core(s, extra, firstSect) && Exists(s.maps.files, num)
    ensures
      var r := Stat(s, Found(num));
      r.Ret? ==>
        && Sized(r.fs) && r.fs.recs == s.recs && r.fs.maps == s.maps && r.fs.filp == s.filp && r.fs.desc == s.desc
        && r.fs.root == s.root
        && forall k :: 0 <= k < NR_INODES && s.inodes[k].cnt != 0 ==> r.fs.inodes[k] == s.inodes[k]
  {
    if SlotOf(s.inodes, num) < NR_INODES { GetThenPut(s, num); }
  }

  lemma GetThenPut(s: Fs, num: nat)
    requires Sized(s) && IsInode(num) && SlotOf(s.inodes, num) < NR_INODES
    ensures
      var k := SlotOf(s.inodes, num);
      var t := PutInode(GetInode(s, num), k);
      && t == s.(inodes := t.inodes) && t.inodes == s.inodes[k := t.inodes[k]]
      && (s.inodes[k].cnt != 0 ==> t.inodes[k] == s.inodes[k])
  {
  }

  // For a path that names nothing, stat and unlink answer -1 and do nothing.
  lemma NothingFound(s: Fs, path: Lookup, newSize: Word, last: bool)
    requires Sized(s) && RootCached(s) && !path.Found?
    ensures Stat(s, path) == Ret(s, -1) && Unlink(s, path, newSize, last) == Ret(s, -1)
  {
  }

  // A transfer changes the record of its own file at most, and the position of
  // its own descriptor.
  lemma TransferSparesOthers(s: Fs, p: nat, fd: nat, bytes: nat)
    requires Sized(s) && IsOpen(s, p, fd) && s.desc[s.filp[p][fd]].pos >= 0 && IsInode(NumOfFile(s, p, fd))
    ensures
      var s', k, d := Advance(s, p, fd, bytes), SlotOfFile(s, p, fd), s.filp[p][fd];
      && s'.filp == s.filp && s'.maps == s.maps && s'.root == s.root
      && OtherRecords(s.recs, s'.recs, NumOfFile(s, p, fd), NumOfFile(s, p, fd))
      && (forall j :: 0 <= j < NR_FILE_DESC && j != d ==> s'.desc[j] == s.desc[j])
      && (forall j :: 0 <= j < NR_INODES && j != k ==> s'.inodes[j] == s.inodes[j])
  {
  }

  predicate WipedOut(r: Record) {
    Value(r.mode) == 0 && Value(r.size) == 0 && Value(r.start) == 0 && Value(r.nrSects) == 0
  }

  // An unlink that succeeds wipes out the record of the file; the size of the
  // root directory changes only if its last entry went, and no other record does.
  lemma UnlinkLeavesRecords(s: Fs, extra: seq<nat>, firstSect: nat, num: nat, newSize: Word, last: bool)
    requires Inv(s, extra, firstSect) && Exists(s.maps.files, num) && SlotOf(s.inodes, num) < NR_INODES
    ensures RootCached(s) && RegularIsFile(s, num)
    ensures
      var r := UnlinkFound(s, num, newSize, last);
      && r.Ret? && Sized(r.fs) && r.fs.root == s.root
      && (r.value != 0 ==> r.fs.recs == s.recs && r.fs.maps == s.maps)
      && (r.value == 0 ==>
            && OtherRecords(s.recs, r.fs.recs, num, ROOT) && WipedOut(r.fs.recs[num - 1])
            && r.fs.recs[ROOT - 1] == s.recs[ROOT - 1].(size := if last then newSize else s.recs[ROOT - 1].size))
  {
    RegularFilesOnly(s, extra, firstSect, num);
    if CanGo(s, num) {
      RootIsCoherent(s, extra, firstSect);
      UnlinkIsWithout(s, extra, firstSect, num, newSize, last);
      WithoutRecords(s, extra, firstSect, num);
      LastEntry(Without(s, num), newSize);
    } else {
      FailedUnlinkKeeps(s, extra, firstSect, num, newSize, last);
    }
  }

  lemma WithoutRecords(s: Fs, extra: seq<nat>, firstSect: nat, num: nat)
    requires Core(s, extra, firstSect) && CanGo(s, num)
    ensures
      var w := Without(s, num);
      && w.root == s.root && w.inodes[w.root].num == ROOT
      && w.inodes[w.root].rec == w.recs[ROOT - 1] == s.recs[ROOT - 1]
      && OtherRecords(s.recs, w.recs, num, num) && WipedOut(w.recs[num - 1])
  {
    RootIsCoherent(s, extra, firstSect);
    SlotFacts(s, extra, s.root);
    assert !Holds(s.inodes[s.root], num);
    ZeroValue();
  }

  lemma LastEntry(w: Fs, newSize: Word)
    requires Sized(w) && w.inodes[w.root].num == ROOT && w.inodes[w.root].rec == w.recs[ROOT - 1]
    ensures
      var s' := SetSize(w, w.root, newSize);
      && s'.root == w.root && OtherRecords(w.recs, s'.recs, ROOT, ROOT)
      && s'.recs[ROOT - 1] == w.recs[ROOT - 1].(size := newSize)
  {
  }
}
