// What the callers of open, close and of a transfer see.
module FsEffects {
  import opened Bits
  import opened Disk
  import opened Constants
  import opened FsCounts
  import opened FsSpec
  import opened FsInvariant
  import opened FsSteps
  import opened FsRuns
  import opened InodeDisk
  import Extents

  // Entry fd of p is the only one that differs.
  predicate OnlyEntry(s: Fs, s': Fs, p: nat, fd: nat)
    requires Sized(s) && Sized(s')
  {
    forall q, j :: 0 <= q < NR_ALL && 0 <= j < NR_FILES && (q != p || j != fd) ==> s'.filp[q][j] == s.filp[q][j]
  }

  // fd was the first free entry of p and is now a file of its own on inode
  // num, read from the beginning; with O_TRUNC it is empty, in the cache and on
  // the device.
  predicate FreshlyOpened(s: Fs, s': Fs, p: nat, fd: nat, num: nat, flags: set<OpenFlag>)
    requires Sized(s) && Sized(s') && p < NR_ALL && IsInode(num)
  {
    && IsOpen(s', p, fd) && s.filp[p][fd] == NIL && (forall j :: 0 <= j < fd ==> s.filp[p][j] != NIL)
    && NumOfFile(s', p, fd) == num && OnlyEntry(s, s', p, fd)
    && s'.desc[s'.filp[p][fd]] == Desc(SlotOfFile(s', p, fd), 1, 0, flags)
    && (forall q, j :: 0 <= q < NR_ALL && 0 <= j < NR_FILES && (q != p || j != fd) ==> s'.filp[q][j] != s'.filp[p][fd])
    && (O_TRUNC in flags ==>
          s'.inodes[SlotOfFile(s', p, fd)].rec.size == ZERO_WORD && s'.recs[num - 1].size == ZERO_WORD)
  }

  lemma AttachGives(s: Fs, extra: seq<nat>, p: nat, k: nat, flags: set<OpenFlag>)
    requires Counted(s, extra) && p < NR_ALL && CanOpen(s, p) && k < NR_INODES && IsInode(s.inodes[k].num)
    requires O_TRUNC in flags ==> s.inodes[k].rec.size == ZERO_WORD && s.recs[s.inodes[k].num - 1].size == ZERO_WORD
    ensures FreshlyOpened(s, Attach(s, p, k, flags), p, FirstWhere(s.filp[p], IsNil), s.inodes[k].num, flags)
  {
    var fd, d := FirstWhere(s.filp[p], IsNil), FirstWhere(s.desc, IsFreeDesc);
    assert IsNil(s.filp[p][fd]) && IsFreeDesc(s.desc[d]);
    forall q, j | 0 <= q < NR_ALL && 0 <= j < NR_FILES ensures s.filp[q][j] != d {
      assert s.filp[q][j] == NIL || IsLive(s.desc, s.filp[q][j]);
    }
    forall j | 0 <= j < fd ensures s.filp[p][j] != NIL { assert !IsNil(s.filp[p][j]); }
  }

  lemma FinishOpenGives(s: Fs, extra: seq<nat>, firstSect: nat, p: nat, k: nat, flags: set<OpenFlag>)
    requires Core(s, extra, firstSect) && p < NR_ALL && CanOpen(s, p) && k < NR_INODES && s.inodes[k].cnt > 0
    ensures IsInode(s.inodes[k].num)
    ensures
      var r := FinishOpen(s, p, k, flags);
      r.Ret? ==> Sized(r.fs) && r.value >= 0 && FreshlyOpened(s, r.fs, p, r.value, s.inodes[k].num, flags)
  {
    TruncateKeeps(s, extra, firstSect, k, flags);
    AttachGives(Truncate(s, k, flags), extra, p, k, flags);
  }

  // The inode that an open leads to: the one that was found, or a new one.
  function Opened(s: Fs, path: Lookup): nat {
    if path.Found? then path.num else FirstClear(s.maps.inodeMap)
  }

  // Whatever the path, an open that does not fail gives the caller a file of
  // its own on that inode, in its first free entry, and touches no other entry.
  lemma OpenGives(s: Fs, extra: seq<nat>, firstSect: nat, p: nat, path: Lookup, flags: set<OpenFlag>)
    requires Inv(s, extra, firstSect) && p < NR_ALL && !MustHalt(s, p, path, flags)
    requires path.Found? ==> Exists(s.maps.files, path.num)
    requires path.Nowhere? && O_CREATE in flags ==> FreeExtent(s, firstSect)
    ensures RootCached(s) && (path.Nowhere? && O_CREATE in flags ==> MapsHaveRoom(s))
    ensures
      var r := Open(s, p, path, flags, firstSect);
      && r.Ret? && Sized(r.fs)
      && (r.value == -1 <==> path.Nested? || (path.Nowhere? && O_CREATE !in flags)
                             || (path.Found? && (O_RW !in flags || (O_CREATE in flags && O_TRUNC !in flags))))
      && if r.value == -1 then r.fs == s
         else r.value >= 0 && IsInode(Opened(s, path)) && FreshlyOpened(s, r.fs, p, r.value, Opened(s, path), flags)
  {
    OpenKeeps(s, extra, firstSect, p, path, flags);
    match path
    case Nested =>
    case Nowhere(room) => if O_CREATE in flags { OpenNewGives(s, extra, firstSect, p, flags); }
    case Found(num) =>
      if O_RW in flags && (O_CREATE in flags ==> O_TRUNC in flags) {
        OpenFoundGives(s, extra, firstSect, p, num, flags);
      }
  }

  lemma SameTables(s: Fs, s1: Fs, s': Fs, p: nat, fd: nat, num: nat, flags: set<OpenFlag>)
    requires Sized(s) && Sized(s1) && Sized(s') && p < NR_ALL && IsInode(num) && s1.filp == s.filp
    requires fd < NR_FILES && FreshlyOpened(s1, s', p, fd, num, flags)
    ensures FreshlyOpened(s, s', p, fd, num, flags)
  {
  }

  lemma OpenFoundGives(s: Fs, extra: seq<nat>, firstSect: nat, p: nat, num: nat, flags: set<OpenFlag>)
    requires Core(s, extra, firstSect) && p < NR_ALL && CanOpen(s, p) && Exists(s.maps.files, num)
    requires SlotOf(s.inodes, num) < NR_INODES
    ensures
      var r := OpenFound(s, p, num, flags);
      r.Ret? ==> Sized(r.fs) && r.value >= 0 && FreshlyOpened(s, r.fs, p, r.value, num, flags)
  {
    var k, s1 := SlotOf(s.inodes, num), GetInode(s, num);
    GetKeeps(s, extra, firstSect, num);
    SlotFacts(s1, Plus(extra, k), k);
    assert OpenFound(s, p, num, flags) == FinishOpen(s1, p, k, flags) && s1.inodes[k].num == num;
    OpenCreatedGives(s, s1, Plus(extra, k), firstSect, p, k, flags);
  }

  lemma CreatedSlot(s: Fs, extra: seq<nat>, firstSect: nat)
    requires Inv(s, extra, firstSect) && FreeExtent(s, firstSect)
    requires SlotOf(s.inodes, FirstClear(s.maps.inodeMap)) < NR_INODES
    ensures RootCached(s) && MapsHaveRoom(s)
    ensures
      var k := SlotOf(s.inodes, FirstClear(s.maps.inodeMap));
      && k != s.root
      && var s1 := CreateFile(s, k, firstSect);
         && Core(s1, Plus(extra, k), firstSect) && s1.filp == s.filp && s1.desc == s.desc
         && s1.inodes[k].num == FirstClear(s.maps.inodeMap) && s1.inodes[k].cnt == 1
  {
    SlotFacts(s, extra, s.root);
    RoomFacts(s, extra, firstSect);
    CreateFileKeeps(s, extra, firstSect);
  }

  lemma OpenNewGives(s: Fs, extra: seq<nat>, firstSect: nat, p: nat, flags: set<OpenFlag>)
    requires Inv(s, extra, firstSect) && p < NR_ALL && CanOpen(s, p) && FreeExtent(s, firstSect)
    requires SlotOf(s.inodes, FirstClear(s.maps.inodeMap)) < NR_INODES
    ensures RootCached(s) && MapsHaveRoom(s)
    ensures
      var r := OpenNew(s, p, true, flags, firstSect);
      r.Ret? ==> Sized(r.fs) && r.value >= 0 && FreshlyOpened(s, r.fs, p, r.value, FirstClear(s.maps.inodeMap), flags)
  {
    CreatedSlot(s, extra, firstSect);
    var k := SlotOf(s.inodes, FirstClear(s.maps.inodeMap));
    var s1 := CreateFile(s, k, firstSect);
    CreatedThenOpened(s, s1, p, k, flags, firstSect);
    OpenCreatedGives(s, s1, Plus(extra, k), firstSect, p, k, flags);
  }

  lemma CreatedThenOpened(s: Fs, s1: Fs, p: nat, k: nat, flags: set<OpenFlag>, firstSect: nat)
    requires Sized(s) && RootCached(s) && MapsHaveRoom(s) && firstSect > 0 && p < NR_ALL && CanOpen(s, p)
    requires k == SlotOf(s.inodes, FirstClear(s.maps.inodeMap)) && k < NR_INODES && k != s.root
    requires s1 == CreateFile(s, k, firstSect)
    ensures CanOpen(s1, p) && OpenNew(s, p, true, flags, firstSect) == FinishOpen(s1, p, k, flags)
  {
  }

  lemma OpenCreatedGives(s: Fs, s1: Fs, extra: seq<nat>, firstSect: nat, p: nat, k: nat, flags: set<OpenFlag>)
    requires Sized(s) && Core(s1, extra, firstSect) && s1.filp == s.filp && s1.desc == s.desc
    requires p < NR_ALL && CanOpen(s1, p) && k < NR_INODES && s1.inodes[k].cnt > 0
    ensures IsInode(s1.inodes[k].num)
    ensures
      var r := FinishOpen(s1, p, k, flags);
      r.Ret? ==> Sized(r.fs) && r.value >= 0 && FreshlyOpened(s, r.fs, p, r.value, s1.inodes[k].num, flags)
  {
    FinishOpenGives(s1, extra, firstSect, p, k, flags);
    var r := FinishOpen(s1, p, k, flags);
    if r.Ret? { SameTables(s, s1, r.fs, p, r.value, s1.inodes[k].num, flags); }
  }

  // fs/open.c:82, 110: a new file is empty, with its extent reserved.
  lemma NewFileIsEmpty(s: Fs, extra: seq<nat>, firstSect: nat)
    requires Inv(s, extra, firstSect) && FreeExtent(s, firstSect) && MapsHaveRoom(s)
    requires SlotOf(s.inodes, FirstClear(s.maps.inodeMap)) < NR_INODES
    ensures
      var ino := FirstClear(s.maps.inodeMap);
      var s' := NewFile(s, SlotOf(s.inodes, ino), firstSect);
      && ino !in s.maps.files && Intact(s', ino, firstSect) && s'.recs[ino - 1].size == ZERO_WORD
  {
    var ino := FirstClear(s.maps.inodeMap);
    var k := SlotOf(s.inodes, ino);
    RoomFacts(s, extra, firstSect);
    NewFileKeeps(s, extra, firstSect);
    FilesAreIntact(NewFile(s, k, firstSect), Plus(extra, k), firstSect, ino);
  }

  // fs/read_write.c:82-87: the position moves on by what was transferred, and
  // the size, in the cache and on the device, is the greater of the old one and
  // the new position.
  lemma AdvanceGives(s: Fs, p: nat, fd: nat, bytes: nat)
    requires Sized(s) && IsOpen(s, p, fd) && s.desc[s.filp[p][fd]].pos >= 0 && IsInode(NumOfFile(s, p, fd))
    requires s.inodes[SlotOfFile(s, p, fd)].rec == s.recs[NumOfFile(s, p, fd) - 1]
    requires s.desc[s.filp[p][fd]].pos + bytes < Pow2(32)
    ensures
      var s', k, d := Advance(s, p, fd, bytes), SlotOfFile(s, p, fd), s.filp[p][fd];
      var was, pos := Value(s.inodes[k].rec.size), s.desc[d].pos + bytes;
      && s'.filp == s.filp && s'.desc == s.desc[d := s.desc[d].(pos := pos)]
      && Value(s'.inodes[k].rec.size) == (if pos > was then pos else was)
      && s'.recs[NumOfFile(s, p, fd) - 1] == s'.inodes[k].rec
      && s'.inodes[k].rec == s.inodes[k].rec.(size := s'.inodes[k].rec.size)
  {
    GrowGives(Move(s, p, fd, bytes), SlotOfFile(s, p, fd), s.desc[s.filp[p][fd]].pos + bytes);
  }

  lemma GrowGives(s: Fs, k: nat, pos: nat)
    requires Sized(s) && k < NR_INODES && IsInode(s.inodes[k].num) && s.inodes[k].rec == s.recs[s.inodes[k].num - 1]
    requires pos < Pow2(32)
    ensures
      var s', was := Grow(s, k, pos), Value(s.inodes[k].rec.size);
      && s'.filp == s.filp && s'.desc == s.desc && s'.inodes[k].rec == s.inodes[k].rec.(size := s'.inodes[k].rec.size)
      && Value(s'.inodes[k].rec.size) == (if pos > was then pos else was)
      && s'.recs[s.inodes[k].num - 1] == s'.inodes[k].rec
  {
    WordRoundTrip(pos);
  }

  // fs/open.c:237-245: the entry and its descriptor are free and no other entry
  // changes; as many entries as shared the descriptor point at it still.
  lemma CloseGives(s: Fs, extra: seq<nat>, firstSect: nat, p: nat, fd: nat)
    requires Core(s, extra, firstSect) && IsOpen(s, p, fd)
    ensures
      var s', k := Close(s, p, fd), SlotOfFile(s, p, fd);
      && s'.filp[p][fd] == NIL && OnlyEntry(s, s', p, fd) && IsFreeDesc(s'.desc[s.filp[p][fd]])
      && s.inodes[k].cnt > 0 && s'.inodes[k].cnt == s.inodes[k].cnt - 1 && s'.recs == s.recs && s'.maps == s.maps
      && Refs(s'.filp)[s.filp[p][fd]] == s.desc[s.filp[p][fd]].cnt - 1
      && (Points(s'.filp, s.filp[p][fd]) <==> s.desc[s.filp[p][fd]].cnt > 1)
  {
    var s', d := Close(s, p, fd), s.filp[p][fd];
    CountsFacts(s.filp, s.desc, Cnts(s.inodes), extra, d);
    RefsSet(s.filp, p, fd, NIL, d);
    RefsMember(s'.filp, d);
  }
}
