// Every call of the file system keeps the invariant.
module FsSteps {
  import opened Bits
  import opened Disk
  import opened Constants
  import opened FsCounts
  import opened FsSpec
  import opened FsInvariant
  import opened InodeDisk
  import Extents

  // --------------------------------------------------------------- new file

  lemma LargeEnough()
    ensures Pow2(32) > 2 * INSTALL_FIRST_SECTOR
  {
    assert Pow2(8) == 256;
    assert Pow2(16) == 65536;
    assert Pow2(32) >= Pow2(17);
  }

  lemma SmallWord(x: nat)
    requires x <= 2 * INSTALL_FIRST_SECTOR
    ensures Value(ToWord(x)) == x
  {
    LargeEnough();
    WordRoundTrip(x);
  }

  // n zero bits in front multiply by 2^n.
  lemma {:induction false} ShiftedValue(b: seq<bool>, n: nat)
    requires n <= |b| && forall i :: 0 <= i < n ==> !b[i]
    ensures BitsValue(b) == Pow2(n) * BitsValue(b[n..])
  {
    if n == 0 {
      assert b[0..] == b;
    } else {
      var x := BitsValue(b[n..]);
      ShiftedValue(b[1..], n - 1);
      assert b[1..][n - 1..] == b[n..];
      assert BitsValue(b) == 2 * BitsValue(b[1..]) == 2 * (Pow2(n - 1) * x);
    }
  }

  lemma NoBitValue(b: seq<bool>)
    requires forall i :: 0 <= i < |b| ==> !b[i]
    ensures BitsValue(b) == 0
  {
    ShiftedValue(b, |b|);
    assert b[|b|..] == [];
  }

  lemma OneBitValue(b: seq<bool>, n: nat)
    requires n < |b| && forall i :: 0 <= i < |b| ==> (b[i] <==> i == n)
    ensures BitsValue(b) == Pow2(n)
  {
    ShiftedValue(b, n);
    NoBitValue(b[n..][1..]);
  }

  function Bits32(w: Word): (b: seq<bool>)
    ensures |b| == 32 && Value(w) == BitsValue(b)
  {
    ByteBits(w.w0) + ByteBits(w.w1) + ByteBits(w.w2) + ByteBits(w.w3)
  }

  lemma ZeroValue()
    ensures Value(ZERO_WORD) == 0
  {
    NoBitValue(Bits32(ZERO_WORD));
  }

  lemma FileSectsValue()
    ensures Value(FILE_SECTS) == NR_DEFAULT_FILE_SECTS
  {
    OneBitValue(Bits32(FILE_SECTS), 11);
    assert Pow2(11) == NR_DEFAULT_FILE_SECTS;
  }

  // The three kinds of inodes, octal 0100000, 0040000 and 0020000.
  lemma ModeValues()
    ensures Value(I_REGULAR) == 32768 && Value(I_DIRECTORY) == 16384 && Value(I_CHAR_SPECIAL) == 8192
  {
    OneBitValue(Bits32(I_REGULAR), 15);
    OneBitValue(Bits32(I_DIRECTORY), 14);
    OneBitValue(Bits32(I_CHAR_SPECIAL), 13);
    assert Pow2(13) == 8192;
    assert Pow2(14) == 16384;
    assert Pow2(15) == 32768;
  }

  lemma NewRecordOk(f: nat, firstSect: nat, ino: nat, files: map<nat, nat>)
    requires 0 < firstSect && f + firstSect <= INSTALL_FIRST_SECTOR + 1
    requires ino in files && files[ino] == f && ino != ROOT
    ensures RecordOk(NewRecord(f, firstSect), ino, files, firstSect)
  {
    SmallWord(f + firstSect - 1);
  }

  // Inode ino joins: its record is written, and no slot held it before.
  lemma CoherentJoin(inodes: seq<Inode>, recs: seq<Record>, files: map<nat, nat>, k: nat, x: Inode, f: nat)
    requires |recs| == NR_DISK_INODES && Unique(inodes) && Coherent(inodes, recs, files)
    requires k < |inodes| && IsInode(x.num) && !Exists(files, x.num)
    ensures Unique(inodes[k := x])
    ensures Coherent(inodes[k := x], recs[x.num - 1 := x.rec], files[x.num := f])
  {
  }

  lemma RecordsOkJoin(recs: seq<Record>, files: map<nat, nat>, firstSect: nat, num: nat, r: Record, f: nat)
    requires |recs| == NR_DISK_INODES && RecordsOk(recs, files, firstSect)
    requires IsInode(num) && RecordOk(r, num, files[num := f], firstSect)
    ensures RecordsOk(recs[num - 1 := r], files[num := f], firstSect)
  {
    var files', recs' := files[num := f], recs[num - 1 := r];
    forall i | Exists(files', i) ensures RecordOk(recs'[i - 1], i, files', firstSect) {
      if i != num { assert Exists(files, i); }
    }
  }

  predicate FreeExtent(s: Fs, firstSect: nat)
    requires 0 < firstSect <= INSTALL_FIRST_SECTOR
  {
    |Extents.Others(s.maps, TarBit(firstSect))| < Extents.Slots(TarBit(firstSect))
  }

  // What alloc_imap_bit and alloc_smap_bit find.
  lemma RoomFacts(s: Fs, extra: seq<nat>, firstSect: nat)
    requires Inv(s, extra, firstSect) && FreeExtent(s, firstSect)
    ensures
      var ino, f := FirstClear(s.maps.inodeMap), FirstClear(s.maps.sectorMap);
      && MapsHaveRoom(s) && !Exists(s.maps.files, ino) && ino != ROOT
      && f + firstSect <= INSTALL_FIRST_SECTOR + 1 && Extents.Inv(Extents.Create(s.maps), TarBit(firstSect))
  {
    Extents.FreeSlotExists(s.maps, TarBit(firstSect));
    var m := Extents.CreateTakesASlot(s.maps, TarBit(firstSect));
    RoomInMaps(s.maps, TarBit(firstSect), m);
  }

  lemma RoomInMaps(s: Extents.Maps, tarBit: nat, m: nat)
    requires Extents.Inv(s, tarBit) && m < Extents.Slots(tarBit)
    requires FirstClear(s.sectorMap) == Extents.SlotBit(m) && FirstClear(s.inodeMap) < NR_DISK_INODES
    ensures FirstClear(s.inodeMap) !in {0, ROOT, 2, 3, 4} && FirstClear(s.inodeMap) !in s.files
    ensures FirstClear(s.sectorMap) + NR_DEFAULT_FILE_SECTS <= tarBit <= |s.sectorMap|
  {
    var ino := FirstClear(s.inodeMap);
    assert !s.inodeMap[ino];
    assert s.inodeMap[0] && s.inodeMap[ROOT] && s.inodeMap[2] && s.inodeMap[3] && s.inodeMap[4];
  }

  lemma SlotOfNewInode(s: Fs, extra: seq<nat>, firstSect: nat, num: nat)
    requires Core(s, extra, firstSect) && !Exists(s.maps.files, num) && SlotOf(s.inodes, num) < NR_INODES
    ensures
      var k := SlotOf(s.inodes, num);
      s.inodes[k].cnt == 0 && extra[k] == 0 && k != s.root
  {
    SlotFacts(s, extra, SlotOf(s.inodes, num));
  }

  lemma NewFileKeepsCached(s: Fs, firstSect: nat, k: nat)
    requires Cached(s, firstSect) && k < NR_INODES && k != s.root && 0 < firstSect
    requires IsInode(FirstClear(s.maps.inodeMap)) && !Exists(s.maps.files, FirstClear(s.maps.inodeMap))
    requires FirstClear(s.maps.inodeMap) != ROOT && FirstClear(s.maps.sectorMap) + firstSect <= INSTALL_FIRST_SECTOR + 1
    ensures Cached(NewFile(s, k, firstSect), firstSect)
  {
    var ino, f := FirstClear(s.maps.inodeMap), FirstClear(s.maps.sectorMap);
    var r, s' := NewRecord(f, firstSect), NewFile(s, k, firstSect);
    assert Unique(s'.inodes) && Coherent(s'.inodes, s'.recs, s'.maps.files) by {
      CoherentJoin(s.inodes, s.recs, s.maps.files, k, Inode(r, 1, ino), f);
    }
    assert RecordsOk(s'.recs, s'.maps.files, firstSect) by {
      NewRecordOk(f, firstSect, ino, s.maps.files[ino := f]);
      RecordsOkJoin(s.recs, s.maps.files, firstSect, ino, r, f);
    }
  }

  lemma NewFileKeepsCounted(s: Fs, extra: seq<nat>, firstSect: nat, k: nat)
    requires Counted(s, extra) && k < NR_INODES && k != s.root && s.inodes[k].cnt == 0 && extra[k] == 0
    requires 0 < firstSect && IsInode(FirstClear(s.maps.inodeMap))
    ensures Counted(NewFile(s, k, firstSect), Plus(extra, k))
  {
    CountedExtra(s, NewFile(s, k, firstSect), extra, k, 1);
  }

  lemma NewFileKeepsCore(s: Fs, extra: seq<nat>, firstSect: nat)
    requires Core(s, extra, firstSect) && 0 < firstSect
    requires IsInode(FirstClear(s.maps.inodeMap)) && !Exists(s.maps.files, FirstClear(s.maps.inodeMap))
    requires FirstClear(s.maps.inodeMap) != ROOT && FirstClear(s.maps.sectorMap) + firstSect <= INSTALL_FIRST_SECTOR + 1
    requires SlotOf(s.inodes, FirstClear(s.maps.inodeMap)) < NR_INODES
    ensures
      var k := SlotOf(s.inodes, FirstClear(s.maps.inodeMap));
      extra[k] == 0 && k != s.root && Core(NewFile(s, k, firstSect), Plus(extra, k), firstSect)
  {
    var ino := FirstClear(s.maps.inodeMap);
    var k := SlotOf(s.inodes, ino);
    SlotOfNewInode(s, extra, firstSect, ino);
    NewFileKeepsCached(s, firstSect, k);
    NewFileKeepsCounted(s, extra, firstSect, k);
  }

  lemma NewFileKeeps(s: Fs, extra: seq<nat>, firstSect: nat)
    requires Inv(s, extra, firstSect) && FreeExtent(s, firstSect) && MapsHaveRoom(s)
    requires SlotOf(s.inodes, FirstClear(s.maps.inodeMap)) < NR_INODES
    ensures
      var k := SlotOf(s.inodes, FirstClear(s.maps.inodeMap));
      extra[k] == 0 && k != s.root && Inv(NewFile(s, k, firstSect), Plus(extra, k), firstSect)
  {
    RoomFacts(s, extra, firstSect);
    NewFileKeepsCore(s, extra, firstSect);
  }

  // ------------------------------------------------------------------ erase

  lemma CoherentLeave(inodes: seq<Inode>, recs: seq<Record>, files: map<nat, nat>, k: nat, x: Inode)
    requires |recs| == NR_DISK_INODES && Unique(inodes) && Coherent(inodes, recs, files)
    requires k < |inodes| && inodes[k].cnt != 0 && x.cnt == 0 && IsInode(inodes[k].num)
    ensures Unique(inodes[k := x])
    ensures Coherent(inodes[k := x], recs[inodes[k].num - 1 := NO_RECORD], files - {inodes[k].num})
  {
  }

  lemma RecordsOkLeave(recs: seq<Record>, files: map<nat, nat>, firstSect: nat, num: nat)
    requires |recs| == NR_DISK_INODES && RecordsOk(recs, files, firstSect)
    requires IsInode(num) && num !in {2, 3, 4}
    ensures RecordsOk(recs[num - 1 := NO_RECORD], files - {num}, firstSect)
  {
    var files', recs' := files - {num}, recs[num - 1 := NO_RECORD];
    forall i | Exists(files', i) ensures RecordOk(recs'[i - 1], i, files', firstSect) {
      assert i != num && Exists(files, i);
    }
  }

  lemma EraseKeepsCached(s: Fs, firstSect: nat, k: nat)
    requires Cached(s, firstSect) && k < NR_INODES && s.inodes[k].cnt == 1
    requires IsInode(s.inodes[k].num) && s.inodes[k].num in s.maps.files && s.inodes[k].num !in {ROOT, 2, 3, 4}
    ensures Cached(Erase(s, k), firstSect)
  {
    CoherentLeave(s.inodes, s.recs, s.maps.files, k, Inode(NO_RECORD, 0, s.inodes[k].num));
    RecordsOkLeave(s.recs, s.maps.files, firstSect, s.inodes[k].num);
  }

  lemma EraseKeeps(s: Fs, extra: seq<nat>, firstSect: nat, k: nat)
    requires Inv(s, extra, firstSect) && k < NR_INODES && s.inodes[k].cnt == extra[k] == 1
    requires s.inodes[k].num in s.maps.files && s.inodes[k].num != ROOT && IsInode(s.inodes[k].num)
    ensures Inv(Erase(s, k), Minus(extra, k), firstSect)
  {
    Extents.UnlinkKeepsInv(s.maps, TarBit(firstSect), s.inodes[k].num);
    EraseKeepsCached(s, firstSect, k);
    CountedExtra(s, Erase(s, k), extra, k, 0);
  }

  // ------------------------------------------------------------------- open

  lemma ModeOfSlot(s: Fs, firstSect: nat, k: nat)
    requires Cached(s, firstSect) && k < NR_INODES && s.inodes[k].cnt != 0
    ensures IsInode(s.inodes[k].num)
    ensures ROOT in s.maps.files ==> ModeAsserted(s.inodes[k])
  {
    assert Exists(s.maps.files, s.inodes[k].num);
  }

  lemma TruncateKeeps(s: Fs, extra: seq<nat>, firstSect: nat, k: nat, flags: set<OpenFlag>)
    requires Core(s, extra, firstSect) && k < NR_INODES && s.inodes[k].cnt > 0
    ensures IsInode(s.inodes[k].num) && Core(Truncate(s, k, flags), extra, firstSect)
  {
    ModeOfSlot(s, firstSect, k);
    if O_TRUNC in flags { SetSizeKeeps(s, extra, firstSect, k, ZERO_WORD); }
  }

  lemma PlusMinus(extra: seq<nat>, k: nat)
    requires k < |extra|
    ensures Minus(Plus(extra, k), k) == extra
  {
  }

  lemma FinishOpenRuns(s: Fs, firstSect: nat, p: nat, k: nat, flags: set<OpenFlag>)
    requires Cached(s, firstSect) && ROOT in s.maps.files && k < NR_INODES && s.inodes[k].cnt > 0
    requires p < NR_ALL && CanOpen(s, p)
    ensures IsInode(s.inodes[k].num)
    ensures FinishOpen(s, p, k, flags) == Ret(Attach(Truncate(s, k, flags), p, k, flags), FirstWhere(s.filp[p], IsNil))
  {
    ModeOfSlot(s, firstSect, k);
  }

  // Truncation, the assertions on the mode and the tables: none fails.
  lemma FinishOpenKeeps(s: Fs, extra: seq<nat>, firstSect: nat, p: nat, k: nat, flags: set<OpenFlag>)
    requires Core(s, extra, firstSect) && ROOT in s.maps.files
    requires p < NR_ALL && CanOpen(s, p) && Spare(s, extra, k)
    ensures IsInode(s.inodes[k].num) && FinishOpen(s, p, k, flags).Ret?
    ensures Core(FinishOpen(s, p, k, flags).fs, Minus(extra, k), firstSect)
    ensures FinishOpen(s, p, k, flags).fs.maps == s.maps
  {
    SlotFacts(s, extra, k);
    FinishOpenRuns(s, firstSect, p, k, flags);
    TruncateKeeps(s, extra, firstSect, k, flags);
    AttachKeeps(Truncate(s, k, flags), extra, firstSect, p, k, flags);
  }

  // The same after get_inode or new_inode took the reference.
  lemma FinishOpenGivesBack(s: Fs, extra: seq<nat>, firstSect: nat, p: nat, k: nat, flags: set<OpenFlag>)
    requires |extra| == NR_INODES && k < NR_INODES && Core(s, Plus(extra, k), firstSect) && extra[s.root] > 0
    requires ROOT in s.maps.files && p < NR_ALL && CanOpen(s, p)
    ensures IsInode(s.inodes[k].num)
    ensures
      var r := FinishOpen(s, p, k, flags);
      r.Ret? && Core(r.fs, extra, firstSect) && r.fs.maps == s.maps
  {
    FinishOpenKeeps(s, Plus(extra, k), firstSect, p, k, flags);
    PlusMinus(extra, k);
  }

  // Opening halts for want of a slot in one of the tables, or in the one case
  // where it truncates a file that it could not create.
  predicate MustHalt(s: Fs, p: nat, path: Lookup, flags: set<OpenFlag>)
    requires Sized(s) && p < NR_ALL
  {
    || !CanOpen(s, p)
    || (path.Nested? && O_CREATE in flags && O_TRUNC in flags)
    || (path.Nowhere? && O_CREATE in flags
        && (!path.room || SlotOf(s.inodes, FirstClear(s.maps.inodeMap)) == NR_INODES))
    || (path.Found? && O_RW in flags && (O_CREATE in flags ==> O_TRUNC in flags)
        && SlotOf(s.inodes, path.num) == NR_INODES)
  }

  lemma AddDirEntryKeeps(s: Fs, extra: seq<nat>, firstSect: nat)
    requires Core(s, extra, firstSect)
    ensures IsInode(s.inodes[s.root].num) && Core(AddDirEntry(s), extra, firstSect)
    ensures AddDirEntry(s).filp == s.filp && AddDirEntry(s).desc == s.desc && AddDirEntry(s).maps == s.maps
  {
    SlotFacts(s, extra, s.root);
    var size := ToWord(Value(s.inodes[s.root].rec.size) + DIR_ENTRY_SIZE);
    SetSizeKeeps(s, extra, firstSect, s.root, size);
    assert AddDirEntry(s) == SetSize(s, s.root, size);
  }

  lemma CreateFileKeeps(s: Fs, extra: seq<nat>, firstSect: nat)
    requires Inv(s, extra, firstSect) && FreeExtent(s, firstSect) && MapsHaveRoom(s) && RootCached(s)
    requires SlotOf(s.inodes, FirstClear(s.maps.inodeMap)) < NR_INODES
    ensures
      var k := SlotOf(s.inodes, FirstClear(s.maps.inodeMap));
      && k != s.root && Inv(CreateFile(s, k, firstSect), Plus(extra, k), firstSect)
      && CreateFile(s, k, firstSect).filp == s.filp && CreateFile(s, k, firstSect).desc == s.desc
  {
    var k := SlotOf(s.inodes, FirstClear(s.maps.inodeMap));
    NewFileKeeps(s, extra, firstSect);
    AddDirEntryKeeps(NewFile(s, k, firstSect), Plus(extra, k), firstSect);
  }

  lemma OpenNewKeeps(s: Fs, extra: seq<nat>, firstSect: nat, p: nat, flags: set<OpenFlag>)
    requires Inv(s, extra, firstSect) && p < NR_ALL && CanOpen(s, p) && MapsHaveRoom(s) && FreeExtent(s, firstSect)
    requires SlotOf(s.inodes, FirstClear(s.maps.inodeMap)) < NR_INODES && RootCached(s)
    ensures
      var r := OpenNew(s, p, true, flags, firstSect);
      r.Ret? && Inv(r.fs, extra, firstSect)
  {
    var k := SlotOf(s.inodes, FirstClear(s.maps.inodeMap));
    CreateFileKeeps(s, extra, firstSect);
    var s1 := CreateFile(s, k, firstSect);
    assert CanOpen(s1, p) && extra[s1.root] > 0 && ROOT in s1.maps.files;
    FinishOpenGivesBack(s1, extra, firstSect, p, k, flags);
    assert OpenNew(s, p, true, flags, firstSect) == FinishOpen(s1, p, k, flags);
  }

  lemma OpenFoundKeeps(s: Fs, extra: seq<nat>, firstSect: nat, p: nat, num: nat, flags: set<OpenFlag>)
    requires Core(s, extra, firstSect) && ROOT in s.maps.files && p < NR_ALL && CanOpen(s, p)
    requires Exists(s.maps.files, num) && SlotOf(s.inodes, num) < NR_INODES
    ensures
      var r := OpenFound(s, p, num, flags);
      r.Ret? && Core(r.fs, extra, firstSect) && r.fs.maps == s.maps
  {
    GetKeeps(s, extra, firstSect, num);
    FinishOpenGivesBack(GetInode(s, num), extra, firstSect, p, SlotOf(s.inodes, num), flags);
  }

  // fs/open.c:118-234
  lemma OpenKeeps(s: Fs, extra: seq<nat>, firstSect: nat, p: nat, path: Lookup, flags: set<OpenFlag>)
    requires Inv(s, extra, firstSect) && p < NR_ALL && !MustHalt(s, p, path, flags)
    requires path.Found? ==> Exists(s.maps.files, path.num)
    requires path.Nowhere? && O_CREATE in flags ==> FreeExtent(s, firstSect)
    ensures RootCached(s) && (path.Nowhere? && O_CREATE in flags ==> MapsHaveRoom(s))
    ensures
      var r := Open(s, p, path, flags, firstSect);
      r.Ret? && Inv(r.fs, extra, firstSect)
  {
    SlotFacts(s, extra, s.root);
    match path
    case Nested =>
    case Nowhere(room) =>
      if O_CREATE in flags {
        RoomFacts(s, extra, firstSect);
        OpenNewKeeps(s, extra, firstSect, p, flags);
      }
    case Found(num) =>
      if O_RW in flags && (O_CREATE in flags ==> O_TRUNC in flags) {
        OpenFoundKeeps(s, extra, firstSect, p, num, flags);
      }
  }

  lemma OpenHalts(s: Fs, p: nat, path: Lookup, flags: set<OpenFlag>, firstSect: nat)
    requires Sized(s) && RootCached(s) && p < NR_ALL && firstSect > 0
    requires (path.Found? ==> IsInode(path.num)) && (path.Nowhere? && O_CREATE in flags ==> MapsHaveRoom(s))
    requires MustHalt(s, p, path, flags)
    ensures Open(s, p, path, flags, firstSect).Halt?
  {
  }

  // -------------------------------------------------- close, exit and fork

  // do_close frees the descriptor whatever its count says: the counts stay
  // right exactly when nobody shares it.
  lemma CloseKeepsCounts(s: Fs, extra: seq<nat>, p: nat, fd: nat)
    requires Counted(s, extra) && IsOpen(s, p, fd)
    ensures s.desc[s.filp[p][fd]].cnt == 1 ==> Counted(Close(s, p, fd), extra)
    ensures s.desc[s.filp[p][fd]].cnt != 1 ==> forall more :: !Counted(Close(s, p, fd), more)
  {
    var d, k, s' := s.filp[p][fd], SlotOfFile(s, p, fd), Close(s, p, fd);
    if s.desc[d].cnt == 1 {
      CountsFacts(s.filp, s.desc, Cnts(s.inodes), extra, d);
      DropKeepsCounts(s.filp, s.desc, s'.desc, Cnts(s.inodes), extra, p, fd);
      CountsOfUpdate(s.inodes, k, s'.inodes[k]);
    } else {
      SharedEntryDangles(s, extra, p, fd);
    }
  }

  lemma SharedEntryDangles(s: Fs, extra: seq<nat>, p: nat, fd: nat)
    requires Counted(s, extra) && IsOpen(s, p, fd) && s.desc[s.filp[p][fd]].cnt != 1
    ensures !EntriesLive(Close(s, p, fd).filp, Close(s, p, fd).desc)
  {
    var d, s' := s.filp[p][fd], Close(s, p, fd);
    RefsSet(s.filp, p, fd, NIL, d);
    RefsMember(s'.filp, d);
    var q, j :| 0 <= q < |s'.filp| && 0 <= j < |s'.filp[q]| && s'.filp[q][j] == d;
    assert !IsLive(s'.desc, s'.filp[q][j]);
  }

  lemma CloseKeeps(s: Fs, extra: seq<nat>, firstSect: nat, p: nat, fd: nat)
    requires Core(s, extra, firstSect) && IsOpen(s, p, fd) && s.desc[s.filp[p][fd]].cnt == 1
    ensures Core(Close(s, p, fd), extra, firstSect)
  {
    var k := SlotOfFile(s, p, fd);
    CountsFacts(s.filp, s.desc, Cnts(s.inodes), extra, s.filp[p][fd]);
    CloseKeepsCounts(s, extra, p, fd);
    CachedByCounts(s, Close(s, p, fd), firstSect, k);
  }

  lemma EntryIsOpen(s: Fs, extra: seq<nat>, p: nat, fd: nat)
    requires Counted(s, extra) && p < NR_ALL && fd < NR_FILES
    ensures IsOpen(s, p, fd) <==> s.filp[p][fd] != NIL
  {
    if s.filp[p][fd] != NIL {
      assert IsLive(s.desc, s.filp[p][fd]);
      CountsFacts(s.filp, s.desc, Cnts(s.inodes), extra, s.filp[p][fd]);
    }
  }

  lemma SameEntry(filp: Filp, p: nat, i: nat)
    requires p < |filp| && i < |filp[p]|
    ensures SetEntry(filp, p, i, filp[p][i]) == filp
  {
    assert filp[p][i := filp[p][i]] == filp[p];
  }

  lemma ReleaseEntryKeeps(s: Fs, extra: seq<nat>, firstSect: nat, p: nat, fd: nat)
    requires Core(s, extra, firstSect) && p < NR_ALL && fd < NR_FILES
    ensures
      var s' := ReleaseEntry(s, p, fd);
      Core(s', extra, firstSect) && s'.maps == s.maps && s'.filp == SetEntry(s.filp, p, fd, NIL)
  {
    EntryIsOpen(s, extra, p, fd);
    SameEntry(s.filp, p, fd);
    if IsOpen(s, p, fd) { ReleaseKeeps(s, extra, firstSect, p, fd); }
  }

  // A row of open files with all entries from the given one on closed.
  function Emptied(row: seq<int>, from: nat): seq<int>
    requires from <= |row|
  {
    row[..from] + seq(|row| - from, i => NIL)
  }

  lemma EmptiedStep(filp: Filp, p: nat, from: nat)
    requires p < |filp| && from < |filp[p]|
    ensures
      var filp' := SetEntry(filp, p, from, NIL);
      filp'[p := Emptied(filp'[p], from + 1)] == filp[p := Emptied(filp[p], from)]
  {
    assert Emptied(filp[p][from := NIL], from + 1) == Emptied(filp[p], from);
  }

  lemma EmptiedNone(filp: Filp, p: nat)
    requires p < |filp|
    ensures filp[p := Emptied(filp[p], |filp[p]|)] == filp
  {
    assert Emptied(filp[p], |filp[p]|) == filp[p];
  }

  ghost predicate Exited(s: Fs, s': Fs, extra: seq<nat>, firstSect: nat, p: nat, from: nat)
    requires Sized(s) && p < NR_ALL && from <= NR_FILES
  {
    Core(s', extra, firstSect) && s'.maps == s.maps && s'.filp == s.filp[p := Emptied(s.filp[p], from)]
  }

  lemma ExitedStep(s: Fs, t: Fs, s': Fs, extra: seq<nat>, firstSect: nat, p: nat, from: nat)
    requires Sized(s) && Sized(t) && p < NR_ALL && from < NR_FILES
    requires t.filp == SetEntry(s.filp, p, from, NIL) && t.maps == s.maps
    requires Exited(t, s', extra, firstSect, p, from + 1)
    ensures Exited(s, s', extra, firstSect, p, from)
  {
    EmptiedStep(s.filp, p, from);
  }

  // fs/fs.c:237-250: with from == 0, the process has no file open any more.
  lemma {:induction false} ExitKeeps(s: Fs, extra: seq<nat>, firstSect: nat, p: nat, from: nat)
    requires Core(s, extra, firstSect) && p < NR_ALL && from <= NR_FILES
    ensures Exited(s, ReleaseFrom(s, p, from), extra, firstSect, p, from)
    decreases NR_FILES - from
  {
    if from < NR_FILES {
      ReleaseEntryKeeps(s, extra, firstSect, p, from);
      var t := ReleaseEntry(s, p, from);
      ExitKeeps(t, extra, firstSect, p, from + 1);
      ExitedStep(s, t, ReleaseFrom(t, p, from + 1), extra, firstSect, p, from);
    } else {
      EmptiedNone(s.filp, p);
    }
  }

  lemma ShareEntryKeeps(s: Fs, extra: seq<nat>, firstSect: nat, parent: nat, child: nat, fd: nat)
    requires Core(s, extra, firstSect) && parent < NR_ALL && child < NR_ALL && fd < NR_FILES && s.filp[child][fd] == NIL
    ensures
      var s' := ShareEntry(s, parent, child, fd);
      Core(s', extra, firstSect) && s'.maps == s.maps && s'.filp == SetEntry(s.filp, child, fd, s.filp[parent][fd])
  {
    EntryIsOpen(s, extra, parent, fd);
    SameEntry(s.filp, child, fd);
    if IsOpen(s, parent, fd) { ShareKeeps(s, extra, firstSect, parent, child, fd); }
  }

  // The tables with the first n files of a parent given to a child that has
  // none open.
  function Inherited(filp: Filp, parent: nat, child: nat, n: nat): Filp
    requires Shape(filp) && parent < NR_ALL && child < NR_ALL && n <= NR_FILES
  {
    filp[child := filp[parent][..n] + filp[child][n..]]
  }

  lemma InheritedStep(filp: Filp, parent: nat, child: nat, n: nat)
    requires Shape(filp) && parent < NR_ALL && child < NR_ALL && parent != child && n < NR_FILES
    ensures
      var filp' := Inherited(filp, parent, child, n);
      && Shape(filp') && filp'[child][n] == filp[child][n]
      && SetEntry(filp', child, n, filp'[parent][n]) == Inherited(filp, parent, child, n + 1)
  {
    var a, b := filp[parent], filp[child];
    assert (a[..n] + b[n..])[n := a[n]] == a[..n + 1] + b[n + 1..];
  }

  lemma InheritedNone(filp: Filp, parent: nat, child: nat)
    requires Shape(filp) && parent < NR_ALL && child < NR_ALL
    ensures Inherited(filp, parent, child, 0) == filp
  {
    assert filp[parent][..0] + filp[child][0..] == filp[child];
  }

  ghost predicate Forked(s: Fs, s': Fs, extra: seq<nat>, firstSect: nat, parent: nat, child: nat, n: nat)
    requires Sized(s) && parent < NR_ALL && child < NR_ALL && n <= NR_FILES
  {
    Core(s', extra, firstSect) && s'.maps == s.maps && s'.filp == Inherited(s.filp, parent, child, n)
  }

  predicate Bare(row: seq<int>) {
    |row| == NR_FILES && forall i :: 0 <= i < NR_FILES ==> row[i] == NIL
  }

  lemma ForkedNone(s: Fs, extra: seq<nat>, firstSect: nat, parent: nat, child: nat)
    requires Core(s, extra, firstSect) && parent < NR_ALL && child < NR_ALL
    ensures Forked(s, ShareUpTo(s, parent, child, 0), extra, firstSect, parent, child, 0)
  {
    InheritedNone(s.filp, parent, child);
    assert ShareUpTo(s, parent, child, 0) == s;
  }

  lemma ForkedStep(s: Fs, t: Fs, t': Fs, extra: seq<nat>, firstSect: nat, parent: nat, child: nat, n: nat)
    requires Sized(s) && parent < NR_ALL && child < NR_ALL && parent != child && 0 < n <= NR_FILES
    requires Bare(s.filp[child])
    requires Sized(t) && t' == ShareEntry(t, parent, child, n - 1)
    ensures Forked(s, t, extra, firstSect, parent, child, n - 1) ==> Forked(s, t', extra, firstSect, parent, child, n)
  {
    if Forked(s, t, extra, firstSect, parent, child, n - 1) {
      InheritedStep(s.filp, parent, child, n - 1);
      ShareEntryKeeps(t, extra, firstSect, parent, child, n - 1);
    }
  }

  lemma ForkedNext(s: Fs, extra: seq<nat>, firstSect: nat, parent: nat, child: nat, n: nat)
    requires Sized(s) && parent < NR_ALL && child < NR_ALL && parent != child && 0 < n <= NR_FILES
    requires Bare(s.filp[child])
    ensures Forked(s, ShareUpTo(s, parent, child, n - 1), extra, firstSect, parent, child, n - 1)
        ==> Forked(s, ShareUpTo(s, parent, child, n), extra, firstSect, parent, child, n)
  {
    var t, t' := ShareUpTo(s, parent, child, n - 1), ShareUpTo(s, parent, child, n);
    ForkedStep(s, t, t', extra, firstSect, parent, child, n);
  }

  // fs/fs.c:225-235: with n == NR_FILES, the child has the same files open as
  // its parent.
  lemma {:induction false} ForkKeeps(s: Fs, extra: seq<nat>, firstSect: nat, parent: nat, child: nat, n: nat)
    requires Core(s, extra, firstSect) && parent < NR_ALL && child < NR_ALL && parent != child && n <= NR_FILES
    requires Bare(s.filp[child])
    ensures Forked(s, ShareUpTo(s, parent, child, n), extra, firstSect, parent, child, n)
  {
    ForkedNone(s, extra, firstSect, parent, child);
    if n > 0 {
      assert Forked(s, ShareUpTo(s, parent, child, n - 1), extra, firstSect, parent, child, n - 1) by {
        ForkKeeps(s, extra, firstSect, parent, child, n - 1);
      }
      ForkedNext(s, extra, firstSect, parent, child, n);
    }
  }

  // --------------------------------------------------------- stat, transfer

  // fs/stat.c: what stat answers is the size on the device; the references
  // are as before.
  lemma StatKeeps(s: Fs, extra: seq<nat>, firstSect: nat, num: nat)
    requires Core(s, extra, firstSect) && Exists(s.maps.files, num)
    ensures
      var r := Stat(s, Found(num));
      && (r.Halt? <==> SlotOf(s.inodes, num) == NR_INODES)
      && (r.Ret? ==> Core(r.fs, extra, firstSect) && r.fs.maps == s.maps && r.value == Value(s.recs[num - 1].size))
  {
    var k := SlotOf(s.inodes, num);
    if k < NR_INODES {
      GetKeeps(s, extra, firstSect, num);
      PutKeeps(GetInode(s, num), Plus(extra, k), firstSect, k);
      PlusMinus(extra, k);
    }
  }

  lemma PositionKeeps(s: Fs, s': Fs, extra: seq<nat>, firstSect: nat, d: nat)
    requires Core(s, extra, firstSect) && d < NR_FILE_DESC == |s'.desc|
    requires s' == s.(desc := s.desc[d := s.desc[d].(pos := s'.desc[d].pos)])
    ensures Core(s', extra, firstSect)
  {
    forall k | 0 <= k < NR_INODES ensures Reaching(s'.desc, Refs(s.filp), k) == Reaching(s.desc, Refs(s.filp), k) {
      ReachingSame(s.desc, s'.desc, Refs(s.filp), Refs(s.filp), k);
    }
  }

  lemma MoveKeeps(s: Fs, extra: seq<nat>, firstSect: nat, p: nat, fd: nat, bytes: nat)
    requires Core(s, extra, firstSect) && IsOpen(s, p, fd)
    ensures Core(Move(s, p, fd, bytes), extra, firstSect) && s.inodes[SlotOfFile(s, p, fd)].cnt > 0
  {
    CountsFacts(s.filp, s.desc, Cnts(s.inodes), extra, s.filp[p][fd]);
    PositionKeeps(s, Move(s, p, fd, bytes), extra, firstSect, s.filp[p][fd]);
  }

  lemma GrowKeeps(s: Fs, extra: seq<nat>, firstSect: nat, k: nat, pos: nat)
    requires Core(s, extra, firstSect) && k < NR_INODES && s.inodes[k].cnt > 0
    ensures IsInode(s.inodes[k].num) && Core(Grow(s, k, pos), extra, firstSect) && Grow(s, k, pos).maps == s.maps
  {
    SetSizeKeeps(s, extra, firstSect, k, ToWord(pos));
  }

  // fs/read_write.c:82-87
  lemma AdvanceKeeps(s: Fs, extra: seq<nat>, firstSect: nat, p: nat, fd: nat, bytes: nat)
    requires Core(s, extra, firstSect) && IsOpen(s, p, fd) && s.desc[s.filp[p][fd]].pos >= 0
    ensures IsInode(s.inodes[SlotOfFile(s, p, fd)].num)
    ensures Core(Advance(s, p, fd, bytes), extra, firstSect) && Advance(s, p, fd, bytes).maps == s.maps
  {
    MoveKeeps(s, extra, firstSect, p, fd, bytes);
    var s1, k, pos := Move(s, p, fd, bytes), SlotOfFile(s, p, fd), s.desc[s.filp[p][fd]].pos + bytes;
    GrowKeeps(s1, extra, firstSect, k, pos);
    assert Advance(s, p, fd, bytes) == Grow(s1, k, pos);
  }
}
