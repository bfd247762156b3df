// The file system over its tables and the device; every call does what the
// state machine of FsSpec says.
module FileServer {
  import opened Bits
  import opened Constants
  import opened Disk
  import opened FsCounts
  import opened FsSpec
  import opened FsInvariant
  import opened FsSteps
  import opened InodeDisk
  import Extents

  lemma SlotFound(inodes: seq<Inode>, num: nat, k: nat)
    requires k < |inodes| && Holds(inodes[k], num) && forall j :: 0 <= j < k ==> !Holds(inodes[j], num)
    ensures SlotOf(inodes, num) == k
  {
  }

  lemma SlotFree(inodes: seq<Inode>, num: nat, k: nat)
    requires forall j :: 0 <= j < |inodes| ==> !Holds(inodes[j], num)
    requires k <= |inodes| && (k < |inodes| ==> IsFreeInode(inodes[k]))
    requires forall j :: 0 <= j < k ==> !IsFreeInode(inodes[j])
    ensures SlotOf(inodes, num) == k
  {
  }

  lemma FirstIs<T>(s: seq<T>, f: T -> bool, k: nat)
    requires k <= |s| && (forall j :: 0 <= j < k ==> !f(s[j])) && (k < |s| ==> f(s[k]))
    ensures FirstWhere(s, f) == k
  {
  }

  lemma FillAfterGet(s: Fs, num: nat, r: Record)
    requires Sized(s) && IsInode(num) && SlotOf(s.inodes, num) < NR_INODES
    ensures
      var k := SlotOf(s.inodes, num);
      FillInode(GetInode(s, num), k, num, r) == FillInode(s, k, num, r)
  {
    var k := SlotOf(s.inodes, num);
    assert GetInode(s, num).inodes[k := Inode(r, 1, num)] == s.inodes[k := Inode(r, 1, num)];
  }

  // Inodes and descriptors with the first i entries shared.
  predicate SharedSoFar(inodes: seq<Inode>, desc: seq<Desc>, s: Fs, parent: nat, child: nat, i: nat)
    requires Sized(s) && parent < NR_ALL && child < NR_ALL && i <= NR_FILES
  {
    inodes == ShareUpTo(s, parent, child, i).inodes && desc == ShareUpTo(s, parent, child, i).desc
  }

  // t' counts one reference more than t, to descriptor d.
  predicate OneShared(t: Fs, t': Fs, d: int)
    requires Sized(t)
  {
    if d == NIL then t'.inodes == t.inodes && t'.desc == t.desc
    else
      && 0 <= d < NR_FILE_DESC && 0 <= t.desc[d].inode < NR_INODES
      && t'.desc == t.desc[d := t.desc[d].(cnt := t.desc[d].cnt + 1)]
      && var k := t.desc[d].inode; t'.inodes == t.inodes[k := t.inodes[k].(cnt := t.inodes[k].cnt + 1)]
  }

  lemma EntryShared(t: Fs, extra: seq<nat>, parent: nat, child: nat, i: nat)
    requires Counted(t, extra) && parent < NR_ALL && child < NR_ALL && i < NR_FILES
    ensures OneShared(t, ShareEntry(t, parent, child, i), t.filp[parent][i])
  {
    EntryIsOpen(t, extra, parent, i);
  }

  // One entry more is shared with the child.
  lemma SharingStep(s: Fs, extra: seq<nat>, firstSect: nat, parent: nat, child: nat, i: nat)
    requires Core(s, extra, firstSect) && parent < NR_ALL && child < NR_ALL && parent != child && i < NR_FILES
    requires Bare(s.filp[child])
    ensures OneShared(ShareUpTo(s, parent, child, i), ShareUpTo(s, parent, child, i + 1), s.filp[parent][i])
  {
    var t := ShareUpTo(s, parent, child, i);
    ForkKeeps(s, extra, firstSect, parent, child, i);
    assert t.filp[parent] == s.filp[parent];
    EntryShared(t, extra, parent, child, i);
  }

  lemma SharingAll(s: Fs, extra: seq<nat>, firstSect: nat, parent: nat, child: nat)
    requires Core(s, extra, firstSect) && parent < NR_ALL && child < NR_ALL && parent != child && Bare(s.filp[child])
    ensures
      var t := ShareUpTo(s, parent, child, NR_FILES);
      t == s.(inodes := t.inodes, desc := t.desc, filp := s.filp[child := s.filp[parent]])
  {
    ForkKeeps(s, extra, firstSect, parent, child, NR_FILES);
    SharingFrame(s, parent, child, NR_FILES);
    assert s.filp[parent][..NR_FILES] + s.filp[child][NR_FILES..] == s.filp[parent];
  }

  lemma {:induction false} SharingFrame(s: Fs, parent: nat, child: nat, n: nat)
    requires Sized(s) && parent < NR_ALL && child < NR_ALL && n <= NR_FILES
    ensures
      var t := ShareUpTo(s, parent, child, n);
      t.root == s.root && t.recs == s.recs && t.maps == s.maps
  {
    if n > 0 { SharingFrame(s, parent, child, n - 1); }
  }

  ghost predicate Exiting(s: Fs, t: Fs, extra: seq<nat>, p: nat, i: nat)
    requires Sized(s) && p < NR_ALL && i <= NR_FILES
  {
    Counted(t, extra) && ReleaseFrom(t, p, i) == ReleaseFrom(s, p, 0)
  }

  lemma ExitingStep(s: Fs, t: Fs, extra: seq<nat>, p: nat, i: nat)
    requires Sized(s) && p < NR_ALL && i < NR_FILES && Exiting(s, t, extra, p, i)
    ensures if t.filp[p][i] == NIL then Exiting(s, t, extra, p, i + 1)
            else IsOpen(t, p, i) && Exiting(s, Release(t, p, i), extra, p, i + 1)
  {
    EntryIsOpen(t, extra, p, i);
    assert ReleaseFrom(t, p, i) == ReleaseFrom(ReleaseEntry(t, p, i), p, i + 1);
    if IsOpen(t, p, i) { ReleaseKeepsCounted(t, extra, p, i); }
  }

  // What the loops of do_unlink rely on.
  predicate Erasable(s: Fs, k: nat, firstSect: nat) {
    && Sized(s) && k < NR_INODES && k != s.root
    && var num := s.inodes[k].num;
    && IsInode(num) && num in s.maps.files && num < NR_DISK_INODES
    && Value(s.inodes[k].rec.start) + 1 == s.maps.files[num] + firstSect
    && s.maps.files[num] + NR_DEFAULT_FILE_SECTS <= |s.maps.sectorMap|
  }

  lemma RegularIsErasable(s: Fs, firstSect: nat, k: nat)
    requires Cached(s, firstSect) && 0 < firstSect <= INSTALL_FIRST_SECTOR && Extents.Inv(s.maps, TarBit(firstSect))
    requires k < NR_INODES && s.inodes[k].cnt != 0 && s.inodes[k].rec.mode == I_REGULAR
    ensures Erasable(s, k, firstSect)
  {
    var num := s.inodes[k].num;
    assert Exists(s.maps.files, num) && RecordOk(s.recs[num - 1], num, s.maps.files, firstSect);
  }

  lemma EraseFacts(s: Fs, extra: seq<nat>, firstSect: nat, num: nat)
    requires Inv(s, extra, firstSect) && Exists(s.maps.files, num) && SlotOf(s.inodes, num) < NR_INODES
    requires GetInode(s, num).inodes[SlotOf(s.inodes, num)].rec.mode == I_REGULAR
    ensures Erasable(GetInode(s, num), SlotOf(s.inodes, num), firstSect)
  {
    GetKeeps(s, extra, firstSect, num);
    RegularIsErasable(GetInode(s, num), firstSect, SlotOf(s.inodes, num));
  }

  lemma UnlinkIs(s: Fs, s1: Fs, num: nat, newSize: Word, last: bool)
    requires Sized(s) && RootCached(s) && IsInode(num) && RegularIsFile(s, num) && SlotOf(s.inodes, num) < NR_INODES
    requires s1 == GetInode(s, num)
    ensures
      var k, r := SlotOf(s.inodes, num), UnlinkFound(s, num, newSize, last);
      if s1.inodes[k].rec.mode != I_REGULAR || s1.inodes[k].cnt > 1 then r == Ret(s1, -1)
      else
        && IsInode(s1.inodes[k].num) && s1.inodes[k].num in s1.maps.files
        && var e := Erase(s1, k);
           IsInode(e.inodes[e.root].num) && r == Ret(if last then SetSize(e, e.root, newSize) else e, 0)
  {
  }

  lemma OpenNewIs(s: Fs, p: nat, k: nat, room: bool, flags: set<OpenFlag>, firstSect: nat)
    requires Sized(s) && RootCached(s) && MapsHaveRoom(s) && firstSect > 0 && p < NR_ALL && CanOpen(s, p)
    requires room && k == SlotOf(s.inodes, FirstClear(s.maps.inodeMap)) && k < NR_INODES && k != s.root
    ensures CanOpen(CreateFile(s, k, firstSect), p)
    ensures OpenNew(s, p, room, flags, firstSect) == FinishOpen(CreateFile(s, k, firstSect), p, k, flags)
    ensures CreateFile(s, k, firstSect).filp == s.filp && CreateFile(s, k, firstSect).desc == s.desc
  {
  }

  lemma CreateIs(s: Fs, s1: Fs, k: nat, firstSect: nat)
    requires Sized(s) && RootCached(s) && MapsHaveRoom(s) && firstSect > 0 && k < NR_INODES
    requires k == SlotOf(s.inodes, FirstClear(s.maps.inodeMap)) && s1 == NewFile(s, k, firstSect)
    ensures k != s.root && Sized(s1) && IsInode(s1.inodes[s1.root].num)
    ensures AddDirEntry(s1) == CreateFile(s, k, firstSect)
  {
  }

  lemma OpenNewFails(s: Fs, p: nat, room: bool, flags: set<OpenFlag>, firstSect: nat)
    requires Sized(s) && RootCached(s) && MapsHaveRoom(s) && firstSect > 0 && p < NR_ALL && CanOpen(s, p)
    requires SlotOf(s.inodes, FirstClear(s.maps.inodeMap)) == NR_INODES || !room
    ensures OpenNew(s, p, room, flags, firstSect) == Halt
  {
  }

  lemma NewFileIs(s: Fs, s1: Fs, k: nat, ino: nat, startSect: nat, firstSect: nat)
    requires Sized(s) && k < NR_INODES && IsInode(ino) && firstSect > 0 && ino == FirstClear(s.maps.inodeMap)
    requires s1 == s.(maps := Extents.Create(s.maps)) && startSect == SectorOf(FirstClear(s.maps.sectorMap), firstSect)
    ensures FillInode(s1, k, ino, FileRecord(startSect)) == NewFile(s, k, firstSect)
  {
  }

  // Nothing in the data area is written.
  twostate predicate DataKept(d: Device)
    requires d.Valid()
    reads d.data
  {
    forall i :: 512 * d.FirstSect() <= i < d.data.Length ==> d.data[i] == old(d.data[i])
  }

  class Server {
    const inodes: array<Inode>
    const desc: array<Desc>
    const filp: array<seq<int>>
    const dev: Device
    const root: nat
    ghost var files: map<nat, nat>

    ghost predicate Valid()
      reads filp
    {
      && dev.Valid() && root < NR_INODES
      && inodes.Length == NR_INODES && desc.Length == NR_FILE_DESC && filp.Length == NR_ALL && Shape(filp[..])
    }

    ghost function View(): (s: Fs)
      requires Valid()
      reads this, inodes, desc, filp, dev.data
      ensures Sized(s)
    {
      Fs(inodes[..], desc[..], filp[..], root, Records(InodeArray(dev)), Extents.Contents(dev, files))
    }

    // fs/fs.c:252-281, on a device that holds a file system
    constructor (dev: Device, ghost files: map<nat, nat>)
      requires dev.Valid()
      modifies dev.fsbuf
      ensures Valid() && this.dev == dev && fresh(inodes) && fresh(desc) && fresh(filp)
      ensures View() == Mounted(Records(InodeArray(dev)), Extents.Contents(dev, files))
    {
      inodes := new Inode[NR_INODES](i => Inode(NO_RECORD, 0, 0));
      desc := new Desc[NR_FILE_DESC](i => Desc(NIL, 0, 0, {}));
      filp := new seq<int>[NR_ALL](p => NoFiles());
      this.dev, this.files, root := dev, files, 0;
      new;
      ghost var s := Empty(Records(InodeArray(dev)), Extents.Contents(dev, files));
      assert inodes[..] == s.inodes && desc[..] == s.desc && filp[..] == s.filp;
      var r := GetInode(ROOT);
    }

    // fs/open.c:335-367; NIL for a panic
    method GetInode(num: nat) returns (r: int)
      requires Valid() && IsInode(num)
      modifies inodes, dev.fsbuf
      ensures r == NIL <==> SlotOf(old(inodes[..]), num) == NR_INODES
      ensures r == NIL ==> View() == old(View())
      ensures r != NIL ==> r == SlotOf(old(inodes[..]), num) && View() == FsSpec.GetInode(old(View()), num)
    {
      var q, p := NIL, 0;
      while p < NR_INODES
        modifies inodes
        invariant inodes[..] == old(inodes[..])
        invariant 0 <= p <= NR_INODES && (forall j :: 0 <= j < p ==> !Holds(inodes[j], num))
        invariant q == NIL ==> forall j :: 0 <= j < p ==> !IsFreeInode(inodes[j])
        invariant q != NIL ==>
          0 <= q < p && IsFreeInode(inodes[q]) && forall j :: 0 <= j < q ==> !IsFreeInode(inodes[j])
      {
        if inodes[p].cnt != 0 {
          if inodes[p].num == num {
            SlotFound(inodes[..], num, p);
            inodes[p] := inodes[p].(cnt := inodes[p].cnt + 1);
            return p;
          }
        } else if q == NIL {
          q := p;
        }
        p := p + 1;
      }
      SlotFree(inodes[..], num, if q == NIL then NR_INODES else q);
      if q == NIL { return NIL; }
      var rec := LoadRecord(dev, num);
      inodes[q] := Inode(rec, 1, num);
      r := q;
    }

    // fs/open.c:370-373
    method PutInode(k: nat)
      requires Valid() && k < NR_INODES && inodes[k].cnt > 0
      modifies inodes
      ensures View() == FsSpec.PutInode(old(View()), k)
    {
      inodes[k] := inodes[k].(cnt := inodes[k].cnt - 1);
    }

    // fs/open.c:376-388
    method SyncInode(k: nat)
      requires Valid() && k < NR_INODES && IsInode(inodes[k].num)
      modifies dev.data, dev.fsbuf
      ensures View() == old(View()).(recs := old(View()).recs[inodes[k].num - 1 := inodes[k].rec])
      ensures DataKept(dev)
    {
      StoreRecord(dev, inodes[k].num, inodes[k].rec);
    }

    method SetSize(k: nat, size: Word)
      requires Valid() && k < NR_INODES && IsInode(inodes[k].num)
      modifies inodes, dev.data, dev.fsbuf
      ensures View() == FsSpec.SetSize(old(View()), k, size)
      ensures DataKept(dev)
    {
      inodes[k] := inodes[k].(rec := inodes[k].rec.(size := size));
      SyncInode(k);
    }

    // ----------------------------------------------------------------- open

    // fs/open.c:132-137
    method FindEntry(p: nat) returns (fd: nat)
      requires Valid() && p < NR_ALL
      ensures fd == FirstWhere(filp[p], IsNil)
    {
      fd := 0;
      while fd < NR_FILES && filp[p][fd] != NIL
        invariant fd <= NR_FILES && forall j :: 0 <= j < fd ==> !IsNil(filp[p][j])
      {
        fd := fd + 1;
      }
      FirstIs(filp[p], IsNil, fd);
    }

    // fs/open.c:142-145
    method FindDesc() returns (d: nat)
      requires Valid()
      ensures d == FirstWhere(desc[..], IsFreeDesc)
    {
      d := 0;
      while d < NR_FILE_DESC && desc[d].inode != NIL
        invariant d <= NR_FILE_DESC && forall j :: 0 <= j < d ==> !IsFreeDesc(desc[j])
      {
        d := d + 1;
      }
      FirstIs(desc[..], IsFreeDesc, d);
    }

    // fs/open.c:206-210
    method Attach(p: nat, fd: nat, d: nat, k: nat, flags: set<OpenFlag>)
      requires Valid() && p < NR_ALL && CanOpen(View(), p)
      requires fd == FirstWhere(filp[p], IsNil) && d == FirstWhere(desc[..], IsFreeDesc)
      modifies filp, desc
      ensures Valid() && View() == FsSpec.Attach(old(View()), p, k, flags)
    {
      filp[p] := filp[p][fd := d];
      desc[d] := Desc(k, 1, 0, flags);
    }

    // fs/open.c:180-234; false for an assertion that fails
    method FinishOpen(p: nat, fd: nat, d: nat, k: nat, flags: set<OpenFlag>) returns (ok: bool)
      requires Valid() && p < NR_ALL && CanOpen(View(), p) && k < NR_INODES && IsInode(inodes[k].num)
      requires fd == FirstWhere(filp[p], IsNil) && d == FirstWhere(desc[..], IsFreeDesc)
      modifies filp, desc, inodes, dev.data, dev.fsbuf
      ensures Valid()
      ensures FsSpec.FinishOpen(old(View()), p, k, flags) == if ok then Ret(View(), fd) else Halt
    {
      ghost var s := View();
      if O_TRUNC in flags {
        SetSize(k, ZERO_WORD);
      }
      assert View() == Truncate(s, k, flags);
      Attach(p, fd, d, k, flags);
      ok := ModeAsserted(inodes[k]);
    }

    // fs/open.c:74-82
    method FillInode(k: nat, num: nat, r: Record)
      requires Valid() && IsInode(num) && k < NR_INODES
      modifies inodes, dev.data, dev.fsbuf
      ensures View() == FsSpec.FillInode(old(View()), k, num, r)
    {
      inodes[k] := Inode(r, 1, num);
      SyncInode(k);
    }

    // fs/open.c:72-85; NIL for a panic
    method NewInode(num: nat, startSect: nat) returns (r: int)
      requires Valid() && IsInode(num)
      modifies inodes, dev.data, dev.fsbuf
      ensures r == NIL <==> SlotOf(old(inodes[..]), num) == NR_INODES
      ensures r != NIL ==> r == SlotOf(old(inodes[..]), num)
      ensures r != NIL ==> View() == FsSpec.FillInode(old(View()), r, num, FileRecord(startSect))
    {
      ghost var s := View();
      r := GetInode(num);
      if r != NIL {
        FillInode(r, num, FileRecord(startSect));
        FillAfterGet(s, num, FileRecord(startSect));
      }
    }

    // fs/open.c:323-324
    method AllocFile() returns (ino: nat, startSect: nat)
      requires Valid() && MapsHaveRoom(View())
      modifies this`files, dev.data, dev.fsbuf
      ensures Valid() && ino == FirstClear(old(View()).maps.inodeMap)
      ensures startSect == SectorOf(FirstClear(old(View()).maps.sectorMap), dev.FirstSect())
      ensures View() == old(View()).(maps := Extents.Create(old(View()).maps))
    {
      ghost var s := View();
      ghost var f, was := FirstClear(s.maps.sectorMap), InodeArray(dev);
      var at;
      ino, at := Extents.CreateOnDisk(dev, files);
      startSect := at;
      files := files[ino := f];
      assert InodeArray(dev) == was && View().maps == Extents.Create(s.maps);
    }

    // fs/open.c:110-115
    method AddDirEntry()
      requires Valid() && IsInode(inodes[root].num)
      modifies inodes, dev.data, dev.fsbuf
      ensures View() == FsSpec.AddDirEntry(old(View()))
    {
      SetSize(root, ToWord(Value(inodes[root].rec.size) + DIR_ENTRY_SIZE));
    }

    // fs/open.c:323-325; NIL for a panic
    method NewFile() returns (r: int)
      requires Valid() && MapsHaveRoom(View())
      modifies this`files, inodes, dev.data, dev.fsbuf
      ensures Valid()
      ensures
        var s := old(View());
        var k := SlotOf(s.inodes, FirstClear(s.maps.inodeMap));
        && (r == NIL <==> k == NR_INODES)
        && (r != NIL ==> r == k && View() == FsSpec.NewFile(s, k, dev.FirstSect()))
    {
      ghost var s := View();
      var ino, startSect := AllocFile();
      ghost var s1 := View();
      r := NewInode(ino, startSect);
      if r != NIL {
        NewFileIs(s, s1, r, ino, startSect, dev.FirstSect());
      }
    }

    // fs/open.c:317-328; NIL for a panic
    method CreateFile(room: bool) returns (r: int)
      requires Valid() && RootCached(View()) && MapsHaveRoom(View())
      modifies this`files, inodes, dev.data, dev.fsbuf
      ensures Valid()
      ensures
        var s := old(View());
        var k := SlotOf(s.inodes, FirstClear(s.maps.inodeMap));
        && (r == NIL <==> k == NR_INODES || !room)
        && (r != NIL ==> r == k && k != root && View() == FsSpec.CreateFile(s, k, dev.FirstSect()))
    {
      ghost var s := View();
      r := NewFile();
      if r == NIL || !room { return NIL; }
      AddEntryFor(r, s);
    }

    // The new inode is in slot k.
    method AddEntryFor(k: nat, ghost s: Fs)
      requires Valid() && Sized(s) && RootCached(s) && MapsHaveRoom(s) && k < NR_INODES
      requires k == SlotOf(s.inodes, FirstClear(s.maps.inodeMap)) && View() == FsSpec.NewFile(s, k, dev.FirstSect())
      modifies inodes, dev.data, dev.fsbuf
      ensures k != s.root && View() == FsSpec.CreateFile(s, k, dev.FirstSect())
    {
      CreateIs(s, View(), k, dev.FirstSect());
      AddDirEntry();
    }

    // fs/open.c:118-234
    method DoOpen(p: nat, path: Lookup, flags: set<OpenFlag>) returns (ok: bool, value: int)
      requires Valid() && RootCached(View()) && p < NR_ALL
      requires (path.Found? ==> IsInode(path.num)) && (path.Nowhere? && O_CREATE in flags ==> MapsHaveRoom(View()))
      modifies this`files, filp, desc, inodes, dev.data, dev.fsbuf
      ensures Valid()
      ensures ok <==> Open(old(View()), p, path, flags, dev.FirstSect()).Ret?
      ensures ok ==> Open(old(View()), p, path, flags, dev.FirstSect()) == Ret(View(), value)
    {
      var fd := FindEntry(p);
      if fd == NR_FILES { return false, -1; }
      var d := FindDesc();
      if d == NR_FILE_DESC { return false, -1; }
      assert CanOpen(View(), p);
      match path
      case Nested =>
        ok, value := !(O_CREATE in flags && O_TRUNC in flags), -1;
      case Nowhere(room) =>
        if O_CREATE !in flags { return true, -1; }
        ok := OpenCreated(p, fd, d, room, flags);
        value := fd;
      case Found(num) =>
        if O_RW !in flags || (O_CREATE in flags && O_TRUNC !in flags) { return true, -1; }
        ok := OpenExisting(p, fd, d, num, flags);
        value := fd;
    }

    method OpenCreated(p: nat, fd: nat, d: nat, room: bool, flags: set<OpenFlag>) returns (ok: bool)
      requires Valid() && RootCached(View()) && p < NR_ALL && CanOpen(View(), p) && MapsHaveRoom(View())
      requires fd == FirstWhere(filp[p], IsNil) && d == FirstWhere(desc[..], IsFreeDesc)
      modifies this`files, filp, desc, inodes, dev.data, dev.fsbuf
      ensures Valid()
      ensures OpenNew(old(View()), p, room, flags, dev.FirstSect()) == if ok then Ret(View(), fd) else Halt
    {
      ghost var s := View();
      var k := CreateFile(room);
      if k == NIL {
        OpenNewFails(s, p, room, flags, dev.FirstSect());
        return false;
      }
      ok := FinishCreated(p, fd, d, k, flags, s, room);
    }

    // The file was created in slot k, from state s.
    method FinishCreated(p: nat, fd: nat, d: nat, k: nat, flags: set<OpenFlag>, ghost s: Fs, ghost room: bool)
      returns (ok: bool)
      requires Valid() && Sized(s) && RootCached(s) && p < NR_ALL && CanOpen(s, p) && MapsHaveRoom(s)
      requires room && k == SlotOf(s.inodes, FirstClear(s.maps.inodeMap)) && k < NR_INODES && k != s.root
      requires View() == FsSpec.CreateFile(s, k, dev.FirstSect())
      requires fd == FirstWhere(s.filp[p], IsNil) && d == FirstWhere(s.desc, IsFreeDesc)
      modifies filp, desc, inodes, dev.data, dev.fsbuf
      ensures Valid()
      ensures OpenNew(s, p, room, flags, dev.FirstSect()) == if ok then Ret(View(), fd) else Halt
    {
      OpenNewIs(s, p, k, room, flags, dev.FirstSect());
      assert View().filp == s.filp && View().desc == s.desc;
      ok := FinishOpen(p, fd, d, k, flags);
    }

    method OpenExisting(p: nat, fd: nat, d: nat, num: nat, flags: set<OpenFlag>) returns (ok: bool)
      requires Valid() && p < NR_ALL && CanOpen(View(), p) && IsInode(num)
      requires fd == FirstWhere(filp[p], IsNil) && d == FirstWhere(desc[..], IsFreeDesc)
      modifies filp, desc, inodes, dev.data, dev.fsbuf
      ensures Valid()
      ensures ok <==> OpenFound(old(View()), p, num, flags).Ret?
      ensures ok ==> OpenFound(old(View()), p, num, flags) == Ret(View(), fd)
    {
      ghost var s := View();
      var k := GetInode(num);
      if k == NIL { return false; }
      ghost var s1 := View();
      assert OpenFound(s, p, num, flags) == FsSpec.FinishOpen(s1, p, k, flags);
      ok := FinishOpen(p, fd, d, k, flags);
    }

    // --------------------------------------------------- close, fork and exit

    // fs/open.c:237-245
    method DoClose(p: nat, fd: nat)
      requires Valid() && IsOpen(View(), p, fd) && inodes[SlotOfFile(View(), p, fd)].cnt > 0
      modifies inodes, desc, filp
      ensures Valid() && View() == Close(old(View()), p, fd)
    {
      var d := filp[p][fd];
      PutInode(desc[d].inode);
      desc[d] := desc[d].(inode := NIL);
      filp[p] := filp[p][fd := NIL];
    }

    // fs/fs.c:241-247
    method Release(p: nat, fd: nat)
      requires Valid() && IsOpen(View(), p, fd)
      modifies inodes, desc, filp
      ensures Valid() && View() == FsSpec.Release(old(View()), p, fd)
    {
      var d := filp[p][fd];
      var k := desc[d].inode;
      inodes[k] := inodes[k].(cnt := inodes[k].cnt - 1);
      desc[d] := desc[d].(cnt := desc[d].cnt - 1);
      if desc[d].cnt == 0 {
        desc[d] := desc[d].(inode := NIL);
      }
      filp[p] := filp[p][fd := NIL];
    }

    // fs/fs.c:237-250
    method FsExit(p: nat, ghost extra: seq<nat>)
      requires Valid() && p < NR_ALL && Counted(View(), extra)
      modifies inodes, desc, filp
      ensures Valid() && View() == ReleaseFrom(old(View()), p, 0)
    {
      ghost var s := View();
      var i := 0;
      while i < NR_FILES
        invariant 0 <= i <= NR_FILES && Valid() && Exiting(s, View(), extra, p, i)
      {
        ExitEntry(p, i, s, extra);
        i := i + 1;
      }
    }

    method ExitEntry(p: nat, i: nat, ghost s: Fs, ghost extra: seq<nat>)
      requires Valid() && Sized(s) && p < NR_ALL && i < NR_FILES && Exiting(s, View(), extra, p, i)
      modifies inodes, desc, filp
      ensures Valid() && Exiting(s, View(), extra, p, i + 1)
    {
      ExitingStep(s, View(), extra, p, i);
      if filp[p][i] != NIL {
        Release(p, i);
      }
    }

    // fs/fs.c:230-231
    method CountShare(d: nat)
      requires Valid() && d < NR_FILE_DESC && 0 <= desc[d].inode < NR_INODES
      modifies inodes, desc
      ensures desc[..] == old(desc[..])[d := old(desc[d]).(cnt := old(desc[d]).cnt + 1)]
      ensures
        var k := old(desc[d].inode);
        inodes[..] == old(inodes[..])[k := old(inodes[k]).(cnt := old(inodes[k]).cnt + 1)]
    {
      var k := desc[d].inode;
      desc[d] := desc[d].(cnt := desc[d].cnt + 1);
      inodes[k] := inodes[k].(cnt := inodes[k].cnt + 1);
    }

    method ForkEntry(child: nat, i: nat, ghost parent: nat, ghost s: Fs, ghost extra: seq<nat>, ghost firstSect: nat)
      requires Valid() && child < NR_ALL && parent < NR_ALL && parent != child && i < NR_FILES
      requires Core(s, extra, firstSect) && Bare(s.filp[child]) && filp[child] == s.filp[parent]
      requires SharedSoFar(inodes[..], desc[..], s, parent, child, i)
      modifies inodes, desc
      ensures SharedSoFar(inodes[..], desc[..], s, parent, child, i + 1)
    {
      ghost var t, t' := ShareUpTo(s, parent, child, i), ShareUpTo(s, parent, child, i + 1);
      SharingStep(s, extra, firstSect, parent, child, i);
      if filp[child][i] != NIL {
        CountShare(filp[child][i]);
      }
      assert inodes[..] == t'.inodes && desc[..] == t'.desc;
    }

    // fs/fs.c:225-235.  The table of the child is a copy of its parent's
    // (mm/forkexit.c:32), which the loop reads; s is the state before the copy.
    method FsFork(child: nat, ghost parent: nat, ghost s: Fs, ghost extra: seq<nat>, ghost firstSect: nat)
      requires Valid() && child < NR_ALL && parent < NR_ALL && parent != child
      requires Core(s, extra, firstSect) && Bare(s.filp[child])
      requires View() == s.(filp := s.filp[child := s.filp[parent]])
      modifies inodes, desc
      ensures View() == ShareUpTo(s, parent, child, NR_FILES)
    {
      var i := 0;
      while i < NR_FILES
        invariant 0 <= i <= NR_FILES && SharedSoFar(inodes[..], desc[..], s, parent, child, i)
      {
        ForkEntry(child, i, parent, s, extra, firstSect);
        i := i + 1;
      }
      ghost var t := ShareUpTo(s, parent, child, NR_FILES);
      SharingAll(s, extra, firstSect, parent, child);
      assert inodes[..] == t.inodes && desc[..] == t.desc && filp[..] == t.filp;
    }

    // -------------------------------------------------------- stat and unlink

    // fs/stat.c:12-44
    method FsStat(path: Lookup) returns (ok: bool, value: int)
      requires Valid() && (path.Found? ==> IsInode(path.num))
      requires path.Found? && SlotOf(inodes[..], path.num) < NR_INODES ==> inodes[SlotOf(inodes[..], path.num)].cnt >= 0
      modifies inodes, dev.fsbuf
      ensures Stat(old(View()), path) == if ok then Ret(View(), value) else Halt
    {
      if !path.Found? { return true, -1; }
      var k := GetInode(path.num);
      if k == NIL { return false, -1; }
      ok, value := true, Value(inodes[k].rec.size);
      PutInode(k);
    }

    // fs/unlink.c:64-105
    method FreeExtent(num: nat, startSect: nat)
      requires Valid() && num in files && num < NR_DISK_INODES && startSect + 1 == files[num] + dev.FirstSect()
      requires files[num] + NR_DEFAULT_FILE_SECTS <= 8 * 512 * dev.smapSects
      modifies this`files, dev.data, dev.fsbuf
      ensures Valid() && View() == old(View()).(maps := Extents.Unlink(old(View()).maps, num))
    {
      ghost var was := InodeArray(dev);
      Extents.UnlinkOnDisk(dev, num, startSect, files);
      files := files - {num};
      assert InodeArray(dev) == was;
    }

    // fs/unlink.c:64-113
    method Erase(k: nat)
      requires Valid() && Erasable(View(), k, dev.FirstSect())
      modifies this`files, inodes, dev.data, dev.fsbuf
      ensures Valid() && View() == FsSpec.Erase(old(View()), k)
    {
      ghost var s := View();
      FreeExtent(inodes[k].num, Value(inodes[k].rec.start));
      inodes[k] := inodes[k].(rec := NO_RECORD);
      SyncInode(k);
      inodes[k] := inodes[k].(cnt := inodes[k].cnt - 1);
      assert inodes[..] == FsSpec.Erase(s, k).inodes;
    }

    // fs/unlink.c:64-146
    method Remove(k: nat, newSize: Word, last: bool)
      requires Valid() && Erasable(View(), k, dev.FirstSect()) && RootCached(View())
      modifies this`files, inodes, dev.data, dev.fsbuf
      ensures Valid()
      ensures
        var e := FsSpec.Erase(old(View()), k);
        View() == if last then FsSpec.SetSize(e, e.root, newSize) else e
    {
      Erase(k);
      if last { SetSize(root, newSize); }
    }

    // fs/unlink.c:23-147
    method DoUnlink(path: Lookup, newSize: Word, last: bool, ghost extra: seq<nat>) returns (ok: bool, value: int)
      requires Valid() && Inv(View(), extra, dev.FirstSect()) && RootCached(View())
      requires path.Found? ==> Exists(files, path.num) && RegularIsFile(View(), path.num)
      modifies this`files, inodes, dev.data, dev.fsbuf
      ensures Valid()
      ensures Unlink(old(View()), path, newSize, last) == if ok then Ret(View(), value) else Halt
    {
      if !path.Found? { return true, -1; }
      ok, value := UnlinkExisting(path.num, newSize, last, extra);
    }

    // fs/unlink.c:52-147
    method UnlinkExisting(num: nat, newSize: Word, last: bool, ghost extra: seq<nat>) returns (ok: bool, value: int)
      requires Valid() && Inv(View(), extra, dev.FirstSect()) && RootCached(View())
      requires Exists(files, num) && RegularIsFile(View(), num)
      modifies this`files, inodes, dev.data, dev.fsbuf
      ensures Valid()
      ensures UnlinkFound(old(View()), num, newSize, last) == if ok then Ret(View(), value) else Halt
    {
      ghost var s := View();
      var k := GetInode(num);
      if k == NIL { return false, -1; }
      ghost var s1 := View();
      UnlinkIs(s, s1, num, newSize, last);
      if inodes[k].rec.mode != I_REGULAR || inodes[k].cnt > 1 { return true, -1; }
      EraseFacts(s, extra, dev.FirstSect(), num);
      Remove(k, newSize, last);
      return true, 0;
    }

    // fs/read_write.c:84-87
    method Grow(k: nat, pos: nat)
      requires Valid() && k < NR_INODES && IsInode(inodes[k].num)
      modifies inodes, dev.data, dev.fsbuf
      ensures View() == FsSpec.Grow(old(View()), k, pos)
      ensures DataKept(dev)
    {
      if pos >= Value(inodes[k].rec.size) {
        SetSize(k, ToWord(pos));
      }
    }
  }
}
