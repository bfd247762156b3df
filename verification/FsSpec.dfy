// The file system as a state machine: inode cache, descriptors, open-file
// tables, inode records on the device and both bitmaps (fs/open.c,
// fs/unlink.c, fs/stat.c, fs/fs.c:225-250).
module FsSpec {
  import opened Bits
  import opened Constants
  import opened Disk
  import opened FsCounts
  import opened InodeDisk
  import Extents

  const ROOT := Extents.ROOT_INODE
  const DIR_ENTRY_SIZE := 16

  // Modes in octal: 0100000, 0040000 and 0020000; I_TYPE_MASK is 0170000.
  const I_REGULAR := ModeWord(Byte(false, false, false, false, false, false, false, true))
  const I_DIRECTORY := ModeWord(Byte(false, false, false, false, false, false, true, false))
  const I_CHAR_SPECIAL := ModeWord(Byte(false, false, false, false, false, true, false, false))
  // 2048, the sectors of a file
  const FILE_SECTS := ModeWord(Byte(false, false, false, true, false, false, false, false))
  const NO_RECORD := Record(ZERO_WORD, ZERO_WORD, ZERO_WORD, ZERO_WORD)
  const ZERO_WORD := Word(ZERO, ZERO, ZERO, ZERO)

  function ModeWord(high: Byte): Word { Word(ZERO, high, ZERO, ZERO) }

  function TypeBits(mode: Word): Word {
    ModeWord(Byte(false, false, false, false, mode.w1.b4, mode.w1.b5, mode.w1.b6, mode.w1.b7))
  }

  // A slot of inode_table; it is free when nobody uses it.
  datatype Inode = Inode(rec: Record, cnt: int, num: nat)

  // recs: the inode array of the device, record of inode num at num - 1.
  datatype Fs = Fs(inodes: seq<Inode>, desc: seq<Desc>, filp: Filp, root: nat, recs: seq<Record>, maps: Extents.Maps)

  // Halt: panic, or an assertion that fails.
  datatype Outcome = Halt | Ret(fs: Fs, value: int)

  // What search_file and strip_path find for a path: nothing, with or without
  // room for one more entry; a path with an inner '/'; or an inode.
  datatype Lookup = Nowhere(room: bool) | Nested | Found(num: nat)

  // ------------------------------------------------------------- searching

  function FirstWhere<T>(s: seq<T>, f: T -> bool): (k: nat)
    ensures k <= |s| && (forall j :: 0 <= j < k ==> !f(s[j])) && (k < |s| ==> f(s[k]))
  {
    if s == [] || f(s[0]) then 0 else 1 + FirstWhere(s[1..], f)
  }

  predicate Holds(x: Inode, num: nat) { x.cnt != 0 && x.num == num }

  predicate IsNil(x: int) { x == NIL }

  predicate IsFreeDesc(x: Desc) { x.inode == NIL }

  predicate IsFreeInode(x: Inode) { x.cnt == 0 }

  // The slot that get_inode answers with; NR_INODES if it panics.
  function SlotOf(inodes: seq<Inode>, num: nat): (k: nat)
    ensures k <= |inodes|
    ensures k < |inodes| ==> Holds(inodes[k], num) || IsFreeInode(inodes[k])
  {
    var live := FirstWhere(inodes, (x: Inode) => Holds(x, num));
    if live < |inodes| then live else FirstWhere(inodes, IsFreeInode)
  }

  // ------------------------------------------------------------ inode cache

  predicate Sized(s: Fs) {
    && Shape(s.filp) && |s.desc| == NR_FILE_DESC && |s.inodes| == NR_INODES && |s.recs| == NR_DISK_INODES
    && s.root < NR_INODES
  }

  // fs/open.c:335-367
  function GetInode(s: Fs, num: nat): (s': Fs)
    requires Sized(s) && IsInode(num) && SlotOf(s.inodes, num) < NR_INODES
    ensures Sized(s')
  {
    var k := SlotOf(s.inodes, num);
    var x := s.inodes[k];
    s.(inodes := s.inodes[k := if Holds(x, num) then x.(cnt := x.cnt + 1) else Inode(s.recs[num - 1], 1, num)])
  }

  // fs/open.c:370-373
  function PutInode(s: Fs, k: nat): (s': Fs)
    requires Sized(s) && k < NR_INODES
    ensures Sized(s')
  {
    s.(inodes := s.inodes[k := s.inodes[k].(cnt := s.inodes[k].cnt - 1)])
  }

  // A slot gets a new record, which sync_inode writes to the device.
  function SetRecord(s: Fs, k: nat, r: Record): (s': Fs)
    requires Sized(s) && k < NR_INODES && IsInode(s.inodes[k].num)
    ensures Sized(s')
  {
    s.(inodes := s.inodes[k := s.inodes[k].(rec := r)], recs := s.recs[s.inodes[k].num - 1 := r])
  }

  function SetSize(s: Fs, k: nat, size: Word): (s': Fs)
    requires Sized(s) && k < NR_INODES && IsInode(s.inodes[k].num)
    ensures Sized(s')
  {
    SetRecord(s, k, s.inodes[k].rec.(size := size))
  }

  // ------------------------------------------------------------------- open

  predicate CanOpen(s: Fs, p: nat)
    requires Sized(s) && p < NR_ALL
  {
    FirstWhere(s.filp[p], IsNil) < NR_FILES && FirstWhere(s.desc, IsFreeDesc) < NR_FILE_DESC
  }

  // fs/open.c:206-210
  function Attach(s: Fs, p: nat, k: nat, flags: set<OpenFlag>): (s': Fs)
    requires Sized(s) && p < NR_ALL && CanOpen(s, p)
    ensures Sized(s')
  {
    var fd, d := FirstWhere(s.filp[p], IsNil), FirstWhere(s.desc, IsFreeDesc);
    s.(filp := SetEntry(s.filp, p, fd, d), desc := s.desc[d := Desc(k, 1, 0, flags)])
  }

  // fs/open.c:74-77
  function FileRecord(startSect: nat): Record {
    Record(I_REGULAR, ZERO_WORD, ToWord(startSect), FILE_SECTS)
  }

  // The sector that bit f of the sector map stands for.
  function SectorOf(f: nat, firstSect: nat): nat
    requires firstSect > 0
  {
    f + firstSect - 1
  }

  // The record of a new file whose extent begins at bit f of the sector map.
  function NewRecord(f: nat, firstSect: nat): Record
    requires firstSect > 0
  {
    FileRecord(SectorOf(f, firstSect))
  }

  // fs/open.c:74-82
  function FillInode(s: Fs, k: nat, num: nat, r: Record): (s': Fs)
    requires Sized(s) && k < NR_INODES && IsInode(num)
    ensures Sized(s')
  {
    s.(inodes := s.inodes[k := Inode(r, 1, num)], recs := s.recs[num - 1 := r])
  }

  // fs/open.c:323-325: both maps, a slot of the cache, the record on the device
  function NewFile(s: Fs, k: nat, firstSect: nat): (s': Fs)
    requires Sized(s) && k < NR_INODES && IsInode(FirstClear(s.maps.inodeMap)) && firstSect > 0
    ensures Sized(s')
  {
    FillInode(s.(maps := Extents.Create(s.maps)), k, FirstClear(s.maps.inodeMap),
              NewRecord(FirstClear(s.maps.sectorMap), firstSect))
  }

  // fs/open.c:110-115: the root directory grows by an entry.
  function AddDirEntry(s: Fs): (s': Fs)
    requires Sized(s) && IsInode(s.inodes[s.root].num)
    ensures Sized(s')
  {
    SetSize(s, s.root, ToWord(Value(s.inodes[s.root].rec.size) + DIR_ENTRY_SIZE))
  }

  // fs/open.c:180-184
  function Truncate(s: Fs, k: nat, flags: set<OpenFlag>): (s': Fs)
    requires Sized(s) && k < NR_INODES && IsInode(s.inodes[k].num)
    ensures Sized(s')
  {
    if O_TRUNC in flags then SetSize(s, k, ZERO_WORD) else s
  }

  // fs/open.c:214-228: the assertions on the file that is opened
  predicate ModeAsserted(x: Inode) {
    var t := TypeBits(x.rec.mode);
    t == I_CHAR_SPECIAL || (if t == I_DIRECTORY then x.num == ROOT else x.rec.mode == I_REGULAR)
  }

  // fs/open.c:180-234, with the file in slot k
  function FinishOpen(s: Fs, p: nat, k: nat, flags: set<OpenFlag>): Outcome
    requires Sized(s) && p < NR_ALL && CanOpen(s, p) && k < NR_INODES && IsInode(s.inodes[k].num)
  {
    var s1 := Truncate(s, k, flags);
    if ModeAsserted(s1.inodes[k]) then Ret(Attach(s1, p, k, flags), FirstWhere(s.filp[p], IsNil)) else Halt
  }

  // The file system holds the root directory all the time.
  predicate RootCached(s: Fs)
    requires Sized(s)
  {
    Holds(s.inodes[s.root], ROOT)
  }

  // With room for another file, the bitmaps give an inode and an extent for it.
  predicate MapsHaveRoom(s: Fs) {
    && FirstClear(s.maps.inodeMap) < NR_DISK_INODES && FirstClear(s.maps.inodeMap) !in {0, ROOT}
    && FirstClear(s.maps.sectorMap) + NR_DEFAULT_FILE_SECTS <= |s.maps.sectorMap|
  }

  // fs/open.c:317-328, in slot k
  function CreateFile(s: Fs, k: nat, firstSect: nat): (s': Fs)
    requires Sized(s) && RootCached(s) && MapsHaveRoom(s) && firstSect > 0
    requires k < NR_INODES && k != s.root
    ensures Sized(s') && IsInode(s'.inodes[k].num)
  {
    AddDirEntry(NewFile(s, k, firstSect))
  }

  function OpenNew(s: Fs, p: nat, room: bool, flags: set<OpenFlag>, firstSect: nat): Outcome
    requires Sized(s) && RootCached(s) && MapsHaveRoom(s) && firstSect > 0 && p < NR_ALL && CanOpen(s, p)
  {
    var k := SlotOf(s.inodes, FirstClear(s.maps.inodeMap));
    if k == NR_INODES || !room then Halt else FinishOpen(CreateFile(s, k, firstSect), p, k, flags)
  }

  function OpenFound(s: Fs, p: nat, num: nat, flags: set<OpenFlag>): Outcome
    requires Sized(s) && p < NR_ALL && CanOpen(s, p) && IsInode(num)
  {
    var k := SlotOf(s.inodes, num);
    if k == NR_INODES then Halt else FinishOpen(GetInode(s, num), p, k, flags)
  }

  // fs/open.c:118-234
  function Open(s: Fs, p: nat, path: Lookup, flags: set<OpenFlag>, firstSect: nat): Outcome
    requires Sized(s) && RootCached(s) && p < NR_ALL && firstSect > 0
    requires (path.Found? ==> IsInode(path.num)) && (path.Nowhere? && O_CREATE in flags ==> MapsHaveRoom(s))
  {
    if !CanOpen(s, p) then Halt
    else match path
      case Nested => if O_CREATE in flags && O_TRUNC in flags then Halt else Ret(s, -1)
      case Nowhere(room) => if O_CREATE in flags then OpenNew(s, p, room, flags, firstSect) else Ret(s, -1)
      case Found(num) =>
        if O_RW !in flags || (O_CREATE in flags && O_TRUNC !in flags) then Ret(s, -1)
        else OpenFound(s, p, num, flags)
  }

  // ------------------------------------------------- close, fork, exit, stat

  predicate IsOpen(s: Fs, p: nat, fd: nat)
    requires Sized(s)
  {
    p < NR_ALL && fd < NR_FILES && IsLive(s.desc, s.filp[p][fd]) && 0 <= s.desc[s.filp[p][fd]].inode < NR_INODES
  }

  // The slot of the inode that an entry leads to.
  function SlotOfFile(s: Fs, p: nat, fd: nat): (k: nat)
    requires Sized(s) && IsOpen(s, p, fd)
    ensures k < NR_INODES
  {
    s.desc[s.filp[p][fd]].inode
  }

  // fs/open.c:237-245: whatever fd_cnt says, the descriptor is free afterwards.
  function Close(s: Fs, p: nat, fd: nat): (s': Fs)
    requires Sized(s) && IsOpen(s, p, fd)
    ensures Sized(s')
  {
    var d := s.filp[p][fd];
    PutInode(s, SlotOfFile(s, p, fd)).(filp := SetEntry(s.filp, p, fd, NIL),
                                       desc := s.desc[d := s.desc[d].(inode := NIL)])
  }

  // fs/fs.c:241-247, for one entry
  function Release(s: Fs, p: nat, fd: nat): (s': Fs)
    requires Sized(s) && IsOpen(s, p, fd)
    ensures Sized(s')
  {
    var d := s.filp[p][fd];
    var x := s.desc[d].(cnt := s.desc[d].cnt - 1);
    PutInode(s, SlotOfFile(s, p, fd)).(filp := SetEntry(s.filp, p, fd, NIL),
                                       desc := s.desc[d := if x.cnt == 0 then x.(inode := NIL) else x])
  }

  function ReleaseEntry(s: Fs, p: nat, fd: nat): (s': Fs)
    requires Sized(s)
    ensures Sized(s')
  {
    if IsOpen(s, p, fd) then Release(s, p, fd) else s
  }

  // Entry from and all behind it, of a process that exits
  function ReleaseFrom(s: Fs, p: nat, from: nat): (s': Fs)
    requires Sized(s) && p < NR_ALL && from <= NR_FILES
    ensures Sized(s')
    decreases NR_FILES - from
  {
    if from == NR_FILES then s else ReleaseFrom(ReleaseEntry(s, p, from), p, from + 1)
  }

  // fs/fs.c:229-231, for one entry that child has copied from parent
  function Share(s: Fs, parent: nat, child: nat, fd: nat): (s': Fs)
    requires Sized(s) && IsOpen(s, parent, fd) && child < NR_ALL
    ensures Sized(s')
  {
    var d, k := s.filp[parent][fd], SlotOfFile(s, parent, fd);
    s.(filp := SetEntry(s.filp, child, fd, d), desc := s.desc[d := s.desc[d].(cnt := s.desc[d].cnt + 1)],
       inodes := s.inodes[k := s.inodes[k].(cnt := s.inodes[k].cnt + 1)])
  }

  function ShareEntry(s: Fs, parent: nat, child: nat, fd: nat): (s': Fs)
    requires Sized(s) && child < NR_ALL
    ensures Sized(s')
  {
    if IsOpen(s, parent, fd) then Share(s, parent, child, fd) else s
  }

  // The first n entries of the parent, shared with its child.
  function ShareUpTo(s: Fs, parent: nat, child: nat, n: nat): (s': Fs)
    requires Sized(s) && parent < NR_ALL && child < NR_ALL && n <= NR_FILES
    ensures Sized(s')
  {
    if n == 0 then s else ShareEntry(ShareUpTo(s, parent, child, n - 1), parent, child, n - 1)
  }

  // fs/stat.c: the value is the size
  function Stat(s: Fs, path: Lookup): Outcome
    requires Sized(s) && (path.Found? ==> IsInode(path.num))
  {
    if !path.Found? then Ret(s, -1)
    else
      var k := SlotOf(s.inodes, path.num);
      if k == NR_INODES then Halt
      else
        var s1 := GetInode(s, path.num);
        Ret(PutInode(s1, k), Value(s1.inodes[k].rec.size))
  }

  // fs/read_write.c:82
  function Move(s: Fs, p: nat, fd: nat, bytes: nat): (s': Fs)
    requires Sized(s) && IsOpen(s, p, fd)
    ensures Sized(s')
  {
    var d := s.filp[p][fd];
    s.(desc := s.desc[d := s.desc[d].(pos := s.desc[d].pos + bytes)])
  }

  // fs/read_write.c:84-87: a file that is written past its end grows.
  function Grow(s: Fs, k: nat, pos: nat): (s': Fs)
    requires Sized(s) && k < NR_INODES && IsInode(s.inodes[k].num)
    ensures Sized(s')
  {
    if pos >= Value(s.inodes[k].rec.size) then SetSize(s, k, ToWord(pos)) else s
  }

  // What a transfer of so many bytes does to the tables.
  function Advance(s: Fs, p: nat, fd: nat, bytes: nat): (s': Fs)
    requires Sized(s) && IsOpen(s, p, fd) && IsInode(s.inodes[SlotOfFile(s, p, fd)].num)
    requires s.desc[s.filp[p][fd]].pos >= 0
    ensures Sized(s')
  {
    Grow(Move(s, p, fd, bytes), SlotOfFile(s, p, fd), s.desc[s.filp[p][fd]].pos + bytes)
  }

  // ----------------------------------------------------------------- unlink

  // fs/unlink.c:64-113: the file in slot k is wiped out.
  function Erase(s: Fs, k: nat): (s': Fs)
    requires Sized(s) && k < NR_INODES && IsInode(s.inodes[k].num) && s.inodes[k].num in s.maps.files
    ensures Sized(s')
  {
    var num := s.inodes[k].num;
    s.(maps := Extents.Unlink(s.maps, num), inodes := s.inodes[k := Inode(NO_RECORD, s.inodes[k].cnt - 1, num)],
       recs := s.recs[num - 1 := NO_RECORD])
  }

  // Only the files that the bitmaps know are regular.
  predicate RegularIsFile(s: Fs, num: nat)
    requires Sized(s) && IsInode(num)
  {
    num !in s.maps.files ==>
      && s.recs[num - 1].mode != I_REGULAR
      && (forall k :: 0 <= k < NR_INODES && Holds(s.inodes[k], num) ==> s.inodes[k].rec.mode != I_REGULAR)
  }

  // fs/unlink.c:23-147.  When the last entry of the directory goes, newSize is
  // the size that the root directory gets.
  function Unlink(s: Fs, path: Lookup, newSize: Word, last: bool): Outcome
    requires Sized(s) && RootCached(s)
    requires path.Found? ==> IsInode(path.num) && RegularIsFile(s, path.num)
  {
    if !path.Found? then Ret(s, -1) else UnlinkFound(s, path.num, newSize, last)
  }

  function UnlinkFound(s: Fs, num: nat, newSize: Word, last: bool): Outcome
    requires Sized(s) && RootCached(s) && IsInode(num) && RegularIsFile(s, num)
  {
    var k := SlotOf(s.inodes, num);
    if k == NR_INODES then Halt
    else
      var s1 := GetInode(s, num);
      if s1.inodes[k].rec.mode != I_REGULAR || s1.inodes[k].cnt > 1 then Ret(s1, -1)
      else
        var s2 := Erase(s1, k);
        Ret(if last then SetSize(s2, s2.root, newSize) else s2, 0)
  }

  // ------------------------------------------------------------------ mount

  function NoFiles(): (row: seq<int>)
    ensures |row| == NR_FILES && forall i :: 0 <= i < NR_FILES ==> row[i] == NIL
  {
    seq(NR_FILES, i => NIL)
  }

  // fs/fs.c:252-281: empty tables, and the root directory in the cache
  function Empty(recs: seq<Record>, maps: Extents.Maps): (s: Fs)
    requires |recs| == NR_DISK_INODES
    ensures Sized(s)
  {
    Fs(seq(NR_INODES, i => Inode(NO_RECORD, 0, 0)), seq(NR_FILE_DESC, i => Desc(NIL, 0, 0, {})),
       seq(NR_ALL, p => NoFiles()), 0, recs, maps)
  }

  function Mounted(recs: seq<Record>, maps: Extents.Maps): Fs
    requires |recs| == NR_DISK_INODES
  {
    var s := Empty(recs, maps);
    if SlotOf(s.inodes, ROOT) < NR_INODES then GetInode(s, ROOT) else s
  }
}
