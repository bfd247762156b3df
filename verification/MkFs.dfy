// mkfs: the maps and the first records of a new file system (fs/fs.c:111-208).
module MkFs {
  import opened Bits
  import opened Disk
  import opened Constants
  import opened FsCounts
  import opened FsSpec
  import opened FsInvariant
  import opened FsSteps
  import opened FsRuns
  import opened FsRecords
  import opened InodeDisk
  import Extents

  const NR_CONSOLES := 3

  // fs/fs.c:188-207
  function FirstRecord(num: nat, firstSect: nat): Record
    requires num > 0
  {
    if num == ROOT then Record(I_DIRECTORY, ToWord(DIR_ENTRY_SIZE * 5), ToWord(firstSect), FILE_SECTS)
    else if num == Extents.TAR_INODE then
      Record(I_REGULAR, ToWord(NR_DEFAULT_FILE_SECTS * 512), ToWord(INSTALL_FIRST_SECTOR), FILE_SECTS)
    else Record(I_CHAR_SPECIAL, ZERO_WORD, ToWord(num - 2), ZERO_WORD)
  }

  function FirstFiles(firstSect: nat): map<nat, nat>
    requires firstSect <= INSTALL_FIRST_SECTOR
  {
    map[ROOT := Extents.SlotBit(0), Extents.TAR_INODE := TarBit(firstSect)]
  }

  // A record is right whatever its size says.
  lemma PlacedRecordOk(r: Record, num: nat, start: nat, files: map<nat, nat>, firstSect: nat)
    requires num in files && start + 1 == files[num] + firstSect && start <= INSTALL_FIRST_SECTOR
    requires r == Record(if num == ROOT then I_DIRECTORY else I_REGULAR, r.size, ToWord(start), FILE_SECTS)
    ensures RecordOk(r, num, files, firstSect)
  {
    SmallWord(start);
  }

  lemma FirstRecordsOk(recs: seq<Record>, firstSect: nat)
    requires |recs| == NR_DISK_INODES && 0 < firstSect <= INSTALL_FIRST_SECTOR
    requires forall num :: 1 <= num <= 5 ==> recs[num - 1] == FirstRecord(num, firstSect)
    ensures RecordsOk(recs, FirstFiles(firstSect), firstSect)
  {
    var files := FirstFiles(firstSect);
    forall num | Exists(files, num) ensures RecordOk(recs[num - 1], num, files, firstSect) {
      var r := recs[num - 1];
      assert 1 <= num <= 5 && r == FirstRecord(num, firstSect);
      if num == ROOT {
        PlacedRecordOk(r, num, firstSect, files, firstSect);
      } else if num == Extents.TAR_INODE {
        PlacedRecordOk(r, num, INSTALL_FIRST_SECTOR, files, firstSect);
      } else {
        assert num in {2, 3, 4} && r.mode == I_CHAR_SPECIAL;
      }
    }
  }

  // Size in bytes, first sector or device, and sectors, of the root directory
  // (inode 1), the three terminals, and cmd.tar (inode 5).
  predicate Numbers(r: Record, num: nat, firstSect: nat) {
    && Value(r.size) == (if num == 1 then 80 else if num == 5 then 1048576 else 0)
    && Value(r.start) == (if num == 1 then firstSect else if num == 5 then 0x8000 else num - 2)
    && Value(r.nrSects) == (if num == 1 || num == 5 then 2048 else 0)
  }

  predicate FirstNumbers(recs: seq<Record>, firstSect: nat) {
    && |recs| == NR_DISK_INODES
    && forall num {:trigger Numbers(recs[num - 1], num, firstSect)} :: 1 <= num <= 5 ==>
         Numbers(recs[num - 1], num, firstSect)
  }

  lemma {:induction false} Pow2Grows(a: nat, b: nat)
    requires a <= b
    ensures Pow2(a) <= Pow2(b)
  {
    if a < b { Pow2Grows(a, b - 1); }
  }

  lemma MillionFits()
    ensures Pow2(32) > 1048576
  {
    Pow2Grows(24, 32);
    assert Pow2(8) == 256;
    assert Pow2(16) == 65536;
    Pow2Twice(16, 4);
    Pow2Twice(20, 4);
  }

  lemma {:induction false} Pow2Twice(a: nat, b: nat)
    ensures Pow2(a + b) == Pow2(a) * Pow2(b)
  {
    if b > 0 { Pow2Twice(a, b - 1); }
  }

  lemma WordIs(w: Word, x: nat)
    requires w == ToWord(x) && x <= 1048576
    ensures Value(w) == x
  {
    MillionFits();
    WordRoundTrip(x);
  }

  lemma RootNumbers(r: Record, firstSect: nat)
    requires r == FirstRecord(ROOT, firstSect) && firstSect <= INSTALL_FIRST_SECTOR
    ensures Numbers(r, 1, firstSect)
  {
    WordIs(r.size, DIR_ENTRY_SIZE * 5);
    WordIs(r.start, firstSect);
    FileSectsValue();
  }

  lemma TerminalNumbers(r: Record, num: nat, firstSect: nat)
    requires num in {2, 3, 4} && r == FirstRecord(num, firstSect)
    ensures Numbers(r, num, firstSect)
  {
    ZeroValue();
    WordIs(r.start, num - 2);
  }

  lemma TarNumbers(r: Record, firstSect: nat)
    requires r == FirstRecord(Extents.TAR_INODE, firstSect)
    ensures Numbers(r, 5, firstSect)
  {
    WordIs(r.size, NR_DEFAULT_FILE_SECTS * 512);
    WordIs(r.start, INSTALL_FIRST_SECTOR);
    FileSectsValue();
  }

  lemma FirstNumbersOk(recs: seq<Record>, firstSect: nat)
    requires |recs| == NR_DISK_INODES && 0 < firstSect <= INSTALL_FIRST_SECTOR
    requires forall num :: 1 <= num <= 5 ==> recs[num - 1] == FirstRecord(num, firstSect)
    ensures FirstNumbers(recs, firstSect)
  {
    forall num {:trigger Numbers(recs[num - 1], num, firstSect)} | 1 <= num <= 5
      ensures Numbers(recs[num - 1], num, firstSect)
    {
      var r := recs[num - 1];
      assert r == FirstRecord(num, firstSect);
      if num == 1 { RootNumbers(r, firstSect); } else if num == 5 { TarNumbers(r, firstSect); }
      else { TerminalNumbers(r, num, firstSect); }
    }
  }

  lemma RoomAfterMount(recs: seq<Record>, maps: Extents.Maps, num: nat)
    requires |recs| == NR_DISK_INODES && SlotOf(Empty(recs, maps).inodes, ROOT) == 0
    ensures
      var s := Mounted(recs, maps);
      Sized(s) && SlotOf(s.inodes, num) < NR_INODES && s.maps == maps && s.recs == recs
  {
    assert IsFreeInode(Mounted(recs, maps).inodes[1]);
  }

  lemma StatAfterMount(s: Fs, recs: seq<Record>, maps: Extents.Maps, firstSect: nat, num: nat)
    requires |recs| == NR_DISK_INODES && s == Mounted(recs, maps) && 0 < firstSect <= INSTALL_FIRST_SECTOR
    requires RecordsOk(recs, maps.files, firstSect) && Extents.Inv(maps, TarBit(firstSect)) && Exists(maps.files, num)
    ensures Sized(s) && Stat(s, Found(num)).Ret? && Stat(s, Found(num)).value == Value(recs[num - 1].size)
  {
    MountKeeps(recs, maps, firstSect);
    RoomAfterMount(recs, maps, num);
    StatKeeps(s, OnlyRoot(), firstSect, num);
  }

  // What stat answers for each of them once the device is mounted.
  lemma FirstStats(s: Fs, recs: seq<Record>, maps: Extents.Maps, firstSect: nat, num: nat)
    requires 0 < firstSect <= INSTALL_FIRST_SECTOR && FirstNumbers(recs, firstSect) && s == Mounted(recs, maps)
    requires RecordsOk(recs, maps.files, firstSect) && Extents.Inv(maps, TarBit(firstSect))
    requires maps.files == FirstFiles(firstSect) && 1 <= num <= 5
    ensures Sized(s) && Stat(s, Found(num)).Ret?
    ensures Stat(s, Found(num)).value == if num == 1 then 80 else if num == 5 then 1048576 else 0
  {
    assert Exists(maps.files, num);
    StatAfterMount(s, recs, maps, firstSect, num);
    assert Numbers(recs[num - 1], num, firstSect);
  }

  // The buffer holds the records of the inodes below n.
  predicate HoldsRecords(b: seq<Byte>, n: nat, firstSect: nat)
    requires n <= 16 && |b| >= 512
  {
    forall num :: 1 <= num < n ==> RecordAt(b, 32 * (num - 1)) == FirstRecord(num, firstSect)
  }

  method PutFirst(d: Device, num: nat)
    requires d.Valid() && 0 < num < 16 && HoldsRecords(d.fsbuf[..], num, d.FirstSect())
    modifies d.fsbuf
    ensures HoldsRecords(d.fsbuf[..], num + 1, d.FirstSect())
  {
    ghost var was := d.fsbuf[..];
    PutRecord(d.fsbuf, 32 * (num - 1), FirstRecord(num, d.FirstSect()));
    OneRecordMore(was, d.fsbuf[..], num, d.FirstSect());
  }

  lemma OneRecordMore(was: seq<Byte>, now: seq<Byte>, num: nat, firstSect: nat)
    requires 0 < num < 16 && |was| == |now| >= 512 && HoldsRecords(was, num, firstSect)
    requires RecordAt(now, 32 * (num - 1)) == FirstRecord(num, firstSect)
    requires forall i :: 0 <= i < 32 * (num - 1) ==> now[i] == was[i]
    ensures HoldsRecords(now, num + 1, firstSect)
  {
    forall m | 1 <= m < num ensures RecordAt(now, 32 * (m - 1)) == FirstRecord(m, firstSect) {
      RecordKept(was, now, 32 * (m - 1));
    }
  }

  lemma RecordKept(was: seq<Byte>, now: seq<Byte>, at: nat)
    requires at + 16 <= |was| == |now| && forall i :: at <= i < at + 16 ==> now[i] == was[i]
    ensures RecordAt(now, at) == RecordAt(was, at)
  {
  }

  // The sector in the buffer, record by record (fs/fs.c:188-207).
  method FillFirstRecords(d: Device)
    requires d.Valid()
    modifies d.fsbuf
    ensures HoldsRecords(d.fsbuf[..], 6, d.FirstSect())
  {
    forall j | 0 <= j < 512 {
      d.fsbuf[j] := ZERO;
    }
    PutFirst(d, ROOT);
    var i := 0;
    while i < NR_CONSOLES
      invariant 0 <= i <= NR_CONSOLES && HoldsRecords(d.fsbuf[..], i + 2, d.FirstSect())
    {
      PutFirst(d, i + 2);
      i := i + 1;
    }
    PutFirst(d, NR_CONSOLES + 2);
  }

  // fs/fs.c:187-208
  method MakeRecords(d: Device)
    requires d.Valid() && d.FirstSect() <= INSTALL_FIRST_SECTOR
    modifies d.data, d.fsbuf
    ensures forall i :: 0 <= i < d.data.Length && !(512 * d.InodeBlk0() <= i < 512 * d.InodeBlk0() + 512) ==>
      d.data[i] == old(d.data[i])
    ensures RecordsOk(Records(InodeArray(d)), FirstFiles(d.FirstSect()), d.FirstSect())
    ensures FirstNumbers(Records(InodeArray(d)), d.FirstSect())
  {
    FillFirstRecords(d);
    ghost var b := d.fsbuf[..];
    d.WriteSectors(d.InodeBlk0(), 512);
    forall num | 1 <= num <= 5 ensures Records(InodeArray(d))[num - 1] == FirstRecord(num, d.FirstSect()) {
      FirstSectorRecord(d.data[..], b, 512 * d.InodeBlk0(), 512 * d.FirstSect(), 32 * (num - 1));
    }
    FirstRecordsOk(Records(InodeArray(d)), d.FirstSect());
    FirstNumbersOk(Records(InodeArray(d)), d.FirstSect());
  }

  lemma FirstSectorRecord(data: seq<Byte>, b: seq<Byte>, lo: nat, hi: nat, off: nat)
    requires lo + 512 <= hi <= |data| && 512 <= |b| && off + 16 <= 512
    requires forall i :: lo <= i < lo + 512 ==> data[i] == b[i - lo]
    ensures RecordAt(data[lo..hi], off) == RecordAt(b, off)
  {
    CopiedSlice(data, b, lo, off);
    SliceOfSlice(data, lo, hi, off);
    SameRecord(data[lo..hi], off, b, off);
  }

  // The file system that mkfs leaves is one to mount.
  method MakeFileSystem(d: Device)
    requires d.Valid() && INSTALL_FIRST_SECTOR >= d.FirstSect() + NR_DEFAULT_FILE_SECTS
    requires INSTALL_FIRST_SECTOR + 1 - d.FirstSect() + NR_DEFAULT_FILE_SECTS < 8 * 512 * d.smapSects
    modifies d.data, d.fsbuf
    ensures
      var recs, maps := Records(InodeArray(d)), Extents.Contents(d, FirstFiles(d.FirstSect()));
      && RecordsOk(recs, maps.files, d.FirstSect()) && Extents.Inv(maps, TarBit(d.FirstSect()))
      && Inv(Mounted(recs, maps), OnlyRoot(), d.FirstSect())
    ensures FirstNumbers(Records(InodeArray(d)), d.FirstSect())
  {
    var tarBit, bits := INSTALL_FIRST_SECTOR - d.FirstSect() + 1, 8 * 512 * d.smapSects;
    Extents.MakeMaps(d);
    ghost var inodes, sectors := d.Imap(), d.Smap();
    MakeRecords(d);
    assert d.Imap() == inodes && d.Smap() == sectors;
    ghost var maps := Extents.Contents(d, FirstFiles(d.FirstSect()));
    assert maps == Extents.Fresh(tarBit, bits);
    Extents.FreshInv(tarBit, bits);
    MountKeeps(Records(InodeArray(d)), maps, d.FirstSect());
  }
}
