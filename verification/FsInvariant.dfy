// What every call of the file system keeps: the counts, the agreement of the
// inode cache with the device, and the agreement of both with the bitmaps.
module FsInvariant {
  import opened Bits
  import opened Disk
  import opened Constants
  import opened FsCounts
  import opened FsSpec
  import opened InodeDisk
  import Extents

  function Cnts(inodes: seq<Inode>): (c: seq<int>)
    ensures |c| == |inodes| && forall k :: 0 <= k < |c| ==> c[k] == inodes[k].cnt
  {
    seq(|inodes|, k requires 0 <= k < |inodes| => inodes[k].cnt)
  }

  // The bit of the sector map where the extent of cmd.tar begins.
  function TarBit(firstSect: nat): nat
    requires firstSect <= INSTALL_FIRST_SECTOR
  {
    INSTALL_FIRST_SECTOR - firstSect + 1
  }

  predicate Exists(files: map<nat, nat>, num: nat) {
    IsInode(num) && (num in files || num in {2, 3, 4})
  }

  // No two live slots hold the same inode.
  predicate Unique(inodes: seq<Inode>) {
    forall j, k :: 0 <= j < |inodes| && 0 <= k < |inodes| && j != k && inodes[j].cnt != 0 && inodes[k].cnt != 0 ==>
      inodes[j].num != inodes[k].num
  }

  // Every live slot equals its record on the device.
  predicate Coherent(inodes: seq<Inode>, recs: seq<Record>, files: map<nat, nat>)
    requires |recs| == NR_DISK_INODES
  {
    forall k :: 0 <= k < |inodes| && inodes[k].cnt != 0 ==>
      Exists(files, inodes[k].num) && inodes[k].rec == recs[inodes[k].num - 1]
  }

  predicate RecordOk(r: Record, num: nat, files: map<nat, nat>, firstSect: nat) {
    if num in files then
      && r.mode == (if num == ROOT then I_DIRECTORY else I_REGULAR)
      && Value(r.start) + 1 == files[num] + firstSect && r.nrSects == FILE_SECTS
    else r.mode == I_CHAR_SPECIAL
  }

  ghost predicate RecordsOk(recs: seq<Record>, files: map<nat, nat>, firstSect: nat)
    requires |recs| == NR_DISK_INODES
  {
    forall num :: Exists(files, num) ==> RecordOk(recs[num - 1], num, files, firstSect)
  }

  ghost predicate Counted(s: Fs, extra: seq<nat>) {
    && Sized(s) && CountsOk(s.filp, s.desc, Cnts(s.inodes), extra) && extra[s.root] > 0
  }

  ghost predicate Cached(s: Fs, firstSect: nat) {
    && Sized(s) && s.inodes[s.root].num == ROOT && Unique(s.inodes)
    && Coherent(s.inodes, s.recs, s.maps.files) && RecordsOk(s.recs, s.maps.files, firstSect)
  }

  ghost predicate Core(s: Fs, extra: seq<nat>, firstSect: nat) {
    Counted(s, extra) && Cached(s, firstSect)
  }

  ghost predicate Inv(s: Fs, extra: seq<nat>, firstSect: nat) {
    0 < firstSect <= INSTALL_FIRST_SECTOR && Core(s, extra, firstSect) && Extents.Inv(s.maps, TarBit(firstSect))
  }

  function Plus(extra: seq<nat>, k: nat): seq<nat>
    requires k < |extra|
  {
    extra[k := extra[k] + 1]
  }

  function Minus(extra: seq<nat>, k: nat): seq<nat>
    requires k < |extra| && extra[k] > 0
  {
    extra[k := extra[k] - 1]
  }

  lemma CountsOfUpdate(inodes: seq<Inode>, k: nat, x: Inode)
    requires k < |inodes|
    ensures Cnts(inodes[k := x]) == Cnts(inodes)[k := x.cnt]
  {
  }

  // A slot in use has a positive count.
  lemma SlotFacts(s: Fs, extra: seq<nat>, k: nat)
    requires Counted(s, extra) && k < NR_INODES
    ensures s.inodes[k].cnt >= extra[k] && s.inodes[s.root].cnt > 0
  {
    assert Cnts(s.inodes)[k] == s.inodes[k].cnt;
    assert Cnts(s.inodes)[s.root] == s.inodes[s.root].cnt;
  }

  // The references that do not come from an open file: one more, or one less.
  lemma CountedExtra(s: Fs, s': Fs, extra: seq<nat>, k: nat, n: nat)
    requires Counted(s, extra) && k < NR_INODES && (k == s.root ==> n > 0)
    requires Sized(s') && s'.filp == s.filp && s'.desc == s.desc && s'.root == s.root
    requires s'.inodes == s.inodes[k := s'.inodes[k]] && s'.inodes[k].cnt == s.inodes[k].cnt - extra[k] + n
    ensures Counted(s', extra[k := n])
  {
    ExtraKeepsCounts(s.filp, s.desc, Cnts(s.inodes), extra, k, n);
    CountsOfUpdate(s.inodes, k, s'.inodes[k]);
  }

  // ------------------------------------------------------- get, put, update

  lemma UniqueUpdate(inodes: seq<Inode>, k: nat, x: Inode)
    requires Unique(inodes) && k < |inodes|
    requires x.cnt != 0 ==> forall j :: 0 <= j < |inodes| && j != k && inodes[j].cnt != 0 ==> inodes[j].num != x.num
    ensures Unique(inodes[k := x])
  {
  }

  lemma CoherentUpdate(inodes: seq<Inode>, recs: seq<Record>, files: map<nat, nat>, k: nat, x: Inode)
    requires |recs| == NR_DISK_INODES && Coherent(inodes, recs, files) && k < |inodes|
    requires x.cnt != 0 ==> Exists(files, x.num) && x.rec == recs[x.num - 1]
    ensures Coherent(inodes[k := x], recs, files)
  {
  }

  // Only slot k of the cache differs.
  predicate SlotChanged(s: Fs, s': Fs, k: nat) {
    && Sized(s) && Sized(s') && k < NR_INODES
    && s'.inodes == s.inodes[k := s'.inodes[k]] && s'.root == s.root && s'.recs == s.recs && s'.maps == s.maps
  }

  // The counts of a slot in use do not matter for the cache.
  lemma CachedByCounts(s: Fs, s': Fs, firstSect: nat, k: nat)
    requires Cached(s, firstSect) && SlotChanged(s, s', k) && s.inodes[k].cnt > 0
    requires s'.inodes[k] == s.inodes[k].(cnt := s'.inodes[k].cnt)
    ensures Cached(s', firstSect)
  {
    UniqueUpdate(s.inodes, k, s'.inodes[k]);
    CoherentUpdate(s.inodes, s.recs, s.maps.files, k, s'.inodes[k]);
  }

  // A free slot is loaded from the device.
  lemma CachedByLoad(s: Fs, s': Fs, firstSect: nat, k: nat)
    requires Cached(s, firstSect) && SlotChanged(s, s', k) && k != s.root
    requires Exists(s.maps.files, s'.inodes[k].num) && s'.inodes[k].rec == s.recs[s'.inodes[k].num - 1]
    requires forall j :: 0 <= j < NR_INODES ==> !Holds(s.inodes[j], s'.inodes[k].num)
    ensures Cached(s', firstSect)
  {
    var x := s'.inodes[k];
    forall j | 0 <= j < NR_INODES && j != k && s.inodes[j].cnt != 0 ensures s.inodes[j].num != x.num {
      assert !Holds(s.inodes[j], x.num);
    }
    UniqueUpdate(s.inodes, k, x);
    CoherentUpdate(s.inodes, s.recs, s.maps.files, k, x);
  }

  lemma GetKeepsCached(s: Fs, firstSect: nat, num: nat)
    requires Cached(s, firstSect) && SlotOf(s.inodes, num) < NR_INODES && Exists(s.maps.files, num)
    requires s.inodes[s.root].cnt > 0 && s.inodes[SlotOf(s.inodes, num)].cnt >= 0
    ensures Cached(GetInode(s, num), firstSect) && Holds(GetInode(s, num).inodes[SlotOf(s.inodes, num)], num)
  {
    var k := SlotOf(s.inodes, num);
    if Holds(s.inodes[k], num) {
      CachedByCounts(s, GetInode(s, num), firstSect, k);
    } else {
      CachedByLoad(s, GetInode(s, num), firstSect, k);
    }
  }

  lemma GetKeepsCounted(s: Fs, extra: seq<nat>, num: nat)
    requires Counted(s, extra) && IsInode(num) && SlotOf(s.inodes, num) < NR_INODES
    ensures Counted(GetInode(s, num), Plus(extra, SlotOf(s.inodes, num)))
  {
    var k := SlotOf(s.inodes, num);
    SlotFacts(s, extra, k);
    CountedExtra(s, GetInode(s, num), extra, k, extra[k] + 1);
  }

  // fs/open.c:335-367
  lemma GetKeeps(s: Fs, extra: seq<nat>, firstSect: nat, num: nat)
    requires Core(s, extra, firstSect) && Exists(s.maps.files, num) && SlotOf(s.inodes, num) < NR_INODES
    ensures
      var s', k := GetInode(s, num), SlotOf(s.inodes, num);
      Core(s', Plus(extra, k), firstSect) && Holds(s'.inodes[k], num)
  {
    var k := SlotOf(s.inodes, num);
    SlotFacts(s, extra, k);
    GetKeepsCached(s, firstSect, num);
    GetKeepsCounted(s, extra, num);
  }

  predicate Spare(s: Fs, extra: seq<nat>, k: nat)
    requires Sized(s) && |extra| == NR_INODES
  {
    k < NR_INODES && extra[k] > (if k == s.root then 1 else 0)
  }

  lemma PutKeeps(s: Fs, extra: seq<nat>, firstSect: nat, k: nat)
    requires Core(s, extra, firstSect) && Spare(s, extra, k)
    ensures Core(PutInode(s, k), Minus(extra, k), firstSect)
  {
    SlotFacts(s, extra, k);
    CachedByCounts(s, PutInode(s, k), firstSect, k);
    CountedExtra(s, PutInode(s, k), extra, k, extra[k] - 1);
  }

  lemma CoherentWrite(inodes: seq<Inode>, recs: seq<Record>, files: map<nat, nat>, k: nat, r: Record)
    requires |recs| == NR_DISK_INODES && Unique(inodes) && Coherent(inodes, recs, files)
    requires k < |inodes| && inodes[k].cnt != 0 && IsInode(inodes[k].num)
    ensures Coherent(inodes[k := inodes[k].(rec := r)], recs[inodes[k].num - 1 := r], files)
  {
  }

  lemma RecordsOkWrite(recs: seq<Record>, files: map<nat, nat>, firstSect: nat, num: nat, r: Record)
    requires |recs| == NR_DISK_INODES && RecordsOk(recs, files, firstSect)
    requires IsInode(num) && RecordOk(r, num, files, firstSect)
    ensures RecordsOk(recs[num - 1 := r], files, firstSect)
  {
  }

  lemma SetRecordKeepsCached(s: Fs, firstSect: nat, k: nat, r: Record)
    requires Cached(s, firstSect) && k < NR_INODES && s.inodes[k].cnt != 0 && IsInode(s.inodes[k].num)
    requires RecordOk(r, s.inodes[k].num, s.maps.files, firstSect)
    ensures Cached(SetRecord(s, k, r), firstSect)
  {
    UniqueUpdate(s.inodes, k, s.inodes[k].(rec := r));
    CoherentWrite(s.inodes, s.recs, s.maps.files, k, r);
    RecordsOkWrite(s.recs, s.maps.files, firstSect, s.inodes[k].num, r);
  }

  lemma SetRecordKeeps(s: Fs, extra: seq<nat>, firstSect: nat, k: nat, r: Record)
    requires Core(s, extra, firstSect) && k < NR_INODES && s.inodes[k].cnt != 0 && IsInode(s.inodes[k].num)
    requires RecordOk(r, s.inodes[k].num, s.maps.files, firstSect)
    ensures Core(SetRecord(s, k, r), extra, firstSect)
  {
    SlotFacts(s, extra, k);
    SetRecordKeepsCached(s, firstSect, k, r);
    CountedExtra(s, SetRecord(s, k, r), extra, k, extra[k]);
    assert extra[k := extra[k]] == extra;
  }

  lemma SetSizeKeeps(s: Fs, extra: seq<nat>, firstSect: nat, k: nat, size: Word)
    requires Core(s, extra, firstSect) && k < NR_INODES && s.inodes[k].cnt != 0
    ensures IsInode(s.inodes[k].num) && Core(SetSize(s, k, size), extra, firstSect)
  {
    SetRecordKeeps(s, extra, firstSect, k, s.inodes[k].rec.(size := size));
  }

  // --------------------------------------------------- entries come and go

  lemma AttachKeepsCounted(s: Fs, extra: seq<nat>, p: nat, k: nat, flags: set<OpenFlag>)
    requires Counted(s, extra) && p < NR_ALL && CanOpen(s, p) && Spare(s, extra, k)
    ensures Counted(Attach(s, p, k, flags), Minus(extra, k))
  {
    var fd, d := FirstWhere(s.filp[p], IsNil), FirstWhere(s.desc, IsFreeDesc);
    MoveKeepsCounts(s.filp, s.desc, Attach(s, p, k, flags).desc, Cnts(s.inodes), extra, p, fd, d, k);
  }

  // The reference that get_inode took goes to the new entry.
  lemma AttachKeeps(s: Fs, extra: seq<nat>, firstSect: nat, p: nat, k: nat, flags: set<OpenFlag>)
    requires Core(s, extra, firstSect) && p < NR_ALL && CanOpen(s, p) && Spare(s, extra, k)
    ensures Core(Attach(s, p, k, flags), Minus(extra, k), firstSect)
  {
    AttachKeepsCounted(s, extra, p, k, flags);
  }

  lemma ReleaseKeepsCounted(s: Fs, extra: seq<nat>, p: nat, fd: nat)
    requires Counted(s, extra) && IsOpen(s, p, fd)
    ensures Counted(Release(s, p, fd), extra) && s.inodes[SlotOfFile(s, p, fd)].cnt > 0
  {
    var s', k := Release(s, p, fd), SlotOfFile(s, p, fd);
    CountsFacts(s.filp, s.desc, Cnts(s.inodes), extra, s.filp[p][fd]);
    DropKeepsCounts(s.filp, s.desc, s'.desc, Cnts(s.inodes), extra, p, fd);
    CountsOfUpdate(s.inodes, k, s'.inodes[k]);
  }

  lemma ReleaseKeeps(s: Fs, extra: seq<nat>, firstSect: nat, p: nat, fd: nat)
    requires Core(s, extra, firstSect) && IsOpen(s, p, fd)
    ensures Core(Release(s, p, fd), extra, firstSect)
  {
    ReleaseKeepsCounted(s, extra, p, fd);
    CachedByCounts(s, Release(s, p, fd), firstSect, SlotOfFile(s, p, fd));
  }

  lemma ShareKeepsCounted(s: Fs, extra: seq<nat>, parent: nat, child: nat, fd: nat)
    requires Counted(s, extra) && IsOpen(s, parent, fd) && child < NR_ALL && s.filp[child][fd] == NIL
    ensures Counted(Share(s, parent, child, fd), extra) && s.inodes[SlotOfFile(s, parent, fd)].cnt > 0
  {
    var s', d, k := Share(s, parent, child, fd), s.filp[parent][fd], SlotOfFile(s, parent, fd);
    CountsFacts(s.filp, s.desc, Cnts(s.inodes), extra, d);
    TakeKeepsCounts(s.filp, s.desc, s'.desc, Cnts(s.inodes), extra, child, fd, d, k);
    CountsOfUpdate(s.inodes, k, s'.inodes[k]);
  }

  lemma ShareKeeps(s: Fs, extra: seq<nat>, firstSect: nat, parent: nat, child: nat, fd: nat)
    requires Core(s, extra, firstSect) && IsOpen(s, parent, fd) && child < NR_ALL && s.filp[child][fd] == NIL
    ensures Core(Share(s, parent, child, fd), extra, firstSect)
  {
    ShareKeepsCounted(s, extra, parent, child, fd);
    CachedByCounts(s, Share(s, parent, child, fd), firstSect, SlotOfFile(s, parent, fd));
  }
}
