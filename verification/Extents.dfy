// Files as extents: which bits of the two maps belong to whom, over any
// sequence of creates and unlinks (fs/open.c:317-328, fs/unlink.c:66-105).
//
// The allocator looks for the first clear bit and never tests the bits behind
// it.  It is safe because the bits in front of the extent of cmd.tar fall into
// slots of 2048, each of which starts with a clear bit or is owned whole.
module Extents {
  import opened Bits
  import opened Disk
  import opened SectorMap

  const N := NR_DEFAULT_FILE_SECTS
  const ROOT_INODE := 1
  const TAR_INODE := 5

  // files: the first bit of the extent of every live inode that has one.
  datatype Maps = Maps(inodeMap: seq<bool>, sectorMap: seq<bool>, files: map<nat, nat>)

  function SlotBit(m: nat): nat { 1 + 2048 * m }

  // Whole slots in front of bit tarBit, where cmd.tar begins.
  function Slots(tarBit: nat): nat
    requires tarBit > 0
  {
    (tarBit - 1) / 2048
  }

  predicate Owned(s: Maps, m: nat) {
    SlotBit(m) in s.files.Values
  }

  predicate TarLives(s: Maps, tarBit: nat) {
    TAR_INODE in s.files && s.files[TAR_INODE] == tarBit
  }

  // ------------------------------------------------------------------ steps

  // alloc_imap_bit and alloc_smap_bit, with room in both maps
  function Create(s: Maps): Maps {
    var ino, f := FirstClear(s.inodeMap), FirstClear(s.sectorMap);
    Maps(SetRange(s.inodeMap, ino, ino + 1), SetRange(s.sectorMap, f, f + N), s.files[ino := f])
  }

  function Unlink(s: Maps, ino: nat): Maps
    requires ino in s.files
  {
    var f := s.files[ino];
    Maps(ClearRange(s.inodeMap, ino, ino + 1), ClearRange(s.sectorMap, f, f + N - Missed(f)), s.files - {ino})
  }

  // -------------------------------------------------------------- invariant

  predicate SlotWhole(b: seq<bool>, m: nat)
    requires SlotBit(m + 1) <= |b|
  {
    forall g :: SlotBit(m) <= g < SlotBit(m + 1) ==> b[g]
  }

  // Clear but perhaps for the last bit, which unlink forgets in odd slots.
  predicate SlotFree(b: seq<bool>, m: nat)
    requires SlotBit(m + 1) <= |b|
  {
    forall g :: SlotBit(m) <= g < SlotBit(m + 1) - 1 ==> !b[g]
  }

  predicate ImapMatches(s: Maps) {
    && |s.inodeMap| == NR_DISK_INODES
    && forall i :: 0 <= i < NR_DISK_INODES ==> (s.inodeMap[i] <==> i in s.files || i in {0, 2, 3, 4})
  }

  predicate FilesFit(s: Maps, tarBit: nat)
    requires tarBit > 0
  {
    && ROOT_INODE in s.files && s.files[ROOT_INODE] == SlotBit(0)
    && (forall i :: i in s.files ==> i < NR_DISK_INODES && i !in {0, 2, 3, 4})
    && (forall i :: i in s.files ==> (i == TAR_INODE && s.files[i] == tarBit) || InSlot(s.files[i], tarBit))
    && (forall i, j :: i in s.files && j in s.files && i != j ==> s.files[i] != s.files[j])
  }

  predicate InSlot(f: nat, tarBit: nat)
    requires tarBit > 0
  {
    f % 2048 == 1 && f / 2048 < Slots(tarBit)
  }

  predicate SmapMatches(s: Maps, tarBit: nat)
    requires tarBit > 0
  {
    && tarBit + N <= |s.sectorMap| && s.sectorMap[0]
    && (forall m :: 0 <= m < Slots(tarBit) && Owned(s, m) ==> SlotWhole(s.sectorMap, m))
    && (forall m :: 0 <= m < Slots(tarBit) && !Owned(s, m) ==> SlotFree(s.sectorMap, m))
    && (TarLives(s, tarBit) ==>
          && (forall g :: tarBit <= g < tarBit + N ==> s.sectorMap[g])
          && (forall g :: SlotBit(Slots(tarBit)) <= g < tarBit ==> !s.sectorMap[g]))
  }

  predicate Inv(s: Maps, tarBit: nat) {
    SlotBit(1) <= tarBit <= INSTALL_FIRST_SECTOR && ImapMatches(s) && FilesFit(s, tarBit) && SmapMatches(s, tarBit)
  }

  // No sector belongs to two files.
  predicate Disjoint(files: map<nat, nat>) {
    forall i, j :: i in files && j in files && i != j ==> files[i] + N <= files[j] || files[j] + N <= files[i]
  }

  lemma LiveExtentsAreDisjoint(s: Maps, tarBit: nat)
    requires Inv(s, tarBit)
    ensures Disjoint(s.files)
  {
    forall i, j | i in s.files && j in s.files && i != j
      ensures s.files[i] + N <= s.files[j] || s.files[j] + N <= s.files[i]
    {
      var f, g := s.files[i], s.files[j];
      if InSlot(f, tarBit) && InSlot(g, tarBit) {
        assert f == SlotBit(f / 2048) && g == SlotBit(g / 2048);
      }
    }
  }

  // ------------------------------------------------------------- counting

  lemma {:induction false} SlotSet(k: nat) returns (s: set<nat>)
    ensures |s| == k && forall x :: x in s <==> exists m :: 0 <= m < k && x == SlotBit(m)
  {
    if k == 0 {
      s := {};
    } else {
      var t := SlotSet(k - 1);
      s := t + {SlotBit(k - 1)};
    }
  }

  lemma ValuesOfRest(files: map<nat, nat>, i: nat)
    requires i in files
    ensures files.Values == (files - {i}).Values + {files[i]}
  {
    var rest := files - {i};
    forall x | x in files.Values ensures x in rest.Values + {files[i]} {
      var j :| j in files && files[j] == x;
      if j != i { assert j in rest && rest[j] == x; }
    }
    forall x | x in rest.Values ensures x in files.Values {
      var j :| j in rest && rest[j] == x;
      assert j in files && files[j] == x;
    }
    assert i in files;
  }

  // As many values as keys at most.
  lemma {:induction false} FewValues(files: map<nat, nat>)
    ensures |files.Values| <= |files|
    decreases |files|
  {
    if files.Keys != {} {
      var i :| i in files;
      var rest := files - {i};
      FewValues(rest);
      ValuesOfRest(files, i);
      CardinalityOfSubset(files.Values, rest.Values + {files[i]});
    } else {
      assert files.Values == {};
    }
  }

  lemma {:induction false} CardinalityOfSubset(a: set<nat>, b: set<nat>)
    requires a <= b
    ensures |a| <= |b|
    decreases a
  {
    if a != {} {
      var x :| x in a;
      CardinalityOfSubset(a - {x}, b - {x});
    }
  }

  // Values that are all different.
  lemma {:induction false} DistinctValues(files: map<nat, nat>)
    requires forall i, j :: i in files && j in files && i != j ==> files[i] != files[j]
    ensures |files.Values| == |files|
    decreases |files|
  {
    if files.Keys != {} {
      var i :| i in files;
      var rest := files - {i};
      DistinctValues(rest);
      ValuesOfRest(files, i);
    } else {
      assert files.Values == {};
    }
  }

  // Live files apart from cmd.tar.
  function Others(s: Maps, tarBit: nat): map<nat, nat> {
    map i | i in s.files && s.files[i] != tarBit :: s.files[i]
  }

  lemma FreeSlotExists(s: Maps, tarBit: nat)
    requires Inv(s, tarBit) && |Others(s, tarBit)| < Slots(tarBit)
    ensures exists m :: 0 <= m < Slots(tarBit) && !Owned(s, m)
  {
    if forall m :: 0 <= m < Slots(tarBit) ==> Owned(s, m) {
      var all := SlotSet(Slots(tarBit));
      var o := Others(s, tarBit);
      forall x | x in all ensures x in o.Values {
        var m :| 0 <= m < Slots(tarBit) && x == SlotBit(m);
        assert Owned(s, m);
        var i :| i in s.files && s.files[i] == x;
        assert i in o && o[i] == x;
      }
      CardinalityOfSubset(all, o.Values);
      FewValues(o);
    }
  }

  lemma {:induction false} RangeSize(lo: nat, hi: nat) returns (s: set<nat>)
    requires lo <= hi
    ensures |s| == hi - lo && forall x :: x in s <==> lo <= x < hi
    decreases hi
  {
    if lo == hi {
      s := {};
    } else {
      var t := RangeSize(lo, hi - 1);
      s := t + {hi - 1};
    }
  }

  // There is always an inode to spare.
  lemma InodeToSpare(s: Maps, tarBit: nat)
    requires Inv(s, tarBit)
    ensures FirstClear(s.inodeMap) < NR_DISK_INODES
  {
    if FirstClear(s.inodeMap) == NR_DISK_INODES {
      var starts := SlotSet(Slots(tarBit));
      forall x | x in s.files.Values ensures x in starts + {tarBit} {
        var i :| i in s.files && s.files[i] == x;
        if InSlot(x, tarBit) { assert x == SlotBit(x / 2048); }
      }
      CardinalityOfSubset(s.files.Values, starts + {tarBit});
      DistinctValues(s.files);
      var used := RangeSize(5, NR_DISK_INODES);
      assert used <= s.files.Keys by {
        forall x | x in used ensures x in s.files.Keys { assert s.inodeMap[x]; }
      }
      assert |s.files| == |s.files.Keys|;
      CardinalityOfSubset(used, s.files.Keys);
    }
  }

  // ------------------------------------------------------------ the theorems

  // The first clear bit is the start of the first slot that nobody owns.
  lemma FirstClearIsSlot(s: Maps, tarBit: nat, m: nat)
    requires Inv(s, tarBit) && m < Slots(tarBit) && !Owned(s, m) && forall l :: 0 <= l < m ==> Owned(s, l)
    ensures FirstClear(s.sectorMap) == SlotBit(m)
  {
    assert SlotFree(s.sectorMap, m);
    forall g | 0 <= g < SlotBit(m) ensures s.sectorMap[g] {
      if g > 0 {
        var l := (g - 1) / 2048;
        assert Owned(s, l) && SlotWhole(s.sectorMap, l);
      }
    }
    FirstClearIs(s.sectorMap, SlotBit(m));
  }

  lemma {:induction false} FirstFreeSlot(s: Maps, k: nat) returns (m: nat)
    requires exists l :: 0 <= l < k && !Owned(s, l)
    ensures m < k && !Owned(s, m) && forall l :: 0 <= l < m ==> Owned(s, l)
  {
    m := 0;
    while Owned(s, m)
      invariant m < k && forall l :: 0 <= l < m ==> Owned(s, l)
      decreases k - m
    {
      m := m + 1;
    }
  }

  // Marking slot m, for inode ino, which had none.
  lemma MarkKeepsSmap(s: Maps, s': Maps, tarBit: nat, m: nat, ino: nat)
    requires Inv(s, tarBit) && m < Slots(tarBit) && !Owned(s, m) && ino !in s.files
    requires s'.files == s.files[ino := SlotBit(m)]
    requires s'.sectorMap == SetRange(s.sectorMap, SlotBit(m), SlotBit(m + 1))
    ensures SmapMatches(s', tarBit)
  {
    ValuesOfRest(s'.files, ino);
    assert s'.files - {ino} == s.files;
    forall l | 0 <= l < Slots(tarBit) && Owned(s', l) ensures SlotWhole(s'.sectorMap, l) {
      if l != m { assert Owned(s, l) && SlotWhole(s.sectorMap, l); }
    }
    forall l | 0 <= l < Slots(tarBit) && !Owned(s', l) ensures SlotFree(s'.sectorMap, l) {
      assert !Owned(s, l) && SlotFree(s.sectorMap, l);
    }
  }

  lemma CreateTakesASlot(s: Maps, tarBit: nat) returns (m: nat)
    requires Inv(s, tarBit) && exists l :: 0 <= l < Slots(tarBit) && !Owned(s, l)
    ensures m < Slots(tarBit) && !Owned(s, m)
    ensures FirstClear(s.sectorMap) == SlotBit(m) && FirstClear(s.inodeMap) < NR_DISK_INODES
    ensures FirstClear(s.inodeMap) !in s.files && Inv(Create(s), tarBit)
  {
    m := FirstFreeSlot(s, Slots(tarBit));
    FirstClearIsSlot(s, tarBit, m);
    InodeToSpare(s, tarBit);
    MarkKeepsSmap(s, Create(s), tarBit, m, FirstClear(s.inodeMap));
    NewFileFits(s, Create(s), tarBit, m, FirstClear(s.inodeMap));
  }

  lemma NewFileFits(s: Maps, s': Maps, tarBit: nat, m: nat, ino: nat)
    requires Inv(s, tarBit) && m < Slots(tarBit) && !Owned(s, m)
    requires ino < NR_DISK_INODES && !s.inodeMap[ino]
    requires s'.files == s.files[ino := SlotBit(m)] && s'.inodeMap == SetRange(s.inodeMap, ino, ino + 1)
    ensures ImapMatches(s') && FilesFit(s', tarBit)
  {
    NewInodeMarked(s, s', ino);
    NewExtentFits(s.files, tarBit, m, ino, s');
  }

  lemma NewInodeMarked(s: Maps, s': Maps, ino: nat)
    requires ImapMatches(s) && ino < NR_DISK_INODES
    requires s'.files.Keys == s.files.Keys + {ino} && s'.inodeMap == SetRange(s.inodeMap, ino, ino + 1)
    ensures ImapMatches(s')
  {
    forall i | 0 <= i < NR_DISK_INODES ensures s'.inodeMap[i] <==> i in s'.files || i in {0, 2, 3, 4} {
      assert i in s'.files.Keys <==> i in s.files.Keys || i == ino;
    }
  }

  lemma NewExtentFits(files: map<nat, nat>, tarBit: nat, m: nat, ino: nat, s': Maps)
    requires tarBit > 0 && m < Slots(tarBit) && SlotBit(m) !in files.Values && ino !in files
    requires ino < NR_DISK_INODES && ino !in {0, 2, 3, 4} && s'.files == files[ino := SlotBit(m)]
    requires FilesFit(Maps([], [], files), tarBit)
    ensures FilesFit(s', tarBit)
  {
    forall i | i in files ensures files[i] != SlotBit(m) {
      assert files[i] in files.Values;
    }
    assert InSlot(SlotBit(m), tarBit);
  }

  lemma UnlinkKeepsOwnedSlot(s: Maps, tarBit: nat, ino: nat, l: nat)
    requires Inv(s, tarBit) && ino in s.files && ino != ROOT_INODE
    requires l < Slots(tarBit) && Owned(Unlink(s, ino), l)
    ensures SlotWhole(Unlink(s, ino).sectorMap, l)
  {
    LiveExtentsAreDisjoint(s, tarBit);
    var s' := Unlink(s, ino);
    var i :| i in s'.files && s'.files[i] == SlotBit(l);
    assert i in s.files && s.files[i] == SlotBit(l) && i != ino;
    assert Owned(s, l) && SlotWhole(s.sectorMap, l);
  }

  lemma UnlinkKeepsFreeSlot(s: Maps, tarBit: nat, ino: nat, l: nat)
    requires Inv(s, tarBit) && ino in s.files && ino != ROOT_INODE
    requires l < Slots(tarBit) && !Owned(Unlink(s, ino), l)
    ensures SlotFree(Unlink(s, ino).sectorMap, l)
  {
    ValuesOfRest(s.files, ino);
    if SlotBit(l) == s.files[ino] {
      assert Missed(SlotBit(l)) <= 1;
    } else {
      assert !Owned(s, l) && SlotFree(s.sectorMap, l);
    }
  }

  lemma UnlinkKeepsTar(s: Maps, tarBit: nat, ino: nat)
    requires Inv(s, tarBit) && ino in s.files && ino != ROOT_INODE && TarLives(Unlink(s, ino), tarBit)
    ensures forall g :: tarBit <= g < tarBit + N ==> Unlink(s, ino).sectorMap[g]
    ensures forall g :: SlotBit(Slots(tarBit)) <= g < tarBit ==> !Unlink(s, ino).sectorMap[g]
  {
    LiveExtentsAreDisjoint(s, tarBit);
  }

  lemma UnlinkKeepsInv(s: Maps, tarBit: nat, ino: nat)
    requires Inv(s, tarBit) && ino in s.files && ino != ROOT_INODE
    ensures Inv(Unlink(s, ino), tarBit)
  {
    var s' := Unlink(s, ino);
    forall l | 0 <= l < Slots(tarBit) && Owned(s', l) ensures SlotWhole(s'.sectorMap, l) {
      UnlinkKeepsOwnedSlot(s, tarBit, ino, l);
    }
    forall l | 0 <= l < Slots(tarBit) && !Owned(s', l) ensures SlotFree(s'.sectorMap, l) {
      UnlinkKeepsFreeSlot(s, tarBit, ino, l);
    }
    if TarLives(s', tarBit) { UnlinkKeepsTar(s, tarBit, ino); }
  }

  // ---------------------------------------------------------------- all runs

  datatype Op = DoCreate | DoUnlink(ino: nat)

  // A create is made while a whole slot is to spare; an unlink of a live file
  // other than the root directory.  Other calls change nothing.
  function Apply(s: Maps, tarBit: nat, op: Op): Maps {
    match op
    case DoCreate => if tarBit > 0 && |Others(s, tarBit)| < Slots(tarBit) then Create(s) else s
    case DoUnlink(ino) => if ino in s.files && ino != ROOT_INODE then Unlink(s, ino) else s
  }

  function Run(s: Maps, tarBit: nat, ops: seq<Op>): Maps
    decreases |ops|
  {
    if ops == [] then s else Apply(Run(s, tarBit, ops[..|ops| - 1]), tarBit, ops[|ops| - 1])
  }

  // The maps that mkfs leaves: the root directory in slot 0 and cmd.tar.
  function Fresh(tarBit: nat, bits: nat): Maps {
    Maps(seq(NR_DISK_INODES, i => i < 6), SetRange(RootMap(bits), tarBit, tarBit + N),
         map[ROOT_INODE := SlotBit(0), TAR_INODE := tarBit])
  }

  lemma FreshInv(tarBit: nat, bits: nat)
    requires SlotBit(1) <= tarBit <= INSTALL_FIRST_SECTOR && tarBit + N <= bits
    ensures Inv(Fresh(tarBit, bits), tarBit)
  {
    var s := Fresh(tarBit, bits);
    forall m | 0 <= m < Slots(tarBit) ensures Owned(s, m) <==> m == 0 {
      if m == 0 { assert s.files[ROOT_INODE] == SlotBit(0) && ROOT_INODE in s.files; }
    }
  }

  // The extents of the live files are pairwise disjoint after any creates and
  // unlinks, as long as each create finds fewer live files than slots.
  lemma {:induction false} ExtentsStayDisjoint(tarBit: nat, bits: nat, ops: seq<Op>)
    requires SlotBit(1) <= tarBit <= INSTALL_FIRST_SECTOR && tarBit + N <= bits
    ensures
      var s := Run(Fresh(tarBit, bits), tarBit, ops);
      Inv(s, tarBit) && Disjoint(s.files)
    decreases |ops|
  {
    if ops == [] {
      FreshInv(tarBit, bits);
    } else {
      var front, op := ops[..|ops| - 1], ops[|ops| - 1];
      ExtentsStayDisjoint(tarBit, bits, front);
      var s := Run(Fresh(tarBit, bits), tarBit, front);
      match op
      case DoCreate =>
        if |Others(s, tarBit)| < Slots(tarBit) {
          FreeSlotExists(s, tarBit);
          var m := CreateTakesASlot(s, tarBit);
        }
      case DoUnlink(ino) =>
        if ino in s.files && ino != ROOT_INODE { UnlinkKeepsInv(s, tarBit, ino); }
    }
    LiveExtentsAreDisjoint(Run(Fresh(tarBit, bits), tarBit, ops), tarBit);
  }

  ghost predicate AllTaken(s: Maps, k: nat) {
    forall m :: 0 <= m < k ==> Owned(s, m)
  }

  lemma TakenSlotsAreSet(s: Maps, tarBit: nat)
    requires Inv(s, tarBit) && AllTaken(s, Slots(tarBit))
    ensures FirstClear(s.sectorMap) >= SlotBit(Slots(tarBit))
  {
    forall g | 0 <= g < SlotBit(Slots(tarBit)) ensures s.sectorMap[g] {
      if g > 0 {
        var l := (g - 1) / 2048;
        assert Owned(s, l) && SlotWhole(s.sectorMap, l);
      }
    }
  }

  // With every slot taken and cmd.tar in place.
  lemma CreateAtTheEdge(s: Maps, tarBit: nat)
    requires Inv(s, tarBit) && TarLives(s, tarBit) && AllTaken(s, Slots(tarBit)) && Disjoint(s.files)
    requires FirstClear(s.inodeMap) !in s.files
    ensures Disjoint(Create(s).files) <==> tarBit % 2048 == 1
  {
    var ino, f := FirstClear(s.inodeMap), FirstClear(s.sectorMap);
    TakenSlotsAreSet(s, tarBit);
    if tarBit % 2048 != 1 {
      FirstClearIs(s.sectorMap, SlotBit(Slots(tarBit)));
      Collides(s.files, Create(s).files, ino, f, TAR_INODE);
    } else {
      TarIsSet(s, tarBit);
      NextToAll(s.files, Create(s).files, ino, f);
    }
  }

  lemma TarIsSet(s: Maps, tarBit: nat)
    requires Inv(s, tarBit) && TarLives(s, tarBit) && FirstClear(s.sectorMap) >= tarBit
    ensures FirstClear(s.sectorMap) >= tarBit + N
    ensures forall i :: i in s.files ==> s.files[i] + N <= FirstClear(s.sectorMap)
  {
    forall i | i in s.files ensures s.files[i] <= tarBit {}
  }

  lemma NextToAll(files: map<nat, nat>, files': map<nat, nat>, ino: nat, f: nat)
    requires Disjoint(files) && files' == files[ino := f] && forall i :: i in files ==> files[i] + N <= f
    ensures Disjoint(files')
  {
  }

  lemma Collides(files: map<nat, nat>, files': map<nat, nat>, ino: nat, f: nat, other: nat)
    requires ino !in files && files' == files[ino := f] && other in files
    requires f < files[other] + N && files[other] < f + N
    ensures !Disjoint(files')
  {
    assert ino in files' && other in files';
  }

  // A file created behind all slots, where cmd.tar is gone.
  lemma CreateBehindTheSlots(s: Maps, tarBit: nat)
    requires Inv(s, tarBit) && !TarLives(s, tarBit) && AllTaken(s, Slots(tarBit)) && Disjoint(s.files)
    ensures Disjoint(Create(s).files)
  {
    TakenSlotsAreSet(s, tarBit);
    forall i | i in s.files ensures s.files[i] + N <= FirstClear(s.sectorMap) {
      assert InSlot(s.files[i], tarBit);
    }
    NextToAll(s.files, Create(s).files, FirstClear(s.inodeMap), FirstClear(s.sectorMap));
  }

  // A create finds a clear bit, and its extent is nobody else's; for a full map
  // alloc_smap_bit returns sector 0 and the file is laid over the boot sector.
  predicate CreateIsSafe(s: Maps) {
    FirstClear(s.sectorMap) < |s.sectorMap| && Disjoint(Create(s).files)
  }

  // One more create is safe exactly if a slot is free, or if the map is not
  // full and cmd.tar is gone or begins where the slots end: the allocator does
  // not look behind the first clear bit.
  lemma CrowdedCreate(s: Maps, tarBit: nat)
    requires Inv(s, tarBit)
    ensures FirstClear(s.inodeMap) < NR_DISK_INODES && FirstClear(s.inodeMap) !in s.files
    ensures
      CreateIsSafe(s)
      <==> || (exists m :: 0 <= m < Slots(tarBit) && !Owned(s, m))
           || (FirstClear(s.sectorMap) < |s.sectorMap| && (!TarLives(s, tarBit) || tarBit % 2048 == 1))
  {
    InodeToSpare(s, tarBit);
    LiveExtentsAreDisjoint(s, tarBit);
    if AllTaken(s, Slots(tarBit)) {
      if TarLives(s, tarBit) { CreateAtTheEdge(s, tarBit); } else { CreateBehindTheSlots(s, tarBit); }
    } else {
      var m := CreateTakesASlot(s, tarBit);
      LiveExtentsAreDisjoint(Create(s), tarBit);
    }
  }

  // ------------------------------------------------- runs that get into these

  // The first k slots are taken, the others are free, and cmd.tar is in place.
  ghost predicate Filled(s: Maps, tarBit: nat, k: nat) {
    && Inv(s, tarBit) && TarLives(s, tarBit) && AllTaken(s, k) && k <= Slots(tarBit)
    && (forall m :: k <= m < Slots(tarBit) ==> !Owned(s, m))
    && |Others(s, tarBit)| == k && ClearBehind(s, tarBit)
  }

  predicate ClearBehind(s: Maps, tarBit: nat) {
    forall g :: tarBit + N <= g < |s.sectorMap| ==> !s.sectorMap[g]
  }

  lemma FreshIsFilled(tarBit: nat, bits: nat)
    requires SlotBit(1) <= tarBit <= INSTALL_FIRST_SECTOR && tarBit + N <= bits
    ensures Filled(Fresh(tarBit, bits), tarBit, 1)
  {
    var s := Fresh(tarBit, bits);
    FreshInv(tarBit, bits);
    assert s.files[ROOT_INODE] == SlotBit(0) && ROOT_INODE in s.files;
    assert Others(s, tarBit) == map[ROOT_INODE := SlotBit(0)];
  }

  lemma OwnedAfter(s: Maps, s': Maps, ino: nat, k: nat)
    requires ino !in s.files && s'.files == s.files[ino := SlotBit(k)]
    ensures forall m :: Owned(s', m) <==> Owned(s, m) || m == k
  {
    assert s'.files - {ino} == s.files;
    ValuesOfRest(s'.files, ino);
  }

  lemma OthersAfter(s: Maps, s': Maps, tarBit: nat, ino: nat, f: nat)
    requires ino !in s.files && s'.files == s.files[ino := f] && f != tarBit
    ensures |Others(s', tarBit)| == |Others(s, tarBit)| + 1
  {
    assert Others(s', tarBit) == Others(s, tarBit)[ino := f];
  }

  lemma CreateFillsNext(s: Maps, tarBit: nat, k: nat)
    requires Filled(s, tarBit, k) && k < Slots(tarBit)
    ensures Filled(Create(s), tarBit, k + 1) && |Create(s).sectorMap| == |s.sectorMap|
    ensures Create(s) == Apply(s, tarBit, DoCreate)
    ensures FirstClear(s.sectorMap) == SlotBit(k)
  {
    assert !Owned(s, k);
    var m := CreateTakesASlot(s, tarBit);
    FirstClearIsSlot(s, tarBit, k);
    OwnedAfter(s, Create(s), FirstClear(s.inodeMap), k);
    OthersAfter(s, Create(s), tarBit, FirstClear(s.inodeMap), SlotBit(k));
  }

  function Creates(n: nat): seq<Op> { seq(n, i => DoCreate) }

  lemma {:induction false} CreatesFill(tarBit: nat, bits: nat, n: nat)
    requires SlotBit(1) <= tarBit <= INSTALL_FIRST_SECTOR && tarBit + N <= bits && n < Slots(tarBit)
    ensures
      var s := Run(Fresh(tarBit, bits), tarBit, Creates(n));
      Filled(s, tarBit, n + 1) && |s.sectorMap| == bits
    decreases n
  {
    if n == 0 {
      FreshIsFilled(tarBit, bits);
    } else {
      CreatesFill(tarBit, bits, n - 1);
      assert Creates(n)[..n - 1] == Creates(n - 1);
      CreateFillsNext(Run(Fresh(tarBit, bits), tarBit, Creates(n - 1)), tarBit, n);
    }
  }

  // On a new file system, as many creates as there are slots but for that of
  // the root directory, and one more.
  lemma OneFileTooMany(tarBit: nat, bits: nat)
    requires SlotBit(1) <= tarBit <= INSTALL_FIRST_SECTOR && tarBit + N <= bits
    ensures
      var s := Run(Fresh(tarBit, bits), tarBit, Creates(Slots(tarBit) - 1));
      Disjoint(s.files) && (CreateIsSafe(s) <==> tarBit % 2048 == 1 && tarBit + N < bits)
  {
    var s := Run(Fresh(tarBit, bits), tarBit, Creates(Slots(tarBit) - 1));
    CreatesFill(tarBit, bits, Slots(tarBit) - 1);
    LiveExtentsAreDisjoint(s, tarBit);
    CrowdedCreate(s, tarBit);
    if tarBit % 2048 == 1 { BehindTar(s, tarBit); }
  }

  // With the slots up to cmd.tar taken, the first clear bit is the one behind it.
  lemma BehindTar(s: Maps, tarBit: nat)
    requires Inv(s, tarBit) && TarLives(s, tarBit) && AllTaken(s, Slots(tarBit)) && ClearBehind(s, tarBit)
    requires tarBit % 2048 == 1
    ensures FirstClear(s.sectorMap) == tarBit + N
  {
    TakenSlotsAreSet(s, tarBit);
    SlotsReachTar(tarBit);
    TarIsSet(s, tarBit);
    ClearFrom(s.sectorMap, tarBit + N);
  }

  lemma SlotsReachTar(tarBit: nat)
    requires tarBit % 2048 == 1
    ensures SlotBit(Slots(tarBit)) == tarBit
  {
  }

  lemma ClearFrom(b: seq<bool>, at: nat)
    requires at <= |b| && FirstClear(b) >= at && (at < |b| ==> !b[at])
    ensures FirstClear(b) == at
  {
  }

  // ----------------------------------------------------------- round trips

  // Of the bits from lo up to hi exactly those from mid on are set.
  predicate SetFrom(b: seq<bool>, lo: nat, mid: nat, hi: nat)
    requires hi <= |b|
  {
    forall g :: lo <= g < hi ==> (b[g] <==> g >= mid)
  }

  // What marking [lo, hi) and then clearing [lo, mid) leaves.
  lemma MarkThenClear(b: seq<bool>, lo: nat, mid: nat, hi: nat)
    requires lo <= mid <= hi <= |b|
    ensures ClearRange(SetRange(b, lo, hi), lo, mid) == b <==> SetFrom(b, lo, mid, hi)
  {
    var after := ClearRange(SetRange(b, lo, hi), lo, mid);
    assert SetFrom(after, lo, mid, hi);
    if SetFrom(b, lo, mid, hi) {
      forall g | 0 <= g < |b| ensures after[g] == b[g] {}
      assert after == b;
    }
  }

  // Creating a file at the first clear bit and unlinking it again brings the
  // sector map back exactly when its extent was clear but for the bits that
  // unlink forgets.
  lemma CreateThenUnlink(s: Maps)
    requires FirstClear(s.sectorMap) + N <= |s.sectorMap|
    ensures
      var ino, f := FirstClear(s.inodeMap), FirstClear(s.sectorMap);
      Unlink(Create(s), ino).sectorMap == s.sectorMap
      <==> SetFrom(s.sectorMap, f, f + N - Missed(f), f + N)
  {
    var ino, f := FirstClear(s.inodeMap), FirstClear(s.sectorMap);
    var mid := f + N - Missed(f);
    MarkThenClear(s.sectorMap, f, mid, f + N);
    assert Create(s).files[ino] == f;
    assert Unlink(Create(s), ino).sectorMap == ClearRange(SetRange(s.sectorMap, f, f + N), f, mid);
  }

  lemma OnlyLastStays(b: seq<bool>, lo: nat, hi: nat, keep: bool)
    requires lo < hi <= |b| && forall g :: lo <= g < hi - 1 ==> !b[g]
    ensures ClearRange(SetRange(b, lo, hi), lo, if keep then hi - 1 else hi) == b[hi - 1 := keep]
  {
    var after := ClearRange(SetRange(b, lo, hi), lo, if keep then hi - 1 else hi);
    forall g | 0 <= g < |b| ensures after[g] == b[hi - 1 := keep][g] {}
  }

  // In the slots of the file system: even slots come back, odd slots keep
  // their last bit set, for good.
  lemma SlotRoundTrip(b: seq<bool>, m: nat)
    requires SlotBit(m + 1) <= |b| && SlotFree(b, m)
    ensures
      var f := SlotBit(m);
      var last := f + N - 1;
      ClearRange(SetRange(b, f, f + N), f, f + N - Missed(f)) == b[last := m % 2 == 1]
  {
    var f := SlotBit(m);
    assert Missed(f) == m % 2;
    OnlyLastStays(b, f, f + N, m % 2 == 1);
  }

  // An inode number that was free comes back free, and nothing else changes.
  lemma InodeRoundTrip(b: seq<bool>, f: nat)
    requires f < |b| && !b[f]
    ensures ClearRange(SetRange(b, f, f + 1), f, f + 1) == b
  {
    MarkThenClear(b, f, f + 1, f + 1);
  }

  // So a file in slot m leaves nothing behind but that bit.
  lemma CreatedAndUnlinked(s: Maps, m: nat)
    requires SlotBit(m + 1) <= |s.sectorMap| && SlotFree(s.sectorMap, m) && FirstClear(s.sectorMap) == SlotBit(m)
    requires FirstClear(s.inodeMap) < |s.inodeMap| && FirstClear(s.inodeMap) !in s.files
    ensures
      var s' := Unlink(Create(s), FirstClear(s.inodeMap));
      s'.sectorMap == s.sectorMap[SlotBit(m) + N - 1 := m % 2 == 1] && s'.inodeMap == s.inodeMap && s'.files == s.files
  {
    var ino, f := FirstClear(s.inodeMap), SlotBit(m);
    assert Create(s).files[ino] == f && Create(s).files - {ino} == s.files;
    SlotRoundTrip(s.sectorMap, m);
    InodeRoundTrip(s.inodeMap, ino);
  }

  // The first file of a new file system gets slot 1: once it is unlinked the
  // last bit of the slot is set, and everything else is as it was.
  lemma FirstFileKeepsItsLastBit(tarBit: nat, bits: nat)
    requires SlotBit(2) <= tarBit <= INSTALL_FIRST_SECTOR && tarBit + N <= bits
    ensures
      var s, last := Fresh(tarBit, bits), SlotBit(2) - 1;
      && !s.sectorMap[last]
      && Run(s, tarBit, [DoCreate, DoUnlink(6)]) == s.(sectorMap := s.sectorMap[last := true])
  {
    var s := Fresh(tarBit, bits);
    BehindRootIsClear(tarBit, bits, SlotBit(2) - 1);
    FreshIsFilled(tarBit, bits);
    CreateFillsNext(s, tarBit, 1);
    FirstClearIs(s.inodeMap, 6);
    assert !Owned(s, 1) && SlotFree(s.sectorMap, 1);
    CreatedAndUnlinked(s, 1);
    RunOfTwo(s, tarBit, DoCreate, DoUnlink(6));
  }

  lemma BehindRootIsClear(tarBit: nat, bits: nat, g: nat)
    requires SlotBit(1) <= g < tarBit && tarBit + N <= bits
    ensures !Fresh(tarBit, bits).sectorMap[g]
  {
  }

  lemma RunOfTwo(s: Maps, tarBit: nat, first: Op, second: Op)
    ensures Run(s, tarBit, [first, second]) == Apply(Apply(s, tarBit, first), tarBit, second)
  {
    assert [first, second][..1] == [first] && [first][..0] == [];
    assert Run(s, tarBit, [first]) == Apply(s, tarBit, first);
  }

  // -------------------------------------------------- the maps on the device

  function Contents(d: Device, files: map<nat, nat>): Maps
    requires d.Valid()
    reads d.data
  {
    Maps(Flat(d.Imap()), Flat(d.Smap()), files)
  }

  // Nothing outside the two maps is written.
  twostate predicate OnlyMapsChanged(d: Device)
    requires d.Valid()
    reads d.data
  {
    forall i :: 0 <= i < d.data.Length && !(512 * IMAP_BLK0 <= i < 512 * d.InodeBlk0()) ==> d.data[i] == old(d.data[i])
  }

  // fs/open.c:323-324; the file begins at sector startSect.
  method CreateOnDisk(d: Device, ghost files: map<nat, nat>) returns (ino: nat, startSect: int)
    requires d.Valid()
    requires FirstClear(Contents(d, files).inodeMap) < NR_DISK_INODES
    requires FirstClear(Contents(d, files).sectorMap) < 8 * 512 * d.smapSects
    modifies d.data, d.fsbuf
    ensures OnlyMapsChanged(d)
    ensures
      var s := old(Contents(d, files));
      && ino == FirstClear(s.inodeMap) && startSect + 1 - d.FirstSect() == FirstClear(s.sectorMap)
      && Contents(d, files[ino := FirstClear(s.sectorMap)]) == Create(s)
  {
    ghost var inodes, sectors := d.Imap(), d.Smap();
    ino := MarkInode(d);
    ghost var inodes' := d.Imap();
    startSect := MarkExtent(d);
    CreateIs(inodes, sectors, inodes', d.Smap(), files, ino, FirstClear(Flat(sectors)));
  }

  method MarkInode(d: Device) returns (ino: nat)
    requires d.Valid() && FirstClear(Flat(d.Imap())) < NR_DISK_INODES
    modifies d.data, d.fsbuf
    ensures OnlyImapChanged(d) && d.Smap() == old(d.Smap()) && ino == FirstClear(Flat(old(d.Imap())))
    ensures Flat(d.Imap()) == SetRange(Flat(old(d.Imap())), ino, ino + 1)
  {
    ino := AllocImapBit(d);
    assert d.Smap() == old(d.Smap());
  }

  method MarkExtent(d: Device) returns (startSect: int)
    requires d.Valid() && FirstClear(Flat(d.Smap())) < 8 * 512 * d.smapSects
    modifies d.data, d.fsbuf
    ensures OnlySmapChanged(d) && d.Imap() == old(d.Imap())
    ensures
      var f := FirstClear(Flat(old(d.Smap())));
      startSect + 1 - d.FirstSect() == f && Flat(d.Smap()) == SetRange(Flat(old(d.Smap())), f, f + N)
  {
    startSect := AllocSmapBit(d, N);
    assert d.Imap() == old(d.Imap());
  }

  lemma CreateIs(inodes: seq<Byte>, sectors: seq<Byte>, inodes': seq<Byte>, sectors': seq<Byte>,
                 files: map<nat, nat>, ino: nat, f: nat)
    requires ino == FirstClear(Flat(inodes)) && Flat(inodes') == SetRange(Flat(inodes), ino, ino + 1)
    requires f == FirstClear(Flat(sectors)) && Flat(sectors') == SetRange(Flat(sectors), f, f + N)
    ensures Maps(Flat(inodes'), Flat(sectors'), files[ino := f]) == Create(Maps(Flat(inodes), Flat(sectors), files))
  {
  }

  // fs/unlink.c:66-105 for inode ino, whose file begins at startSect
  method UnlinkOnDisk(d: Device, ino: nat, startSect: int, ghost files: map<nat, nat>)
    requires d.Valid() && ino in files && ino < NR_DISK_INODES && startSect + 1 - d.FirstSect() == files[ino]
    requires files[ino] + N <= 8 * 512 * d.smapSects
    modifies d.data, d.fsbuf
    ensures OnlyMapsChanged(d)
    ensures Contents(d, files - {ino}) == Unlink(old(Contents(d, files)), ino)
  {
    ghost var inodes, sectors := d.Imap(), d.Smap();
    ForgetInode(d, ino);
    ghost var inodes' := d.Imap();
    ForgetExtent(d, startSect + 1 - d.FirstSect());
    UnlinkIs(inodes, sectors, inodes', d.Smap(), files, ino, files[ino]);
  }

  lemma UnlinkIs(inodes: seq<Byte>, sectors: seq<Byte>, inodes': seq<Byte>, sectors': seq<Byte>,
                 files: map<nat, nat>, ino: nat, f: nat)
    requires ino in files && f == files[ino] && Flat(inodes') == ClearRange(Flat(inodes), ino, ino + 1)
    requires Flat(sectors') == ClearRange(Flat(sectors), f, f + N - Missed(f))
    ensures Maps(Flat(inodes'), Flat(sectors'), files - {ino}) == Unlink(Maps(Flat(inodes), Flat(sectors), files), ino)
  {
  }

  method ForgetInode(d: Device, ino: nat)
    requires d.Valid() && ino < NR_DISK_INODES
    modifies d.data, d.fsbuf
    ensures OnlyImapChanged(d) && d.Smap() == old(d.Smap())
    ensures Flat(d.Imap()) == ClearRange(Flat(old(d.Imap())), ino, ino + 1)
  {
    ClearImapBit(d, ino);
    assert d.Smap() == old(d.Smap());
  }

  method ForgetExtent(d: Device, f: nat)
    requires d.Valid() && f + N <= 8 * 512 * d.smapSects
    modifies d.data, d.fsbuf
    ensures OnlySmapChanged(d) && d.Imap() == old(d.Imap())
    ensures Flat(d.Smap()) == ClearRange(Flat(old(d.Smap())), f, f + N - Missed(f))
  {
    ClearExtent(d, f);
    assert d.Imap() == old(d.Imap());
  }

  // fs/fs.c:111-184: both maps of a new file system.
  method MakeMaps(d: Device)
    requires d.Valid() && INSTALL_FIRST_SECTOR >= d.FirstSect() + N
    requires INSTALL_FIRST_SECTOR - d.FirstSect() + 1 + N < 8 * 512 * d.smapSects
    modifies d.data, d.fsbuf
    ensures OnlyMapsChanged(d)
    ensures
      var tarBit := INSTALL_FIRST_SECTOR - d.FirstSect() + 1;
      Contents(d, map[ROOT_INODE := SlotBit(0), TAR_INODE := tarBit]) == Fresh(tarBit, 8 * 512 * d.smapSects)
  {
    MarkInodes(d);
    ghost var inodes := d.Imap();
    MarkSectors(d, INSTALL_FIRST_SECTOR - d.FirstSect() + 1);
    assert d.Imap() == inodes;
  }

  // fs/fs.c:121-184: the map of sectors, with cmd.tar at bitOff.
  method MarkSectors(d: Device, bitOff: nat)
    requires d.Valid() && N < bitOff && bitOff + N < 8 * 512 * d.smapSects
    modifies d.data, d.fsbuf
    ensures OnlySmapChanged(d)
    ensures Flat(d.Smap()) == SetRange(RootMap(8 * 512 * d.smapSects), bitOff, bitOff + N)
  {
    MarkRoot(d);
    assert !ByteIsFull(Flat(d.Smap()), bitOff / 8) by {
      assert !Flat(d.Smap())[8 * (bitOff / 8) + 7];
    }
    MarkInstall(d, bitOff);
  }

  // fs/fs.c:112-118: the reserved inode 0 and the first five inodes.
  method MarkInodes(d: Device)
    requires d.Valid()
    modifies d.data, d.fsbuf
    ensures OnlyImapChanged(d)
    ensures Flat(d.Imap()) == seq(NR_DISK_INODES, i => i < 6)
  {
    forall j | 0 <= j < 512 {
      d.fsbuf[j] := ZERO;
    }
    d.fsbuf[0] := FillTail(d.fsbuf[0], 6);
    d.WriteSectors(IMAP_BLK0, 512);
    FirstSix(d.Imap());
  }

  lemma FirstSix(m: seq<Byte>)
    requires 8 * |m| == NR_DISK_INODES && forall j :: 0 < j < |m| ==> m[j] == ZERO
    requires forall k :: 0 <= k < 8 ==> (Bit(m[0], k) <==> k < 6)
    ensures Flat(m) == seq(NR_DISK_INODES, i => i < 6)
  {
    forall g | 0 <= g < 8 * |m| ensures Flat(m)[g] == (g < 6) {
      if g < 8 { assert g / 8 == 0 && g % 8 == g; } else { assert m[g / 8] == ZERO; }
    }
  }
}
