// The two bitmaps on the disk: allocation (fs/open.c:14-64), release
// (fs/unlink.c:66-105) and the marks that mkfs makes (fs/fs.c:121-184).
module SectorMap {
  import opened Bits
  import opened Disk

  // Nothing but the sector map differs.
  twostate predicate OnlySmapChanged(d: Device)
    requires d.Valid()
    reads d.data
  {
    forall i :: 0 <= i < d.data.Length && !(512 * SMAP_BLK0 <= i < 512 * d.InodeBlk0()) ==> d.data[i] == old(d.data[i])
  }

  // The sector map is cur, of which sector i is still in the buffer.
  ghost predicate Holds(d: Device, cur: seq<Byte>, i: nat)
    requires d.Valid()
    reads d.data, d.fsbuf
  {
    && |cur| == 512 * d.smapSects && i < d.smapSects
    && (forall j :: 0 <= j < 512 ==> d.fsbuf[j] == cur[512 * i + j])
    && (forall y :: 0 <= y < |cur| && !(512 * i <= y < 512 * i + 512) ==> d.Smap()[y] == cur[y])
  }

  method LoadSmap(d: Device, i: nat)
    requires d.Valid() && i < d.smapSects
    modifies d.fsbuf
    ensures Holds(d, d.Smap(), i)
  {
    d.ReadSectors(SMAP_BLK0 + i, 512);
  }

  method StoreSmap(d: Device, i: nat, ghost cur: seq<Byte>)
    requires d.Valid() && Holds(d, cur, i)
    modifies d.data
    ensures d.Smap() == cur && OnlySmapChanged(d)
  {
    d.WriteSectors(SMAP_BLK0 + i, 512);
  }

  // fsbuf[j] = r
  method PutByte(d: Device, i: nat, j: nat, r: Byte, ghost cur: seq<Byte>)
    requires d.Valid() && Holds(d, cur, i) && j < 512
    modifies d.fsbuf
    ensures Holds(d, cur[512 * i + j := r], i)
  {
    d.fsbuf[j] := r;
  }

  // ------------------------------------------------------------ allocation

  // Where alloc_smap_bit has got to: f is the first clear bit or -1, left of
  // the n bits are still to be set, and the next bit to look at is at.
  ghost predicate Progress(old_: seq<Byte>, cur: seq<Byte>, f: int, n: nat, left: nat, at: int) {
    if f < 0 then left == n && cur == old_ && FullBelow(old_, at)
    else
      && f < 8 * |old_| && FullBelow(old_, f) && !Bit(old_[f / 8], f % 8)
      && left <= n && RangeSet(old_, cur, f, f + n - left) && (left > 0 ==> f + n - left == at)
  }

  // One byte of the walk that starts at bit 8 * y.
  lemma ByteFilled(old_: seq<Byte>, cur: seq<Byte>, y: nat, f: int, lo: int, hi: int, r: Byte)
    requires y < |cur| && RangeSet(old_, cur, f, lo) && f <= lo && 8 * y <= lo <= hi <= 8 * y + 8
    requires forall j :: 0 <= j < 8 ==> (Bit(r, j) <==> Bit(cur[y], j) || lo <= 8 * y + j < hi)
    ensures RangeSet(old_, cur[y := r], f, hi)
  {
  }

  // The byte is full and nothing was found yet: go on.
  lemma ByteSkipped(m: seq<Byte>, cur: seq<Byte>, y: nat, n: nat, left: nat)
    requires y < |m| && Progress(m, cur, -1, n, left, 8 * y) && m[y] == FULL
    ensures Progress(m, cur, -1, n, left, 8 * (y + 1))
  {
    FullByte(m[y]);
  }

  // Bits are set in byte y from bit k, where the first clear bit is found now
  // or was found before.
  lemma ByteMarked(m: seq<Byte>, cur: seq<Byte>, y: nat, f0: int, k: nat, n: nat, left: nat, left': nat, r: Byte)
    requires y < |m| && |cur| == |m| && Progress(m, cur, f0, n, left, 8 * y) && f0 < 8 * y && left > 0 && k < 8
    requires f0 >= 0 ==> k == 0
    requires f0 < 0 ==> !Bit(m[y], k) && forall j :: 0 <= j < k ==> Bit(m[y], j)
    requires left' == if left <= 8 - k then 0 else left - (8 - k)
    requires forall j :: 0 <= j < 8 ==> (Bit(r, j) <==> Bit(cur[y], j) || k <= j < k + left)
    ensures Progress(m, cur[y := r], if f0 < 0 then 8 * y + k else f0, n, left', 8 * (y + 1))
  {
    var f := if f0 < 0 then 8 * y + k else f0;
    if f0 < 0 {
      assert f / 8 == y && f % 8 == k;
      assert RangeSet(m, cur, f, f);
    }
    ByteFilled(m, cur, y, f, 8 * y + k, 8 * y + k + left - left', r);
  }

  // fs/open.c:36-64
  method AllocSmapBit(d: Device, n: nat) returns (freeSect: int)
    requires d.Valid() && n > 0
    modifies d.data, d.fsbuf
    ensures OnlySmapChanged(d)
    ensures
      var was := Flat(old(d.Smap()));
      var f := FirstClear(was);
      && Flat(d.Smap()) == SetRange(was, f, f + n)
      && freeSect == if f < |was| then f - 1 + d.FirstSect() else 0
  {
    ghost var m := d.Smap();
    assert Flat(d.Smap()) == Flat(m);
    ghost var cur, f, left;
    freeSect, cur, f, left := AllocRun(d, n);
    AllocationDone(m, cur, f, n, left);
    assert Flat(d.Smap()) == Flat(cur);
  }

  // The loop over the sectors of the map; f is the first clear bit, -1 if there
  // is none.
  method AllocRun(d: Device, n: nat) returns (freeSect: int, ghost cur: seq<Byte>, ghost f: int, ghost left': nat)
    requires d.Valid() && n > 0
    modifies d.data, d.fsbuf
    ensures OnlySmapChanged(d) && d.Smap() == cur && Progress(old(d.Smap()), cur, f, n, left', 8 * |cur|)
    ensures f < 8 * |cur| && freeSect == if f < 0 then 0 else f - 1 + d.FirstSect()
  {
    ghost var m := d.Smap();
    cur, f, freeSect := m, -1, 0;
    var left := n;
    var i := 0;
    while i < d.smapSects
      invariant 0 <= i <= d.smapSects && left > 0
      invariant d.Smap() == cur && OnlySmapChanged(d)
      invariant Progress(m, cur, f, n, left, 8 * 512 * i)
      invariant freeSect == if f < 0 then 0 else f - 1 + d.FirstSect()
      invariant f < 8 * 512 * i
    {
      LoadSmap(d, i);
      freeSect, left, cur, f := AllocInSector(d, i, freeSect, n, left, m, cur, f);
      if freeSect != 0 {
        StoreSmap(d, i, cur);
      }
      if left == 0 {
        break;
      }
      i := i + 1;
    }
    left' := left;
  }

  lemma AllocationDone(m: seq<Byte>, cur: seq<Byte>, f: int, n: nat, left: nat)
    requires Progress(m, cur, f, n, left, 8 * |m|)
    ensures
      var f' := FirstClear(Flat(m));
      f' == (if f < 0 then 8 * |m| else f) && Flat(cur) == SetRange(Flat(m), f', f' + n)
  {
    FlatFirstClear(m, if f < 0 then 8 * |m| else f);
    if f >= 0 {
      FlatSet(m, cur, f, f + n - left);
    }
  }

  // The loop over the bytes of the sector in the buffer (fs/open.c:44-57).
  method AllocInSector(d: Device, i: nat, free0: int, n: nat, left0: nat, ghost m: seq<Byte>, ghost cur0: seq<Byte>,
                       ghost f0: int)
    returns (freeSect: int, left: nat, ghost cur: seq<Byte>, ghost f: int)
    requires d.Valid() && Holds(d, cur0, i) && left0 > 0 && |m| == |cur0|
    requires Progress(m, cur0, f0, n, left0, 8 * 512 * i) && f0 < 8 * 512 * i
    requires free0 == if f0 < 0 then 0 else f0 - 1 + d.FirstSect()
    modifies d.fsbuf
    ensures Holds(d, cur, i) && |m| == |cur|
    ensures Progress(m, cur, f, n, left, 8 * 512 * (i + 1)) && f < 8 * 512 * (i + 1)
    ensures freeSect == if f < 0 then 0 else f - 1 + d.FirstSect()
  {
    freeSect, left, cur, f := free0, left0, cur0, f0;
    var j := 0;
    while j < 512 && left > 0
      invariant 0 <= j <= 512 && Holds(d, cur, i) && |m| == |cur|
      invariant Progress(m, cur, f, n, left, 8 * (512 * i + j)) && f < 8 * (512 * i + j)
      invariant freeSect == if f < 0 then 0 else f - 1 + d.FirstSect()
      decreases 512 - j
    {
      freeSect, left, cur, f := AllocInByte(d, i, j, freeSect, n, left, m, cur, f);
      j := j + 1;
    }
  }

  // fs/open.c:45-56
  method AllocInByte(d: Device, i: nat, j: nat, free0: int, n: nat, left0: nat, ghost m: seq<Byte>,
                     ghost cur0: seq<Byte>, ghost f0: int)
    returns (freeSect: int, left: nat, ghost cur: seq<Byte>, ghost f: int)
    requires d.Valid() && Holds(d, cur0, i) && left0 > 0 && |m| == |cur0| && j < 512
    requires Progress(m, cur0, f0, n, left0, 8 * (512 * i + j)) && f0 < 8 * (512 * i + j)
    requires free0 == if f0 < 0 then 0 else f0 - 1 + d.FirstSect()
    modifies d.fsbuf
    ensures Holds(d, cur, i) && |m| == |cur|
    ensures Progress(m, cur, f, n, left, 8 * (512 * i + j + 1)) && f < 8 * (512 * i + j + 1)
    ensures freeSect == if f < 0 then 0 else f - 1 + d.FirstSect()
  {
    freeSect, left, cur, f := free0, left0, cur0, f0;
    ghost var y := 512 * i + j;
    var k := 0;
    if freeSect == 0 {
      if d.fsbuf[j] == FULL {
        ByteSkipped(m, cur, y, n, left);
        return;
      }
      k := FindClear(d.fsbuf[j]);
      freeSect := (i * 512 + j) * 8 + k - 1 + d.FirstSect();
    }
    var r;
    r, left := FillByte(d.fsbuf[j], k, left);
    ByteMarked(m, cur, y, f, k, n, left0, left, r);
    PutByte(d, i, j, r, cur);
    cur := cur[y := r];
    f := if f < 0 then 8 * y + k else f;
  }

  // --------------------------------------------------------------- release

  // The bits that unlink forgets: when the extent starts in byte 256 of a
  // sector of the map, its last byte is the first of the next sector.
  function Missed(initBit: nat): nat {
    if initBit / 8 % 512 == 256 then initBit % 8 else 0
  }

  ghost predicate Releasing(m: seq<Byte>, cur: seq<Byte>, initBit: nat, at: int) {
    RangeCleared(m, cur, initBit, at) && initBit <= at
  }

  // Byte y, where the walk has arrived, loses its bits up to hi.
  lemma ByteWiped(m: seq<Byte>, cur: seq<Byte>, y: nat, initBit: nat, lo: int, hi: int, r: Byte)
    requires y < |cur| && Releasing(m, cur, initBit, lo) && 8 * y <= lo <= hi <= 8 * y + 8
    requires forall j :: 0 <= j < 8 ==> (Bit(r, j) <==> Bit(cur[y], j) && !(lo <= 8 * y + j < hi))
    ensures Releasing(m, cur[y := r], initBit, hi)
  {
  }

  // fs/unlink.c:74-105 for a file of the default size
  method ClearExtent(d: Device, initBit: nat)
    requires d.Valid() && initBit + NR_DEFAULT_FILE_SECTS <= 8 * 512 * d.smapSects
    modifies d.data, d.fsbuf
    ensures OnlySmapChanged(d)
    ensures Flat(d.Smap()) ==
      ClearRange(Flat(old(d.Smap())), initBit, initBit + NR_DEFAULT_FILE_SECTS - Missed(initBit))
  {
    ghost var m := d.Smap();
    ClearBits(d, initBit);
    FlatCleared(m, d.Smap(), initBit, initBit + NR_DEFAULT_FILE_SECTS - Missed(initBit));
  }

  method ClearBits(d: Device, initBit: nat)
    requires d.Valid() && initBit + NR_DEFAULT_FILE_SECTS <= 8 * 512 * d.smapSects
    modifies d.data, d.fsbuf
    ensures OnlySmapChanged(d)
    ensures RangeCleared(old(d.Smap()), d.Smap(), initBit, initBit + NR_DEFAULT_FILE_SECTS - Missed(initBit))
  {
    ghost var m := d.Smap();
    ghost var cur := m;
    var initByte := initBit / 8;
    var bitsLeft := NR_DEFAULT_FILE_SECTS;
    var bytesCnt := (bitsLeft - (8 - initBit % 8)) / 8;
    var initSector := initByte / 512;
    var flag1 := false;
    var i, j, k := 0, 0, 0;
    while i <= NR_DEFAULT_FILE_SECTS / 4096 + 1
      invariant i <= 1 && d.Smap() == cur && OnlySmapChanged(d)
      invariant i == 0 ==> !flag1 && k == 0 && bitsLeft == NR_DEFAULT_FILE_SECTS && cur == m
      invariant i == 1 ==> flag1 && j == 0 && k == 512 * (initSector + 1) - (initByte + 1) < 255
      invariant i == 1 ==> Releasing(m, cur, initBit, 8 * 512 * (initSector + 1))
      invariant i == 1 ==> bitsLeft == initBit + NR_DEFAULT_FILE_SECTS - 8 * 512 * (initSector + 1)
      decreases 2 - i
    {
      var s := initSector + i;
      LoadSmap(d, s);
      if !flag1 {
        bitsLeft, cur := ClearFirstByte(d, s, initBit, bitsLeft, cur);
        flag1 := true;
        j := initByte % 512 + 1;
      }
      j, k, bitsLeft, cur := ClearBytes(d, s, j, k, bytesCnt, bitsLeft, m, cur, initBit);
      if k < bytesCnt {
        j := 0;
      }
      if k == bytesCnt {
        cur := ClearLastByte(d, s, j, bitsLeft, m, cur, initBit);
        break;
      }
      i := i + 1;
    }
  }

  // fs/unlink.c:84-85
  method ClearFirstByte(d: Device, s: nat, initBit: nat, bitsLeft0: nat, ghost m: seq<Byte>)
    returns (bitsLeft: nat, ghost cur: seq<Byte>)
    requires d.Valid() && Holds(d, m, s) && s == initBit / 8 / 512 && bitsLeft0 >= 8
    modifies d.fsbuf
    ensures Holds(d, cur, s) && Releasing(m, cur, initBit, 8 * (initBit / 8) + 8)
    ensures bitsLeft == bitsLeft0 - (8 - initBit % 8)
  {
    var j := initBit / 8 % 512;
    var r;
    r, bitsLeft := WipeByte(d.fsbuf[j], initBit % 8, bitsLeft0);
    ByteWiped(m, m, initBit / 8, initBit, initBit, 8 * (initBit / 8) + 8, r);
    PutByte(d, s, j, r, m);
    cur := m[initBit / 8 := r];
  }

  // The whole bytes (fs/unlink.c:90-96); at the end of the sector the buffer
  // is written and the walk stops.
  method ClearBytes(d: Device, s: nat, j0: nat, k0: nat, bytesCnt: nat, bitsLeft0: nat, ghost m: seq<Byte>,
                    ghost cur0: seq<Byte>, ghost initBit: nat)
    returns (j: nat, k: nat, bitsLeft: nat, ghost cur: seq<Byte>)
    requires d.Valid() && Holds(d, cur0, s) && j0 <= 512 && k0 <= bytesCnt
    requires Releasing(m, cur0, initBit, 8 * (512 * s + j0)) && bitsLeft0 >= 8 * (bytesCnt - k0)
    modifies d.data, d.fsbuf
    ensures OnlySmapChanged(d) && |cur| == |m|
    ensures k - k0 == j - j0 == (if bytesCnt - k0 <= 512 - j0 then bytesCnt - k0 else 512 - j0)
    ensures bitsLeft == bitsLeft0 - 8 * (k - k0)
    ensures Releasing(m, cur, initBit, 8 * (512 * s + j))
    ensures if k == bytesCnt then Holds(d, cur, s) else d.Smap() == cur
  {
    j, k, bitsLeft, cur := j0, k0, bitsLeft0, cur0;
    while k < bytesCnt
      invariant k0 <= k <= bytesCnt && k - k0 == j - j0 && j <= 512
      invariant Holds(d, cur, s) && OnlySmapChanged(d)
      invariant Releasing(m, cur, initBit, 8 * (512 * s + j)) && bitsLeft == bitsLeft0 - 8 * (k - k0)
    {
      if j == 512 {
        StoreSmap(d, s, cur);
        break;
      }
      ByteWiped(m, cur, 512 * s + j, initBit, 8 * (512 * s + j), 8 * (512 * s + j) + 8, ZERO);
      PutByte(d, s, j, ZERO, cur);
      cur := cur[512 * s + j := ZERO];
      k, j, bitsLeft := k + 1, j + 1, bitsLeft - 8;
    }
  }

  // The last byte and the last sector (fs/unlink.c:100-103).  With j = 512 the
  // byte behind the sector is masked, which is not written.
  method ClearLastByte(d: Device, s: nat, j: nat, bitsLeft: nat, ghost m: seq<Byte>, ghost cur0: seq<Byte>,
                       ghost initBit: nat)
    returns (ghost cur: seq<Byte>)
    requires d.Valid() && Holds(d, cur0, s) && j <= 512 && bitsLeft < 8
    requires Releasing(m, cur0, initBit, 8 * (512 * s + j))
    modifies d.data, d.fsbuf
    ensures OnlySmapChanged(d) && d.Smap() == cur
    ensures Releasing(m, cur, initBit, 8 * (512 * s + j) + if j < 512 then bitsLeft else 0)
  {
    var r := ClearLow(d.fsbuf[j], bitsLeft);
    if j < 512 {
      ByteWiped(m, cur0, 512 * s + j, initBit, 8 * (512 * s + j), 8 * (512 * s + j) + bitsLeft, r);
      PutByte(d, s, j, r, cur0);
      cur := cur0[512 * s + j := r];
    } else {
      d.fsbuf[j] := r;
      cur := cur0;
    }
    StoreSmap(d, s, cur);
  }

  // --------------------------------------------------------- the inode map

  twostate predicate OnlyImapChanged(d: Device)
    requires d.Valid()
    reads d.data
  {
    forall i :: 0 <= i < d.data.Length && !(512 * IMAP_BLK0 <= i < 512 * SMAP_BLK0) ==> d.data[i] == old(d.data[i])
  }

  // The first clear bit of the map is bit k of byte j, and r has it set.
  lemma FirstBitSet(m: seq<Byte>, j: nat, k: nat, r: Byte)
    requires j < |m| && FullBelow(m, 8 * j) && k < 8 && !Bit(m[j], k) && forall x :: 0 <= x < k ==> Bit(m[j], x)
    requires forall x :: 0 <= x < 8 ==> (Bit(r, x) <==> x == k || Bit(m[j], x))
    ensures var f := 8 * j + k; FirstClear(Flat(m)) == f && Flat(m[j := r]) == SetRange(Flat(m), f, f + 1)
  {
    var f := 8 * j + k;
    assert f / 8 == j && f % 8 == k;
    FlatFirstClear(m, f);
    FlatSet(m, m[j := r], f, f + 1);
  }

  lemma NoBitSet(m: seq<Byte>)
    requires FullBelow(m, 8 * |m|)
    ensures FirstClear(Flat(m)) == 8 * |m| && Flat(m) == SetRange(Flat(m), 8 * |m|, 8 * |m| + 1)
  {
    FlatFirstClear(m, 8 * |m|);
  }

  lemma OneBitCleared(m: seq<Byte>, f: nat, r: Byte)
    requires f < 8 * |m| && r == ClearBit(m[f / 8], f % 8)
    ensures Flat(m[f / 8 := r]) == ClearRange(Flat(m), f, f + 1)
  {
    FlatCleared(m, m[f / 8 := r], f, f + 1);
  }

  method LoadImap(d: Device)
    requires d.Valid()
    modifies d.fsbuf
    ensures d.fsbuf[..512] == d.Imap()
  {
    d.ReadSectors(IMAP_BLK0, 512);
  }

  // fsbuf[j] = r, and the sector goes back to the disk.
  method StoreImapByte(d: Device, j: nat, r: Byte)
    requires d.Valid() && d.fsbuf[..512] == d.Imap() && j < 512
    modifies d.data, d.fsbuf
    ensures OnlyImapChanged(d) && d.Imap() == old(d.Imap())[j := r]
  {
    ghost var m := d.Imap();
    forall x | 0 <= x < 512 ensures d.fsbuf[x] == m[x] { assert d.fsbuf[..512][x] == m[x]; }
    d.fsbuf[j] := r;
    d.WriteSectors(IMAP_BLK0, 512);
  }

  // fs/open.c:14-33.  0, which is never free, says that the map is full.
  method AllocImapBit(d: Device) returns (inodeNr: nat)
    requires d.Valid()
    modifies d.data, d.fsbuf
    ensures OnlyImapChanged(d)
    ensures
      var was := Flat(old(d.Imap()));
      var f := FirstClear(was);
      && Flat(d.Imap()) == SetRange(was, f, f + 1)
      && inodeNr == if f < |was| then f else 0
  {
    ghost var m := d.Imap();
    LoadImap(d);
    var j := 0;
    while j < 512
      invariant 0 <= j <= 512 && d.fsbuf[..512] == m && d.Imap() == m && OnlyImapChanged(d)
      invariant FullBelow(m, 8 * j)
    {
      assert d.fsbuf[j] == m[j];
      if d.fsbuf[j] != FULL {
        var k := FindClear(d.fsbuf[j]);
        FirstBitSet(m, j, k, SetBit(d.fsbuf[j], k));
        StoreImapByte(d, j, SetBit(d.fsbuf[j], k));
        return 8 * j + k;
      }
      FullByte(d.fsbuf[j]);
      j := j + 1;
    }
    NoBitSet(m);
    return 0;
  }

  // fs/unlink.c:67-71
  method ClearImapBit(d: Device, inodeNr: nat)
    requires d.Valid() && inodeNr < NR_DISK_INODES
    modifies d.data, d.fsbuf
    ensures OnlyImapChanged(d)
    ensures Flat(d.Imap()) == ClearRange(Flat(old(d.Imap())), inodeNr, inodeNr + 1)
  {
    ghost var m := d.Imap();
    LoadImap(d);
    var bytesOff, bitsOff := inodeNr / 8, inodeNr % 8;
    assert d.fsbuf[bytesOff] == m[bytesOff];
    var r := ClearBit(d.fsbuf[bytesOff], bitsOff);
    OneBitCleared(m, inodeNr, r);
    StoreImapByte(d, bytesOff, r);
  }

  // ------------------------------------------------------ the marks of mkfs

  // Where the marks for the extent at bitOff begin: a first byte that is full
  // already is counted again from its first bit.
  function InstallStart(b: seq<bool>, bitOff: nat): (st: nat)
    requires 8 * (bitOff / 8) + 8 <= |b|
    ensures st <= bitOff < st + 8
  {
    if ByteIsFull(b, bitOff / 8) then 8 * (bitOff / 8) else bitOff
  }

  predicate ByteIsFull(b: seq<bool>, y: nat)
    requires 8 * y + 8 <= |b|
  {
    forall g :: 8 * y <= g < 8 * y + 8 ==> b[g]
  }

  ghost predicate Marking(m: seq<Byte>, cur: seq<Byte>, st: nat, at: int) {
    RangeSet(m, cur, st, at) && st <= at
  }

  lemma FullByteInMap(m: seq<Byte>, y: nat)
    requires y < |m|
    ensures m[y] == FULL <==> ByteIsFull(Flat(m), y)
  {
    FullByte(m[y]);
    if m[y] == FULL {
      forall g | 8 * y <= g < 8 * y + 8 ensures Flat(m)[g] { assert g / 8 == y; }
    }
    if ByteIsFull(Flat(m), y) {
      forall k | 0 <= k < 8 ensures Bit(m[y], k) {
        assert Flat(m)[8 * y + k];
        assert (8 * y + k) / 8 == y && (8 * y + k) % 8 == k;
      }
    }
  }

  // fs/fs.c:135-184: the extent of 2048 bits reserved from bitOff for cmd.tar.
  // The map has a bit for every sector of the device and more, so the bit
  // behind the extent exists.
  method MarkInstall(d: Device, bitOff: nat)
    requires d.Valid() && bitOff + NR_DEFAULT_FILE_SECTS < 8 * 512 * d.smapSects
    modifies d.data, d.fsbuf
    ensures OnlySmapChanged(d)
    ensures
      var was := Flat(old(d.Smap()));
      var st := InstallStart(was, bitOff);
      Flat(d.Smap()) == SetRange(was, st, st + NR_DEFAULT_FILE_SECTS)
  {
    ghost var m := d.Smap();
    FullByteInMap(m, bitOff / 8);
    ghost var st := if m[bitOff / 8] == FULL then 8 * (bitOff / 8) else bitOff;
    var curSector := bitOff / (8 * 512);
    var byteOff := bitOff % (8 * 512) / 8;
    LoadSmap(d, curSector);
    var bitsLeft;
    ghost var cur;
    byteOff, bitsLeft, cur := MarkFirstByte(d, curSector, byteOff, bitOff, m, st);
    curSector, byteOff, bitsLeft, cur := MarkBytes(d, curSector, byteOff, bitsLeft, m, cur, st);
    cur := MarkTail(d, curSector, byteOff, bitsLeft, m, cur, st);
    FlatSet(m, cur, st, st + NR_DEFAULT_FILE_SECTS);
  }

  // fs/fs.c:171-184
  method MarkTail(d: Device, s0: nat, byteOff0: nat, bitsLeft: nat, ghost m: seq<Byte>, ghost cur0: seq<Byte>,
                  ghost st: nat)
    returns (ghost cur: seq<Byte>)
    requires d.Valid() && Holds(d, cur0, s0) && byteOff0 <= 512 && bitsLeft < 8
    requires Marking(m, cur0, st, 8 * (512 * s0 + byteOff0))
    requires 8 * (512 * s0 + byteOff0) < 8 * 512 * d.smapSects
    modifies d.data, d.fsbuf
    ensures OnlySmapChanged(d) && d.Smap() == cur
    ensures Marking(m, cur, st, 8 * (512 * s0 + byteOff0) + bitsLeft)
  {
    var s, byteOff := s0, byteOff0;
    if byteOff == 512 {
      StoreSmap(d, s, cur0);
      byteOff, s := 0, s + 1;
      LoadSmap(d, s);
    }
    var r := FillTail(d.fsbuf[byteOff], bitsLeft);
    ghost var y := 512 * s + byteOff;
    ByteFilled(m, cur0, y, st, 8 * y, 8 * y + bitsLeft, r);
    PutByte(d, s, byteOff, r, cur0);
    cur := cur0[y := r];
    StoreSmap(d, s, cur);
  }

  // fs/fs.c:146-152
  method MarkFirstByte(d: Device, s: nat, byteOff0: nat, bitOff: nat, ghost m: seq<Byte>, ghost st: nat)
    returns (byteOff: nat, bitsLeft: nat, ghost cur: seq<Byte>)
    requires d.Valid() && Holds(d, m, s) && s == bitOff / (8 * 512) && byteOff0 == bitOff % (8 * 512) / 8
    requires st == if m[bitOff / 8] == FULL then 8 * (bitOff / 8) else bitOff
    modifies d.fsbuf
    ensures byteOff <= 512 && Holds(d, cur, s) && Marking(m, cur, st, 8 * (512 * s + byteOff))
    ensures bitsLeft == st + NR_DEFAULT_FILE_SECTS - 8 * (512 * s + byteOff)
  {
    byteOff, bitsLeft, cur := byteOff0, NR_DEFAULT_FILE_SECTS, m;
    ghost var y := bitOff / 8;
    assert y == 512 * s + byteOff && bitOff == 8 * y + bitOff % 8;
    if d.fsbuf[byteOff] != FULL {
      var r;
      r, bitsLeft := FillByte(d.fsbuf[byteOff], bitOff % 8, bitsLeft);
      ByteFilled(m, m, y, bitOff, bitOff, 8 * y + 8, r);
      PutByte(d, s, byteOff, r, m);
      cur := m[y := r];
      byteOff := byteOff + 1;
    }
  }

  // fs/fs.c:154-169
  method MarkBytes(d: Device, s0: nat, byteOff0: nat, bitsLeft0: nat, ghost m: seq<Byte>, ghost cur0: seq<Byte>,
                   ghost st: nat)
    returns (s: nat, byteOff: nat, bitsLeft: nat, ghost cur: seq<Byte>)
    requires d.Valid() && Holds(d, cur0, s0) && byteOff0 <= 512 && Marking(m, cur0, st, 8 * (512 * s0 + byteOff0))
    requires bitsLeft0 == st + NR_DEFAULT_FILE_SECTS - 8 * (512 * s0 + byteOff0)
    requires st + NR_DEFAULT_FILE_SECTS < 8 * 512 * d.smapSects
    modifies d.data, d.fsbuf
    ensures OnlySmapChanged(d) && Holds(d, cur, s) && byteOff <= 512 && bitsLeft < 8
    ensures Marking(m, cur, st, 8 * (512 * s + byteOff))
    ensures bitsLeft == st + NR_DEFAULT_FILE_SECTS - 8 * (512 * s + byteOff)
  {
    s, byteOff, bitsLeft, cur := s0, byteOff0, bitsLeft0, cur0;
    var bytesLeft := bitsLeft / 8;
    while bytesLeft > 0
      invariant OnlySmapChanged(d) && Holds(d, cur, s) && byteOff <= 512
      invariant Marking(m, cur, st, 8 * (512 * s + byteOff)) && bytesLeft == bitsLeft / 8
      invariant bitsLeft == st + NR_DEFAULT_FILE_SECTS - 8 * (512 * s + byteOff)
      decreases bytesLeft, byteOff
    {
      if byteOff == 512 {
        StoreSmap(d, s, cur);
        byteOff, s := 0, s + 1;
        LoadSmap(d, s);
      } else {
        FullByte(FULL);
        ghost var y := 512 * s + byteOff;
        ByteFilled(m, cur, y, st, 8 * y, 8 * y + 8, FULL);
        PutByte(d, s, byteOff, FULL, cur);
        cur := cur[y := FULL];
        byteOff, bytesLeft, bitsLeft := byteOff + 1, bytesLeft - 1, bitsLeft - 8;
      }
    }
  }

  // fs/fs.c:178-183
  method FillTail(b: Byte, n: nat) returns (r: Byte)
    requires n < 8
    ensures forall j :: 0 <= j < 8 ==> (Bit(r, j) <==> Bit(b, j) || j < n)
  {
    r := b;
    var i, left := 0, n;
    while left > 0
      invariant i + left == n
      invariant forall j :: 0 <= j < 8 ==> (Bit(r, j) <==> Bit(b, j) || j < i)
    {
      r := SetBit(r, i);
      i, left := i + 1, left - 1;
    }
  }

  // The marks are the extent itself unless its first byte is full, the extent
  // begins inside that byte, and one of its last bits was clear.
  lemma InstallIsExact(b: seq<bool>, bitOff: nat)
    requires bitOff + NR_DEFAULT_FILE_SECTS < |b| && |b| % 8 == 0
    ensures
      var st := InstallStart(b, bitOff);
      SetRange(b, st, st + NR_DEFAULT_FILE_SECTS) == SetRange(b, bitOff, bitOff + NR_DEFAULT_FILE_SECTS)
      <==> forall g :: st + NR_DEFAULT_FILE_SECTS <= g < bitOff + NR_DEFAULT_FILE_SECTS ==> b[g]
  {
    var st := InstallStart(b, bitOff);
    var x, y := SetRange(b, st, st + NR_DEFAULT_FILE_SECTS), SetRange(b, bitOff, bitOff + NR_DEFAULT_FILE_SECTS);
    if x == y {
      forall g | st + NR_DEFAULT_FILE_SECTS <= g < bitOff + NR_DEFAULT_FILE_SECTS ensures b[g] {
        assert y[g] && x[g];
      }
    }
  }

  // Bit 0, which stands for no sector, and the bits of the root directory.
  function RootMap(n: nat): (b: seq<bool>)
    ensures |b| == n
  {
    seq(n, g => g < NR_DEFAULT_FILE_SECTS + 1)
  }

  // On the map that mkfs has at this point the marks are wrong exactly if the
  // extent begins inside a byte of the root directory's own bits, with bit 9 for
  // instance; the gap that MakeFileSystem asks for rules this out.
  lemma InstallOnRootMap(n: nat, bitOff: nat)
    requires n % 8 == 0 && bitOff + NR_DEFAULT_FILE_SECTS < n
    ensures
      var b := RootMap(n);
      var st := InstallStart(b, bitOff);
      SetRange(b, st, st + NR_DEFAULT_FILE_SECTS) == SetRange(b, bitOff, bitOff + NR_DEFAULT_FILE_SECTS)
      <==> bitOff <= 1 || bitOff % 8 == 0 || bitOff >= NR_DEFAULT_FILE_SECTS
  {
    var b := RootMap(n);
    var y, last := bitOff / 8, bitOff + NR_DEFAULT_FILE_SECTS - 1;
    InstallIsExact(b, bitOff);
    if bitOff >= NR_DEFAULT_FILE_SECTS {
      assert !b[8 * y + 7];
    } else {
      assert ByteIsFull(b, y);
      assert bitOff > 1 ==> !b[last];
    }
  }

  // fs/fs.c:121-132: bit 0 and the root directory's sectors, all else clear.
  method MarkRoot(d: Device)
    requires d.Valid()
    modifies d.data, d.fsbuf
    ensures OnlySmapChanged(d)
    ensures Flat(d.Smap()) == RootMap(8 * 512 * d.smapSects)
  {
    forall j | 0 <= j < 512 {
      d.fsbuf[j] := ZERO;
    }
    FullByte(FULL);
    var i := 0;
    while i < (NR_DEFAULT_FILE_SECTS + 1) / 8
      invariant 0 <= i <= 256 && forall j :: 0 <= j < 512 ==> d.fsbuf[j] == if j < i then FULL else ZERO
      modifies d.fsbuf
    {
      d.fsbuf[i] := FULL;
      i := i + 1;
    }
    d.fsbuf[i] := FillTail(d.fsbuf[i], (NR_DEFAULT_FILE_SECTS + 1) % 8);
    d.WriteSectors(SMAP_BLK0, 512);
    ghost var m0 := d.Smap();
    assert forall y, k :: 0 <= y < 512 && 0 <= k < 8 ==> (Bit(m0[y], k) <==> 8 * y + k < 2049);
    forall j | 0 <= j < 512 {
      d.fsbuf[j] := ZERO;
    }
    ClearOtherSectors(d);
    RootMarks(m0, d.Smap());
  }

  lemma RootMarks(m0: seq<Byte>, m: seq<Byte>)
    requires |m| == |m0| && forall y :: 0 <= y < |m| ==> m[y] == if y < 512 then m0[y] else ZERO
    requires forall y, k :: 0 <= y < 512 && y < |m| && 0 <= k < 8 ==> (Bit(m0[y], k) <==> 8 * y + k < 2049)
    ensures Flat(m) == RootMap(8 * |m|)
  {
    forall g | 0 <= g < 8 * |m| ensures Flat(m)[g] == (g < 2049) {
      assert g == 8 * (g / 8) + g % 8;
    }
  }

  // fs/fs.c:130-132, with zeros in the buffer
  method ClearOtherSectors(d: Device)
    requires d.Valid() && forall j :: 0 <= j < 512 ==> d.fsbuf[j] == ZERO
    modifies d.data
    ensures OnlySmapChanged(d)
    ensures forall y :: 0 <= y < |d.Smap()| ==> d.Smap()[y] == if y < 512 then old(d.Smap()[y]) else ZERO
  {
    ghost var m := d.Smap();
    var i := 1;
    while i < d.smapSects
      invariant 1 <= i <= d.smapSects && OnlySmapChanged(d)
      invariant forall y :: 0 <= y < |m| ==> d.Smap()[y] == if 512 <= y < 512 * i then ZERO else m[y]
    {
      d.WriteSectors(SMAP_BLK0 + i, 512);
      i := i + 1;
    }
  }
}
