// Inode records in the inode array: sixteen of 32 bytes in a sector, of which
// the first 16 bytes are four little-endian words (include/fs.h:24-36).
module InodeDisk {
  import opened Bits
  import opened Disk

  // A u32 by its bytes, the least significant first.
  datatype Word = Word(w0: Byte, w1: Byte, w2: Byte, w3: Byte)

  datatype Record = Record(mode: Word, size: Word, start: Word, nrSects: Word)

  function WordAt(b: seq<Byte>, off: nat): Word
    requires off + 4 <= |b|
  {
    Word(b[off], b[off + 1], b[off + 2], b[off + 3])
  }

  function RecordAt(b: seq<Byte>, off: nat): Record
    requires off + 16 <= |b|
  {
    Record(WordAt(b, off), WordAt(b, off + 4), WordAt(b, off + 8), WordAt(b, off + 12))
  }

  // struct inode (include/fs.h:24-28): mode, size, first sector, sectors, each
  // of four bytes.
  lemma RecordLayout(b: seq<Byte>, off: nat, i: nat)
    requires off + 16 <= |b| && i < 4
    ensures
      var r := RecordAt(b, off);
      var w := [r.mode, r.size, r.start, r.nrSects][i];
      [w.w0, w.w1, w.w2, w.w3] == b[off + 4 * i..off + 4 * i + 4]
  {
  }

  method PutWord(a: array<Byte>, off: nat, x: Word)
    requires off + 4 <= a.Length
    modifies a
    ensures WordAt(a[..], off) == x
    ensures forall i :: 0 <= i < a.Length && !(off <= i < off + 4) ==> a[i] == old(a[i])
  {
    a[off], a[off + 1], a[off + 2], a[off + 3] := x.w0, x.w1, x.w2, x.w3;
  }

  method PutRecord(a: array<Byte>, off: nat, r: Record)
    requires off + 16 <= a.Length
    modifies a
    ensures RecordAt(a[..], off) == r
    ensures forall i :: 0 <= i < a.Length && !(off <= i < off + 16) ==> a[i] == old(a[i])
  {
    PutWord(a, off, r.mode);
    PutWord(a, off + 4, r.size);
    PutWord(a, off + 8, r.start);
    PutWord(a, off + 12, r.nrSects);
  }

  // --------------------------------------------------------- words as numbers

  function Pow2(n: nat): nat { if n == 0 then 1 else 2 * Pow2(n - 1) }

  // The n lowest bits of a number, and the number of a sequence of bits.
  function NatBits(x: nat, n: nat): (b: seq<bool>)
    ensures |b| == n
  {
    if n == 0 then [] else [x % 2 == 1] + NatBits(x / 2, n - 1)
  }

  function BitsValue(b: seq<bool>): nat {
    if b == [] then 0 else (if b[0] then 1 else 0) + 2 * BitsValue(b[1..])
  }

  lemma {:induction false} BitsRoundTrip(x: nat, n: nat)
    requires x < Pow2(n)
    ensures BitsValue(NatBits(x, n)) == x
  {
    if n > 0 {
      BitsRoundTrip(x / 2, n - 1);
      assert NatBits(x, n)[1..] == NatBits(x / 2, n - 1);
    }
  }

  function ByteBits(b: Byte): (s: seq<bool>)
    ensures |s| == 8
  {
    [b.b0, b.b1, b.b2, b.b3, b.b4, b.b5, b.b6, b.b7]
  }

  function BitsByte(s: seq<bool>): (b: Byte)
    requires |s| == 8
    ensures ByteBits(b) == s
  {
    Byte(s[0], s[1], s[2], s[3], s[4], s[5], s[6], s[7])
  }

  function Value(w: Word): nat {
    BitsValue(ByteBits(w.w0) + ByteBits(w.w1) + ByteBits(w.w2) + ByteBits(w.w3))
  }

  lemma ValueOfFirst(x: bool, rest: seq<bool>)
    ensures BitsValue([x] + rest) == (if x then 1 else 0) + 2 * BitsValue(rest)
  {
    assert ([x] + rest)[1..] == rest;
  }

  lemma {:induction false} ValueOfBoth(a: seq<bool>, b: seq<bool>)
    ensures BitsValue(a + b) == BitsValue(a) + Pow2(|a|) * BitsValue(b)
    decreases |a|
  {
    if a == [] {
      assert a + b == b;
    } else {
      var rest := a[1..];
      ValueOfBoth(rest, b);
      ValueOfFirst(a[0], rest + b);
      assert a + b == [a[0]] + (rest + b);
      Twice(Pow2(|rest|), BitsValue(b));
    }
  }

  lemma Twice(p: nat, x: nat)
    ensures 2 * (p * x) == (2 * p) * x
  {
  }

  lemma ValueOfBoth8(low: seq<bool>, high: seq<bool>)
    requires |low| == 8
    ensures BitsValue(low + high) == BitsValue(low) + 256 * BitsValue(high)
  {
    ValueOfBoth(low, high);
    assert Pow2(8) == 256;
  }

  // The byte at the lowest address counts least.
  lemma LittleEndian(w: Word)
    ensures
      var a, b, c, d := ByteBits(w.w0), ByteBits(w.w1), ByteBits(w.w2), ByteBits(w.w3);
      Value(w) == BitsValue(a) + 256 * (BitsValue(b) + 256 * (BitsValue(c) + 256 * BitsValue(d)))
  {
    FourBytes(ByteBits(w.w0), ByteBits(w.w1), ByteBits(w.w2), ByteBits(w.w3));
  }

  lemma FourBytes(a: seq<bool>, b: seq<bool>, c: seq<bool>, d: seq<bool>)
    requires |a| == |b| == |c| == 8
    ensures BitsValue(a + b + c + d) == BitsValue(a) + 256 * (BitsValue(b) + 256 * (BitsValue(c) + 256 * BitsValue(d)))
  {
    var cd := c + d;
    var bcd := b + cd;
    ValueOfBoth8(a, bcd);
    ValueOfBoth8(b, cd);
    ValueOfBoth8(c, d);
    SameSum(a, b, c, d);
  }

  lemma SameSum(a: seq<bool>, b: seq<bool>, c: seq<bool>, d: seq<bool>)
    ensures a + b + c + d == a + (b + (c + d))
  {
  }

  // x modulo 2^32
  function ToWord(x: nat): Word {
    var s := NatBits(x, 32);
    Word(BitsByte(s[..8]), BitsByte(s[8..16]), BitsByte(s[16..24]), BitsByte(s[24..]))
  }

  lemma WordRoundTrip(x: nat)
    requires x < Pow2(32)
    ensures Value(ToWord(x)) == x
  {
    var s := NatBits(x, 32);
    assert s[..8] + s[8..16] + s[16..24] + s[24..] == s;
    BitsRoundTrip(x, 32);
  }

  // ------------------------------------------------------- the inode array

  predicate IsInode(num: int) { 1 <= num <= NR_DISK_INODES }

  // The bytes of the inode array.
  function InodeArray(d: Device): (b: seq<Byte>)
    requires d.Valid()
    reads d.data
    ensures |b| == INODE_SIZE * NR_DISK_INODES
  {
    d.data[512 * d.InodeBlk0()..512 * d.FirstSect()]
  }

  function Records(b: seq<Byte>): (r: seq<Record>)
    requires |b| == INODE_SIZE * NR_DISK_INODES
    ensures |r| == NR_DISK_INODES
  {
    seq(NR_DISK_INODES, i requires 0 <= i < NR_DISK_INODES => RecordAt(b, 32 * i))
  }

  // The record of inode num begins at this byte of the inode array.
  function Offset(num: nat): nat
    requires IsInode(num)
  {
    32 * (num - 1)
  }

  // The sector that get_inode and sync_inode touch lies in the inode array,
  // behind both bitmaps and before the data area, and holds the record; the
  // records of different inodes do not overlap.
  lemma RecordLocation(d: Device, num: nat, other: nat)
    requires IsInode(num) && IsInode(other)
    ensures
      var blk := 2 + d.smapSects + NR_IMAP_SECTS + (num - 1) / (512 / INODE_SIZE);
      && d.InodeBlk0() <= blk < d.FirstSect()
      && 512 * d.InodeBlk0() + Offset(num) == 512 * blk + (num - 1) % (512 / INODE_SIZE) * INODE_SIZE
    ensures num != other ==> Offset(num) + INODE_SIZE <= Offset(other) || Offset(other) + INODE_SIZE <= Offset(num)
  {
  }

  // Writing one record leaves all others.
  lemma OneRecordWritten(was: seq<Byte>, now: seq<Byte>, num: nat)
    requires IsInode(num) && |was| == |now| == INODE_SIZE * NR_DISK_INODES
    requires forall i :: 0 <= i < |now| && !(Offset(num) <= i < Offset(num) + 16) ==> now[i] == was[i]
    ensures Records(now) == Records(was)[num - 1 := RecordAt(now, Offset(num))]
  {
    var x := Records(was)[num - 1 := RecordAt(now, Offset(num))];
    forall i | 0 <= i < NR_DISK_INODES ensures Records(now)[i] == x[i] {
      if i != num - 1 { assert RecordAt(now, 32 * i) == RecordAt(was, 32 * i); }
    }
  }

  // Only the 16 bytes of record num differ: the other fifteen records of the
  // sector, both maps and all data are as before.
  twostate predicate OnlyRecordChanged(d: Device, num: nat)
    requires d.Valid() && IsInode(num)
    reads d.data
  {
    var at := 512 * d.InodeBlk0() + Offset(num);
    forall i :: 0 <= i < d.data.Length && !(at <= i < at + 16) ==> d.data[i] == old(d.data[i])
  }

  // fs/open.c:359-365
  method LoadRecord(d: Device, num: nat) returns (r: Record)
    requires d.Valid() && IsInode(num)
    modifies d.fsbuf
    ensures r == Records(InodeArray(d))[num - 1]
  {
    RecordLocation(d, num, num);
    d.ReadSectors(2 + d.smapSects + NR_IMAP_SECTS + (num - 1) / 16, 512);
    var off := (num - 1) % 16 * 32;
    r := RecordAt(d.fsbuf[..512], off);
    ghost var b, c := d.fsbuf[..512], InodeArray(d);
    LoadedSlice(d.data[..], b, 512 * (2 + d.smapSects + NR_IMAP_SECTS + (num - 1) / 16), off);
    SliceOfSlice(d.data[..], 512 * d.InodeBlk0(), 512 * d.FirstSect(), Offset(num));
    SameRecord(b, off, c, Offset(num));
  }

  lemma SameRecord(b: seq<Byte>, i: nat, c: seq<Byte>, j: nat)
    requires i + 16 <= |b| && j + 16 <= |c| && b[i..i + 16] == c[j..j + 16]
    ensures RecordAt(b, i) == RecordAt(c, j)
  {
    assert forall k :: i <= k < i + 16 ==> b[k] == b[i..i + 16][k - i];
    assert forall k :: j <= k < j + 16 ==> c[k] == c[j..j + 16][k - j];
  }

  // fs/open.c:379-387
  method StoreRecord(d: Device, num: nat, r: Record)
    requires d.Valid() && IsInode(num)
    modifies d.data, d.fsbuf
    ensures OnlyRecordChanged(d, num)
    ensures Records(InodeArray(d)) == old(Records(InodeArray(d)))[num - 1 := r]
    ensures d.Imap() == old(d.Imap()) && d.Smap() == old(d.Smap())
  {
    RecordLocation(d, num, num);
    ghost var was, inodes, sectors := InodeArray(d), d.Imap(), d.Smap();
    var blk, off := 2 + d.smapSects + NR_IMAP_SECTS + (num - 1) / 16, (num - 1) % 16 * 32;
    d.ReadSectors(blk, 512);
    PutRecord(d.fsbuf, off, r);
    WriteBack(d, num, blk, off, r);
    assert d.Imap() == inodes && d.Smap() == sectors;
    assert forall i :: 0 <= i < |was| && !(Offset(num) <= i < Offset(num) + 16) ==> InodeArray(d)[i] == was[i];
    OneRecordWritten(was, InodeArray(d), num);
  }

  lemma LoadedSlice(data: seq<Byte>, buf: seq<Byte>, base: nat, off: nat)
    requires base + 512 <= |data| && 512 <= |buf| && off + 16 <= 512
    requires forall k :: 0 <= k < 512 ==> buf[k] == data[base + k]
    ensures data[base + off..base + off + 16] == buf[off..off + 16]
  {
    assert data[base..base + 512] == buf[..512];
    SliceOfSlice(data, base, base + 512, off);
  }

  lemma SliceOfSlice(data: seq<Byte>, lo: nat, hi: nat, at: nat)
    requires lo <= hi <= |data| && lo + at + 16 <= hi
    ensures data[lo..hi][at..at + 16] == data[lo + at..lo + at + 16]
  {
    var x, y, z := data[lo..hi], data[lo..hi][at..at + 16], data[lo + at..lo + at + 16];
    forall k | 0 <= k < 16 ensures y[k] == z[k] {
      assert y[k] == x[at + k] == data[lo + (at + k)] == z[k];
    }
  }

  lemma CopiedSlice(data: seq<Byte>, buf: seq<Byte>, base: nat, off: nat)
    requires base + 512 <= |data| && 512 <= |buf| && off + 16 <= 512
    requires forall i :: base <= i < base + 512 ==> data[i] == buf[i - base]
    ensures data[base + off..base + off + 16] == buf[off..off + 16]
  {
    forall k | 0 <= k < 512 ensures buf[k] == data[base + k] {
      assert data[base + k] == buf[base + k - base];
    }
    LoadedSlice(data, buf, base, off);
  }

  // The sector in the buffer differs from the device in record num at most.
  method WriteBack(d: Device, num: nat, blk: nat, off: nat, ghost r: Record)
    requires d.Valid() && IsInode(num) && off + 16 <= 512 && RecordAt(d.fsbuf[..], off) == r
    requires d.InodeBlk0() <= blk < d.FirstSect() && 512 * d.InodeBlk0() + Offset(num) == 512 * blk + off
    requires forall k :: 0 <= k < 512 && !(off <= k < off + 16) ==> d.fsbuf[k] == d.data[512 * blk + k]
    modifies d.data
    ensures RecordAt(InodeArray(d), Offset(num)) == r
    ensures OnlyRecordChanged(d, num)
  {
    ghost var base := 512 * blk;
    ghost var was, buf := d.data[..], d.fsbuf[..];
    assert forall k :: 0 <= k < 512 && !(off <= k < off + 16) ==> buf[k] == was[base + k];
    d.WriteSectors(blk, 512);
    forall i | base <= i < base + 512 && !(base + off <= i < base + off + 16) ensures d.data[i] == was[i] {
      assert buf[i - base] == was[base + (i - base)];
    }
    CopiedRecord(d.data[..], buf, base, off, 512 * d.InodeBlk0(), 512 * d.FirstSect(), Offset(num));
  }

  // The record at off in a sector that was copied to base, seen from lo.
  lemma CopiedRecord(data: seq<Byte>, buf: seq<Byte>, base: nat, off: nat, lo: nat, hi: nat, at: nat)
    requires base + 512 <= |data| && 512 <= |buf| && off + 16 <= 512 && lo <= hi <= |data|
    requires lo + at == base + off && lo + at + 16 <= hi
    requires forall i :: base <= i < base + 512 ==> data[i] == buf[i - base]
    ensures RecordAt(data[lo..hi], at) == RecordAt(buf, off)
  {
    CopiedSlice(data, buf, base, off);
    SliceOfSlice(data, lo, hi, at);
    SameRecord(buf, off, data[lo..hi], at);
  }
}
