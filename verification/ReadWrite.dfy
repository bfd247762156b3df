// do_rw on regular files and directories, on the device and the tables
// (fs/read_write.c:16-88).
module ReadWrite {
  import opened Bits
  import opened Constants
  import opened Disk
  import opened FsCounts
  import opened FsSpec
  import opened FsInvariant
  import opened InodeDisk
  import opened FileServer
  import opened TransferSpec
  import Extents

  // ------------------------------------------------------------ the transfer

  lemma IsOverwritten(f: seq<Byte>, pos: nat, b: seq<Byte>, g: seq<Byte>)
    requires pos + |b| <= |f| == |g|
    requires forall i :: 0 <= i < |f| ==> g[i] == if pos <= i < pos + |b| then b[i - pos] else f[i]
    ensures g == Overwritten(f, pos, b)
  {
  }

  // phy_cpy
  method CopyBytes(dst: array<Byte>, at: nat, src: array<Byte>, from: nat, n: nat)
    requires dst != src && at + n <= dst.Length && from + n <= src.Length
    modifies dst
    ensures dst[..] == Overwritten(old(dst[..]), at, src[from..from + n])
  {
    ghost var was, b := dst[..], src[from..from + n];
    forall k | 0 <= k < n {
      dst[at + k] := src[from + k];
    }
    IsOverwritten(was, at, b, dst[..]);
  }

  // A chunk that is read into the buffer, changed there and written back.
  lemma WrittenBack(was: seq<Byte>, buf: seq<Byte>, now: seq<Byte>, base: nat, n: nat, offset: nat, b: seq<Byte>)
    requires |now| == |was| && base + n <= |was| && n <= |buf| && offset + |b| <= n
    requires forall k :: 0 <= k < n ==> buf[k] == was[base + k]
    requires forall i :: base <= i < base + n ==> now[i] == Overwritten(buf, offset, b)[i - base]
    requires forall i :: 0 <= i < |was| && !(base <= i < base + n) ==> now[i] == was[i]
    ensures now == Overwritten(was, base + offset, b)
  {
    forall i | base <= i < base + n && !(base + offset <= i < base + offset + |b|) ensures now[i] == was[i] {
      assert buf[i - base] == was[base + (i - base)];
    }
    IsOverwritten(was, base + offset, b, now);
  }

  // fs/read_write.c:69, 75-78
  method WriteChunk(d: Device, i: nat, sects: nat, offset: nat, user: array<Byte>, rw: nat, bytes: nat)
    requires d.Valid() && user != d.data && user != d.fsbuf
    requires sects <= MAX_CHUNK && 512 * (i + sects) <= d.data.Length
    requires offset + bytes <= 512 * sects && rw + bytes <= user.Length
    modifies d.data, d.fsbuf
    ensures d.data[..] == Overwritten(old(d.data[..]), 512 * i + offset, user[rw..rw + bytes])
  {
    ghost var was := d.data[..];
    d.ReadSectors(i, sects * 512);
    ghost var buf := d.fsbuf[..];
    CopyBytes(d.fsbuf, offset, user, rw, bytes);
    ghost var changed := d.fsbuf[..];
    d.WriteSectors(i, sects * 512);
    assert forall k :: 0 <= k < sects * 512 ==> changed[k] == d.fsbuf[k];
    WrittenBack(was, buf, d.data[..], 512 * i, sects * 512, offset, user[rw..rw + bytes]);
  }

  lemma SameSlice(data: seq<Byte>, buf: seq<Byte>, base: nat, n: nat, lo: nat, hi: nat)
    requires lo <= hi <= n <= |buf| && base + n <= |data| && forall k :: 0 <= k < n ==> buf[k] == data[base + k]
    ensures buf[lo..hi] == data[base + lo..base + hi]
  {
  }

  // fs/read_write.c:69, 72-74
  method ReadChunk(d: Device, i: nat, sects: nat, offset: nat, user: array<Byte>, rw: nat, bytes: nat)
    requires d.Valid() && user != d.data && user != d.fsbuf
    requires sects <= MAX_CHUNK && 512 * (i + sects) <= d.data.Length
    requires offset + bytes <= 512 * sects && rw + bytes <= user.Length
    modifies d.fsbuf, user
    ensures user[..] == Overwritten(old(user[..]), rw, d.data[512 * i + offset..512 * i + offset + bytes])
  {
    d.ReadSectors(i, sects * 512);
    SameSlice(d.data[..], d.fsbuf[..], 512 * i, sects * 512, offset, offset + bytes);
    CopyBytes(user, rw, d.fsbuf, offset, bytes);
  }

  // fs/read_write.c:69-78, for one chunk
  method MoveChunk(d: Device, write: bool, i: nat, sects: nat, offset: nat, user: array<Byte>, rw: nat, bytes: nat)
    requires d.Valid() && user != d.data && user != d.fsbuf
    requires sects <= MAX_CHUNK && 512 * (i + sects) <= d.data.Length
    requires offset + bytes <= 512 * sects && rw + bytes <= user.Length
    modifies d.data, d.fsbuf, user
    ensures Memory(d.data[..], user[..]) == Copy(write, old(Memory(d.data[..], user[..])), 512 * i + offset, rw, bytes)
  {
    if write {
      WriteChunk(d, i, sects, offset, user, rw, bytes);
    } else {
      ReadChunk(d, i, sects, offset, user, rw, bytes);
    }
  }

  // From m, the chunks from sector i on lead to goal, with total bytes in all.
  predicate Pending(goal: Memory, total: nat, write: bool, m: Memory,
                    i: nat, end: nat, chunk: nat, offset: nat, rw: nat, len: nat)
  {
    && chunk > 0 && offset < 512 && RoomFrom(|m.data|, |m.user|, i, end, chunk, offset, rw, len)
    && Chunks(write, m, i, end, chunk, offset, rw, len) == goal && rw + Total(i, end, chunk, offset, len) == total
  }

  lemma PendingStep(goal: Memory, total: nat, write: bool, m: Memory,
                    i: nat, end: nat, chunk: nat, offset: nat, rw: nat, len: nat, bytes: int)
    requires i <= end && Pending(goal, total, write, m, i, end, chunk, offset, rw, len)
    requires bytes == Min(len, chunk * 512 - offset)
    ensures 0 <= bytes && 512 * (i + chunk) <= |m.data| && rw + bytes <= |m.user| && offset + bytes <= 512 * chunk
    ensures
      var m' := Copy(write, m, 512 * i + offset, rw, bytes);
      Pending(goal, total, write, m', i + chunk, end, chunk, 0, rw + bytes, len)
  {
    assert bytes == Bytes(chunk, offset, len);
  }

  lemma PendingStart(write: bool, m: Memory, i: nat, end: nat, chunk: nat, offset: nat, len: nat)
    requires chunk > 0 && offset < 512 && RoomFrom(|m.data|, |m.user|, i, end, chunk, offset, 0, len)
    ensures Pending(Chunks(write, m, i, end, chunk, offset, 0, len), Total(i, end, chunk, offset, len), write, m,
                    i, end, chunk, offset, 0, len)
  {
  }

  lemma PendingDone(goal: Memory, total: nat, write: bool, m: Memory,
                    i: nat, end: nat, chunk: nat, offset: nat, rw: nat, len: nat)
    requires i > end && Pending(goal, total, write, m, i, end, chunk, offset, rw, len)
    ensures m == goal && rw == total
  {
  }

  // fs/read_write.c:69-80, for a chunk in the middle
  method OneRound(d: Device, write: bool, i: nat, end: nat, chunk: nat, offset: nat, user: array<Byte>, rw: nat,
                  len: nat, ghost goal: Memory, ghost total: nat)
    returns (bytes: nat)
    requires d.Valid() && user != d.data && user != d.fsbuf && chunk <= MAX_CHUNK && i <= end
    requires Pending(goal, total, write, Memory(d.data[..], user[..]), i, end, chunk, offset, rw, len)
    modifies d.data, d.fsbuf, user
    ensures Pending(goal, total, write, Memory(d.data[..], user[..]), i + chunk, end, chunk, 0, rw + bytes, len)
  {
    ghost var m := Memory(d.data[..], user[..]);
    PendingStep(goal, total, write, m, i, end, chunk, offset, rw, len, Min(len, chunk * 512 - offset));
    bytes := Min(len, chunk * 512 - offset);
    MoveChunk(d, write, i, chunk, offset, user, rw, bytes);
  }

  // fs/read_write.c:65-83
  method TransferLoop(d: Device, write: bool, start: nat, end: nat, chunk: nat, offset0: nat, user: array<Byte>,
                      len: nat)
    returns (rw: nat)
    requires d.Valid() && user != d.data && user != d.fsbuf && 0 < chunk <= MAX_CHUNK && offset0 < 512
    requires RoomFrom(d.data.Length, user.Length, start, end, chunk, offset0, 0, len)
    modifies d.data, d.fsbuf, user
    ensures rw == Total(start, end, chunk, offset0, len)
    ensures Memory(d.data[..], user[..])
         == Chunks(write, old(Memory(d.data[..], user[..])), start, end, chunk, offset0, 0, len)
  {
    rw := 0;
    var i, offset := start, offset0;
    ghost var goal := Chunks(write, Memory(d.data[..], user[..]), start, end, chunk, offset0, 0, len);
    ghost var total := Total(start, end, chunk, offset0, len);
    PendingStart(write, Memory(d.data[..], user[..]), start, end, chunk, offset0, len);
    while i <= end
      invariant Pending(goal, total, write, Memory(d.data[..], user[..]), i, end, chunk, offset, rw, len)
      decreases end + 1 - i
    {
      var bytes := OneRound(d, write, i, end, chunk, offset, user, rw, len, goal, total);
      offset := 0;
      rw := rw + bytes;
      i := i + chunk;
    }
    PendingDone(goal, total, write, Memory(d.data[..], user[..]), i, end, chunk, offset, rw, len);
  }

  // fs/read_write.c:54-83.  The memory that the chunks touch has to be there;
  // the position moves by what is returned.
  method Transfer(d: Device, write: bool, startSect: nat, bound: nat, pos: nat, user: array<Byte>, len: nat)
    returns (rw: nat)
    requires d.Valid() && user != d.data && user != d.fsbuf
    requires Room(d.data.Length, user.Length, startSect, pos, len, bound)
    modifies d.data, d.fsbuf, user
    ensures rw == Moved(pos, len, bound)
    ensures Memory(d.data[..], user[..]) == After(write, old(Memory(d.data[..], user[..])), startSect, pos, len, bound)
  {
    var start: nat := startSect + pos / 512;
    var end: nat := startSect + Min((pos + len) / 512, bound);
    if start > end { return 0; }
    var chunk: nat := Min(end - start + 1, FSBUF_SIZE / 512);
    TotalIsMoved(startSect, pos, len, bound);
    rw := TransferLoop(d, write, start, end, chunk, pos % 512, user, len);
  }

  // --------------------------------------------------------- what is not moved

  lemma {:induction false} ReadKeepsData(
    m: Memory, i: nat, end: nat, chunk: nat, offset: nat, rw: nat, len: nat)
    requires chunk > 0 && offset < 512 && RoomFrom(|m.data|, |m.user|, i, end, chunk, offset, rw, len)
    ensures Chunks(false, m, i, end, chunk, offset, rw, len).data == m.data
    decreases end + 1 - i
  {
    if i <= end {
      var bytes := Bytes(chunk, offset, len);
      ReadKeepsData(Copy(false, m, 512 * i + offset, rw, bytes), i + chunk, end, chunk, 0, rw + bytes, len);
    }
  }

  // Nothing in front of the position is written.
  lemma FrontStays(write: bool, m: Memory, startSect: nat, pos: nat, len: nat, bound: nat, n: nat)
    requires Room(|m.data|, |m.user|, startSect, pos, len, bound) && n <= 512 * startSect && n <= |m.data|
    ensures After(write, m, startSect, pos, len, bound).data[..n] == m.data[..n]
  {
    if Sects(pos, len, bound) > 0 {
      var i, end := startSect + pos / 512, startSect + EndSect(pos, len, bound);
      var chunk := ChunkSize(pos, len, bound);
      if write {
        forall at: nat | at < n ensures After(write, m, startSect, pos, len, bound).data[at] == m.data[at] {
          FrontUntouched(i, end, chunk, pos % 512, len, at);
          UntouchedStays(m, i, end, chunk, pos % 512, 0, len, at);
        }
      } else {
        ReadKeepsData(m, i, end, chunk, pos % 512, 0, len);
      }
    }
  }

  lemma SameMaps(d: Device, was: seq<Byte>, now: seq<Byte>)
    requires d.Valid() && |was| == |now| == d.data.Length
    requires now[..512 * d.FirstSect()] == was[..512 * d.FirstSect()]
    ensures now[512 * IMAP_BLK0..512 * SMAP_BLK0] == was[512 * IMAP_BLK0..512 * SMAP_BLK0]
    ensures now[512 * SMAP_BLK0..512 * d.InodeBlk0()] == was[512 * SMAP_BLK0..512 * d.InodeBlk0()]
    ensures now[512 * d.InodeBlk0()..512 * d.FirstSect()] == was[512 * d.InodeBlk0()..512 * d.FirstSect()]
  {
    SamePart(was, now, 512 * IMAP_BLK0, 512 * SMAP_BLK0, 512 * d.FirstSect());
    SamePart(was, now, 512 * SMAP_BLK0, 512 * d.InodeBlk0(), 512 * d.FirstSect());
    SamePart(was, now, 512 * d.InodeBlk0(), 512 * d.FirstSect(), 512 * d.FirstSect());
  }

  lemma SamePart(was: seq<Byte>, now: seq<Byte>, lo: nat, hi: nat, to: nat)
    requires |was| == |now| && lo <= hi <= to <= |was| && now[..to] == was[..to]
    ensures now[lo..hi] == was[lo..hi]
  {
    assert now[lo..hi] == now[..to][lo..hi] && was[lo..hi] == was[..to][lo..hi];
  }

  // A transfer in the data area: the maps and the inode array stay.
  method TransferData(d: Device, write: bool, startSect: nat, bound: nat, pos: nat, user: array<Byte>, len: nat)
    returns (rw: nat)
    requires d.Valid() && user != d.data && user != d.fsbuf && d.FirstSect() <= startSect
    requires Room(d.data.Length, user.Length, startSect, pos, len, bound)
    modifies d.data, d.fsbuf, user
    ensures rw == Moved(pos, len, bound)
    ensures Memory(d.data[..], user[..]) == After(write, old(Memory(d.data[..], user[..])), startSect, pos, len, bound)
    ensures d.Imap() == old(d.Imap()) && d.Smap() == old(d.Smap()) && InodeArray(d) == old(InodeArray(d))
  {
    ghost var m := Memory(d.data[..], user[..]);
    rw := Transfer(d, write, startSect, bound, pos, user, len);
    FrontStays(write, m, startSect, pos, len, bound, 512 * d.FirstSect());
    SameMaps(d, m.data, d.data[..]);
  }

  // ------------------------------------------------------------------ do_rw

  function Bound(write: bool, r: Record): nat {
    if write then Value(r.nrSects) else Value(r.size) / 512
  }

  // A transfer between user and a file in the data area; the tables stay.
  method MoveBytes(s: Server, write: bool, r: Record, pos: nat, user: array<Byte>, len: nat) returns (rw: nat)
    requires s.Valid() && user != s.dev.data && user != s.dev.fsbuf && s.dev.FirstSect() <= Value(r.start)
    requires Room(s.dev.data.Length, user.Length, Value(r.start), pos, len, Bound(write, r))
    modifies s.dev.data, s.dev.fsbuf, user
    ensures rw == Moved(pos, len, Bound(write, r)) && s.View() == old(s.View())
    ensures Memory(s.dev.data[..], user[..])
         == After(write, old(Memory(s.dev.data[..], user[..])), Value(r.start), pos, len, Bound(write, r))
  {
    rw := TransferData(s.dev, write, Value(r.start), Bound(write, r), pos, user, len);
  }

  // fs/read_write.c:82-87
  method MovePosition(s: Server, p: nat, fd: nat, bytes: nat)
    requires s.Valid() && IsOpen(s.View(), p, fd) && IsInode(s.inodes[SlotOfFile(s.View(), p, fd)].num)
    requires s.desc[s.filp[p][fd]].pos >= 0
    modifies s.inodes, s.desc, s.dev.data, s.dev.fsbuf
    ensures s.Valid() && s.View() == Advance(old(s.View()), p, fd, bytes)
    ensures DataKept(s.dev)
  {
    var d := s.filp[p][fd];
    var k := s.desc[d].inode;
    ghost var v := s.View();
    s.desc[d] := s.desc[d].(pos := s.desc[d].pos + bytes);
    assert s.View() == Move(v, p, fd, bytes);
    s.Grow(k, s.desc[d].pos);
  }

  // The buffer of the process, and the device from byte area on.
  predicate SameFrom(area: nat, m: Memory, n: Memory) {
    m.user == n.user && |m.data| == |n.data| && forall i :: area <= i < |m.data| ==> m.data[i] == n.data[i]
  }

  lemma SameFromAfter(d: Device, after: Memory, now: Memory)
    requires now.user == after.user && |now.data| == |after.data|
    requires forall i :: 512 * d.FirstSect() <= i < |now.data| ==> now.data[i] == after.data[i]
    ensures SameFrom(512 * d.FirstSect(), now, after)
  {
  }

  // The descriptor and the record of an open file.
  function DescOf(s: Fs, p: nat, fd: nat): Desc
    requires Sized(s) && IsOpen(s, p, fd)
  {
    s.desc[s.filp[p][fd]]
  }

  function RecordOf(s: Fs, p: nat, fd: nat): Record
    requires Sized(s) && IsOpen(s, p, fd)
  {
    s.inodes[SlotOfFile(s, p, fd)].rec
  }

  // The transfer has a file in the data area, and memory for its chunks.
  predicate MayTransfer(s: Fs, p: nat, fd: nat, firstSect: nat, write: bool, data: nat, user: nat, len: nat)
    requires Sized(s) && IsOpen(s, p, fd)
  {
    var x, r := s.inodes[SlotOfFile(s, p, fd)], RecordOf(s, p, fd);
    && IsInode(x.num) && firstSect <= Value(r.start) && DescOf(s, p, fd).pos >= 0
    && Room(data, user, Value(r.start), DescOf(s, p, fd).pos, len, Bound(write, r))
  }

  // fs/read_write.c:37-88
  method ReadOrWrite(s: Server, p: nat, fd: nat, write: bool, user: array<Byte>, len: nat) returns (rw: nat)
    requires s.Valid() && IsOpen(s.View(), p, fd) && user != s.dev.data && user != s.dev.fsbuf
    requires MayTransfer(s.View(), p, fd, s.dev.FirstSect(), write, s.dev.data.Length, user.Length, len)
    modifies s.inodes, s.desc, s.dev.data, s.dev.fsbuf, user
    ensures s.Valid()
    ensures
      var v, m := old(s.View()), old(Memory(s.dev.data[..], user[..]));
      var r, pos := RecordOf(v, p, fd), DescOf(v, p, fd).pos;
      && rw == Moved(pos, len, Bound(write, r)) && s.View() == Advance(v, p, fd, rw)
      && SameFrom(512 * s.dev.FirstSect(), Memory(s.dev.data[..], user[..]),
                  After(write, m, Value(r.start), pos, len, Bound(write, r)))
  {
    var d := s.filp[p][fd];
    var k := s.desc[d].inode;
    rw := MoveBytes(s, write, s.inodes[k].rec, s.desc[d].pos, user, len);
    ghost var after := Memory(s.dev.data[..], user[..]);
    MovePosition(s, p, fd, rw);
    SameFromAfter(s.dev, after, Memory(s.dev.data[..], user[..]));
  }

  // fs/read_write.c:16-89, for regular files and directories
  method DoRw(s: Server, p: nat, fd: nat, write: bool, user: array<Byte>, len: nat) returns (rw: int)
    requires s.Valid() && IsOpen(s.View(), p, fd) && user != s.dev.data && user != s.dev.fsbuf
    requires O_RW in DescOf(s.View(), p, fd).flags ==>
      MayTransfer(s.View(), p, fd, s.dev.FirstSect(), write, s.dev.data.Length, user.Length, len)
    modifies s.inodes, s.desc, s.dev.data, s.dev.fsbuf, user
    ensures s.Valid()
    ensures O_RW !in DescOf(old(s.View()), p, fd).flags ==>
      rw == -1 && s.View() == old(s.View()) && Memory(s.dev.data[..], user[..]) == old(Memory(s.dev.data[..], user[..]))
    ensures O_RW in DescOf(old(s.View()), p, fd).flags ==>
      var v, m := old(s.View()), old(Memory(s.dev.data[..], user[..]));
      var r, pos := RecordOf(v, p, fd), DescOf(v, p, fd).pos;
      && rw == Moved(pos, len, Bound(write, r)) && s.View() == Advance(v, p, fd, rw)
      && SameFrom(512 * s.dev.FirstSect(), Memory(s.dev.data[..], user[..]),
                  After(write, m, Value(r.start), pos, len, Bound(write, r)))
  {
    if O_RW !in s.desc[s.filp[p][fd]].flags { return -1; }
    rw := ReadOrWrite(s, p, fd, write, user, len);
  }
}
