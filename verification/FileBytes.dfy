// What do_rw does to the bytes of files (fs/read_write.c:54-83).
module FileBytes {
  import opened Bits
  import opened Disk
  import opened FsCounts
  import opened FsSpec
  import opened FsInvariant
  import opened FsRuns
  import opened FsSteps
  import opened InodeDisk
  import opened ReadWrite
  import opened TransferSpec

  // The bytes of the file whose first sector is start.
  function File(data: seq<Byte>, start: nat): (f: seq<Byte>)
    requires 512 * start + FILE_BYTES <= |data|
    ensures |f| == FILE_BYTES
  {
    data[512 * start..512 * start + FILE_BYTES]
  }

  // A write puts the first len bytes of user at pos; a read copies from there.
  predicate Transferred(write: bool, was: seq<Byte>, now: seq<Byte>, userWas: seq<Byte>, user: seq<Byte>,
                        pos: nat, len: nat)
  {
    && |was| == |now| == FILE_BYTES && pos + len <= FILE_BYTES && len <= |user| == |userWas|
    && if write then user == userWas && now == Overwritten(was, pos, user[..len])
       else now == was && user == Overwritten(userWas, 0, was[pos..pos + len])
  }

  // One transfer that fits, of a file in a data area that begins at byte area.
  predicate Effect(write: bool, area: nat, m: Memory, n: Memory, start: nat, pos: nat, len: nat, bound: nat) {
    && Fits(pos, len) && (pos + len) / 512 <= bound && len <= |m.user|
    && 512 * (start + (pos + len) / 512 + 1) <= |m.data| && 512 * start + FILE_BYTES <= |m.data|
    && Room(|m.data|, |m.user|, start, pos, len, bound) && SameFrom(area, n, After(write, m, start, pos, len, bound))
  }

  // The file itself: its bytes, and those of the process.
  lemma EffectOnFile(write: bool, area: nat, m: Memory, n: Memory, start: nat, pos: nat, len: nat, bound: nat)
    requires Effect(write, area, m, n, start, pos, len, bound) && area <= 512 * start
    ensures Transferred(write, File(m.data, start), File(n.data, start), m.user, n.user, pos, len)
  {
    FittingTransfer(write, m, start, pos, len, bound);
    var c := Copy(write, m, 512 * start + pos, 0, len);
    SameFile(area, n, c, start);
    if write { WrittenFile(m, start, pos, len); } else { ReadFile(m, start, pos, len); }
  }

  lemma WrittenFile(m: Memory, start: nat, pos: nat, len: nat)
    requires 512 * start + FILE_BYTES <= |m.data| && pos + len <= FILE_BYTES && len <= |m.user|
    ensures
      var c := Copy(true, m, 512 * start + pos, 0, len);
      Transferred(true, File(m.data, start), File(c.data, start), m.user, c.user, pos, len)
  {
    OwnBytes(m.data, start, pos, m.user[..len]);
  }

  lemma ReadFile(m: Memory, start: nat, pos: nat, len: nat)
    requires 512 * start + FILE_BYTES <= |m.data| && pos + len <= FILE_BYTES && len <= |m.user|
    ensures
      var c := Copy(false, m, 512 * start + pos, 0, len);
      Transferred(false, File(m.data, start), File(c.data, start), m.user, c.user, pos, len)
  {
    PartOfPart(m.data, 512 * start, 512 * start + FILE_BYTES, pos, pos + len);
  }

  lemma SameFile(area: nat, n: Memory, c: Memory, start: nat)
    requires SameFrom(area, n, c) && area <= 512 * start && 512 * start + FILE_BYTES <= |c.data|
    ensures File(n.data, start) == File(c.data, start)
  {
    forall k | 0 <= k < FILE_BYTES ensures File(n.data, start)[k] == File(c.data, start)[k] {
      assert n.data[512 * start + k] == c.data[512 * start + k];
    }
  }

  lemma OwnBytes(data: seq<Byte>, start: nat, pos: nat, b: seq<Byte>)
    requires pos + |b| <= FILE_BYTES && 512 * start + FILE_BYTES <= |data|
    ensures File(Overwritten(data, 512 * start + pos, b), start) == Overwritten(File(data, start), pos, b)
  {
    var now, f := Overwritten(data, 512 * start + pos, b), Overwritten(File(data, start), pos, b);
    forall k | 0 <= k < FILE_BYTES ensures File(now, start)[k] == f[k] {
      assert File(now, start)[k] == now[512 * start + k];
    }
  }

  lemma PartOfPart(data: seq<Byte>, lo: nat, hi: nat, a: nat, b: nat)
    requires lo <= hi <= |data| && a <= b && lo + b <= hi
    ensures data[lo..hi][a..b] == data[lo + a..lo + b]
  {
    var x, y, z := data[lo..hi], data[lo..hi][a..b], data[lo + a..lo + b];
    forall k | 0 <= k < b - a ensures y[k] == z[k] {
      assert y[k] == x[a + k] == data[lo + (a + k)];
    }
  }

  // Files whose extents are apart from that of this one stay as they are.
  lemma EffectOnOthers(
    write: bool, area: nat, m: Memory, n: Memory, start: nat, pos: nat, len: nat, bound: nat, other: nat)
    requires Effect(write, area, m, n, start, pos, len, bound)
    requires area <= 512 * other && 512 * other + FILE_BYTES <= |m.data|
    requires start + NR_DEFAULT_FILE_SECTS <= other || other + NR_DEFAULT_FILE_SECTS <= start
    ensures File(n.data, other) == File(m.data, other)
  {
    FittingTransfer(write, m, start, pos, len, bound);
    var c := Copy(write, m, 512 * start + pos, 0, len);
    SameFile(area, n, c, other);
    forall k | 0 <= k < FILE_BYTES ensures File(c.data, other)[k] == File(m.data, other)[k] {
      assert c.data[512 * other + k] == m.data[512 * other + k];
    }
  }

  // Written at a position and read from there again, it is the same.
  lemma WriteThenRead(
    f0: seq<Byte>, f1: seq<Byte>, f2: seq<Byte>, a: seq<Byte>, b0: seq<Byte>, b: seq<Byte>, pos: nat, len: nat)
    requires Transferred(true, f0, f1, a, a, pos, len) && Transferred(false, f1, f2, b0, b, pos, len)
    ensures b[..len] == a[..len] && b[len..] == b0[len..] && f2 == f1
    ensures f1[..pos] == f0[..pos] && f1[pos + len..] == f0[pos + len..]
  {
    assert f1[pos..pos + len] == a[..len];
  }

  // The reads and writes of untar (kernel/main.c:24-49) are pieces of at most
  // 8192 bytes, one behind the other.  A piece inside a file fits.
  lemma PiecesFit(pos: nat, len: nat, size: nat)
    requires len <= 8192 && pos + len <= size <= FILE_BYTES
    ensures Fits(pos, len) && Moved(pos, len, size / 512) == len
  {
    OneChunk(pos, len, size / 512);
    OneChunkIsExact(pos, len, size / 512);
  }

  // A read stops with the sector in which the file ends, by the size in its
  // record.
  lemma ReadStopsAtTheEnd(r: Record, pos: nat, len: nat)
    requires Single(pos, len, Value(r.size) / 512)
    ensures
      var size, moved := Value(r.size), Moved(pos, len, Bound(false, r));
      && (pos + len <= size ==> moved == len)
      && (pos + len > size && pos / 512 > size / 512 ==> moved == 0)
      && (pos + len > size && pos / 512 <= size / 512 ==> moved == Min(len, 512 * (size / 512 + 1) - pos))
  {
    ReadMoves(pos, len, Value(r.size));
  }

  // What is read at a position is what the file holds there, and the file stays.
  lemma ReadsLikeATape(area: nat, m: Memory, n: Memory, start: nat, pos: nat, len: nat, bound: nat)
    requires Effect(false, area, m, n, start, pos, len, bound) && area <= 512 * start
    ensures n.user[..len] == File(m.data, start)[pos..pos + len] && n.user[len..] == m.user[len..]
    ensures File(n.data, start) == File(m.data, start)
  {
    EffectOnFile(false, area, m, n, start, pos, len, bound);
  }

  // What is written at a position follows what the file holds up to there.
  lemma WritesAppend(area: nat, m: Memory, n: Memory, start: nat, pos: nat, len: nat, bound: nat)
    requires Effect(true, area, m, n, start, pos, len, bound) && area <= 512 * start
    ensures File(n.data, start)[..pos + len] == File(m.data, start)[..pos] + m.user[..len] && n.user == m.user
  {
    EffectOnFile(true, area, m, n, start, pos, len, bound);
  }

  // A write to an open file is bounded by the sectors of its extent.
  lemma WriteBound(s: Fs, extra: seq<nat>, firstSect: nat, p: nat, fd: nat)
    requires Inv(s, extra, firstSect) && IsOpen(s, p, fd) && NumOfFile(s, p, fd) !in {2, 3, 4}
    ensures Bound(true, ReadWrite.RecordOf(s, p, fd)) == NR_DEFAULT_FILE_SECTS
  {
    OpenFilesArePlaced(s, extra, firstSect, p, fd);
    FileSectsValue();
  }

  // Transfers on an open file have their file in the data area.
  lemma OpenFilesMayTransfer(
    s: Fs, extra: seq<nat>, firstSect: nat, p: nat, fd: nat, write: bool, data: nat, user: nat, len: nat)
    requires Inv(s, extra, firstSect) && IsOpen(s, p, fd) && NumOfFile(s, p, fd) !in {2, 3, 4}
    requires
      var r, pos := ReadWrite.RecordOf(s, p, fd), DescOf(s, p, fd).pos;
      && pos >= 0 && Fits(pos, len) && len <= user && (!write ==> pos + len <= Value(r.size))
      && 512 * (Value(r.start) + NR_DEFAULT_FILE_SECTS + 1) <= data
    ensures MayTransfer(s, p, fd, firstSect, write, data, user, len)
    ensures
      var r, pos := ReadWrite.RecordOf(s, p, fd), DescOf(s, p, fd).pos;
      Moved(pos, len, Bound(write, r)) == len
  {
    OpenFilesArePlaced(s, extra, firstSect, p, fd);
    WriteBound(s, extra, firstSect, p, fd);
    var r, pos := ReadWrite.RecordOf(s, p, fd), DescOf(s, p, fd).pos;
    RoomIfItFits(data, user, Value(r.start), pos, len, Bound(write, r));
    OneChunk(pos, len, Bound(write, r));
  }

  lemma RoomIfItFits(data: nat, user: nat, start: nat, pos: nat, len: nat, bound: nat)
    requires Fits(pos, len) && (pos + len) / 512 <= bound && len <= user
    requires 512 * (start + (pos + len) / 512 + 1) <= data
    ensures Room(data, user, start, pos, len, bound)
  {
    OneChunk(pos, len, bound);
    var i, end, chunk := start + pos / 512, start + EndSect(pos, len, bound), ChunkSize(pos, len, bound);
    assert i + chunk > end && Bytes(chunk, pos % 512, len) == len;
    assert RoomFrom(data, user, i + chunk, end, chunk, 0, len, len);
  }
}
