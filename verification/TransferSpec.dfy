// What the chunk loop of do_rw moves, and where (fs/read_write.c:54-83): for
// transfers that fit into a file and for all others.
module TransferSpec {
  import opened Bits
  import opened Disk

  const FILE_BYTES := 512 * NR_DEFAULT_FILE_SECTS
  const MAX_CHUNK := FSBUF_SIZE / 512

  function Min(a: int, b: int): int { if a <= b then a else b }

  // ---------------------------------------------------------- how many bytes

  // The last sector of a transfer, counted from the first of the file; bound
  // is i_size / 512 for a read and i_nr_sects for a write.
  function EndSect(pos: nat, len: nat, bound: nat): nat { Min((pos + len) / 512, bound) }

  // Sectors to go through; none or fewer when the file ends before pos.
  function Sects(pos: nat, len: nat, bound: nat): int { EndSect(pos, len, bound) - pos / 512 + 1 }

  predicate Single(pos: nat, len: nat, bound: nat) { Sects(pos, len, bound) <= MAX_CHUNK }

  // Bytes that the chunks behind the first move: each again up to len, since
  // what is left is never counted down (fs/read_write.c:81).
  function Later(sects: int, len: nat): nat
    decreases sects
  {
    if sects <= 0 then 0 else Min(len, FSBUF_SIZE) + Later(sects - MAX_CHUNK, len)
  }

  // All the bytes that the loop moves, which is what do_rw returns.
  function Moved(pos: nat, len: nat, bound: nat): nat {
    var sects := Sects(pos, len, bound);
    if sects <= 0 then 0
    else Min(len, 512 * Min(sects, MAX_CHUNK) - pos % 512) + Later(sects - MAX_CHUNK, len)
  }

  // The whole transfer lies inside a file and goes through in one chunk.
  predicate Fits(pos: nat, len: nat) {
    pos + len < FILE_BYTES || (pos + len == FILE_BYTES && pos >= 512)
  }

  lemma OneChunk(pos: nat, len: nat, bound: nat)
    requires Fits(pos, len) && (pos + len) / 512 <= bound
    ensures 1 <= Sects(pos, len, bound) <= MAX_CHUNK
    ensures pos % 512 + len <= 512 * Sects(pos, len, bound)
    ensures EndSect(pos, len, bound) == (pos + len) / 512
  {
  }

  lemma {:induction false} LaterAtLeast(sects: nat, len: nat)
    ensures Later(sects, len) >= Min(len, 512 * sects)
  {
    if sects > MAX_CHUNK {
      LaterAtLeast(sects - MAX_CHUNK, len);
    } else if sects > 0 {
      assert Later(sects - MAX_CHUNK, len) == 0;
    }
  }

  // More than one chunk moves more than it should.
  lemma ManyChunksMoveTooMuch(pos: nat, len: nat, bound: nat)
    requires !Single(pos, len, bound) && (pos + len) / 512 <= bound
    ensures Moved(pos, len, bound) > len
  {
    LaterAtLeast(Sects(pos, len, bound) - MAX_CHUNK, len);
  }

  // A transfer that the file bounds nowhere is exact if one chunk suffices.
  lemma OneChunkIsExact(pos: nat, len: nat, bound: nat)
    requires Single(pos, len, bound) && (pos + len) / 512 <= bound
    ensures Moved(pos, len, bound) == len
  {
  }

  // A write moves what it is asked to and ends inside the file exactly if it
  // fits.
  lemma WriteIsExact(pos: nat, len: nat)
    ensures Moved(pos, len, NR_DEFAULT_FILE_SECTS) == len && pos + len <= FILE_BYTES <==> Fits(pos, len)
  {
    if pos + len <= FILE_BYTES {
      if Single(pos, len, NR_DEFAULT_FILE_SECTS) {
        OneChunkIsExact(pos, len, NR_DEFAULT_FILE_SECTS);
      } else {
        ManyChunksMoveTooMuch(pos, len, NR_DEFAULT_FILE_SECTS);
      }
    }
  }

  // A read is exact and inside the file exactly if one chunk suffices for it.
  lemma ReadIsExact(pos: nat, len: nat, size: nat)
    ensures Moved(pos, len, size / 512) == len && pos + len <= size
       <==> pos + len <= size && Single(pos, len, size / 512)
  {
    if pos + len <= size {
      if Single(pos, len, size / 512) {
        OneChunkIsExact(pos, len, size / 512);
      } else {
        ManyChunksMoveTooMuch(pos, len, size / 512);
      }
    }
  }

  // What any read moves: nothing from behind the last sector; across the end,
  // everything up to the end of the last sector; in more than one chunk, a
  // whole first chunk and what the later ones repeat.
  lemma ReadMoves(pos: nat, len: nat, size: nat)
    ensures
      var sects := Sects(pos, len, size / 512);
      Moved(pos, len, size / 512)
      == if pos / 512 > size / 512 then 0
         else if sects > MAX_CHUNK then FSBUF_SIZE - pos % 512 + Later(sects - MAX_CHUNK, len)
         else if pos + len <= size then len
         else Min(len, 512 * (size / 512 + 1) - pos)
  {
    var sects := Sects(pos, len, size / 512);
    if sects > MAX_CHUNK {
      assert pos % 512 + len >= FSBUF_SIZE;
    } else if pos + len <= size {
      OneChunkIsExact(pos, len, size / 512);
    }
  }

  // The size after a transfer that moved so many bytes (fs/read_write.c:82-87).
  function SizeAfter(pos: nat, moved: nat, size: nat): nat { if pos + moved >= size then pos + moved else size }

  // A read changes the size exactly if it begins behind the end or goes across
  // it, or if its chunks repeat beyond it.
  lemma ReadGrowsFile(pos: nat, len: nat, size: nat)
    ensures
      var sects := Sects(pos, len, size / 512);
      SizeAfter(pos, Moved(pos, len, size / 512), size) != size
      <==> pos > size || (if Single(pos, len, size / 512) then pos + len > size
                          else pos + FSBUF_SIZE - pos % 512 + Later(sects - MAX_CHUNK, len) > size)
  {
    ReadMoves(pos, len, size);
  }

  // For a file that has not outgrown its sectors: exactly if it begins behind
  // the end, goes across it, or does not fit.
  lemma ReadGrowsWholeFile(pos: nat, len: nat, size: nat)
    requires size <= FILE_BYTES
    ensures
      SizeAfter(pos, Moved(pos, len, size / 512), size) != size
      <==> pos > size || pos + len > size || !Fits(pos, len)
  {
    ReadGrowsFile(pos, len, size);
    var sects := Sects(pos, len, size / 512);
    if !Single(pos, len, size / 512) { LaterAtLeast(sects - MAX_CHUNK, len); }
  }

  // cmd.tar, read as a whole, is twice as long afterwards.
  lemma ReadingAllOfItDoublesIt()
    ensures Moved(0, FILE_BYTES, FILE_BYTES / 512) == 2 * FILE_BYTES
    ensures SizeAfter(0, Moved(0, FILE_BYTES, FILE_BYTES / 512), FILE_BYTES) == 2 * FILE_BYTES
  {
    assert Later(1, FILE_BYTES) == FSBUF_SIZE + Later(1 - MAX_CHUNK, FILE_BYTES);
  }

  // A file that is filled with one write is written twice.
  lemma WritingAllOfItWritesTwice()
    ensures Moved(0, FILE_BYTES, NR_DEFAULT_FILE_SECTS) == 2 * FILE_BYTES && !Fits(0, FILE_BYTES)
  {
    assert Later(1, FILE_BYTES) == FSBUF_SIZE + Later(1 - MAX_CHUNK, FILE_BYTES);
  }

  // -------------------------------------------------------------- which bytes

  // The device, and the memory of the process from its buffer on.
  datatype Memory = Memory(data: seq<Byte>, user: seq<Byte>)

  function Overwritten(f: seq<Byte>, pos: nat, b: seq<Byte>): (r: seq<Byte>)
    requires pos + |b| <= |f|
    ensures |r| == |f|
  {
    f[..pos] + b + f[pos + |b|..]
  }

  // bytes at rw of the buffer and at byte at of the device
  function Copy(write: bool, m: Memory, at: nat, rw: nat, bytes: nat): (r: Memory)
    requires at + bytes <= |m.data| && rw + bytes <= |m.user|
    ensures |r.data| == |m.data| && |r.user| == |m.user|
  {
    if write then m.(data := Overwritten(m.data, at, m.user[rw..rw + bytes]))
    else m.(user := Overwritten(m.user, rw, m.data[at..at + bytes]))
  }

  function Bytes(chunk: nat, offset: nat, len: nat): nat
    requires chunk > 0 && offset < 512
  {
    Min(len, 512 * chunk - offset)
  }

  // The chunks from sector i on are there, on the device and in the buffer.
  predicate RoomFrom(data: nat, user: nat, i: nat, end: nat, chunk: nat, offset: nat, rw: nat, len: nat)
    requires chunk > 0 && offset < 512
    decreases end + 1 - i
  {
    var bytes := Bytes(chunk, offset, len);
    i > end || (512 * (i + chunk) <= data && rw + bytes <= user
                && RoomFrom(data, user, i + chunk, end, chunk, 0, rw + bytes, len))
  }

  function Chunks(write: bool, m: Memory, i: nat, end: nat, chunk: nat, offset: nat, rw: nat, len: nat): (r: Memory)
    requires chunk > 0 && offset < 512 && RoomFrom(|m.data|, |m.user|, i, end, chunk, offset, rw, len)
    ensures |r.data| == |m.data| && |r.user| == |m.user|
    decreases end + 1 - i
  {
    if i > end then m
    else
      var bytes := Bytes(chunk, offset, len);
      Chunks(write, Copy(write, m, 512 * i + offset, rw, bytes), i + chunk, end, chunk, 0, rw + bytes, len)
  }

  // Bytes that the chunks from i on move.
  function Total(i: nat, end: nat, chunk: nat, offset: nat, len: nat): nat
    requires chunk > 0 && offset < 512
    decreases end + 1 - i
  {
    if i > end then 0 else Bytes(chunk, offset, len) + Total(i + chunk, end, chunk, 0, len)
  }

  lemma {:induction false} TotalOfLater(i: nat, end: nat, len: nat)
    ensures Total(i, end, MAX_CHUNK, 0, len) == Later(end + 1 - i, len)
    decreases end + 1 - i
  {
    if i <= end { TotalOfLater(i + MAX_CHUNK, end, len); }
  }

  // The loop, for the file that begins at startSect.
  function ChunkSize(pos: nat, len: nat, bound: nat): (c: nat)
    requires Sects(pos, len, bound) > 0
    ensures 0 < c <= MAX_CHUNK
  {
    Min(Sects(pos, len, bound), MAX_CHUNK)
  }

  lemma TotalIsMoved(startSect: nat, pos: nat, len: nat, bound: nat)
    requires Sects(pos, len, bound) > 0
    ensures Total(startSect + pos / 512, startSect + EndSect(pos, len, bound), ChunkSize(pos, len, bound),
                  pos % 512, len)
         == Moved(pos, len, bound)
  {
    var i, end, chunk := startSect + pos / 512, startSect + EndSect(pos, len, bound), ChunkSize(pos, len, bound);
    if Single(pos, len, bound) {
      assert i + chunk > end;
    } else {
      TotalOfLater(i + chunk, end, len);
    }
  }

  predicate Room(data: nat, user: nat, startSect: nat, pos: nat, len: nat, bound: nat) {
    Sects(pos, len, bound) <= 0
    || RoomFrom(data, user, startSect + pos / 512, startSect + EndSect(pos, len, bound),
                ChunkSize(pos, len, bound), pos % 512, 0, len)
  }

  function After(write: bool, m: Memory, startSect: nat, pos: nat, len: nat, bound: nat): (r: Memory)
    requires Room(|m.data|, |m.user|, startSect, pos, len, bound)
    ensures |r.data| == |m.data| && |r.user| == |m.user|
  {
    if Sects(pos, len, bound) <= 0 then m
    else Chunks(write, m, startSect + pos / 512, startSect + EndSect(pos, len, bound),
                ChunkSize(pos, len, bound), pos % 512, 0, len)
  }

  // A transfer that fits is one copy at its position.
  lemma FittingTransfer(write: bool, m: Memory, startSect: nat, pos: nat, len: nat, bound: nat)
    requires Fits(pos, len) && (pos + len) / 512 <= bound
    requires 512 * (startSect + (pos + len) / 512 + 1) <= |m.data| && len <= |m.user|
    ensures Room(|m.data|, |m.user|, startSect, pos, len, bound)
    ensures After(write, m, startSect, pos, len, bound) == Copy(write, m, 512 * startSect + pos, 0, len)
  {
    OneChunk(pos, len, bound);
    var i, chunk := startSect + pos / 512, ChunkSize(pos, len, bound);
    assert 512 * i + pos % 512 == 512 * startSect + pos;
    assert Bytes(chunk, pos % 512, len) == len;
    var end := startSect + EndSect(pos, len, bound);
    assert i + chunk > end && RoomFrom(|m.data|, |m.user|, i + chunk, end, chunk, 0, len, len);
    var m1 := Copy(write, m, 512 * i + pos % 512, 0, len);
    assert Chunks(write, m1, i + chunk, end, chunk, 0, len, len) == m1;
  }

  // A transfer of more than 2048 sectors, and not more than twice that many: the
  // first chunk ends with the sector where the buffer is full, and the second
  // one begins with the next sector and takes up to len bytes again.
  lemma TwoChunks(write: bool, m: Memory, startSect: nat, pos: nat, len: nat, bound: nat)
    requires 2048 < Sects(pos, len, bound) <= 4096 && Room(|m.data|, |m.user|, startSect, pos, len, bound)
    ensures
      var first, second := Min(len, 1048576 - pos % 512), Min(len, 1048576);
      var at := 512 * (startSect + pos / 512 + 2048);
      && 512 * startSect + pos + first <= |m.data| && at + second <= |m.data| && first + second <= |m.user|
      && After(write, m, startSect, pos, len, bound)
         == Copy(write, Copy(write, m, 512 * startSect + pos, 0, first), at, first, second)
  {
    var i, end := startSect + pos / 512, startSect + EndSect(pos, len, bound);
    assert 512 * i + pos % 512 == 512 * startSect + pos;
    TwoChunksFrom(write, m, i, end, pos % 512, len);
  }

  lemma TwoChunksFrom(write: bool, m: Memory, i: nat, end: nat, offset: nat, len: nat)
    requires offset < 512 && i + MAX_CHUNK <= end < i + 2 * MAX_CHUNK
    requires RoomFrom(|m.data|, |m.user|, i, end, MAX_CHUNK, offset, 0, len)
    ensures
      var first, second := Bytes(MAX_CHUNK, offset, len), Bytes(MAX_CHUNK, 0, len);
      && 512 * i + offset + first <= |m.data| && 512 * (i + MAX_CHUNK) + second <= |m.data|
      && first + second <= |m.user|
      && Chunks(write, m, i, end, MAX_CHUNK, offset, 0, len)
         == Copy(write, Copy(write, m, 512 * i + offset, 0, first), 512 * (i + MAX_CHUNK), first, second)
  {
    RoomForTwo(|m.data|, |m.user|, i, end, offset, len);
    var first := Bytes(MAX_CHUNK, offset, len);
    LastChunk(write, Copy(write, m, 512 * i + offset, 0, first), i + MAX_CHUNK, end, first, len);
  }

  lemma RoomForTwo(data: nat, user: nat, i: nat, end: nat, offset: nat, len: nat)
    requires offset < 512 && i + MAX_CHUNK <= end && RoomFrom(data, user, i, end, MAX_CHUNK, offset, 0, len)
    ensures
      var first, second := Bytes(MAX_CHUNK, offset, len), Bytes(MAX_CHUNK, 0, len);
      && 512 * (i + 2 * MAX_CHUNK) <= data && first + second <= user
      && RoomFrom(data, user, i + MAX_CHUNK, end, MAX_CHUNK, 0, first, len)
  {
    assert RoomFrom(data, user, i + MAX_CHUNK, end, MAX_CHUNK, 0, Bytes(MAX_CHUNK, offset, len), len);
  }

  lemma LastChunk(write: bool, m: Memory, i: nat, end: nat, rw: nat, len: nat)
    requires i <= end < i + MAX_CHUNK && RoomFrom(|m.data|, |m.user|, i, end, MAX_CHUNK, 0, rw, len)
    ensures
      var bytes := Bytes(MAX_CHUNK, 0, len);
      && 512 * i + bytes <= |m.data| && rw + bytes <= |m.user|
      && Chunks(write, m, i, end, MAX_CHUNK, 0, rw, len) == Copy(write, m, 512 * i, rw, bytes)
  {
    var bytes := Bytes(MAX_CHUNK, 0, len);
    var m1 := Copy(write, m, 512 * i, rw, bytes);
    assert Chunks(write, m1, i + MAX_CHUNK, end, MAX_CHUNK, 0, rw + bytes, len) == m1;
  }

  // -------------------------------------------------- staying inside the file

  // Byte at of the device belongs to a chunk from sector i on.
  predicate Touched(i: nat, end: nat, chunk: nat, offset: nat, len: nat, at: nat)
    requires chunk > 0 && offset < 512
    decreases end + 1 - i
  {
    i <= end && (512 * i + offset <= at < 512 * i + offset + Bytes(chunk, offset, len)
                 || Touched(i + chunk, end, chunk, 0, len, at))
  }

  // Byte at, counted from the first of the file.
  predicate Writes(pos: nat, len: nat, bound: nat, at: nat) {
    Sects(pos, len, bound) > 0
    && Touched(pos / 512, EndSect(pos, len, bound), ChunkSize(pos, len, bound), pos % 512, len, at)
  }

  lemma {:induction false} UntouchedStays(m: Memory, i: nat, end: nat, chunk: nat, offset: nat, rw: nat, len: nat,
                                          at: nat)
    requires chunk > 0 && offset < 512 && RoomFrom(|m.data|, |m.user|, i, end, chunk, offset, rw, len)
    requires at < |m.data| && !Touched(i, end, chunk, offset, len, at)
    ensures Chunks(true, m, i, end, chunk, offset, rw, len).data[at] == m.data[at]
    decreases end + 1 - i
  {
    if i <= end {
      var bytes := Bytes(chunk, offset, len);
      var m1 := Copy(true, m, 512 * i + offset, rw, bytes);
      assert m1.data[at] == m.data[at];
      UntouchedStays(m1, i + chunk, end, chunk, 0, rw + bytes, len, at);
    }
  }

  lemma {:induction false} FrontUntouched(i: nat, end: nat, chunk: nat, offset: nat, len: nat, at: nat)
    requires chunk > 0 && offset < 512 && at < 512 * i + offset
    ensures !Touched(i, end, chunk, offset, len, at)
    decreases end + 1 - i
  {
    if i <= end { FrontUntouched(i + chunk, end, chunk, 0, len, at); }
  }

  // A write leaves the sectors of its file exactly if it does not fit, unless
  // it is empty or begins so far behind that nothing is moved at all.
  lemma WriteStaysInside(pos: nat, len: nat)
    ensures
      (forall at: nat :: Writes(pos, len, NR_DEFAULT_FILE_SECTS, at) ==> at < FILE_BYTES)
      <==> len == 0 || Fits(pos, len) || pos / 512 > NR_DEFAULT_FILE_SECTS
  {
    var bound := NR_DEFAULT_FILE_SECTS;
    if len == 0 || Fits(pos, len) || pos / 512 > bound {
      forall at: nat | Writes(pos, len, bound, at) ensures at < FILE_BYTES { InsideIfItFits(pos, len, at); }
    } else {
      var at: nat := if pos > FILE_BYTES then pos else FILE_BYTES;
      OutsideIfItDoesNot(pos, len, at);
    }
  }

  lemma InsideIfItFits(pos: nat, len: nat, at: nat)
    requires len == 0 || Fits(pos, len) || pos / 512 > NR_DEFAULT_FILE_SECTS
    requires Writes(pos, len, NR_DEFAULT_FILE_SECTS, at)
    ensures at < FILE_BYTES
  {
    var bound := NR_DEFAULT_FILE_SECTS;
    var i, end, chunk := pos / 512, EndSect(pos, len, bound), ChunkSize(pos, len, bound);
    assert i + chunk > end;
    assert !Touched(i + chunk, end, chunk, 0, len, at);
  }

  lemma OutsideIfItDoesNot(pos: nat, len: nat, at: nat)
    requires len > 0 && !Fits(pos, len) && pos / 512 <= NR_DEFAULT_FILE_SECTS
    requires at == if pos > FILE_BYTES then pos else FILE_BYTES
    ensures Writes(pos, len, NR_DEFAULT_FILE_SECTS, at)
  {
    var bound := NR_DEFAULT_FILE_SECTS;
    var i, end, chunk := pos / 512, EndSect(pos, len, bound), ChunkSize(pos, len, bound);
    if pos < 512 {
      assert chunk == MAX_CHUNK && end == bound;
      assert Touched(i + chunk, end, chunk, 0, len, at);
    }
  }
}
