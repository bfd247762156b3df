// A terminal: the ring buffer between keyboard and reader, and the loop that
// empties it into the buffer of the reading process (kernel/tty.c:32-111).
module Tty {
  import opened LineDiscipline

  const TTY_BUF_SIZE := 256

  // RESUME_PROC for process procnr, which gets count characters.
  datatype Resume = Resume(to: int, procnr: int, count: nat)

  // The count characters from tail on, around the end of the buffer.
  function InRing(buf: seq<char>, tail: nat, count: nat): (s: seq<char>)
    requires |buf| == TTY_BUF_SIZE
    ensures |s| == count
  {
    seq(count, i requires 0 <= i < count => buf[(tail + i) % TTY_BUF_SIZE])
  }

  class Terminal {
    const buf: array<char>
    var head: nat
    var tail: nat
    var count: nat
    var caller: int
    var procnr: int
    var reqBuf: array<char>       // the buffer of the process that reads
    var leftCnt: nat
    var transCnt: nat
    var sent: seq<Resume>         // what went to the file system

    ghost predicate Valid()
      reads this
    {
      && buf.Length == TTY_BUF_SIZE && buf != reqBuf && head < TTY_BUF_SIZE && tail < TTY_BUF_SIZE
      && count <= TTY_BUF_SIZE && head == (tail + count) % TTY_BUF_SIZE
      && transCnt + leftCnt <= reqBuf.Length
    }

    // The characters in the ring, the oldest first.
    ghost function Contents(): (s: seq<char>)
      requires Valid()
      reads this, buf
      ensures |s| == count
    {
      InRing(buf[..], tail, count)
    }

    ghost function Reading(): Line
      requires Valid()
      reads this, reqBuf
    {
      Line(leftCnt, reqBuf[..transCnt], [])
    }

    // kernel/tty.c:12-14
    constructor (reqBuf: array<char>)
      ensures Valid() && Contents() == [] && leftCnt == 0 && sent == [] && fresh(buf) && this.reqBuf == reqBuf
    {
      buf := new char[TTY_BUF_SIZE];
      head, tail, count := 0, 0, 0;
      caller, procnr, leftCnt, transCnt := 0, 0, 0, 0;
      this.reqBuf := reqBuf;
      sent := [];
    }

    // kernel/tty.c:32-40: a character more, unless the ring is full.
    method SendToBuf(ch: char)
      requires Valid()
      modifies buf, this`head, this`count
      ensures Valid()
      ensures Contents() == if |old(Contents())| < TTY_BUF_SIZE then old(Contents()) + [ch] else old(Contents())
    {
      if count < TTY_BUF_SIZE {
        ghost var bytes := buf[..];
        buf[head] := ch;
        head := head + 1;
        if head == TTY_BUF_SIZE { head := 0; }
        count := count + 1;
        RingGrows(bytes, tail, count - 1, ch);
      }
    }

    // kernel/tty.c:53-57
    method Take() returns (ch: char)
      requires Valid() && count > 0
      modifies this`tail, this`count
      ensures Valid() && old(Contents()) == [ch] + Contents()
    {
      RingShrinks(buf[..], tail, count);
      ch := buf[tail];
      tail := tail + 1;
      if tail >= TTY_BUF_SIZE { tail := 0; }
      count := count - 1;
    }

    // kernel/tty.c:59-81
    method Consume(ch: char)
      requires Valid()
      modifies this`leftCnt, this`transCnt, this`sent, reqBuf
      ensures Valid()
      ensures Reading() == Step(old(Reading()), ch).(resumes := [])
      ensures sent == old(sent) + Messages(caller, procnr, Step(old(Reading()), ch).resumes)
      ensures transCnt + leftCnt <= old(transCnt + leftCnt)
    {
      if leftCnt > 0 {
        if Printable(ch) {
          reqBuf[transCnt] := ch;
          transCnt := transCnt + 1;
          leftCnt := leftCnt - 1;
        } else if ch == BACKSPACE && transCnt > 0 {
          transCnt := transCnt - 1;
          leftCnt := leftCnt + 1;
        }
        assert reqBuf[..transCnt] == Put(old(Reading()), ch).held;
        if ch == NEWLINE || leftCnt == 0 {
          sent := sent + [Resume(caller, procnr, transCnt)];
          leftCnt := 0;
        }
      }
    }

    // kernel/tty.c:53-81
    method TakeAndConsume() returns (ghost ch: char)
      requires Valid() && count > 0
      modifies this`tail, this`count, this`leftCnt, this`transCnt, this`sent, reqBuf
      ensures Valid() && old(Contents()) == [ch] + Contents()
      ensures Reading() == Step(old(Reading()), ch).(resumes := [])
      ensures sent == old(sent) + Messages(caller, procnr, Step(old(Reading()), ch).resumes)
    {
      var c := Take();
      ghost var rest := Contents();
      Consume(c);
      assert Contents() == rest;
      ch := c;
    }

    // kernel/tty.c:51-83: the ring is emptied into the read in progress.
    method TtyWrite()
      requires Valid()
      modifies this`tail, this`count, this`leftCnt, this`transCnt, this`sent, reqBuf
      ensures Valid() && Contents() == []
      ensures Reading() == Run(old(Reading()), old(Contents())).(resumes := [])
      ensures sent == old(sent) + Messages(caller, procnr, Run(old(Reading()), old(Contents())).resumes)
      ensures |sent| >= |old(sent)| && sent[..|old(sent)|] == old(sent)
      ensures forall i :: |old(sent)| <= i < |sent| ==> sent[i].to == caller && sent[i].procnr == procnr
    {
      ghost var typed, l, was := Contents(), Reading(), sent;
      ghost var done := [];
      while count > 0
        invariant Valid() && done + Contents() == typed
        invariant Reading() == Run(l, done).(resumes := [])
        invariant sent == was + Messages(caller, procnr, Run(l, done).resumes)
        decreases count
      {
        ghost var ch := TakeAndConsume();
        OneMore(l, done, ch, caller, procnr);
        Associative(done, [ch], Contents());
        ghost var line := Run(l, done);
        Associative(was, Messages(caller, procnr, line.resumes),
                    Messages(caller, procnr, Step(line.(resumes := []), ch).resumes));
        done := done + [ch];
      }
      assert done == typed;
    }

    // kernel/tty.c:100-106
    method DoRead(source: int, proc: int, buffer: array<char>, n: nat)
      requires Valid() && buffer != buf && n <= buffer.Length
      modifies this`caller, this`procnr, this`reqBuf, this`leftCnt, this`transCnt
      ensures Valid() && Reading() == Begin(n) && caller == source && procnr == proc && reqBuf == buffer
      ensures Contents() == old(Contents()) && sent == old(sent)
    {
      caller, procnr, reqBuf := source, proc, buffer;
      leftCnt, transCnt := n, 0;
    }

    // kernel/tty.c:46-49: the keys that were pressed go to the ring.
    method ReadKeys(keys: seq<char>)
      requires Valid()
      modifies buf, this`head, this`count
      ensures Valid()
      ensures |old(Contents())| + |keys| <= TTY_BUF_SIZE ==> Contents() == old(Contents()) + keys
    {
      ghost var was := Contents();
      for i := 0 to |keys|
        invariant Valid() && (|was| + |keys| <= TTY_BUF_SIZE ==> Contents() == was + keys[..i])
      {
        Associative(was, keys[..i], [keys[i]]);
        assert keys[..i + 1] == keys[..i] + [keys[i]];
        SendToBuf(keys[i]);
      }
      assert keys[..|keys|] == keys;
    }

    // One round of the loop: kernel/tty.c:140-145.
    method Round(keys: seq<char>)
      requires Valid() && Contents() == [] && |keys| <= TTY_BUF_SIZE
      modifies buf, this`head, this`tail, this`count, this`leftCnt, this`transCnt, this`sent, reqBuf
      ensures Valid() && Contents() == []
      ensures Reading() == Run(old(Reading()), keys).(resumes := [])
      ensures sent == old(sent) + Messages(caller, procnr, Run(old(Reading()), keys).resumes)
    {
      ReadKeys(keys);
      assert Contents() == keys;
      TtyWrite();
    }

    // A read, and the rounds that follow (kernel/tty.c:140-160): one batch of
    // keys in each, of no more than the ring holds.
    method ReadInRounds(source: int, proc: int, buffer: array<char>, n: nat, rounds: seq<seq<char>>)
      requires Valid() && Contents() == [] && buffer != buf && 0 < n <= buffer.Length
      requires forall i :: 0 <= i < |rounds| ==> |rounds[i]| <= TTY_BUF_SIZE
      modifies this, buf, buffer
      ensures Valid() && Contents() == [] && reqBuf == buffer
      ensures
        var typed := Joined(rounds);
        var text := Edit(typed[..Consumed(typed, n)]);
        if Ends(typed[..Consumed(typed, n)], n)
        then sent == old(sent) + [Resume(source, proc, |text|)] && |text| <= buffer.Length && buffer[..|text|] == text
        else sent == old(sent)
    {
      ghost var was := sent;
      DoRead(source, proc, buffer, n);
      assert Messages(source, proc, []) == [] && was + [] == was;
      for i := 0 to |rounds|
        invariant Valid() && Contents() == [] && reqBuf == buffer && caller == source && procnr == proc
        invariant Progress(Reading(), was, sent, Joined(rounds[..i]), n, source, proc)
      {
        NextRound(rounds[i], was, Joined(rounds[..i]), n);
        assert rounds[..i + 1][..i] == rounds[..i];
      }
      assert rounds[..|rounds|] == rounds;
      ghost var line := Reading();
      ReadIsOver(line, was, sent, Joined(rounds), n, source, proc);
      assert line.held == buffer[..transCnt];
    }

    method NextRound(keys: seq<char>, ghost was: seq<Resume>, ghost typed: seq<char>, ghost n: nat)
      requires Valid() && Contents() == [] && |keys| <= TTY_BUF_SIZE
      requires Progress(Reading(), was, sent, typed, n, caller, procnr)
      modifies buf, this`head, this`tail, this`count, this`leftCnt, this`transCnt, this`sent, reqBuf
      ensures Valid() && Contents() == [] && Progress(Reading(), was, sent, typed + keys, n, caller, procnr)
    {
      ghost var line, before := Reading(), sent;
      Round(keys);
      RoundStep(line, Reading(), was, before, sent, typed, keys, n, caller, procnr);
    }
  }

  // The read of n characters after these were typed: what is held, and what
  // was sent since.
  ghost predicate Progress(line: Line, was: seq<Resume>, sent: seq<Resume>, typed: seq<char>, n: nat,
                           to: int, proc: int)
  {
    line == Run(Begin(n), typed).(resumes := []) && sent == was + Messages(to, proc, Run(Begin(n), typed).resumes)
  }

  lemma RoundStep(line: Line, line': Line, was: seq<Resume>, sent: seq<Resume>, sent': seq<Resume>,
                  typed: seq<char>, keys: seq<char>, n: nat, to: int, proc: int)
    requires Progress(line, was, sent, typed, n, to, proc) && line' == Run(line, keys).(resumes := [])
    requires sent' == sent + Messages(to, proc, Run(line, keys).resumes)
    ensures Progress(line', was, sent', typed + keys, n, to, proc)
  {
    MoreTyped(Begin(n), typed, keys, to, proc);
    Associative(was, Messages(to, proc, Run(Begin(n), typed).resumes), Messages(to, proc, Run(line, keys).resumes));
  }

  // One message when the line ends, to who asked, for the process that reads.
  lemma ReadIsOver(line: Line, was: seq<Resume>, sent: seq<Resume>, typed: seq<char>, n: nat, to: int, proc: int)
    requires n > 0 && Progress(line, was, sent, typed, n, to, proc)
    ensures
      var text := Edit(typed[..Consumed(typed, n)]);
      if Ends(typed[..Consumed(typed, n)], n)
      then sent == was + [Resume(to, proc, |text|)] && line.held == text else sent == was
  {
    ReadReturnsTheEditedLine(typed, n);
    var counts := Run(Begin(n), typed).resumes;
    if counts == [] {
      assert Messages(to, proc, counts) == [];
    } else {
      assert Messages(to, proc, counts) == [Resume(to, proc, counts[0])];
    }
  }

  function Joined(rounds: seq<seq<char>>): seq<char> {
    if rounds == [] then [] else Joined(rounds[..|rounds| - 1]) + rounds[|rounds| - 1]
  }

  // What was resumed before does not matter for what follows.
  lemma {:induction false} ResumesAddUp(l: Line, s: seq<char>)
    ensures Run(l, s) == Run(l.(resumes := []), s).(resumes := l.resumes + Run(l.(resumes := []), s).resumes)
    decreases |s|
  {
    if s == [] {
      assert l.resumes + [] == l.resumes;
    } else {
      ResumesAddUp(l, s[..|s| - 1]);
    }
  }

  lemma MoreTyped(l: Line, s: seq<char>, t: seq<char>, to: int, procnr: int)
    ensures
      var before, after := Run(l, s), Run(l, s + t);
      var step := Run(before.(resumes := []), t);
      && after.(resumes := []) == step.(resumes := [])
      && Messages(to, procnr, after.resumes)
         == Messages(to, procnr, before.resumes) + Messages(to, procnr, step.resumes)
  {
    RunPrefix(l, s, t);
    ResumesAddUp(Run(l, s), t);
  }

  ghost function Messages(to: int, procnr: int, counts: seq<nat>): seq<Resume> {
    seq(|counts|, i requires 0 <= i < |counts| => Resume(to, procnr, counts[i]))
  }

  lemma RingGrows(buf: seq<char>, tail: nat, count: nat, ch: char)
    requires |buf| == TTY_BUF_SIZE && tail < TTY_BUF_SIZE && count < TTY_BUF_SIZE
    ensures InRing(buf[(tail + count) % TTY_BUF_SIZE := ch], tail, count + 1) == InRing(buf, tail, count) + [ch]
  {
    var buf' := buf[(tail + count) % TTY_BUF_SIZE := ch];
    forall i | 0 <= i < count + 1 ensures InRing(buf', tail, count + 1)[i] == (InRing(buf, tail, count) + [ch])[i] {
      Slots(tail, count, i);
    }
  }

  lemma RingShrinks(buf: seq<char>, tail: nat, count: nat)
    requires |buf| == TTY_BUF_SIZE && tail < TTY_BUF_SIZE && 0 < count <= TTY_BUF_SIZE
    ensures InRing(buf, tail, count)
         == [buf[tail]] + InRing(buf, if tail + 1 >= TTY_BUF_SIZE then 0 else tail + 1, count - 1)
  {
    var tail' := if tail + 1 >= TTY_BUF_SIZE then 0 else tail + 1;
    var s, rest := InRing(buf, tail, count), InRing(buf, tail', count - 1);
    forall j | 0 <= j < count ensures s[j] == ([buf[tail]] + rest)[j] {
      if j > 0 { assert (tail' + (j - 1)) % TTY_BUF_SIZE == (tail + j) % TTY_BUF_SIZE; }
    }
  }

  lemma Slots(tail: nat, n: nat, i: nat)
    requires tail < TTY_BUF_SIZE && i <= n < TTY_BUF_SIZE
    ensures (tail + i) % TTY_BUF_SIZE == (tail + n) % TTY_BUF_SIZE <==> i == n
  {
  }

  lemma Associative<T>(a: seq<T>, b: seq<T>, c: seq<T>)
    ensures (a + b) + c == a + (b + c)
  {
  }

  // One character more, whatever was resumed before.
  lemma OneMore(l: Line, s: seq<char>, ch: char, to: int, procnr: int)
    ensures
      var before, after := Run(l, s), Run(l, s + [ch]);
      var step := Step(before.(resumes := []), ch);
      && after.(resumes := []) == step.(resumes := [])
      && Messages(to, procnr, after.resumes)
         == Messages(to, procnr, before.resumes) + Messages(to, procnr, step.resumes)
  {
    assert (s + [ch])[..|s|] == s;
  }
}
