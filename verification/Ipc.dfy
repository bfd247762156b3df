// kernel/proc.c: the process table, its intrusive wait queues and the calls
// send_msg, recv_msg, info_task and sys_sendrec.  Each call is one atomic step.
module Ipc {
  import opened Constants
  import opened IpcSpec
  import opened IpcInvariant
  import IpcRuns

  // The null pointer of q_sending and next_sending.
  const NIL := -1

  // p_msg: null, the message a blocked sender holds out, or a receive buffer.
  datatype Pointer = Null | Outgoing(m: Message) | Buffer

  datatype Proc = Proc(
    flags: set<Flag>, msg: Pointer, recvFrom: int, sendTo: int, hasInt: bool,
    qSending: int, next: int, inbox: Message)

  // The record of a process in the given mode.
  predicate Represents(r: Proc, mode: Mode, hasInt: bool, inbox: Message) {
    && r.hasInt == hasInt && r.inbox == inbox
    && match mode
       case Ready => r.flags == {} && r.msg == Null && r.recvFrom == NO_TASK && r.sendTo == NO_TASK
       case Sending(to, m) => r.flags == {SENDING} && r.msg == Outgoing(m) && r.recvFrom == NO_TASK && r.sendTo == to
       case Receiving(from) => r.flags == {RECEIVING} && r.msg == Buffer && r.recvFrom == from && r.sendTo == NO_TASK
       case Free => r.flags == {FREE_SLOT}
  }

  // What follows the i-th member of a list.
  function Follower(q: seq<int>, i: nat): int {
    if i + 1 < |q| then q[i + 1] else NIL
  }

  // The list that starts at head is q.
  predicate Linked(t: seq<Proc>, head: int, q: seq<int>) {
    && head == (if q == [] then NIL else q[0])
    && (forall i :: 0 <= i < |q| ==> 0 <= q[i] < |t|)
    && (forall i :: 0 <= i < |q| ==> t[q[i]].next == Follower(q, i))
  }

  // The table after sender was linked behind the last member of dest's list q.
  function Appended(t: seq<Proc>, sender: int, dest: int, q: seq<int>): seq<Proc>
    requires 0 <= sender < |t| && 0 <= dest < |t| && (forall i :: 0 <= i < |q| ==> 0 <= q[i] < |t|)
  {
    var t1 :=
      if q == [] then t[dest := t[dest].(qSending := sender)]
      else var last := q[|q| - 1]; t[last := t[last].(next := sender)];
    t1[sender := t1[sender].(next := NIL)]
  }

  // The table after from was unlinked from r's list, where prev precedes it.
  function Bypassed(t: seq<Proc>, r: int, from: int, prev: int): seq<Proc>
    requires 0 <= r < |t| && 0 <= from < |t| && (prev == NIL || 0 <= prev < |t|)
  {
    var t1 :=
      if prev == NIL then t[r := t[r].(qSending := t[from].next)]
      else t[prev := t[prev].(next := t[from].next)];
    t1[from := t1[from].(next := NIL)]
  }

  // Records changed outside q, or changed in other fields, leave the list alone.
  lemma LinkedFrame(t: seq<Proc>, t': seq<Proc>, head: int, q: seq<int>)
    requires Linked(t, head, q) && |t| == |t'|
    requires forall i :: 0 <= i < |q| ==> t'[q[i]].next == t[q[i]].next
    ensures Linked(t', head, q)
  {
  }

  ghost predicate TableMatches(t: seq<Proc>, s: Sys) {
    && |t| == NR_ALL && WellShaped(s)
    && (forall p :: 0 <= p < NR_ALL ==> Represents(t[p], s.mode[p], s.hasInt[p], s.inbox[p]))
    && (forall r :: 0 <= r < NR_ALL ==> Linked(t, t[r].qSending, s.queue[r]))
  }

  class Kernel {
    const table: array<Proc>
    ghost var sys: Sys

    ghost predicate Valid()
      reads this, table
    {
      TableMatches(table[..], sys) && Inv(sys)
    }

    // kernel_main's initialisation of the IPC fields (kernel/main.c:74-145).
    constructor ()
      ensures Valid() && fresh(table)
      ensures forall p :: 0 <= p < NR_ALL ==> sys.mode[p] == if p < FIRST_FORKED then Ready else Free
      ensures forall p :: 0 <= p < NR_ALL ==> sys.queue[p] == [] && !sys.hasInt[p]
      ensures sys == IpcRuns.BOOT.sys
    {
      var zero := Message(0, 0, EMPTY_BODY);
      table := new Proc[NR_ALL](i =>
        if i < FIRST_FORKED then Proc({}, Null, NO_TASK, NO_TASK, false, NIL, NIL, zero)
        else Proc({FREE_SLOT}, Null, 0, 0, false, NIL, NIL, zero));
      sys := Sys(seq(NR_ALL, i => if i < FIRST_FORKED then Ready else Free), seq(NR_ALL, i => false),
                 seq(NR_ALL, i => []), seq(NR_ALL, i => zero));
      new;
      forall a | 0 <= a < |sys.mode| ensures EndsSomewhere(sys, a) {
        assert IsChain(sys, a, [a]);
      }
    }

    // kernel/proc.c:67-79
    method Deadlock(src: int, dest: int) returns (found: bool)
      requires Valid() && IsPid(src) && IsPid(dest) && src != dest && !sys.mode[src].Sending?
      ensures found <==> Reaches(sys, dest, src)
    {
      ghost var chain := ChainFrom(table[..], sys, dest);
      ReachesEnd(sys, dest, src, chain);
      ChainInTable(table[..], sys, dest, chain);
      found := WalkChain(src, dest, chain);
    }

    // The loop follows p_sendto along the chain of blocked senders.
    method WalkChain(src: int, dest: int, ghost chain: seq<int>) returns (found: bool)
      requires ChainRecords(table[..], chain) && chain[0] == dest && src != dest
      ensures found <==> src in chain
    {
      ghost var t := table[..];
      var p := dest;
      ghost var i := 0;
      while SENDING in table[p].flags
        invariant 0 <= i < |chain| && p == chain[i] && 0 <= p < table.Length
        invariant forall j :: 0 <= j <= i ==> chain[j] != src
        decreases |chain| - i
      {
        assert table[p] == t[chain[i]];
        if table[p].sendTo == src {
          assert chain[i + 1] == src;
          return true;
        }
        p := table[p].sendTo;
        i := i + 1;
      }
      assert table[p] == t[chain[i]];
      return false;
    }

    // kernel/proc.c:86-139
    method SendMsg(sender: int, dest: int, m: Message) returns (o: Outcome)
      requires Valid() && IsPid(sender) && IsPid(dest) && sys.mode[sender] == Ready
      modifies table, this`sys
      ensures Valid()
      ensures var r := Send(old(sys), sender, dest, m); sys == r.sys && o == r.outcome
    {
      if sender == dest {
        return AssertFailed;
      }
      var circle := Deadlock(sender, dest);
      if circle {
        return Panic;
      }
      ghost var after := Send(sys, sender, dest, m).sys;
      SendKeepsInv(sys, sender, dest, m);
      RecordOf(table[..], sys, dest);
      if RECEIVING in table[dest].flags && (table[dest].recvFrom == sender || table[dest].recvFrom == ANY) {
        Meet(sender, dest, m, after);
      } else {
        BlockSender(sender, dest, m, after);
      }
      sys := after;
      return Done;
    }

    // The receiver was waiting: kernel/proc.c:97-113.
    method Meet(sender: int, dest: int, m: Message, ghost after: Sys)
      requires TableMatches(table[..], sys) && IsPid(sender) && IsPid(dest) && sender != dest
      requires sys.mode[sender] == Ready && sys.mode[dest].Receiving?
      requires after == sys.(mode := sys.mode[dest := Ready], inbox := sys.inbox[dest := m])
      modifies table
      ensures TableMatches(table[..], after)
    {
      ghost var t := table[..];
      RecordOf(t, sys, sender);
      RecordOf(t, sys, dest);
      assert table[dest].msg != Null;
      table[dest] := table[dest].(inbox := m, msg := Null, flags := table[dest].flags - {RECEIVING},
        recvFrom := NO_TASK);
      // unblock, and the assertions that close the branch
      assert table[dest].flags == {} && table[dest].msg == Null;
      assert table[dest].recvFrom == NO_TASK && table[dest].sendTo == NO_TASK;
      assert table[sender].flags == {} && table[sender].msg == Null;
      assert table[sender].recvFrom == NO_TASK && table[sender].sendTo == NO_TASK;
      OneRecordChanged(t, table[..], sys, after, dest);
    }

    // The receiver was not ready: kernel/proc.c:116-136.
    method BlockSender(sender: int, dest: int, m: Message, ghost after: Sys)
      requires TableMatches(table[..], sys) && QueuesMatch(sys) && IsPid(sender) && IsPid(dest) && sender != dest
      requires sys.mode[sender] == Ready
      requires after == sys.(mode := sys.mode[sender := Sending(dest, m)],
                             queue := sys.queue[dest := sys.queue[dest] + [sender]])
      modifies table
      ensures TableMatches(table[..], after)
    {
      ghost var t := table[..];
      RecordOf(t, sys, sender);
      RecordOf(t, sys, dest);
      QueueMembers(t, sys, dest);
      table[sender] := table[sender].(flags := table[sender].flags + {SENDING}, sendTo := dest, msg := Outgoing(m));
      ghost var t1 := table[..];
      assert t1 == t[sender := t1[sender]];
      LinkedFrame(t, t1, t[dest].qSending, sys.queue[dest]);
      Enqueue(sender, dest, sys.queue[dest]);
      // block, up to the choice of the next process, and the assertions after it
      assert table[sender].flags == {SENDING} && table[sender].msg != Null;
      assert table[sender].sendTo == dest && table[sender].recvFrom == NO_TASK;
      SenderQueued(t, t1, sys, after, sender, dest);
    }

    // The loop of kernel/proc.c:120-129: sender goes to the tail of dest's queue.
    method Enqueue(sender: int, dest: int, ghost q: seq<int>)
      requires table.Length == NR_ALL && IsPid(sender) && IsPid(dest) && sender != dest
      requires Linked(table[..], table[dest].qSending, q) && sender !in q
      modifies table
      ensures table[..] == Appended(old(table[..]), sender, dest, q)
    {
      ghost var t := table[..];
      if table[dest].qSending != NIL {
        var p := table[dest].qSending;
        ghost var i := 0;
        while table[p].next != NIL
          invariant 0 <= i < |q| && p == q[i]
          decreases |q| - i
        {
          assert table[p] == t[q[i]];
          p := table[p].next;
          i := i + 1;
        }
        assert table[p] == t[q[i]];
        table[p] := table[p].(next := sender);
      } else {
        table[dest] := table[dest].(qSending := sender);
      }
      table[sender] := table[sender].(next := NIL);
    }

    // kernel/proc.c:146-246.  A receive from INTERRUPT matches no sender.
    method RecvMsg(r: int, src: int) returns (o: Outcome)
      requires Valid() && IsPid(r) && sys.mode[r] == Ready
      requires IsPid(src) || src == ANY || src == INTERRUPT
      modifies table, this`sys
      ensures Valid()
      ensures var t := Receive(old(sys), r, src); sys == t.sys && o == t.outcome
    {
      if r == src {
        return AssertFailed;
      }
      ghost var after := Receive(sys, r, src).sys;
      ReceiveKeepsInv(sys, r, src);
      RecordOf(table[..], sys, r);
      if table[r].hasInt && (src == ANY || src == INTERRUPT) {
        TakeInterrupt(r, after);
      } else {
        TakeOrBlock(r, src, after);
      }
      sys := after;
      return Done;
    }

    // No interrupt to deliver: kernel/proc.c:172-243.
    method TakeOrBlock(r: int, src: int, ghost after: Sys)
      requires TableMatches(table[..], sys) && QueuesMatch(sys) && IsPid(r) && sys.mode[r] == Ready && r != src
      requires IsPid(src) || ((src == ANY || src == INTERRUPT) && !sys.hasInt[r])
      requires after == Receive(sys, r, src).sys
      modifies table
      ensures TableMatches(table[..], after)
    {
      RecordOf(table[..], sys, r);
      var copy, from := false, NIL;
      ghost var i := 0;
      var prev := NIL;
      if src == ANY {
        if table[r].qSending != NIL {
          from, copy := table[r].qSending, true;
        }
      } else if IsPid(src) {
        RecordOf(table[..], sys, src);
        QueueMembers(table[..], sys, r);
        if SENDING in table[src].flags && table[src].sendTo == r {
          copy := true;
          prev, i := FindSender(r, src, sys.queue[r]);
          from := src;
        }
      }
      if copy {
        assert from == sys.queue[r][i];
        IndexIsFirst(sys, r, i);
        TakeSender(r, from, prev, i, after);
      } else {
        BlockReceiver(r, src, after);
      }
    }

    // kernel/proc.c:154-169
    method TakeInterrupt(r: int, ghost after: Sys)
      requires TableMatches(table[..], sys) && IsPid(r) && sys.mode[r] == Ready
      requires after == sys.(hasInt := sys.hasInt[r := false], inbox := sys.inbox[r := INT_MESSAGE])
      modifies table
      ensures TableMatches(table[..], after)
    {
      ghost var t := table[..];
      RecordOf(t, sys, r);
      table[r] := table[r].(inbox := INT_MESSAGE, hasInt := false);
      assert table[r].flags == {} && table[r].msg == Null && table[r].sendTo == NO_TASK && !table[r].hasInt;
      OneRecordChanged(t, table[..], sys, after, r);
    }

    // kernel/proc.c:236-243
    method BlockReceiver(r: int, src: int, ghost after: Sys)
      requires TableMatches(table[..], sys) && IsPid(r) && sys.mode[r] == Ready
      requires after == sys.(mode := sys.mode[r := Receiving(src)])
      modifies table
      ensures TableMatches(table[..], after)
    {
      ghost var t := table[..];
      RecordOf(t, sys, r);
      table[r] := table[r].(flags := table[r].flags + {RECEIVING}, msg := Buffer, recvFrom := src);
      OneRecordChanged(t, table[..], sys, after, r);
    }

    // The search of kernel/proc.c:194-203: src and the process queued before it.
    method FindSender(r: int, src: int, ghost q: seq<int>) returns (prev: int, ghost i: nat)
      requires table.Length == NR_ALL && IsPid(r)
      requires Linked(table[..], table[r].qSending, q) && src in q
      ensures i == IndexOf(q, src)
      ensures prev == if IndexOf(q, src) == 0 then NIL else q[IndexOf(q, src) - 1]
    {
      ghost var t, k := table[..], IndexOf(q, src);
      var p := table[r].qSending;
      prev, i := NIL, 0;
      NotBefore(q, src);
      while p != NIL
        invariant 0 <= i <= k && p == q[i]
        invariant prev == if i == 0 then NIL else q[i - 1]
        decreases |q| - i
      {
        if p == src {
          return;
        }
        assert table[p] == t[q[i]];
        prev := p;
        p := table[p].next;
        i := i + 1;
      }
    }

    // The receiver takes the i-th queued sender: kernel/proc.c:214-233.
    method TakeSender(r: int, from: int, prev: int, ghost i: nat, ghost after: Sys)
      requires TableMatches(table[..], sys) && QueuesMatch(sys) && IsPid(r) && sys.mode[r] == Ready
      requires i < |sys.queue[r]| && from == sys.queue[r][i]
      requires prev == if i == 0 then NIL else sys.queue[r][i - 1]
      requires IsPid(from) && sys.mode[from].Sending?
      requires after == Take(sys, r, i, false).sys
      modifies table
      ensures TableMatches(table[..], after)
    {
      ghost var t, q := table[..], sys.queue[r];
      RecordOf(t, sys, r);
      RecordOf(t, sys, from);
      QueueMembers(t, sys, r);
      assert from in q && (i > 0 ==> prev in q);
      assert from == t[r].qSending <==> i == 0;
      assert table[r].flags == {} && table[r].msg == Null && table[r].qSending != NIL;
      assert table[r].recvFrom == NO_TASK && table[r].sendTo == NO_TASK;
      assert table[from].flags == {SENDING} && table[from].msg != Null;
      assert table[from].recvFrom == NO_TASK && table[from].sendTo == r;
      Unlink(r, from, prev);
      ghost var t1 := table[..];
      table[r] := table[r].(inbox := table[from].msg.m);
      table[from] := table[from].(msg := Null, sendTo := NO_TASK, flags := table[from].flags - {SENDING});
      SenderTaken(t, t1, table[..], sys, after, r, i);
    }

    // kernel/proc.c:215-224
    method Unlink(r: int, from: int, prev: int)
      requires table.Length == NR_ALL && IsPid(r) && IsPid(from) && r != from
      requires prev != NIL ==> IsPid(prev) && prev != r && prev != from
      requires prev == NIL <==> from == table[r].qSending
      modifies table
      ensures table[..] == Bypassed(old(table[..]), r, from, prev)
    {
      if from == table[r].qSending {
        assert prev == NIL;
        table[r] := table[r].(qSending := table[from].next);
      } else {
        assert prev != NIL;
        table[prev] := table[prev].(next := table[from].next);
      }
      table[from] := table[from].(next := NIL);
    }

    // kernel/proc.c:267-282
    method InfoTask(pid: int)
      requires Valid() && IsPid(pid)
      modifies table, this`sys
      ensures Valid() && sys == Interrupt(old(sys), pid).sys
    {
      ghost var t := table[..];
      ghost var after := Interrupt(sys, pid).sys;
      InterruptKeepsInv(sys, pid);
      RecordOf(t, sys, pid);
      if table[pid].flags == {RECEIVING} && (table[pid].recvFrom == INTERRUPT || table[pid].recvFrom == ANY) {
        table[pid] := table[pid].(
          flags := table[pid].flags - {RECEIVING}, inbox := table[pid].inbox.(source := INTERRUPT, kind := HARD_INT),
          msg := Null, recvFrom := NO_TASK, sendTo := NO_TASK, hasInt := false);
      } else {
        table[pid] := table[pid].(hasInt := true);
      }
      OneRecordChanged(t, table[..], sys, after, pid);
      sys := after;
    }

    // kernel/proc.c:248-264.  The kernel writes the caller's pid into the
    // message; a function other than SEND and RECEIVE is a panic.
    method SysSendrec(function_: int, srcDest: int, kind: int, body: seq<int>, p: int) returns (o: Outcome)
      requires Valid() && IsPid(p) && sys.mode[p] == Ready
      requires function_ == SEND ==> IsPid(srcDest)
      modifies table, this`sys
      ensures Valid()
      ensures
        if !(IsPid(srcDest) || srcDest == ANY || srcDest == INTERRUPT) then sys == old(sys) && o == AssertFailed
        else if function_ == SEND then
          var r := Send(old(sys), p, srcDest, Message(p, kind, body)); sys == r.sys && o == r.outcome
        else if function_ == RECEIVE then
          var r := Receive(old(sys), p, srcDest); sys == r.sys && o == r.outcome
        else sys == old(sys) && o == Panic
    {
      if !(IsPid(srcDest) || srcDest == ANY || srcDest == INTERRUPT) {
        return AssertFailed;
      }
      if function_ == SEND {
        o := SendMsg(p, srcDest, Message(p, kind, body));
      } else if function_ == RECEIVE {
        o := RecvMsg(p, srcDest);
      } else {
        o := Panic;
      }
    }
  }

  // ------------------------------------------------------------------ proofs

  lemma RecordOf(t: seq<Proc>, s: Sys, p: int)
    requires TableMatches(t, s) && IsPid(p)
    ensures Represents(t[p], s.mode[p], s.hasInt[p], s.inbox[p])
    ensures Linked(t, t[p].qSending, s.queue[p])
  {
  }

  ghost function ChainFrom(t: seq<Proc>, s: Sys, a: int): (chain: seq<int>)
    requires TableMatches(t, s) && Grounded(s) && IsPid(a)
    ensures IsChain(s, a, chain)
  {
    assert EndsSomewhere(s, a);
    var chain :| IsChain(s, a, chain);
    chain
  }

  // The flags and p_sendto along a chain of blocked senders.
  predicate ChainRecords(t: seq<Proc>, chain: seq<int>) {
    && chain != [] && (forall i :: 0 <= i < |chain| ==> 0 <= chain[i] < |t|)
    && (forall i :: 0 <= i < |chain| - 1 ==>
          SENDING in t[chain[i]].flags && t[chain[i]].sendTo == chain[i + 1])
    && SENDING !in t[chain[|chain| - 1]].flags
  }

  lemma ChainInTable(t: seq<Proc>, s: Sys, a: int, chain: seq<int>)
    requires TableMatches(t, s) && IsChain(s, a, chain)
    ensures ChainRecords(t, chain)
  {
    forall i | 0 <= i < |chain| - 1 ensures SENDING in t[chain[i]].flags && t[chain[i]].sendTo == chain[i + 1] {
      assert WaitsFor(s, chain[i], chain[i + 1]);
      RecordOf(t, s, chain[i]);
    }
    RecordOf(t, s, chain[|chain| - 1]);
  }

  lemma QueueMembers(t: seq<Proc>, s: Sys, r: int)
    requires TableMatches(t, s) && QueuesMatch(s) && IsPid(r)
    ensures NoDuplicates(s.queue[r])
    ensures forall p :: p in s.queue[r] ==> IsPid(p) && s.mode[p].Sending? && s.mode[p].to == r
  {
    forall p | p in s.queue[r] ensures IsPid(p) && s.mode[p].Sending? && s.mode[p].to == r {
      var i :| 0 <= i < |s.queue[r]| && s.queue[r][i] == p;
      assert WaitsFor(s, s.queue[r][i], r);
    }
  }

  // A step that moves no link and changes the record of one process.
  lemma OneRecordChanged(t: seq<Proc>, t': seq<Proc>, s: Sys, s': Sys, p: int)
    requires TableMatches(t, s) && IsPid(p) && WellShaped(s') && s'.queue == s.queue && |t'| == NR_ALL
    requires forall q :: 0 <= q < NR_ALL ==> t'[q].next == t[q].next && t'[q].qSending == t[q].qSending
    requires forall q :: 0 <= q < NR_ALL && q != p ==>
      t'[q] == t[q] && s'.mode[q] == s.mode[q] && s'.hasInt[q] == s.hasInt[q] && s'.inbox[q] == s.inbox[q]
    requires Represents(t'[p], s'.mode[p], s'.hasInt[p], s'.inbox[p])
    ensures TableMatches(t', s')
  {
    forall r | 0 <= r < NR_ALL ensures Linked(t', t'[r].qSending, s'.queue[r]) {
      LinkedFrame(t, t', t[r].qSending, s.queue[r]);
    }
  }

  // The queues of other receivers share no record with that of dest, and keep
  // their links.
  lemma OtherQueuesFrame(t: seq<Proc>, t': seq<Proc>, s: Sys, dest: int, r: int)
    requires TableMatches(t, s) && QueuesMatch(s) && IsPid(dest) && IsPid(r) && r != dest && |t'| == NR_ALL
    requires t'[r].qSending == t[r].qSending
    requires forall p :: 0 <= p < NR_ALL && s.mode[p].Sending? && p !in s.queue[dest] ==> t'[p].next == t[p].next
    ensures Linked(t', t'[r].qSending, s.queue[r])
    ensures forall p :: p in s.queue[r] ==> p !in s.queue[dest]
  {
    QueueMembers(t, s, dest);
    QueueMembers(t, s, r);
    forall i | 0 <= i < |s.queue[r]| ensures t'[s.queue[r][i]].next == t[s.queue[r][i]].next {
      assert s.queue[r][i] in s.queue[r];
    }
    LinkedFrame(t, t', t[r].qSending, s.queue[r]);
  }

  // t' differs from t at most in links.
  ghost predicate OnlyLinksDiffer(t: seq<Proc>, t': seq<Proc>) {
    |t'| == |t| && forall p :: 0 <= p < |t| ==> t'[p] == t[p].(qSending := t'[p].qSending, next := t'[p].next)
  }

  // Only the list of r changes: its head, and links of old members or of x.
  ghost predicate OnlyListChanges(t: seq<Proc>, t': seq<Proc>, r: int, q: seq<int>, x: int) {
    && OnlyLinksDiffer(t, t')
    && (forall p :: 0 <= p < |t| && p != r ==> t'[p].qSending == t[p].qSending)
    && (forall p :: 0 <= p < |t| && p != x && p !in q ==> t'[p].next == t[p].next)
  }

  lemma AppendedChanges(t: seq<Proc>, sender: int, dest: int, q: seq<int>)
    requires 0 <= sender < |t| && 0 <= dest < |t| && Linked(t, t[dest].qSending, q)
    ensures OnlyListChanges(t, Appended(t, sender, dest, q), dest, q, sender)
  {
    assert q != [] ==> q[|q| - 1] in q;
  }

  lemma AppendedLinks(t: seq<Proc>, sender: int, dest: int, q: seq<int>)
    requires 0 <= sender < |t| && 0 <= dest < |t| && sender != dest
    requires Linked(t, t[dest].qSending, q) && NoDuplicates(q) && sender !in q
    ensures var t' := Appended(t, sender, dest, q); Linked(t', t'[dest].qSending, q + [sender])
  {
    var t' := Appended(t, sender, dest, q);
    forall i | 0 <= i < |q| - 1 ensures t'[q[i]].next == t[q[i]].next {
      assert q[i] != q[|q| - 1] && q[i] in q;
    }
    ListAppended(t, t', t[dest].qSending, q, sender);
  }

  lemma BypassedChanges(t: seq<Proc>, r: int, q: seq<int>, i: nat)
    requires 0 <= r < |t| && Linked(t, t[r].qSending, q) && i < |q|
    ensures OnlyListChanges(t, Bypassed(t, r, q[i], if i == 0 then NIL else q[i - 1]), r, q, q[i])
  {
    if i == 0 {
      OnlyHeadBypassed(t, r, q[i], q);
    } else {
      assert q[i - 1] in q;
      OnlyMiddleBypassed(t, r, q[i], q[i - 1], q);
    }
  }

  lemma OnlyHeadBypassed(t: seq<Proc>, r: int, from: int, q: seq<int>)
    requires 0 <= r < |t| && 0 <= from < |t|
    ensures OnlyListChanges(t, Bypassed(t, r, from, NIL), r, q, from)
  {
  }

  lemma OnlyMiddleBypassed(t: seq<Proc>, r: int, from: int, prev: int, q: seq<int>)
    requires 0 <= r < |t| && 0 <= from < |t| && 0 <= prev < |t| && prev in q
    ensures OnlyListChanges(t, Bypassed(t, r, from, prev), r, q, from)
  {
  }

  lemma BypassedLinks(t: seq<Proc>, r: int, q: seq<int>, i: nat)
    requires 0 <= r < |t| && Linked(t, t[r].qSending, q) && NoDuplicates(q) && r !in q && i < |q|
    ensures
      var t' := Bypassed(t, r, q[i], if i == 0 then NIL else q[i - 1]);
      Linked(t', t'[r].qSending, Without(q, i))
  {
    var t' := Bypassed(t, r, q[i], if i == 0 then NIL else q[i - 1]);
    assert q[i] in q && (i > 0 ==> q[i - 1] in q);
    ListWithout(t, t', t[r].qSending, t'[r].qSending, q, i);
  }

  lemma SenderQueued(t: seq<Proc>, t1: seq<Proc>, s: Sys, s': Sys, sender: int, dest: int)
    requires TableMatches(t, s) && QueuesMatch(s) && IsPid(sender) && IsPid(dest) && s.mode[sender] == Ready
    requires WellShaped(s') && s'.hasInt == s.hasInt && s'.inbox == s.inbox && sender != dest
    requires s'.queue == s.queue[dest := s.queue[dest] + [sender]]
    requires s'.mode == s.mode[sender := s'.mode[sender]]
    requires |t1| == NR_ALL && t1 == t[sender := t1[sender]]
    requires t1[sender].qSending == t[sender].qSending && t1[sender].next == t[sender].next
    requires Represents(t1[sender], s'.mode[sender], s'.hasInt[sender], s'.inbox[sender])
    requires forall i :: 0 <= i < |s.queue[dest]| ==> 0 <= s.queue[dest][i] < |t1|
    ensures TableMatches(Appended(t1, sender, dest, s.queue[dest]), s')
  {
    var q := s.queue[dest];
    RecordOf(t, s, dest);
    QueueMembers(t, s, dest);
    LinkedFrame(t, t1, t[dest].qSending, q);
    AppendedChanges(t1, sender, dest, q);
    AppendedLinks(t1, sender, dest, q);
    RecordsKept(t, t1, Appended(t1, sender, dest, q), s, s', sender, dest);
  }

  // Records apart from links, and the queues of other receivers.
  lemma RecordsKept(t: seq<Proc>, t1: seq<Proc>, t': seq<Proc>, s: Sys, s': Sys, sender: int, dest: int)
    requires TableMatches(t, s) && QueuesMatch(s) && IsPid(sender) && IsPid(dest) && s.mode[sender] == Ready
    requires WellShaped(s') && s'.hasInt == s.hasInt && s'.inbox == s.inbox
    requires s'.queue == s.queue[dest := s'.queue[dest]] && s'.mode == s.mode[sender := s'.mode[sender]]
    requires |t1| == NR_ALL && t1 == t[sender := t1[sender]]
    requires t1[sender].qSending == t[sender].qSending && t1[sender].next == t[sender].next
    requires Represents(t1[sender], s'.mode[sender], s'.hasInt[sender], s'.inbox[sender])
    requires OnlyListChanges(t1, t', dest, s.queue[dest], sender)
    requires Linked(t', t'[dest].qSending, s'.queue[dest])
    ensures TableMatches(t', s')
  {
    forall r | 0 <= r < NR_ALL ensures Linked(t', t'[r].qSending, s'.queue[r]) {
      if r != dest { OtherQueuesFrame(t, t', s, dest, r); }
    }
    forall p | 0 <= p < NR_ALL ensures Represents(t'[p], s'.mode[p], s'.hasInt[p], s'.inbox[p]) {
      RecordOf(t, s, p);
    }
  }

  lemma ListAppended(t: seq<Proc>, t': seq<Proc>, head: int, q: seq<int>, x: int)
    requires Linked(t, head, q) && NoDuplicates(q) && |t'| == |t| && 0 <= x < |t'| && t'[x].next == NIL
    requires forall i :: 0 <= i < |q| - 1 ==> t'[q[i]].next == t[q[i]].next
    requires q != [] ==> t'[q[|q| - 1]].next == x
    ensures Linked(t', if q == [] then x else head, q + [x])
  {
    var w := q + [x];
    forall j | 0 <= j < |w| ensures t'[w[j]].next == Follower(w, j) {
      if j < |q| - 1 {
        assert w[j] == q[j] && Follower(w, j) == Follower(q, j);
      }
    }
  }

  lemma NotBefore(q: seq<int>, p: int)
    requires p in q
    ensures forall j :: 0 <= j < IndexOf(q, p) ==> q[j] != p
  {
    var k := IndexOf(q, p);
    assert forall j :: 0 <= j < k ==> q[j] == q[..k][j];
  }

  lemma IndexIsFirst(s: Sys, r: int, i: nat)
    requires WellShaped(s) && QueuesMatch(s) && IsPid(r) && i < |s.queue[r]|
    ensures IndexOf(s.queue[r], s.queue[r][i]) == i
    ensures WaitsFor(s, s.queue[r][i], r)
  {
  }

  // A list with its i-th member bypassed.
  lemma ListWithout(t: seq<Proc>, t': seq<Proc>, head: int, head': int, q: seq<int>, i: nat)
    requires Linked(t, head, q) && NoDuplicates(q) && i < |q| && |t'| == |t|
    requires head' == if i == 0 then t[q[0]].next else head
    requires forall j :: 0 <= j < |q| && j != i && j != i - 1 ==> t'[q[j]].next == t[q[j]].next
    requires i > 0 ==> t'[q[i - 1]].next == t[q[i]].next
    ensures Linked(t', head', Without(q, i))
  {
    var w := Without(q, i);
    forall j | 0 <= j < |w| ensures t'[w[j]].next == Follower(w, j) {
      if j < i - 1 {
        assert w[j] == q[j] && Follower(w, j) == Follower(q, j);
      } else if j == i - 1 {
        assert w[j] == q[j] && Follower(w, j) == Follower(q, i);
      } else {
        assert w[j] == q[j + 1] && Follower(w, j) == Follower(q, j + 1);
      }
    }
  }

  lemma SenderTaken(t: seq<Proc>, t1: seq<Proc>, t': seq<Proc>, s: Sys, s': Sys, r: int, i: nat)
    requires TableMatches(t, s) && QueuesMatch(s) && IsPid(r) && i < |s.queue[r]| && s.mode[r] == Ready
    requires IsPid(s.queue[r][i]) && s.mode[s.queue[r][i]].Sending?
    requires s' == Take(s, r, i, false).sys
    requires i > 0 ==> IsPid(s.queue[r][i - 1])
    requires t1 == Bypassed(t, r, s.queue[r][i], if i == 0 then NIL else s.queue[r][i - 1])
    requires |t'| == NR_ALL
    requires
      var p := s.queue[r][i];
      && t' == t1[r := t'[r]][p := t'[p]]
      && t'[r].qSending == t1[r].qSending && t'[r].next == t1[r].next
      && t'[p].qSending == t1[p].qSending && t'[p].next == t1[p].next
      && Represents(t'[r], Ready, s.hasInt[r], s'.inbox[r])
      && Represents(t'[p], Ready, s.hasInt[p], s'.inbox[p])
    ensures TableMatches(t', s')
  {
    var q := s.queue[r];
    RecordOf(t, s, r);
    QueueMembers(t, s, r);
    BypassedChanges(t, r, q, i);
    BypassedLinks(t, r, q, i);
    LinkedFrame(t1, t', t1[r].qSending, Without(q, i));
    TakenRecords(t, t1, t', s, s', r, q[i]);
  }

  // Records apart from links, and the queues of other receivers.
  lemma TakenRecords(t: seq<Proc>, t1: seq<Proc>, t': seq<Proc>, s: Sys, s': Sys, r: int, p: int)
    requires TableMatches(t, s) && QueuesMatch(s) && IsPid(r) && IsPid(p)
    requires WellShaped(s') && s'.hasInt == s.hasInt && s'.inbox == s.inbox[r := s'.inbox[r]]
    requires s'.mode == s.mode[p := Ready] && s.mode[r] == Ready && s'.queue == s.queue[r := s'.queue[r]]
    requires s.mode[p].Sending? && p in s.queue[r] && OnlyListChanges(t, t1, r, s.queue[r], p)
    requires |t'| == |t1| && t' == t1[r := t'[r]][p := t'[p]]
    requires t'[r].qSending == t1[r].qSending && t'[r].next == t1[r].next
    requires t'[p].qSending == t1[p].qSending && t'[p].next == t1[p].next
    requires Represents(t'[r], Ready, s.hasInt[r], s'.inbox[r])
    requires Represents(t'[p], Ready, s.hasInt[p], s'.inbox[p])
    requires Linked(t', t'[r].qSending, s'.queue[r])
    ensures TableMatches(t', s')
  {
    forall x | 0 <= x < NR_ALL ensures Linked(t', t'[x].qSending, s'.queue[x]) {
      if x != r { OtherQueuesFrame(t, t', s, r, x); }
    }
    forall x | 0 <= x < NR_ALL ensures Represents(t'[x], s'.mode[x], s'.hasInt[x], s'.inbox[x]) {
      RecordOf(t, s, x);
    }
  }
}
