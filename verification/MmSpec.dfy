// Fork, exit and wait as a state machine over the process table (mm/exit.c,
// mm/forkexit.c, mm/mm.c).
//
// The bits SENDING and RECEIVING of p_flags belong to message passing and are
// left to it: a process is seen here between its calls, or blocked in one.
module MmSpec {
  import opened Constants

  datatype Proc = Proc(flags: set<Flag>, parent: int, status: int)

  // What the memory manager sends: the status of a child, or that there is none.
  datatype Reply = Status(to: int, pid: int, status: int) | NoChild(to: int)

  // log: the replies sent so far.
  datatype Mm = Mm(table: seq<Proc>, log: seq<Reply>)

  predicate Sized(s: Mm) { |s.table| == NR_ALL }

  predicate Is(s: Mm, p: int, f: Flag)
    requires Sized(s)
  {
    IsPid(p) && f in s.table[p].flags
  }

  predicate IsSlot(i: int) { FIRST_FORKED <= i < NR_ALL }

  function SetFlags(s: Mm, p: int, flags: set<Flag>): (s': Mm)
    requires Sized(s) && IsPid(p)
    ensures Sized(s')
  {
    s.(table := s.table[p := s.table[p].(flags := flags)])
  }

  // mm/exit.c:13-20
  function Clean(s: Mm, p: int): (s': Mm)
    requires Sized(s) && IsPid(p)
    ensures Sized(s')
  {
    SetFlags(s, p, {FREE_SLOT}).(log := s.log + [Status(s.table[p].parent, p, s.table[p].status)])
  }

  // Child p has exited, and its parent, who waits, is told.
  function Deliver(s: Mm, p: int): (s': Mm)
    requires Sized(s) && IsPid(p) && IsPid(s.table[p].parent)
    ensures Sized(s')
  {
    var parent := s.table[p].parent;
    Clean(SetFlags(s, parent, s.table[parent].flags - {WAITING}), p)
  }

  // mm/exit.c:35-43
  function Leave(s: Mm, p: int, status: int): (s': Mm)
    requires Sized(s) && IsPid(p) && IsPid(s.table[p].parent)
    ensures Sized(s')
  {
    var s1 := s.(table := s.table[p := s.table[p].(status := status)]);
    if WAITING in s.table[s.table[p].parent].flags then Deliver(s1, p)
    else SetFlags(s1, p, s.table[p].flags + {HANGING})
  }

  // mm/exit.c:45-51, for slot i
  function Adopt(s: Mm, gone: int, i: int): (s': Mm)
    requires Sized(s) && IsSlot(i)
    ensures Sized(s')
  {
    if s.table[i].parent != gone then s
    else
      var s1 := s.(table := s.table[i := s.table[i].(parent := PROC_INIT)]);
      if HANGING in s1.table[i].flags && WAITING in s1.table[PROC_INIT].flags then Deliver(s1, i) else s1
  }

  function AdoptFrom(s: Mm, gone: int, i: int): (s': Mm)
    requires Sized(s) && FIRST_FORKED <= i <= NR_ALL
    ensures Sized(s')
    decreases NR_ALL - i
  {
    if i == NR_ALL then s else AdoptFrom(Adopt(s, gone, i), gone, i + 1)
  }

  // mm/exit.c:22-53
  function Exit(s: Mm, p: int, status: int): (s': Mm)
    requires Sized(s) && IsPid(p) && IsPid(s.table[p].parent)
    ensures Sized(s')
  {
    AdoptFrom(Leave(s, p, status), p, FIRST_FORKED)
  }

  // The first zombie of parent from slot i on; NR_ALL if there is none.
  function FirstZombie(s: Mm, parent: int, i: int): (z: int)
    requires Sized(s) && FIRST_FORKED <= i <= NR_ALL
    ensures i <= z <= NR_ALL && (z < NR_ALL ==> s.table[z].parent == parent && HANGING in s.table[z].flags)
    ensures forall j :: i <= j < z ==> s.table[j].parent != parent || HANGING !in s.table[j].flags
    decreases NR_ALL - i
  {
    if i == NR_ALL || (s.table[i].parent == parent && HANGING in s.table[i].flags) then i
    else FirstZombie(s, parent, i + 1)
  }

  predicate HasSlot(s: Mm, parent: int)
    requires Sized(s)
  {
    exists i :: FIRST_FORKED <= i < NR_ALL && s.table[i].parent == parent
  }

  // mm/exit.c:55-79
  function Wait(s: Mm, parent: int): (s': Mm)
    requires Sized(s) && IsPid(parent)
    ensures Sized(s')
  {
    var z := FirstZombie(s, parent, FIRST_FORKED);
    if z < NR_ALL then Clean(s, z)
    else if HasSlot(s, parent) then SetFlags(s, parent, s.table[parent].flags + {WAITING})
    else s.(log := s.log + [NoChild(parent)])
  }

  // The slot that do_fork takes; NR_ALL if the table is full.
  function FirstFree(s: Mm, i: int): (k: int)
    requires Sized(s) && 0 <= i <= NR_ALL
    ensures i <= k <= NR_ALL && (k < NR_ALL ==> s.table[k].flags == {FREE_SLOT})
    ensures forall j :: i <= j < k ==> s.table[j].flags != {FREE_SLOT}
    decreases NR_ALL - i
  {
    if i == NR_ALL || s.table[i].flags == {FREE_SLOT} then i else FirstFree(s, i + 1)
  }

  // mm/forkexit.c:16-34
  function Fork(s: Mm, parent: int): (s': Mm)
    requires Sized(s) && IsPid(parent)
    ensures Sized(s')
  {
    var k := FirstFree(s, 0);
    if k == NR_ALL then s else s.(table := s.table[k := s.table[parent].(parent := parent)])
  }

  // -------------------------------------------------------------- invariant

  // A process runs, waits, or is a zombie; only forked processes come and go.
  predicate FlagsOk(s: Mm)
    requires Sized(s)
  {
    && (forall p :: 0 <= p < NR_ALL ==> s.table[p].flags in {{}, {WAITING}, {HANGING}, {FREE_SLOT}})
    && (forall p :: 0 <= p < FIRST_FORKED ==> s.table[p].flags in {{}, {WAITING}})
  }

  // Process p is there and has not exited.
  predicate Alive(s: Mm, p: int)
    requires Sized(s)
  {
    IsPid(p) && HANGING !in s.table[p].flags && FREE_SLOT !in s.table[p].flags
  }

  // The parent of every slot is alive, but for children of gone from slot i
  // on, whom Init has not adopted yet.
  ghost predicate ParentsAlive(s: Mm, gone: int, i: int)
    requires Sized(s)
  {
    forall j :: IsSlot(j) ==> Alive(s, s.table[j].parent) || (j >= i && s.table[j].parent == gone)
  }

  // No parent waits while a child of it is a zombie.
  ghost predicate NobodyMissed(s: Mm)
    requires Sized(s)
  {
    forall j :: IsSlot(j) && HANGING in s.table[j].flags ==> !Is(s, s.table[j].parent, WAITING)
  }

  ghost predicate Safe(s: Mm, gone: int, i: int) {
    Sized(s) && FlagsOk(s) && ParentsAlive(s, gone, i) && NobodyMissed(s)
  }

  ghost predicate Inv(s: Mm) { Safe(s, NO_TASK, NR_ALL) }

  // ------------------------------------------------------- the calls keep it

  lemma LeaveKeeps(s: Mm, p: int, status: int)
    requires Inv(s) && IsSlot(p) && s.table[p].flags == {}
    ensures Safe(Leave(s, p, status), p, FIRST_FORKED)
  {
    var parent := s.table[p].parent;
    if WAITING in s.table[parent].flags {
      assert s.table[parent].flags - {WAITING} == {};
    } else {
      assert s.table[p].flags + {HANGING} == {HANGING};
    }
  }

  lemma AdoptKeeps(s: Mm, gone: int, i: int)
    requires Safe(s, gone, i) && IsSlot(i) && IsPid(gone) && gone != PROC_INIT && !Alive(s, gone)
    ensures Safe(Adopt(s, gone, i), gone, i + 1) && !Alive(Adopt(s, gone, i), gone)
  {
    if WAITING in s.table[PROC_INIT].flags { assert s.table[PROC_INIT].flags - {WAITING} == {}; }
  }

  lemma {:induction false} AdoptFromKeeps(s: Mm, gone: int, i: int)
    requires Safe(s, gone, i) && FIRST_FORKED <= i <= NR_ALL && IsPid(gone) && gone != PROC_INIT && !Alive(s, gone)
    ensures Safe(AdoptFrom(s, gone, i), gone, NR_ALL)
    decreases NR_ALL - i
  {
    if i < NR_ALL {
      AdoptKeeps(s, gone, i);
      AdoptFromKeeps(Adopt(s, gone, i), gone, i + 1);
    }
  }

  lemma ExitKeeps(s: Mm, p: int, status: int)
    requires Inv(s) && IsSlot(p) && s.table[p].flags == {}
    ensures Inv(Exit(s, p, status))
  {
    LeaveKeeps(s, p, status);
    AdoptFromKeeps(Leave(s, p, status), p, FIRST_FORKED);
  }

  lemma WaitKeeps(s: Mm, p: int)
    requires Inv(s) && IsPid(p) && s.table[p].flags == {}
    ensures Inv(Wait(s, p))
  {
    assert s.table[p].flags + {WAITING} == {WAITING};
  }

  // The slot that fork takes is one of the forked processes: the assertion in
  // do_fork never fails.
  lemma ForkKeeps(s: Mm, p: int)
    requires Inv(s) && IsPid(p) && s.table[p].flags == {}
    ensures Inv(Fork(s, p)) && FirstFree(s, 0) >= FIRST_FORKED
  {
  }
}
