// Exit statuses and answers to wait, over whole runs.
module MmRuns {
  import opened Constants
  import opened MmSpec

  // ---------------------------------------------------------- bookkeeping

  function Bit(b: bool): nat { if b then 1 else 0 }

  // Process p is a zombie with this status.
  predicate Zombie(s: Mm, p: int, status: int)
    requires Sized(s)
  {
    Is(s, p, HANGING) && s.table[p].status == status
  }

  // How often this status of process p was sent, and how many replies went to
  // a process.
  function Deliveries(log: seq<Reply>, p: int, status: int): nat {
    if log == [] then 0
    else
      var r := log[|log| - 1];
      Deliveries(log[..|log| - 1], p, status) + Bit(r.Status? && r.pid == p && r.status == status)
  }

  function Answers(log: seq<Reply>, q: int): nat {
    if log == [] then 0 else Answers(log[..|log| - 1], q) + Bit(log[|log| - 1].to == q)
  }

  lemma Appended(log: seq<Reply>, r: Reply, p: int, status: int)
    ensures Deliveries(log + [r], p, status)
         == Deliveries(log, p, status) + Bit(r.Status? && r.pid == p && r.status == status)
    ensures Answers(log + [r], p) == Answers(log, p) + Bit(r.to == p)
  {
    assert (log + [r])[..|log|] == log;
  }

  // Statuses of p that were delivered or are still to be; requests of p to
  // wait that were answered or are still open.
  function Statuses(s: Mm, p: int, status: int): nat
    requires Sized(s)
  {
    Deliveries(s.log, p, status) + Bit(Zombie(s, p, status))
  }

  function Requests(s: Mm, p: int): nat
    requires Sized(s)
  {
    Answers(s.log, p) + Bit(Is(s, p, WAITING))
  }

  predicate SameCounts(s: Mm, s': Mm, q: int, status: int)
    requires Sized(s) && Sized(s')
  {
    Requests(s', q) == Requests(s, q) && Statuses(s', q, status) == Statuses(s, q, status)
  }

  // ---------------------------------------------------- what each step does

  lemma CleanRequests(s: Mm, p: int, q: int)
    requires Sized(s) && IsPid(p) && WAITING !in s.table[p].flags
    ensures Requests(Clean(s, p), q) == Requests(s, q) + Bit(q == s.table[p].parent)
  {
    Appended(s.log, Status(s.table[p].parent, p, s.table[p].status), q, 0);
  }

  lemma CleanStatuses(s: Mm, p: int, q: int, status: int)
    requires Sized(s) && IsPid(p)
    ensures Statuses(Clean(s, p), q, status)
         == Statuses(s, q, status) + Bit(q == p && HANGING !in s.table[p].flags && status == s.table[p].status)
  {
    Appended(s.log, Status(s.table[p].parent, p, s.table[p].status), q, status);
  }

  // A waiting parent is told: its request is answered.
  lemma DeliverCounts(s: Mm, p: int, q: int, status: int)
    requires Sized(s) && IsPid(p) && IsPid(s.table[p].parent) && s.table[p].parent != p
    requires WAITING !in s.table[p].flags && s.table[s.table[p].parent].flags == {WAITING}
    ensures Requests(Deliver(s, p), q) == Requests(s, q)
    ensures Statuses(Deliver(s, p), q, status)
         == Statuses(s, q, status) + Bit(q == p && HANGING !in s.table[p].flags && status == s.table[p].status)
  {
    var parent := s.table[p].parent;
    var s1 := SetFlags(s, parent, s.table[parent].flags - {WAITING});
    CleanRequests(s1, p, q);
    CleanStatuses(s1, p, q, status);
  }

  lemma LeaveCounts(s: Mm, p: int, st: int, q: int, status: int)
    requires Inv(s) && IsSlot(p) && s.table[p].flags == {}
    ensures Requests(Leave(s, p, st), q) == Requests(s, q)
    ensures Statuses(Leave(s, p, st), q, status) == Statuses(s, q, status) + Bit(q == p && status == st)
  {
    if WAITING in s.table[s.table[p].parent].flags {
      DeliverCounts(s.(table := s.table[p := s.table[p].(status := st)]), p, q, status);
    }
  }

  lemma AdoptCounts(s: Mm, gone: int, i: int, q: int, status: int)
    requires Safe(s, gone, i) && IsSlot(i) && IsPid(gone)
    ensures SameCounts(s, Adopt(s, gone, i), q, status)
  {
    var s1 := s.(table := s.table[i := s.table[i].(parent := PROC_INIT)]);
    if HANGING in s1.table[i].flags && WAITING in s1.table[PROC_INIT].flags { DeliverCounts(s1, i, q, status); }
  }

  lemma {:induction false} AdoptFromCounts(s: Mm, gone: int, i: int, q: int, status: int)
    requires Safe(s, gone, i) && FIRST_FORKED <= i <= NR_ALL && IsPid(gone) && gone != PROC_INIT && !Alive(s, gone)
    ensures SameCounts(s, AdoptFrom(s, gone, i), q, status)
    decreases NR_ALL - i
  {
    if i < NR_ALL {
      AdoptKeeps(s, gone, i);
      AdoptCounts(s, gone, i, q, status);
      AdoptFromCounts(Adopt(s, gone, i), gone, i + 1, q, status);
    }
  }

  // An exit adds its status to those to be delivered, and answers nobody who
  // did not wait.
  lemma ExitCounts(s: Mm, p: int, st: int, q: int, status: int)
    requires Inv(s) && IsSlot(p) && s.table[p].flags == {}
    ensures Requests(Exit(s, p, st), q) == Requests(s, q)
    ensures Statuses(Exit(s, p, st), q, status) == Statuses(s, q, status) + Bit(q == p && status == st)
  {
    LeaveKeeps(s, p, st);
    LeaveCounts(s, p, st, q, status);
    AdoptFromCounts(Leave(s, p, st), p, FIRST_FORKED, q, status);
  }

  // A wait is one more request, answered at once or open.
  lemma WaitCounts(s: Mm, p: int, q: int, status: int)
    requires Inv(s) && IsPid(p) && s.table[p].flags == {}
    ensures Requests(Wait(s, p), q) == Requests(s, q) + Bit(q == p)
    ensures Statuses(Wait(s, p), q, status) == Statuses(s, q, status)
  {
    var z := FirstZombie(s, p, FIRST_FORKED);
    if z < NR_ALL {
      CleanRequests(s, z, q);
      CleanStatuses(s, z, q, status);
    } else if !HasSlot(s, p) {
      Appended(s.log, NoChild(p), q, status);
    }
  }

  lemma ForkCounts(s: Mm, p: int, q: int, status: int)
    requires Inv(s) && IsPid(p) && s.table[p].flags == {}
    ensures SameCounts(s, Fork(s, p), q, status)
  {
  }

  // --------------------------------------------------------------- all runs

  datatype Event = ForkBy(p: int) | ExitBy(p: int, status: int) | WaitBy(p: int)

  // A process that runs makes the call; only forked processes exit.
  predicate Legal(s: Mm, e: Event)
    requires Sized(s)
  {
    IsPid(e.p) && s.table[e.p].flags == {} && (e.ExitBy? ==> IsSlot(e.p))
  }

  function Next(s: Mm, e: Event): (s': Mm)
    requires Sized(s)
    ensures Sized(s')
  {
    if !Legal(s, e) then s
    else match e
      case ForkBy(p) => Fork(s, p)
      case ExitBy(p, status) => if IsPid(s.table[p].parent) then Exit(s, p, status) else s
      case WaitBy(p) => Wait(s, p)
  }

  function Run(s: Mm, events: seq<Event>): (s': Mm)
    requires Sized(s)
    ensures Sized(s')
  {
    if events == [] then s else Next(Run(s, events[..|events| - 1]), events[|events| - 1])
  }

  // How often p exited with this status, and how often it waited.
  function Exits(s: Mm, events: seq<Event>, p: int, status: int): nat
    requires Sized(s)
  {
    if events == [] then 0
    else
      var front, e := events[..|events| - 1], events[|events| - 1];
      Exits(s, front, p, status) + Bit(Legal(Run(s, front), e) && e == ExitBy(p, status))
  }

  function Waits(s: Mm, events: seq<Event>, p: int): nat
    requires Sized(s)
  {
    if events == [] then 0
    else
      var front, e := events[..|events| - 1], events[|events| - 1];
      Waits(s, front, p) + Bit(Legal(Run(s, front), e) && e == WaitBy(p))
  }

  // The table at the start: no process has a parent, the slots are free
  // (kernel/main.c:90-96).
  function Boot(): (s: Mm)
    ensures Sized(s)
  {
    Mm(seq(NR_ALL, p => if p < FIRST_FORKED then Proc({}, NO_TASK, 0) else Proc({FREE_SLOT}, 0, 0)), [])
  }

  lemma BootInv()
    ensures Inv(Boot())
  {
  }

  lemma NextKeeps(s: Mm, e: Event)
    requires Inv(s)
    ensures Inv(Next(s, e))
  {
    if Legal(s, e) {
      match e
      case ForkBy(p) => ForkKeeps(s, p);
      case ExitBy(p, status) => ExitKeeps(s, p, status);
      case WaitBy(p) => WaitKeeps(s, p);
    }
  }

  lemma {:induction false} RunKeeps(s: Mm, events: seq<Event>)
    requires Inv(s)
    ensures Inv(Run(s, events))
    decreases |events|
  {
    if events != [] {
      RunKeeps(s, events[..|events| - 1]);
      NextKeeps(Run(s, events[..|events| - 1]), events[|events| - 1]);
    }
  }

  lemma NextCounts(s: Mm, e: Event, q: int, status: int)
    requires Inv(s)
    ensures Statuses(Next(s, e), q, status) == Statuses(s, q, status) + Bit(Legal(s, e) && e == ExitBy(q, status))
    ensures Requests(Next(s, e), q) == Requests(s, q) + Bit(Legal(s, e) && e == WaitBy(q))
  {
    if Legal(s, e) {
      match e
      case ForkBy(p) => ForkCounts(s, p, q, status);
      case ExitBy(p, st) => ExitCounts(s, p, st, q, status);
      case WaitBy(p) => WaitCounts(s, p, q, status);
    }
  }

  // In every state that fork, exit and wait lead to, nobody waits for a child
  // that is a zombie and the parent of every slot is alive; the times a status
  // was left by exit are the times it was delivered, plus one while a zombie
  // holds it; the times a process waited are the replies it got, plus one
  // while it still waits.
  lemma {:induction false} NoStatusIsLost(events: seq<Event>, p: int, status: int)
    ensures
      var s := Run(Boot(), events);
      && Inv(s)
      && Exits(Boot(), events, p, status) == Deliveries(s.log, p, status) + Bit(Zombie(s, p, status))
      && Waits(Boot(), events, p) == Answers(s.log, p) + Bit(Is(s, p, WAITING))
    decreases |events|
  {
    if events == [] {
      BootInv();
    } else {
      var front, e := events[..|events| - 1], events[|events| - 1];
      NoStatusIsLost(front, p, status);
      NextKeeps(Run(Boot(), front), e);
      NextCounts(Run(Boot(), front), e, p, status);
    }
  }

  // ------------------------------------------------------- who is told what

  function ToInit(s: Mm, z: int): seq<Reply>
    requires Sized(s) && 0 <= z
  {
    if z < NR_ALL && Is(s, PROC_INIT, WAITING) then [Status(PROC_INIT, z, s.table[z].status)] else []
  }

  lemma {:induction false} OrphansMove(s: Mm, gone: int, i: int)
    requires Sized(s) && FIRST_FORKED <= i <= NR_ALL && gone != PROC_INIT
    ensures
      var s' := AdoptFrom(s, gone, i);
      forall j :: FIRST_FORKED <= j < NR_ALL ==>
        s'.table[j].parent == if j >= i && s.table[j].parent == gone then PROC_INIT else s.table[j].parent
    decreases NR_ALL - i
  {
    if i < NR_ALL { OrphansMove(Adopt(s, gone, i), gone, i + 1); }
  }

  // The first zombie among the slots of gone from i on goes to Init if it
  // waits, and nothing else is sent.
  lemma {:induction false} OrphansTold(s: Mm, gone: int, i: int)
    requires Safe(s, gone, i) && FIRST_FORKED <= i <= NR_ALL && IsPid(gone) && gone != PROC_INIT && !Alive(s, gone)
    ensures AdoptFrom(s, gone, i).log == s.log + ToInit(s, FirstZombie(s, gone, i))
    decreases NR_ALL - i
  {
    if i < NR_ALL {
      AdoptKeeps(s, gone, i);
      OrphansTold(Adopt(s, gone, i), gone, i + 1);
      AdoptTells(s, gone, i);
    } else {
      assert ToInit(s, FirstZombie(s, gone, i)) == [];
    }
  }

  // What slot i and those behind it send.
  lemma AdoptTells(s: Mm, gone: int, i: int)
    requires Safe(s, gone, i) && IsSlot(i)
    ensures
      var t := Adopt(s, gone, i);
      t.log + ToInit(t, FirstZombie(t, gone, i + 1)) == s.log + ToInit(s, FirstZombie(s, gone, i))
  {
    var t := Adopt(s, gone, i);
    AdoptFrame(s, gone, i);
    SameZombie(s, t, gone, i + 1);
    if FirstZombie(s, gone, i) == i {
      assert ToInit(t, FirstZombie(t, gone, i + 1)) == [];
    } else {
      var z := FirstZombie(t, gone, i + 1);
      assert z == FirstZombie(s, gone, i) && ToInit(t, z) == ToInit(s, z);
    }
  }

  lemma AdoptFrame(s: Mm, gone: int, i: int)
    requires Safe(s, gone, i) && IsSlot(i)
    ensures
      var t := Adopt(s, gone, i);
      && (forall j :: i < j < NR_ALL ==> t.table[j] == s.table[j])
      && t.table[i].parent == (if s.table[i].parent == gone then PROC_INIT else s.table[i].parent)
      && var told := FirstZombie(s, gone, i) == i && Is(s, PROC_INIT, WAITING);
         && Is(t, PROC_INIT, WAITING) == (Is(s, PROC_INIT, WAITING) && !told)
         && t.log == s.log + if told then ToInit(s, i) else []
  {
  }

  lemma {:induction false} SameZombie(s: Mm, t: Mm, parent: int, i: int)
    requires Sized(s) && Sized(t) && FIRST_FORKED <= i <= NR_ALL
    requires forall j :: i <= j < NR_ALL ==> t.table[j] == s.table[j]
    ensures FirstZombie(t, parent, i) == FirstZombie(s, parent, i)
    decreases NR_ALL - i
  {
    if i < NR_ALL { SameZombie(s, t, parent, i + 1); }
  }

  // The parent of p, at the time it exits, gets the status at once if it
  // waits; then Init gets that of the first zombie p leaves, if Init waits.
  lemma ExitTells(s: Mm, p: int, status: int)
    requires Inv(s) && IsSlot(p) && s.table[p].flags == {}
    ensures
      var s1, s' := Leave(s, p, status), Exit(s, p, status);
      var own := if Is(s, s.table[p].parent, WAITING) then [Status(s.table[p].parent, p, status)] else [];
      var z := FirstZombie(s1, p, FIRST_FORKED);
      && s'.log == s.log + own + ToInit(s1, z)
      && forall j :: FIRST_FORKED <= j < NR_ALL ==>
           s'.table[j].parent == if s.table[j].parent == p then PROC_INIT else s.table[j].parent
  {
    LeaveKeeps(s, p, status);
    OrphansTold(Leave(s, p, status), p, FIRST_FORKED);
    OrphansMove(Leave(s, p, status), p, FIRST_FORKED);
  }

  // A wait with a zombie among the children takes the first of them: its status
  // goes to the process that waits, and its slot is free.
  lemma WaitTells(s: Mm, p: int)
    requires Inv(s) && IsPid(p) && s.table[p].flags == {}
    ensures
      var s', z := Wait(s, p), FirstZombie(s, p, FIRST_FORKED);
      if exists i :: FIRST_FORKED <= i < NR_ALL && s.table[i].parent == p && HANGING in s.table[i].flags then
        && z < NR_ALL && s'.log == s.log + [Status(p, z, s.table[z].status)]
        && Zombie(s, z, s.table[z].status) && s'.table == s.table[z := s.table[z].(flags := {FREE_SLOT})]
      else if HasSlot(s, p) then s'.log == s.log && s'.table == s.table[p := s.table[p].(flags := {WAITING})]
      else s'.log == s.log + [NoChild(p)] && s'.table == s.table
  {
    assert s.table[p].flags + {WAITING} == {WAITING};
  }

  // Fork gives the first free slot to a child of the caller that runs like it,
  // and changes nothing else; it fails exactly if no slot is free.
  lemma ForkMakesAChild(s: Mm, p: int)
    requires Inv(s) && IsPid(p) && s.table[p].flags == {}
    ensures
      var s', k := Fork(s, p), FirstFree(s, 0);
      if exists i :: FIRST_FORKED <= i < NR_ALL && s.table[i].flags == {FREE_SLOT} then
        && IsSlot(k) && !Child(s, k, p) && Child(s', k, p) && s'.table[k].flags == {} && s'.log == s.log
        && forall j :: 0 <= j < NR_ALL && j != k ==> s'.table[j] == s.table[j]
      else s' == s
  {
    ForkKeeps(s, p);
  }

  // ------------------------------------------------------------ idle waiting

  predicate Child(s: Mm, i: int, p: int)
    requires Sized(s)
  {
    FIRST_FORKED <= i < NR_ALL && s.table[i].parent == p && FREE_SLOT !in s.table[i].flags
  }

  predicate Childless(s: Mm, p: int)
    requires Sized(s)
  {
    forall i :: FIRST_FORKED <= i < NR_ALL ==> !Child(s, i, p)
  }

  // wait answers -1 to a process without children, except when a slot that was
  // its child's still names it: then it blocks.
  lemma WaitWithoutChildren(s: Mm, p: int)
    requires Inv(s) && IsPid(p) && s.table[p].flags == {} && Childless(s, p)
    ensures Wait(s, p).log == s.log + [NoChild(p)] <==> !HasSlot(s, p)
    ensures Is(Wait(s, p), p, WAITING) <==> HasSlot(s, p)
  {
    var z := FirstZombie(s, p, FIRST_FORKED);
    assert z < NR_ALL ==> Child(s, z, p);
  }

  predicate Stuck(s: Mm, p: int)
    requires Sized(s)
  {
    Is(s, p, WAITING) && Childless(s, p)
  }

  lemma {:induction false} AdoptFromStuck(s: Mm, gone: int, i: int, p: int)
    requires Safe(s, gone, i) && FIRST_FORKED <= i <= NR_ALL && IsPid(gone) && gone != PROC_INIT && !Alive(s, gone)
    requires Stuck(s, p) && p != PROC_INIT
    ensures Stuck(AdoptFrom(s, gone, i), p)
    decreases NR_ALL - i
  {
    if i < NR_ALL {
      AdoptKeeps(s, gone, i);
      AdoptStuck(s, gone, i, p);
      AdoptFromStuck(Adopt(s, gone, i), gone, i + 1, p);
    }
  }

  lemma AdoptStuck(s: Mm, gone: int, i: int, p: int)
    requires Safe(s, gone, i) && IsSlot(i) && Stuck(s, p) && p != PROC_INIT
    ensures Stuck(Adopt(s, gone, i), p)
  {
    assert !Child(s, i, p);
    forall j | FIRST_FORKED <= j < NR_ALL ensures !Child(Adopt(s, gone, i), j, p) { assert !Child(s, j, p); }
  }

  lemma LeaveStuck(s: Mm, gone: int, status: int, p: int)
    requires Inv(s) && IsSlot(gone) && s.table[gone].flags == {} && Stuck(s, p)
    ensures Stuck(Leave(s, gone, status), p)
  {
    assert !Child(s, gone, p);
    forall j | FIRST_FORKED <= j < NR_ALL ensures !Child(Leave(s, gone, status), j, p) { assert !Child(s, j, p); }
  }

  lemma ForkStuck(s: Mm, q: int, p: int)
    requires Inv(s) && IsPid(q) && s.table[q].flags == {} && Stuck(s, p)
    ensures Stuck(Fork(s, q), p)
  {
    forall j | FIRST_FORKED <= j < NR_ALL ensures !Child(Fork(s, q), j, p) { assert !Child(s, j, p); }
  }

  lemma WaitStuck(s: Mm, q: int, p: int)
    requires Inv(s) && IsPid(q) && s.table[q].flags == {} && Stuck(s, p)
    ensures Stuck(Wait(s, q), p)
  {
    forall j | FIRST_FORKED <= j < NR_ALL ensures !Child(Wait(s, q), j, p) { assert !Child(s, j, p); }
  }

  lemma NextStuck(s: Mm, e: Event, p: int)
    requires Inv(s) && Stuck(s, p) && p != PROC_INIT
    ensures Stuck(Next(s, e), p)
  {
    if Legal(s, e) {
      match e
      case ExitBy(q, status) =>
        LeaveKeeps(s, q, status);
        LeaveStuck(s, q, status, p);
        AdoptFromStuck(Leave(s, q, status), q, FIRST_FORKED, p);
      case ForkBy(q) => ForkStuck(s, q, p);
      case WaitBy(q) => WaitStuck(s, q, p);
    }
  }

  // A process other than Init that waits without children waits for ever: no
  // run lets it go on.
  lemma {:induction false} StuckForGood(s: Mm, events: seq<Event>, p: int)
    requires Inv(s) && Stuck(s, p) && p != PROC_INIT
    ensures Inv(Run(s, events)) && Stuck(Run(s, events), p)
    decreases |events|
  {
    if events != [] {
      var front, e := events[..|events| - 1], events[|events| - 1];
      StuckForGood(s, front, p);
      NextKeeps(Run(s, front), e);
      NextStuck(Run(s, front), e, p);
    }
  }

  lemma {:induction false} NothingToAdopt(s: Mm, gone: int, i: int)
    requires Sized(s) && FIRST_FORKED <= i <= NR_ALL && forall j :: i <= j < NR_ALL ==> s.table[j].parent != gone
    ensures AdoptFrom(s, gone, i) == s
    decreases NR_ALL - i
  {
    if i < NR_ALL { NothingToAdopt(s, gone, i + 1); }
  }

  // ------------------------------------------------------ one wait too many

  predicate Runs(s: Mm, p: int)
    requires Sized(s)
  {
    IsPid(p) && s.table[p].flags == {}
  }

  // Process p runs, had children, and those that it still has are zombies.
  predicate OnlyZombies(s: Mm, p: int)
    requires Sized(s)
  {
    && Runs(s, p) && HasSlot(s, p)
    && forall i :: FIRST_FORKED <= i < NR_ALL && Child(s, i, p) ==> HANGING in s.table[i].flags
  }

  function Kids(s: Mm, p: int): set<int>
    requires Sized(s)
  {
    set i | FIRST_FORKED <= i < NR_ALL && Child(s, i, p)
  }

  function WaitsBy(p: int, n: nat): seq<Event> { seq(n, i => WaitBy(p)) }

  lemma OneWait(s: Mm, p: int)
    requires Inv(s) && OnlyZombies(s, p) && Kids(s, p) != {}
    ensures
      var s' := Wait(s, p);
      && Inv(s') && OnlyZombies(s', p) && |Kids(s', p)| == |Kids(s, p)| - 1
      && Answers(s'.log, p) == Answers(s.log, p) + 1
  {
    var z, s' := FirstZombie(s, p, FIRST_FORKED), Wait(s, p);
    var k :| k in Kids(s, p);
    assert Child(s, k, p) && z < NR_ALL;
    WaitKeeps(s, p);
    assert s' == Clean(s, z);
    OneKidLess(s, s', p, z);
    Appended(s.log, Status(p, z, s.table[z].status), p, 0);
  }

  lemma OneKidLess(s: Mm, s': Mm, p: int, z: int)
    requires Sized(s) && Sized(s') && OnlyZombies(s, p) && Child(s, z, p) && HANGING in s.table[z].flags
    requires s'.table == s.table[z := s.table[z].(flags := {FREE_SLOT})]
    ensures OnlyZombies(s', p) && |Kids(s', p)| == |Kids(s, p)| - 1
  {
    assert s'.table[z].parent == p;
    forall i | FIRST_FORKED <= i < NR_ALL && Child(s', i, p) ensures HANGING in s'.table[i].flags {
      assert Child(s, i, p);
    }
    assert Kids(s', p) == Kids(s, p) - {z};
  }

  lemma {:induction false} ManyWaits(s: Mm, p: int, k: nat)
    requires Inv(s) && OnlyZombies(s, p) && k <= |Kids(s, p)|
    ensures
      var s' := Run(s, WaitsBy(p, k));
      && Inv(s') && OnlyZombies(s', p) && |Kids(s', p)| == |Kids(s, p)| - k
      && Answers(s'.log, p) == Answers(s.log, p) + k
    decreases k
  {
    if k > 0 {
      ManyWaits(s, p, k - 1);
      assert WaitsBy(p, k)[..k - 1] == WaitsBy(p, k - 1);
      OneWait(Run(s, WaitsBy(p, k - 1)), p);
    }
  }

  ghost predicate NeverAnswered(s: Mm, p: int)
    requires Sized(s)
  {
    forall events :: Stuck(Run(s, events), p)
  }

  // In any state: once all its children have exited, as many waits as there are
  // children are answered, and one more is never answered, whatever follows.
  lemma OneWaitTooMany(s: Mm, p: int)
    requires Inv(s) && OnlyZombies(s, p) && p != PROC_INIT
    ensures
      var n := |Kids(s, p)|;
      && Answers(Run(s, WaitsBy(p, n)).log, p) == Answers(s.log, p) + n
      && NeverAnswered(Run(s, WaitsBy(p, n + 1)), p)
  {
    var n := |Kids(s, p)|;
    var s1, s2 := Run(s, WaitsBy(p, n)), Run(s, WaitsBy(p, n + 1));
    ManyWaits(s, p, n);
    assert WaitsBy(p, n + 1)[..n] == WaitsBy(p, n);
    assert s2 == Wait(s1, p);
    WaitKeeps(s1, p);
    LastWait(s1, p);
    forall events ensures Stuck(Run(s2, events), p) { StuckForGood(s2, events, p); }
  }

  lemma LastWait(s: Mm, p: int)
    requires Inv(s) && OnlyZombies(s, p) && Kids(s, p) == {}
    ensures Stuck(Wait(s, p), p)
  {
    forall i | FIRST_FORKED <= i < NR_ALL ensures !Child(s, i, p) { assert i !in Kids(s, p); }
    WaitWithoutChildren(s, p);
  }

  // ------------------------------------------------ the way there from the start

  function ForksBy(p: int, n: nat): seq<Event> { seq(n, i => ForkBy(p)) }

  // The processes of the first n slots exit, in order.
  function ExitsOf(n: nat): seq<Event> { seq(n, i => ExitBy(FIRST_FORKED + i, 0)) }

  // The table at the start but for a children of p, of whom b have exited.
  function Family(p: int, a: nat, b: nat): seq<Proc> {
    seq(NR_ALL, i =>
      if i < FIRST_FORKED then Proc({}, NO_TASK, 0)
      else if i < FIRST_FORKED + b then Proc({HANGING}, p, 0)
      else if i < FIRST_FORKED + a then Proc({}, p, 0)
      else Proc({FREE_SLOT}, 0, 0))
  }

  lemma FreeInFamily(s: Mm, p: int, n: nat)
    requires 0 <= p < FIRST_FORKED && n < NR_ALL - FIRST_FORKED && s.table == Family(p, n, 0)
    ensures FirstFree(s, 0) == FIRST_FORKED + n
  {
    assert s.table[FIRST_FORKED + n].flags == {FREE_SLOT};
    assert forall j :: 0 <= j < FIRST_FORKED + n ==> s.table[j].flags == {};
  }

  lemma ForkInFamily(s: Mm, p: int, n: nat)
    requires 0 <= p < FIRST_FORKED && n < NR_ALL - FIRST_FORKED && s.table == Family(p, n, 0)
    ensures Next(s, ForkBy(p)).table == Family(p, n + 1, 0)
  {
    var t, q := Next(s, ForkBy(p)).table, FIRST_FORKED + n;
    FreeInFamily(s, p, n);
    assert t == s.table[q := s.table[p].(parent := p)];
    forall i | 0 <= i < NR_ALL ensures t[i] == Family(p, n + 1, 0)[i] {}
  }

  lemma {:induction false} ForksMakeFamily(p: int, n: nat)
    requires 0 <= p < FIRST_FORKED && n <= NR_ALL - FIRST_FORKED
    ensures Run(Boot(), ForksBy(p, n)).table == Family(p, n, 0)
    decreases n
  {
    if n > 0 {
      ForksMakeFamily(p, n - 1);
      assert ForksBy(p, n)[..n - 1] == ForksBy(p, n - 1);
      ForkInFamily(Run(Boot(), ForksBy(p, n - 1)), p, n - 1);
    }
  }

  lemma ExitInFamily(s: Mm, p: int, n: nat, b: nat)
    requires 0 <= p < FIRST_FORKED && b < n <= NR_ALL - FIRST_FORKED && s.table == Family(p, n, b)
    ensures Next(s, ExitBy(FIRST_FORKED + b, 0)).table == Family(p, n, b + 1)
  {
    var q := FIRST_FORKED + b;
    var s1 := Leave(s, q, 0);
    assert {} + {HANGING} == {HANGING};
    assert s1.table == Family(p, n, b + 1);
    NothingToAdopt(s1, q, FIRST_FORKED);
  }

  lemma {:induction false} ExitsInFamily(s: Mm, p: int, n: nat, b: nat)
    requires 0 <= p < FIRST_FORKED && b <= n <= NR_ALL - FIRST_FORKED && s.table == Family(p, n, 0)
    ensures Run(s, ExitsOf(b)).table == Family(p, n, b)
    decreases b
  {
    if b > 0 {
      ExitsInFamily(s, p, n, b - 1);
      assert ExitsOf(b)[..b - 1] == ExitsOf(b - 1);
      ExitInFamily(Run(s, ExitsOf(b - 1)), p, n, b - 1);
    }
  }

  // From the start, any native process gets there with any number of children:
  // after n forks, n exits and n waits the next wait is one too many.
  lemma AnyNumberOfChildren(p: int, n: nat)
    requires 0 <= p < FIRST_FORKED && 0 < n <= NR_ALL - FIRST_FORKED
    ensures
      var s := Run(Run(Boot(), ForksBy(p, n)), ExitsOf(n));
      Inv(s) && OnlyZombies(s, p) && |Kids(s, p)| == n
  {
    var s1 := Run(Boot(), ForksBy(p, n));
    var s := Run(s1, ExitsOf(n));
    ForksMakeFamily(p, n);
    ExitsInFamily(s1, p, n, n);
    BootInv();
    RunKeeps(Boot(), ForksBy(p, n));
    RunKeeps(s1, ExitsOf(n));
    assert s.table[FIRST_FORKED].parent == p;
    KidsOfFamily(s, p, n);
  }

  lemma KidsOfFamily(s: Mm, p: int, n: nat)
    requires Sized(s) && 0 <= p < FIRST_FORKED && n <= NR_ALL - FIRST_FORKED && s.table == Family(p, n, n)
    ensures |Kids(s, p)| == n
  {
    var kids := FirstSlots(n);
    assert Kids(s, p) == kids;
  }

  lemma {:induction false} FirstSlots(n: nat) returns (s: set<int>)
    ensures |s| == n && forall i :: i in s <==> FIRST_FORKED <= i < FIRST_FORKED + n
  {
    if n == 0 {
      s := {};
    } else {
      var t := FirstSlots(n - 1);
      s := t + {FIRST_FORKED + n - 1};
    }
  }

  // -------------------------------------------------------- who gets a status

  // Who forked the process in slot i, or Init after that one has exited; 0 for
  // a slot that was never used.
  function ParentOf(events: seq<Event>, i: int): int {
    if events == [] then 0
    else
      var front, e := events[..|events| - 1], events[|events| - 1];
      var s, parent := Run(Boot(), front), ParentOf(front, i);
      if !Legal(s, e) then parent
      else match e
        case ForkBy(p) => if i == FirstFree(s, 0) then p else parent
        case ExitBy(p, status) => if parent == p then PROC_INIT else parent
        case WaitBy(p) => parent
  }

  lemma NextParent(s: Mm, e: Event, i: int)
    requires Inv(s) && IsSlot(i)
    ensures
      var parent := s.table[i].parent;
      Next(s, e).table[i].parent
      == if Legal(s, e) && e.ForkBy? && i == FirstFree(s, 0) then e.p
         else if Legal(s, e) && e.ExitBy? && parent == e.p then PROC_INIT
         else parent
  {
    if Legal(s, e) && e.ExitBy? { ExitTells(s, e.p, e.status); }
  }

  lemma {:induction false} ParentsAreKnown(events: seq<Event>, i: int)
    requires IsSlot(i)
    ensures Run(Boot(), events).table[i].parent == ParentOf(events, i)
    decreases |events|
  {
    if events != [] {
      var front, e := events[..|events| - 1], events[|events| - 1];
      ParentsAreKnown(front, i);
      BootInv();
      RunKeeps(Boot(), front);
      NextParent(Run(Boot(), front), e, i);
    }
  }

  // A reply that the last of these events caused: a status goes to the parent
  // that the child has then.
  predicate ReplyOk(r: Reply, events: seq<Event>)
    requires events != []
  {
    match r
    case Status(to, pid, status) => IsSlot(pid) && to == ParentOf(events, pid)
    case NoChild(to) => events[|events| - 1] == WaitBy(to)
  }

  // The same for what one event adds to the log, by the table it leaves.
  predicate NewReplyOk(r: Reply, e: Event, s': Mm)
    requires Sized(s')
  {
    match r
    case Status(to, pid, status) => IsSlot(pid) && to == s'.table[pid].parent
    case NoChild(to) => e == WaitBy(to)
  }

  lemma ExitReplies(s: Mm, p: int, status: int, j: nat)
    requires Inv(s) && IsSlot(p) && s.table[p].flags == {}
    requires s.log <= Exit(s, p, status).log && |s.log| <= j < |Exit(s, p, status).log|
    ensures NewReplyOk(Exit(s, p, status).log[j], ExitBy(p, status), Exit(s, p, status))
  {
    var s1 := Leave(s, p, status);
    ExitTells(s, p, status);
    assert forall i :: FIRST_FORKED <= i < NR_ALL ==> s1.table[i].parent == s.table[i].parent;
  }

  lemma NewReplies(s: Mm, e: Event, j: nat)
    requires Inv(s) && |s.log| <= j < |Next(s, e).log|
    ensures NewReplyOk(Next(s, e).log[j], e, Next(s, e))
  {
    match e
    case ExitBy(p, status) =>
      ExitTells(s, p, status);
      ExitReplies(s, p, status, j);
    case WaitBy(p) => WaitTells(s, p);
    case ForkBy(p) =>
  }

  lemma LogGrows(s: Mm, e: Event)
    requires Inv(s)
    ensures s.log <= Next(s, e).log
  {
    if Legal(s, e) && e.ExitBy? { ExitTells(s, e.p, e.status); }
  }

  lemma RunOneMore(s: Mm, front: seq<Event>, e: Event)
    requires Sized(s)
    ensures Run(s, front + [e]) == Next(Run(s, front), e)
  {
    assert (front + [e])[..|front|] == front;
  }

  // Over any run: whenever a status is sent, it goes to the process that forked
  // the child, or to Init if that one has exited; and only who waits is told
  // that it has no child.
  lemma StatusGoesToParent(front: seq<Event>, e: Event, j: nat)
    ensures
      var s, s' := Run(Boot(), front), Run(Boot(), front + [e]);
      s.log <= s'.log && (|s.log| <= j < |s'.log| ==> ReplyOk(s'.log[j], front + [e]))
  {
    var s, events := Run(Boot(), front), front + [e];
    RunOneMore(Boot(), front, e);
    BootInv();
    RunKeeps(Boot(), front);
    LogGrows(s, e);
    if |s.log| <= j < |Next(s, e).log| {
      NewReplies(s, e, j);
      var r := Next(s, e).log[j];
      if r.Status? { ParentsAreKnown(events, r.pid); }
    }
  }
}
