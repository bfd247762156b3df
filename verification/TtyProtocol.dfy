// Terminals: the processes, the file system and the terminal task exchange
// DEV_READ, DEV_OPEN, DEV_WRITE, SUSPEND_PROC, RESUME_PROC and SYSCALL_RET by
// rendezvous (fs/fs.c:287-325, fs/open.c:214-222, fs/read_write.c:41-51,
// kernel/tty.c:72-80, 100-163).
module TtyProtocol {
  import opened Constants
  import IpcSpec

  // What a process asks of the file system: of terminal t, or of a file.  Empty
  // is a read of no characters.
  datatype Request = Read(t: int) | Empty(t: int) | Open(t: int) | Write(t: int) | OnFile

  // The file system waits for anybody; has taken the request of p; waits until
  // the terminal task takes it; waits for the answer; sends SYSCALL_RET to p.
  datatype FsState =
    | FsIdle
    | FsBusy(p: int, r: Request)
    | FsAsking(p: int, r: Request)
    | FsAwaiting(p: int, r: Request)
    | FsReplying(p: int)

  // The terminal task empties its buffers; waits for anybody; sends
  // SUSPEND_PROC, RESUME_PROC, or its answer to an open or a write.
  datatype TtyState =
    | TtyWorking
    | TtyIdle
    | TtySuspending(p: int, t: int)
    | TtyResuming(p: int, t: int)
    | TtyAnswering(p: int)

  // calling: the processes inside a call, with their request; queue: those
  // whose request the file system has not taken; recorded: tty_procnr of the
  // terminals with tty_left_cnt > 0; asked and rets: the calls that were made
  // and the SYSCALL_RETs that were received.  Halted: the kernel has found a
  // deadlock and stopped.
  datatype Sys =
    | Halted
    | Sys(calling: map<int, Request>, queue: set<int>, fs: FsState, tty: TtyState, recorded: map<int, int>,
          asked: seq<int>, rets: seq<int>)

  datatype Event =
    | Ask(p: int, r: Request)
    | FsTakes(p: int)
    | FsGoesOn
    | TtyReceives
    | Key
    | LineDone(t: int)
    | FsReceives
    | FsReplies

  // The terminal task takes a request.  A DEV_READ overwrites the process that
  // was recorded for its terminal (kernel/tty.c:100-110); with no characters to
  // wait for, nobody is resumed.
  function Take(s: Sys, p: int, r: Request): Sys
    requires s.Sys?
  {
    match r
    case Read(t) => s.(fs := FsAwaiting(p, r), tty := TtySuspending(p, t), recorded := s.recorded[t := p])
    case Empty(t) => s.(fs := FsAwaiting(p, r), tty := TtySuspending(p, t), recorded := s.recorded - {t})
    case _ => s.(fs := FsAwaiting(p, r), tty := TtyAnswering(p))
  }

  // The file system serves the request of p, or sends it to the terminal task.
  function Serve(s: Sys, p: int, r: Request): Sys
    requires s.Sys?
  {
    if r.OnFile? then s.(fs := FsReplying(p))
    else match s.tty
      case TtyIdle => Take(s, p, r)
      case TtyWorking => s.(fs := FsAsking(p, r))
      case _ => Halted
  }

  // A message of the terminal task arrives at the file system.  In the middle
  // of a call it passes for the answer, whatever it is.
  function Receive(s: Sys): Sys
    requires s.Sys?
  {
    match (s.fs, s.tty)
    case (FsIdle, TtyResuming(p, t)) => s.(fs := FsReplying(p), tty := TtyWorking, recorded := s.recorded - {t})
    case (FsAwaiting(q, r), TtySuspending(p, t)) => s.(fs := FsIdle, tty := TtyWorking)
    case (FsAwaiting(q, r), TtyAnswering(p)) => s.(fs := FsReplying(q), tty := TtyWorking)
    case (FsAwaiting(q, r), TtyResuming(p, t)) =>
      s.(fs := FsReplying(q), tty := TtyWorking, recorded := s.recorded - {t})
    case _ => s
  }

  function Next(s: Sys, e: Event): Sys {
    if s.Halted? then s
    else match e
      case Ask(p, r) =>
        if p in s.calling then s
        else s.(calling := s.calling[p := r], queue := s.queue + {p}, asked := s.asked + [p])
      case FsTakes(p) =>
        if s.fs == FsIdle && p in s.queue && p in s.calling
        then s.(queue := s.queue - {p}, fs := FsBusy(p, s.calling[p])) else s
      case FsGoesOn => if s.fs.FsBusy? then Serve(s, s.fs.p, s.fs.r) else s
      case TtyReceives =>
        if s.tty != TtyWorking then s
        else if s.fs.FsAsking? then Take(s, s.fs.p, s.fs.r) else s.(tty := TtyIdle)
      case Key => if s.tty == TtyIdle then s.(tty := TtyWorking) else s
      case LineDone(t) =>
        if s.tty != TtyWorking || t !in s.recorded then s
        else if s.fs.FsAsking? then Halted else s.(tty := TtyResuming(s.recorded[t], t))
      case FsReceives => Receive(s)
      case FsReplies =>
        if s.fs.FsReplying? && s.fs.p in s.calling
        then s.(fs := FsIdle, calling := s.calling - {s.fs.p}, rets := s.rets + [s.fs.p]) else s
  }

  function Run(s: Sys, events: seq<Event>): Sys {
    if events == [] then s else Next(Run(s, events[..|events| - 1]), events[|events| - 1])
  }

  const START := Sys(map[], {}, FsIdle, TtyWorking, map[], [], [])

  // -------------------------------------------------------------- invariant

  // Where the request of a process is.
  predicate InFlight(s: Sys, p: int)
    requires s.Sys?
  {
    p in s.queue || ((s.fs.FsBusy? || s.fs.FsAsking?) && s.fs.p == p)
  }

  predicate Resuming(s: Sys, p: int)
    requires s.Sys?
  {
    s.tty.TtyResuming? && s.tty.p == p
  }

  predicate IsRecorded(s: Sys, p: int)
    requires s.Sys?
  {
    exists t :: t in s.recorded && s.recorded[t] == p
  }

  predicate Recorded(s: Sys, p: int)
    requires s.Sys?
  {
    IsRecorded(s, p) && !Resuming(s, p)
  }

  // The terminal task answers at once.
  predicate Answered(r: Request) { r.Open? || r.Write? }

  predicate ReplyInFlight(s: Sys, p: int)
    requires s.Sys?
  {
    || Resuming(s, p)
    || (s.fs.FsReplying? && s.fs.p == p)
    || (s.fs.FsAwaiting? && s.fs.p == p && Answered(s.fs.r))
  }

  predicate Running(s: Sys, p: int)
    requires s.Sys?
  {
    p !in s.calling
  }

  // Inside a call that nobody knows of any more.
  predicate Lost(s: Sys, p: int)
    requires s.Sys?
  {
    p in s.calling && !InFlight(s, p) && !Recorded(s, p) && !ReplyInFlight(s, p)
  }

  function Bit(b: bool): nat { if b then 1 else 0 }

  // In exactly one place.
  predicate OnePlace(s: Sys, p: int)
    requires s.Sys?
  {
    Bit(InFlight(s, p)) + Bit(Recorded(s, p)) + Bit(ReplyInFlight(s, p)) + Bit(Running(s, p)) + Bit(Lost(s, p)) == 1
  }

  predicate CallsOk(s: Sys)
    requires s.Sys?
  {
    && (forall p :: p in s.queue ==> p in s.calling)
    && (forall t :: t in s.recorded ==>
          s.recorded[t] in s.calling && s.calling[s.recorded[t]] == Read(t) && s.recorded[t] !in s.queue)
  }

  predicate FsOk(s: Sys)
    requires s.Sys?
  {
    && (s.fs.FsIdle? || (s.fs.p in s.calling && s.fs.p !in s.queue))
    && match s.fs
       case FsIdle => true
       case FsBusy(p, r) => s.calling[p] == r && !IsRecorded(s, p)
       case FsAsking(p, r) => s.calling[p] == r && !r.OnFile? && !IsRecorded(s, p)
       case FsAwaiting(p, r) =>
         && s.calling[p] == r && !r.OnFile?
         && s.tty == (if Answered(r) then TtyAnswering(p) else TtySuspending(p, r.t))
         && (r.Read? ==> r.t in s.recorded && s.recorded[r.t] == p)
       case FsReplying(p) => !IsRecorded(s, p)
  }

  predicate TtyOk(s: Sys)
    requires s.Sys?
  {
    match s.tty
    case TtySuspending(p, t) => s.fs == FsAwaiting(p, Read(t)) || s.fs == FsAwaiting(p, Empty(t))
    case TtyAnswering(p) => s.fs.FsAwaiting? && s.fs.p == p && Answered(s.fs.r)
    case TtyResuming(p, t) => t in s.recorded && s.recorded[t] == p && !s.fs.FsAsking? && !s.fs.FsAwaiting?
    case _ => true
  }

  predicate Inv(s: Sys) {
    s.Sys? ==> CallsOk(s) && FsOk(s) && TtyOk(s)
  }

  lemma NextKeeps(s: Sys, e: Event)
    requires Inv(s)
    ensures Inv(Next(s, e))
  {
  }

  lemma {:induction false} RunKeeps(events: seq<Event>)
    ensures Inv(Run(START, events))
    decreases |events|
  {
    if events != [] {
      RunKeeps(events[..|events| - 1]);
      NextKeeps(Run(START, events[..|events| - 1]), events[|events| - 1]);
    }
  }

  // A state of a run is reached by one event from another one that is.
  lemma LastStep(events: seq<Event>) returns (front: seq<Event>)
    requires events != []
    ensures front == events[..|events| - 1] && Inv(Run(START, front))
    ensures Run(START, events) == Next(Run(START, front), events[|events| - 1])
  {
    front := events[..|events| - 1];
    RunKeeps(front);
  }

  // ----------------------------------------------------- each call, each reply

  // A process that is recorded is nowhere else.
  lemma RecordedOnly(s: Sys, p: int)
    requires s.Sys? && Inv(s) && IsRecorded(s, p)
    ensures p in s.calling && s.calling[p].Read? && !InFlight(s, p) && !(s.fs.FsReplying? && s.fs.p == p)
    ensures s.calling[p].t in s.recorded && s.recorded[s.calling[p].t] == p
    ensures s.fs.FsAwaiting? && s.fs.p == p ==> !Answered(s.fs.r)
  {
    var t :| t in s.recorded && s.recorded[t] == p;
    assert s.calling[s.recorded[t]] == Read(t);
  }

  lemma ExactlyOnePlace(s: Sys, p: int)
    requires s.Sys? && Inv(s)
    ensures OnePlace(s, p)
  {
    if IsRecorded(s, p) {
      RecordedOnly(s, p);
    } else {
      assert !Resuming(s, p) && !Recorded(s, p);
      assert p in s.queue ==> p in s.calling;
    }
  }

  // Calls and returns balance: a process that called has returned once, or is
  // still in the call.
  predicate Balanced(s: Sys, p: int)
    requires s.Sys?
  {
    multiset(s.asked)[p] == multiset(s.rets)[p] + Bit(p in s.calling)
  }

  lemma NextBalances(s: Sys, e: Event, p: int)
    requires s.Sys? && Next(s, e).Sys? && Inv(s) && Balanced(s, p)
    ensures Balanced(Next(s, e), p)
  {
  }

  lemma {:induction false} RunBalances(events: seq<Event>, p: int)
    ensures Run(START, events).Sys? ==> Balanced(Run(START, events), p)
    decreases |events|
  {
    if events != [] {
      var front := LastStep(events);
      RunBalances(front, p);
      if Run(START, events).Sys? { NextBalances(Run(START, front), events[|events| - 1], p); }
    }
  }

  // In every state that the protocol reaches: each process is in exactly one
  // place; a call that was made is answered by exactly one SYSCALL_RET or is
  // still open; and what the file system takes for the answer to a request is
  // never a RESUME_PROC.
  lemma CallsAreAnsweredOnce(events: seq<Event>, p: int)
    ensures
      var s := Run(START, events);
      s.Sys? ==> OnePlace(s, p) && Balanced(s, p) && !(s.fs.FsAwaiting? && s.tty.TtyResuming?)
  {
    RunKeeps(events);
    RunBalances(events, p);
    if Run(START, events).Sys? { ExactlyOnePlace(Run(START, events), p); }
  }

  // ------------------------------------------------------ readers that get lost

  // The event lets the terminal task take a request.
  predicate Takes(s: Sys, e: Event)
    requires s.Sys?
  {
    || (e.TtyReceives? && s.tty == TtyWorking && s.fs.FsAsking?)
    || (e.FsGoesOn? && s.tty == TtyIdle && s.fs.FsBusy?)
  }

  // It is a read of terminal t.
  predicate TakesRead(s: Sys, e: Event, t: int)
    requires s.Sys?
  {
    Takes(s, e) && (s.fs.r == Read(t) || s.fs.r == Empty(t))
  }

  // It is an empty read of p.
  predicate TakesNothing(s: Sys, e: Event, p: int)
    requires s.Sys?
  {
    Takes(s, e) && s.fs.p == p && s.fs.r.Empty?
  }

  // Process p is recorded for the terminal of which a read is taken.
  predicate Displaces(s: Sys, e: Event, p: int)
    requires s.Sys?
  {
    exists t :: t in s.recorded && s.recorded[t] == p && TakesRead(s, e, t)
  }

  lemma StaysLost(s: Sys, e: Event, p: int)
    requires s.Sys? && Inv(s) && Next(s, e).Sys? && Lost(s, p)
    ensures Lost(Next(s, e), p) && Next(s, e).calling[p] == s.calling[p]
    ensures multiset(Next(s, e).rets)[p] == multiset(s.rets)[p]
  {
    if s.tty.TtyResuming? { assert IsRecorded(s, s.tty.p); }
    assert !IsRecorded(s, p);
  }

  lemma DisplacedIsLost(s: Sys, e: Event, p: int)
    requires s.Sys? && Inv(s) && Next(s, e).Sys? && Displaces(s, e, p)
    ensures Lost(Next(s, e), p)
  {
    var t :| t in s.recorded && s.recorded[t] == p && TakesRead(s, e, t);
    RecordedOnly(s, p);
    var s' := Next(s, e);
    forall u | u in s'.recorded ensures s'.recorded[u] != p {
      if u != t { assert s.calling[s.recorded[u]] == Read(u); }
    }
  }

  lemma EmptyIsLost(s: Sys, e: Event, p: int)
    requires s.Sys? && Inv(s) && Next(s, e).Sys? && TakesNothing(s, e, p)
    ensures Lost(Next(s, e), p)
  {
    assert !IsRecorded(s, p);
  }

  lemma OthersAreNotLost(s: Sys, e: Event, p: int)
    requires s.Sys? && Inv(s) && Next(s, e).Sys? && !Lost(s, p) && !Displaces(s, e, p) && !TakesNothing(s, e, p)
    ensures !Lost(Next(s, e), p)
  {
    var s' := Next(s, e);
    if Recorded(s, p) {
      var t :| t in s.recorded && s.recorded[t] == p;
      assert !TakesRead(s, e, t);
      assert t in s'.recorded && s'.recorded[t] == p;
    } else if InFlight(s, p) && !InFlight(s', p) && s.calling[p].Read? {
      assert s.calling[p].t in s'.recorded && s'.recorded[s.calling[p].t] == p;
    }
  }

  // A process is lost exactly when the terminal task takes a read of the
  // terminal that it is recorded for, or its own read of no characters.
  lemma LossExactly(s: Sys, e: Event, p: int)
    requires s.Sys? && Inv(s) && Next(s, e).Sys?
    ensures Lost(Next(s, e), p) <==> Lost(s, p) || Displaces(s, e, p) || TakesNothing(s, e, p)
  {
    if Lost(s, p) {
      StaysLost(s, e, p);
    } else if Displaces(s, e, p) {
      DisplacedIsLost(s, e, p);
    } else if TakesNothing(s, e, p) {
      EmptyIsLost(s, e, p);
    } else {
      OthersAreNotLost(s, e, p);
    }
  }

  // Nothing brings it back: no run from there answers its call.
  lemma {:induction false} LostForGood(s: Sys, events: seq<Event>, p: int)
    requires s.Sys? && Inv(s) && Lost(s, p)
    ensures Inv(Run(s, events))
    ensures
      var s' := Run(s, events);
      s'.Sys? ==> Lost(s', p) && multiset(s'.rets)[p] == multiset(s.rets)[p]
    decreases |events|
  {
    if events != [] {
      var front, e := events[..|events| - 1], events[|events| - 1];
      LostForGood(s, front, p);
      NextKeeps(Run(s, front), e);
      if Run(s, events).Sys? { StaysLost(Run(s, front), e, p); }
    }
  }

  // ------------------------------------------------ what the processes may do

  datatype Use = Use(p: int, r: Request)

  predicate Within(events: seq<Event>, uses: set<Use>) {
    forall i :: 0 <= i < |events| && events[i].Ask? ==> Use(events[i].p, events[i].r) in uses
  }

  predicate CallsWithin(s: Sys, uses: set<Use>)
    requires s.Sys?
  {
    forall p :: p in s.calling ==> Use(p, s.calling[p]) in uses
  }

  lemma {:induction false} RunWithin(events: seq<Event>, uses: set<Use>)
    requires Within(events, uses)
    ensures Run(START, events).Sys? ==> CallsWithin(Run(START, events), uses)
    decreases |events|
  {
    if events != [] {
      var e := events[|events| - 1];
      var front := LastStep(events);
      assert e.Ask? ==> Use(e.p, e.r) in uses;
      RunWithin(front, uses);
    }
  }

  // Different processes never read from one terminal, and nobody reads nothing.
  predicate OwnTerminals(uses: set<Use>) {
    && (forall a :: a in uses ==> !a.r.Empty?)
    && (forall a, b :: a in uses && b in uses && a.r.Read? && b.r == a.r ==> a.p == b.p)
  }

  // Who takes the place of p, and at which terminal.
  lemma Displacer(s: Sys, e: Event, p: int, uses: set<Use>) returns (q: int, t: int)
    requires s.Sys? && Inv(s) && CallsWithin(s, uses) && Displaces(s, e, p)
    ensures q != p && Use(p, Read(t)) in uses && (Use(q, Read(t)) in uses || Use(q, Empty(t)) in uses)
  {
    t :| t in s.recorded && s.recorded[t] == p && TakesRead(s, e, t);
    q := s.fs.p;
    RecordedOnly(s, p);
  }

  lemma NobodyDisplaced(s: Sys, e: Event, p: int, uses: set<Use>)
    requires s.Sys? && Inv(s) && CallsWithin(s, uses) && OwnTerminals(uses)
    ensures !Displaces(s, e, p) && !TakesNothing(s, e, p)
  {
    if Displaces(s, e, p) {
      var q, t := Displacer(s, e, p, uses);
      assert false;
    }
    assert s.fs.FsBusy? || s.fs.FsAsking? ==> Use(s.fs.p, s.fs.r) in uses;
  }

  lemma {:induction false} NobodyLost(events: seq<Event>, p: int, uses: set<Use>)
    requires Within(events, uses) && OwnTerminals(uses)
    ensures Run(START, events).Sys? ==> !Lost(Run(START, events), p)
    decreases |events|
  {
    if events != [] && Run(START, events).Sys? {
      var e := events[|events| - 1];
      var front := LastStep(events);
      NobodyLost(front, p, uses);
      RunWithin(front, uses);
      NobodyDisplaced(Run(START, front), e, p, uses);
      LossExactly(Run(START, front), e, p);
    }
  }

  // ------------------------------------------------------------- runs, in parts

  lemma OneMore(front: seq<Event>, s: Sys, e: Event) returns (events: seq<Event>)
    requires s == Run(START, front)
    ensures events == front + [e] && Run(START, events) == Next(s, e)
  {
    events := front + [e];
    assert events[..|events| - 1] == front;
  }

  // Nobody waits for the file system or the terminal task.
  predicate Quiet(s: Sys) {
    s.Sys? && s.queue == {} && s.fs == FsIdle && s.tty == TtyWorking
  }

  // From there the request of p, for a terminal, waits for the terminal task.
  lemma AskedFor(front: seq<Event>, p: int, r: Request) returns (events: seq<Event>)
    requires Quiet(Run(START, front)) && p !in Run(START, front).calling && !r.OnFile?
    ensures events == front + [Ask(p, r), FsTakes(p), FsGoesOn]
    ensures
      var s := Run(START, front);
      Run(START, events) == s.(calling := s.calling[p := r], fs := FsAsking(p, r), asked := s.asked + [p])
  {
    var s := Run(START, front);
    var s1 := s.(calling := s.calling[p := r], queue := {p}, asked := s.asked + [p]);
    assert {} + {p} == {p} && {p} - {p} == {};
    var e1 := OneMore(front, s, Ask(p, r));
    var e2 := OneMore(e1, s1, FsTakes(p));
    events := OneMore(e2, s1.(queue := {}, fs := FsBusy(p, r)), FsGoesOn);
    assert events == front + [Ask(p, r), FsTakes(p), FsGoesOn];
  }

  // A read that is taken; the process is recorded, and all is quiet again.
  lemma ReadTaken(front: seq<Event>, p: int, t: int) returns (events: seq<Event>)
    requires Quiet(Run(START, front)) && p !in Run(START, front).calling
    ensures events == front + [Ask(p, Read(t)), FsTakes(p), FsGoesOn, TtyReceives, FsReceives]
    ensures
      var s := Run(START, front);
      Run(START, events)
      == s.(calling := s.calling[p := Read(t)], recorded := s.recorded[t := p], asked := s.asked + [p])
  {
    var e1 := AskedFor(front, p, Read(t));
    var s1 := Run(START, e1);
    var e2 := OneMore(e1, s1, TtyReceives);
    events := OneMore(e2, Take(s1, p, Read(t)), FsReceives);
  }

  // The line of a reader is done: its call returns, and it is not recorded any
  // more.
  lemma LineReturns(front: seq<Event>, p: int, t: int) returns (events: seq<Event>)
    requires Quiet(Run(START, front)) && p in Run(START, front).calling
    requires t in Run(START, front).recorded && Run(START, front).recorded[t] == p
    ensures events == front + [LineDone(t), FsReceives, FsReplies]
    ensures
      var s := Run(START, front);
      Run(START, events) == s.(calling := s.calling - {p}, recorded := s.recorded - {t}, rets := s.rets + [p])
  {
    var s := Run(START, front);
    var e1 := OneMore(front, s, LineDone(t));
    var e2 := OneMore(e1, s.(tty := TtyResuming(p, t)), FsReceives);
    events := OneMore(e2, s.(fs := FsReplying(p), recorded := s.recorded - {t}), FsReplies);
    assert events == front + [LineDone(t), FsReceives, FsReplies];
  }

  // A terminal task that waits wakes up with a key, and takes a request at once.
  lemma WhileIdle(front: seq<Event>, p: int, r: Request) returns (woken: seq<Event>, taken: seq<Event>)
    requires Quiet(Run(START, front)) && p !in Run(START, front).calling && !r.OnFile?
    ensures woken == front + [TtyReceives, Key] && Run(START, woken) == Run(START, front)
    ensures taken == front + [TtyReceives, Ask(p, r), FsTakes(p), FsGoesOn]
    ensures
      var s := Run(START, front);
      Run(START, taken) == Take(s.(calling := s.calling[p := r], asked := s.asked + [p]), p, r)
  {
    var s := Run(START, front);
    var e1 := OneMore(front, s, TtyReceives);
    var idle := s.(tty := TtyIdle);
    woken := OneMore(e1, idle, Key);
    assert woken == front + [TtyReceives, Key];
    taken := TakenAtOnce(e1, idle, p, r);
    assert taken == front + [TtyReceives, Ask(p, r), FsTakes(p), FsGoesOn];
  }

  lemma TakenAtOnce(front: seq<Event>, s: Sys, p: int, r: Request) returns (events: seq<Event>)
    requires s == Run(START, front) && s.Sys? && s.queue == {} && s.fs == FsIdle && s.tty == TtyIdle
    requires p !in s.calling && !r.OnFile?
    ensures events == front + [Ask(p, r), FsTakes(p), FsGoesOn]
    ensures Run(START, events) == Take(s.(calling := s.calling[p := r], asked := s.asked + [p]), p, r)
  {
    assert {} + {p} == {p} && {p} - {p} == {};
    var e1 := OneMore(front, s, Ask(p, r));
    var s1 := s.(calling := s.calling[p := r], queue := {p}, asked := s.asked + [p]);
    var e2 := OneMore(e1, s1, FsTakes(p));
    events := OneMore(e2, s1.(queue := {}, fs := FsBusy(p, r)), FsGoesOn);
    assert events == front + [Ask(p, r), FsTakes(p), FsGoesOn];
  }

  // The terminal task takes the open or the write that waits, and answers.
  lemma TakenAndAnswered(front: seq<Event>, p: int, r: Request) returns (events: seq<Event>)
    requires Run(START, front).Sys? && Run(START, front).fs == FsAsking(p, r) && Answered(r)
    requires Run(START, front).tty == TtyWorking
    ensures events == front + [TtyReceives, FsReceives]
    ensures Run(START, events) == Run(START, front).(fs := FsReplying(p))
  {
    var s := Run(START, front);
    var e1 := OneMore(front, s, TtyReceives);
    events := OneMore(e1, Take(s, p, r), FsReceives);
    assert events == front + [TtyReceives, FsReceives];
  }

  // An open or a write that is served.
  lemma Served(front: seq<Event>, p: int, r: Request) returns (events: seq<Event>)
    requires Quiet(Run(START, front)) && p !in Run(START, front).calling && Answered(r)
    ensures events == front + [Ask(p, r), FsTakes(p), FsGoesOn] + [TtyReceives, FsReceives] + [FsReplies]
    ensures
      var s := Run(START, front);
      Run(START, events) == s.(asked := s.asked + [p], rets := s.rets + [p])
  {
    var calling := Run(START, front).calling;
    var e1 := AskedFor(front, p, r);
    var e2 := TakenAndAnswered(e1, p, r);
    events := OneMore(e2, Run(START, e2), FsReplies);
    assert calling[p := r] - {p} == calling;
  }

  // The second reader of a terminal takes the place of the first one.
  lemma SecondReaderDisplaces(p: int, q: int, t: int) returns (events: seq<Event>)
    requires p != q
    ensures Within(events, {Use(p, Read(t)), Use(q, Read(t))})
    ensures Run(START, events).Sys? && Lost(Run(START, events), p)
  {
    var e1 := ReadTaken([], p, t);
    events := ReadTaken(e1, q, t);
  }

  // Whoever reads nothing is never answered.
  lemma EmptyReadIsLost(p: int, t: int) returns (events: seq<Event>)
    ensures Within(events, {Use(p, Empty(t))}) && Run(START, events).Sys? && Lost(Run(START, events), p)
  {
    var e1 := AskedFor([], p, Empty(t));
    events := OneMore(e1, Run(START, e1), TtyReceives);
  }

  // No process is ever lost exactly if no two read from one terminal, and none
  // reads nothing.
  lemma NobodyIsLost(uses: set<Use>)
    ensures
      (forall events, p :: Within(events, uses) && Run(START, events).Sys? ==> !Lost(Run(START, events), p))
      <==> OwnTerminals(uses)
  {
    if OwnTerminals(uses) {
      forall events, p | Within(events, uses) && Run(START, events).Sys? ensures !Lost(Run(START, events), p) {
        NobodyLost(events, p, uses);
      }
    } else if exists a :: a in uses && a.r.Empty? {
      var a :| a in uses && a.r.Empty?;
      var events := EmptyReadIsLost(a.p, a.r.t);
      assert a == Use(a.p, Empty(a.r.t)) && Within(events, uses);
    } else {
      var a, b :| a in uses && b in uses && a.r.Read? && b.r == a.r && a.p != b.p;
      var events := SecondReaderDisplaces(a.p, b.p, a.r.t);
      assert a == Use(a.p, a.r) && b == Use(b.p, b.r) && Within(events, uses);
    }
  }

  // -------------------------------------------------------------- deadlock

  // The file system and the terminal task send to each other at once in two
  // cases: a line is done while a request waits to be handed over, or the file
  // system hands over a request while the terminal task has a line to report.
  lemma HaltsExactly(s: Sys, e: Event)
    requires s.Sys? && Inv(s)
    ensures
      Next(s, e).Halted?
      <==> (e.LineDone? && e.t in s.recorded && s.tty == TtyWorking && s.fs.FsAsking?)
           || (e.FsGoesOn? && s.fs.FsBusy? && !s.fs.r.OnFile? && s.tty.TtyResuming?)
  {
  }

  // Whoever reads from a terminal is the only one to use terminals at all.
  predicate ReaderIsAlone(uses: set<Use>) {
    forall a, b :: a in uses && b in uses && a.r.Read? && !b.r.OnFile? ==> a.p == b.p
  }

  // Whose read and whose request collide.
  lemma Colliding(s: Sys, e: Event, uses: set<Use>) returns (a: Use, b: Use)
    requires s.Sys? && Inv(s) && CallsWithin(s, uses) && Next(s, e).Halted?
    ensures a in uses && b in uses && a.r.Read? && !b.r.OnFile? && a.p != b.p
  {
    HaltsExactly(s, e);
    var p, q := if e.LineDone? then s.recorded[e.t] else s.tty.p, s.fs.p;
    assert IsRecorded(s, p);
    RecordedOnly(s, p);
    a, b := Use(p, s.calling[p]), Use(q, s.calling[q]);
  }

  lemma NoHaltAlone(s: Sys, e: Event, uses: set<Use>)
    requires s.Sys? && Inv(s) && CallsWithin(s, uses) && ReaderIsAlone(uses)
    ensures Next(s, e).Sys?
  {
    if Next(s, e).Halted? {
      var a, b := Colliding(s, e, uses);
      assert false;
    }
  }

  lemma {:induction false} NeverHaltsAlone(events: seq<Event>, uses: set<Use>)
    requires Within(events, uses) && ReaderIsAlone(uses)
    ensures Run(START, events).Sys?
    decreases |events|
  {
    if events != [] {
      var front := LastStep(events);
      NeverHaltsAlone(front, uses);
      RunWithin(front, uses);
      NoHaltAlone(Run(START, front), events[|events| - 1], uses);
    }
  }

  // A line of terminal t, which p reads, is done while a request of q waits.
  lemma LineMeetsRequest(front: seq<Event>, p: int, t: int, q: int, r: Request) returns (events: seq<Event>)
    requires p != q && !r.OnFile? && Quiet(Run(START, front))
    requires p !in Run(START, front).calling && q !in Run(START, front).calling
    ensures events == front + [Ask(p, Read(t)), FsTakes(p), FsGoesOn, TtyReceives, FsReceives]
                   + [Ask(q, r), FsTakes(q), FsGoesOn] + [LineDone(t)]
    ensures Run(START, events).Halted?
  {
    var e1 := ReadTaken(front, p, t);
    var e2 := AskedFor(e1, q, r);
    events := OneMore(e2, Run(START, e2), LineDone(t));
  }

  // The kernel never stops, whatever happens and in whatever order, exactly if
  // no process reads from a terminal while another one may read from, write to
  // or open any terminal.
  lemma NeverHaltsExactly(uses: set<Use>)
    ensures (forall events :: Within(events, uses) ==> Run(START, events).Sys?) <==> ReaderIsAlone(uses)
  {
    if ReaderIsAlone(uses) {
      forall events | Within(events, uses) ensures Run(START, events).Sys? { NeverHaltsAlone(events, uses); }
    } else {
      var a, b :| a in uses && b in uses && a.r.Read? && !b.r.OnFile? && a.p != b.p;
      var events := LineMeetsRequest([], a.p, a.r.t, b.p, b.r);
      assert a == Use(a.p, Read(a.r.t)) && b == Use(b.p, b.r);
      assert Within(events, uses);
    }
  }

  // A shell opens its terminal twice and prints its prompt.
  lemma ShellStarts(p: int) returns (events: seq<Event>)
    ensures Quiet(Run(START, events)) && Run(START, events).calling == map[]
    ensures Within(events, {Use(p, Open(1)), Use(p, Write(1))})
  {
    var e1 := Served([], p, Open(1));
    var e2 := Served(e1, p, Open(1));
    events := Served(e2, p, Write(1));
  }

  // The two shells that Init starts (kernel/main.c:204-211, kernel/shell.c:11-22):
  // one has opened its terminal and reads its first line, which is done while
  // the other one opens its own.
  lemma ShellsHalt(p: int, q: int) returns (events: seq<Event>)
    requires p != q
    ensures Within(events, {Use(p, Open(1)), Use(p, Write(1)), Use(p, Read(1)), Use(q, Open(2))})
    ensures Run(START, events).Halted?
  {
    var front := ShellStarts(p);
    events := LineMeetsRequest(front, p, 1, q, Open(2));
  }

  // ----------------------------------------------- the same in the message machine

  // The modes of the two tasks in the kernel; who is ready is about to send.
  predicate FsMode(fs: FsState, mode: IpcSpec.Mode) {
    match fs
    case FsIdle => mode == IpcSpec.Receiving(ANY)
    case FsBusy(p, r) => mode == IpcSpec.Ready || mode == IpcSpec.Receiving(TASK_HD)
    case FsAsking(p, r) => mode.Sending? && mode.to == TASK_TTY
    case FsAwaiting(p, r) => mode == IpcSpec.Receiving(TASK_TTY)
    case FsReplying(p) => mode == IpcSpec.Ready
  }

  predicate TtyMode(tty: TtyState, mode: IpcSpec.Mode) {
    match tty
    case TtyWorking => mode == IpcSpec.Ready
    case TtyIdle => mode == IpcSpec.Receiving(ANY)
    case _ => mode.Sending? && mode.to == TASK_FS
  }

  lemma FirstIsBlocked(w: IpcSpec.Sys, path: seq<int>)
    requires IpcSpec.IsPath(w, path) && |path| > 1
    ensures w.mode[path[0]].Sending?
  {
    assert IpcSpec.WaitsFor(w, path[0], path[1]);
  }

  lemma OnlyItself(w: IpcSpec.Sys, path: seq<int>)
    requires IpcSpec.IsPath(w, path) && !w.mode[path[0]].Sending?
    ensures |path| == 1
  {
    if |path| > 1 { FirstIsBlocked(w, path); }
  }

  lemma ReachesByOneEdge(w: IpcSpec.Sys, a: int, b: int)
    requires IpcSpec.WellShaped(w) && IsPid(a) && IsPid(b) && a != b
    requires w.mode[a].Sending? ==> w.mode[a].to == b
    ensures IpcSpec.Reaches(w, a, b) <==> w.mode[a].Sending?
  {
    if w.mode[a].Sending? {
      assert IpcSpec.WaitsFor(w, a, b) && IpcSpec.IsPath(w, [a, b]);
      var path := [a, b];
      assert path[0] == a && path[|path| - 1] == b;
    } else {
      forall path | IpcSpec.IsPath(w, path) && path[0] == a ensures |path| == 1 { OnlyItself(w, path); }
    }
  }

  // The file system hands over a request: the protocol stops exactly when the
  // kernel refuses the send, goes on at once when the kernel lets them meet,
  // and waits when the kernel queues it.
  lemma ServeInTheKernel(s: Sys, p: int, r: Request, w: IpcSpec.Sys, m: IpcSpec.Message)
    requires s.Sys? && !r.OnFile? && IpcSpec.WellShaped(w)
    requires w.mode[TASK_FS] == IpcSpec.Ready && TtyMode(s.tty, w.mode[TASK_TTY])
    ensures
      var k, s' := IpcSpec.Send(w, TASK_FS, TASK_TTY, m), Serve(s, p, r);
      && (s'.Halted? <==> k.outcome == IpcSpec.Panic)
      && (s'.Sys? && s'.fs.FsAsking? ==> FsMode(s'.fs, k.sys.mode[TASK_FS]) && TtyMode(s'.tty, k.sys.mode[TASK_TTY]))
      && (s'.Sys? && s'.fs.FsAwaiting? ==>
            k.sys.mode[TASK_FS] == IpcSpec.Ready && k.sys.mode[TASK_TTY] == IpcSpec.Ready)
  {
    ReachesByOneEdge(w, TASK_TTY, TASK_FS);
  }

  // The terminal task says that a line is done, in the same way.
  lemma LineDoneInTheKernel(s: Sys, t: int, w: IpcSpec.Sys, m: IpcSpec.Message)
    requires s.Sys? && Inv(s) && s.tty == TtyWorking && t in s.recorded && IpcSpec.WellShaped(w)
    requires w.mode[TASK_TTY] == IpcSpec.Ready && FsMode(s.fs, w.mode[TASK_FS])
    ensures
      var r, s' := IpcSpec.Send(w, TASK_TTY, TASK_FS, m), Next(s, LineDone(t));
      && (s'.Halted? <==> r.outcome == IpcSpec.Panic)
      && (s'.Sys? && !s.fs.FsIdle? ==> TtyMode(s'.tty, r.sys.mode[TASK_TTY]) && FsMode(s'.fs, r.sys.mode[TASK_FS]))
      && (s'.Sys? && s.fs.FsIdle? ==>
            r.sys.mode[TASK_FS] == IpcSpec.Ready && r.sys.mode[TASK_TTY] == IpcSpec.Ready)
  {
    ReachesByOneEdge(w, TASK_FS, TASK_TTY);
  }
}
