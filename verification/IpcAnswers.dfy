// What a receive is answered with, and what becomes of interrupts, over whole
// runs; and when a send is refused.
module IpcAnswers {
  import opened Constants
  import opened IpcSpec
  import opened IpcInvariant
  import opened IpcRuns

  function Bit(b: bool): nat { if b then 1 else 0 }

  // ------------------------------------------------------ interrupts, counted

  // Interrupts that process r was told of.
  function Signals(log: seq<Event>, r: int): nat
    decreases |log|
  {
    if log == [] then 0 else Signals(log[..|log| - 1], r) + Bit(log[|log| - 1] == Signalled(r))
  }

  lemma {:induction false} SignalsAppend(log: seq<Event>, es: seq<Event>, r: int)
    ensures Signals(log + es, r) == Signals(log, r) + Signals(es, r)
    decreases |es|
  {
    if es == [] {
      assert log + es == log;
    } else {
      var front := es[..|es| - 1];
      SignalsAppend(log, front, r);
      assert (log + es)[..|log + es| - 1] == log + front;
    }
  }

  lemma NoSignals(es: seq<Event>, r: int)
    requires forall i :: 0 <= i < |es| ==> es[i] != Signalled(r)
    ensures Signals(es, r) == 0
  {
  }

  // Interrupts for r in a run, and those of them that come while one is noted
  // already and add nothing.
  ghost function Interrupts(w: World, calls: seq<Call>, r: int): nat
    requires Inv(w.sys)
    decreases |calls|
  {
    if calls == [] then 0
    else
      var front, c := calls[..|calls| - 1], calls[|calls| - 1];
      Interrupts(w, front, r) + Bit(c == HardwareInterrupt(r) && Enabled(Run(w, front), c))
  }

  ghost function Merged(w: World, calls: seq<Call>, r: int): nat
    requires Inv(w.sys) && IsPid(r)
    decreases |calls|
  {
    if calls == [] then 0
    else
      var front, c := calls[..|calls| - 1], calls[|calls| - 1];
      var w1 := Run(w, front);
      Merged(w, front, r) + Bit(c == HardwareInterrupt(r) && Enabled(w1, c) && w1.sys.hasInt[r])
  }

  // Signals so far, and one that is noted.
  function Known(w: World, r: int): nat
    requires WellShaped(w.sys) && IsPid(r)
  {
    Signals(w.log, r) + Bit(w.sys.hasInt[r])
  }

  lemma StepSignals(w: World, c: Call, r: int)
    requires Inv(w.sys) && Enabled(w, c) && IsPid(r)
    ensures
      var t := StepResult(w, c);
      Signals(t.events, r) + Bit(t.sys.hasInt[r])
      == Bit(w.sys.hasInt[r]) + Bit(c == HardwareInterrupt(r) && !w.sys.hasInt[r])
  {
    var es := StepResult(w, c).events;
    if forall i :: 0 <= i < |es| ==> es[i] != Signalled(r) {
      NoSignals(es, r);
    } else {
      assert es == [Signalled(r)];
      assert Signals([], r) == 0;
    }
  }

  lemma StepIsKnown(w: World, c: Call, r: int)
    requires Inv(w.sys) && IsPid(r)
    ensures Known(Step(w, c), r)
         == Known(w, r) + Bit(Enabled(w, c) && c == HardwareInterrupt(r) && !w.sys.hasInt[r])
  {
    if Enabled(w, c) {
      StepSignals(w, c, r);
      SignalsAppend(w.log, StepResult(w, c).events, r);
    }
  }

  // Every interrupt of a run is told, or noted to be told, exactly once, unless
  // it comes while one is noted.
  lemma {:induction false} InterruptsAreKept(w: World, calls: seq<Call>, r: int)
    requires Inv(w.sys) && IsPid(r)
    ensures Known(Run(w, calls), r) + Merged(w, calls, r) == Known(w, r) + Interrupts(w, calls, r)
    decreases |calls|
  {
    if calls != [] {
      var front := calls[..|calls| - 1];
      InterruptsAreKept(w, front, r);
      StepIsKnown(Run(w, front), calls[|calls| - 1], r);
    }
  }

  lemma {:induction false} MergedAreFewer(w: World, calls: seq<Call>, r: int)
    requires Inv(w.sys) && IsPid(r)
    ensures Merged(w, calls, r) <= Interrupts(w, calls, r)
    decreases |calls|
  {
    if calls != [] { MergedAreFewer(w, calls[..|calls| - 1], r); }
  }

  // Nobody is told of more interrupts than there were.
  lemma NoSignalInvented(calls: seq<Call>, r: int)
    requires IsPid(r)
    ensures Inv(BOOT.sys) && Known(Run(BOOT, calls), r) <= Interrupts(BOOT, calls, r)
  {
    BootInv();
    InterruptsAreKept(BOOT, calls, r);
  }

  // After an interrupt, whatever is called: r has been told of it, or it is
  // noted still.
  lemma InterruptIsNotLost(w: World, r: int, calls: seq<Call>)
    requires Inv(w.sys) && Enabled(w, HardwareInterrupt(r))
    ensures
      var w' := Run(Step(w, HardwareInterrupt(r)), calls);
      Signals(w'.log, r) > Signals(w.log, r) || w'.sys.hasInt[r]
  {
    var w1 := Step(w, HardwareInterrupt(r));
    StepIsKnown(w, HardwareInterrupt(r), r);
    InterruptsAreKept(w1, calls, r);
    MergedAreFewer(w1, calls, r);
    var es := StepResult(w, HardwareInterrupt(r)).events;
    SignalsAppend(w.log, es, r);
  }

  // How a process that is told looks: it runs, nothing is noted for it, and its
  // buffer names the hardware.  Nobody else notices.
  predicate Told(s: Sys, s': Sys, r: int)
    requires WellShaped(s) && WellShaped(s') && IsPid(r)
  {
    && s'.mode[r] == Ready && !s'.hasInt[r] && s'.inbox[r].source == INTERRUPT && s'.inbox[r].kind == 1
    && s'.queue == s.queue
    && forall p :: 0 <= p < NR_ALL && p != r ==>
         s'.mode[p] == s.mode[p] && s'.hasInt[p] == s.hasInt[p] && s'.inbox[p] == s.inbox[p]
  }

  // A noted interrupt answers the next receive from anybody or from the hardware.
  lemma NotedInterruptIsTaken(w: World, r: int, src: int)
    requires Inv(w.sys) && Enabled(w, CallReceive(r, src)) && (src == ANY || src == INTERRUPT) && w.sys.hasInt[r]
    ensures
      var w' := Step(w, CallReceive(r, src));
      w'.log == w.log + [Signalled(r)] && !w'.halted && Told(w.sys, w'.sys, r)
  {
  }

  // An interrupt wakes a process that waits for it, and nobody else; otherwise
  // it is noted, and nothing else changes.
  lemma InterruptWakes(w: World, r: int)
    requires Inv(w.sys) && Enabled(w, HardwareInterrupt(r))
    ensures
      var w' := Step(w, HardwareInterrupt(r));
      && !w'.halted
      && if w.sys.mode[r] == Receiving(ANY) || w.sys.mode[r] == Receiving(INTERRUPT)
         then w'.log == w.log + [Signalled(r)] && Told(w.sys, w'.sys, r) && w'.sys.inbox[r].body == w.sys.inbox[r].body
         else w'.log == w.log && w'.sys.hasInt[r] && w'.sys == w.sys.(hasInt := w'.sys.hasInt)
              && forall p :: 0 <= p < NR_ALL && p != r ==> w'.sys.hasInt[p] == w.sys.hasInt[p]
  {
    assert w.log + [] == w.log;
  }

  // The disk interrupts before its driver waits, at the start: it is not missed.
  lemma EarlyDiskInterrupt()
    ensures Inv(BOOT.sys)
    ensures
      var w := Run(BOOT, [HardwareInterrupt(TASK_HD), CallReceive(TASK_HD, INTERRUPT)]);
      w.log == [Signalled(TASK_HD)] && w.sys.mode[TASK_HD] == Ready && !w.sys.hasInt[TASK_HD]
  {
    BootInv();
    var calls, first := [HardwareInterrupt(TASK_HD), CallReceive(TASK_HD, INTERRUPT)], [HardwareInterrupt(TASK_HD)];
    assert calls[..1] == first && first[..0] == [];
    assert Run(BOOT, []) == BOOT;
    var w1 := Step(BOOT, HardwareInterrupt(TASK_HD));
    assert Run(BOOT, first) == w1;
    InterruptWakes(BOOT, TASK_HD);
    NotedInterruptIsTaken(w1, TASK_HD, INTERRUPT);
    assert BOOT.log + [Signalled(TASK_HD)] == [Signalled(TASK_HD)];
  }

  // ------------------------------------------------------- answers to receives

  // The event hands something to r.
  predicate Hands(e: Event, r: int) {
    match e
    case Accepted(pk) => false
    case Met(pk) => pk.to == r
    case Taken(pk, any) => pk.to == r
    case Signalled(to) => to == r
  }

  // It is what a receive from src asked for.
  predicate Fits(e: Event, src: int) {
    match e
    case Accepted(pk) => false
    case Met(pk) => src == ANY || pk.from == src
    case Taken(pk, any) => src == ANY || pk.from == src
    case Signalled(to) => src == ANY || src == INTERRUPT
  }

  // The first event that hands something to r fits.
  predicate FirstFits(es: seq<Event>, r: int, src: int) {
    exists i :: 0 <= i < |es| && Hands(es[i], r) && Fits(es[i], src) && forall j :: 0 <= j < i ==> !Hands(es[j], r)
  }

  predicate NoneHands(es: seq<Event>, r: int) {
    forall j :: 0 <= j < |es| ==> !Hands(es[j], r)
  }

  // r still waits for src, or was given what it asked for first.
  predicate AnsweredOrWaiting(s: Sys, es: seq<Event>, r: int, src: int)
    requires WellShaped(s) && IsPid(r)
  {
    FirstFits(es, r, src) || (NoneHands(es, r) && s.mode[r] == Receiving(src))
  }

  lemma FirstFitsAppend(es: seq<Event>, more: seq<Event>, r: int, src: int)
    ensures FirstFits(es, r, src) ==> FirstFits(es + more, r, src)
    ensures NoneHands(es, r) && FirstFits(more, r, src) ==> FirstFits(es + more, r, src)
    ensures NoneHands(es, r) && NoneHands(more, r) ==> NoneHands(es + more, r)
  {
    var all := es + more;
    if FirstFits(es, r, src) {
      var i :| 0 <= i < |es| && Hands(es[i], r) && Fits(es[i], src) && forall j :: 0 <= j < i ==> !Hands(es[j], r);
      assert all[i] == es[i] && forall j :: 0 <= j < i ==> all[j] == es[j];
    } else if NoneHands(es, r) && FirstFits(more, r, src) {
      var i :| 0 <= i < |more| && Hands(more[i], r) && Fits(more[i], src)
               && forall j :: 0 <= j < i ==> !Hands(more[j], r);
      assert all[|es| + i] == more[i];
      forall j | 0 <= j < |es| + i ensures !Hands(all[j], r) {
        assert all[j] == if j < |es| then es[j] else more[j - |es|];
      }
    }
  }

  // A step of somebody else, or an interrupt, while r waits for src.
  lemma WaitingStep(w: World, c: Call, r: int, src: int)
    requires Inv(w.sys) && Enabled(w, c) && IsPid(r) && w.sys.mode[r] == Receiving(src)
    ensures AnsweredOrWaiting(StepResult(w, c).sys, StepResult(w, c).events, r, src)
  {
    var t := StepResult(w, c);
    match c
    case CallSend(p, d, kind, body) =>
      if |t.events| == 2 && d == r {
        assert Hands(t.events[1], r) && Fits(t.events[1], src) && !Hands(t.events[0], r);
      }
    case CallReceive(p, from) =>
      if t.events != [] && t.events[0].Taken? { assert WaitsFor(w.sys, t.events[0].pk.from, p); }
    case HardwareInterrupt(p) =>
      if t.events != [] && p == r { assert Hands(t.events[0], r) && Fits(t.events[0], src); }
  }

  // A receive from oneself fails an assertion.
  lemma OwnReceiveFails(w: World, r: int)
    requires Inv(w.sys) && Enabled(w, CallReceive(r, r))
    ensures StepResult(w, CallReceive(r, r)) == Result(w.sys, [], AssertFailed)
  {
  }

  // The receive itself.
  lemma ReceiveStep(w: World, r: int, src: int)
    requires Inv(w.sys) && Enabled(w, CallReceive(r, src)) && r != src
    ensures
      var t := StepResult(w, CallReceive(r, src));
      AnsweredOrWaiting(t.sys, t.events, r, src) && t.outcome == Done
  {
    var es := StepResult(w, CallReceive(r, src)).events;
    if es != [] { assert Hands(es[0], r) && Fits(es[0], src); }
  }

  // Over any run, what a receive gets is what it asked for: from a process by
  // name only a message of that process, from INTERRUPT only an interrupt; and
  // it waits until then.
  lemma {:induction false} ReceiveIsAnswered(w: World, r: int, src: int, calls: seq<Call>) returns (news: seq<Event>)
    requires Inv(w.sys) && Enabled(w, CallReceive(r, src)) && r != src
    ensures
      var w' := Run(Step(w, CallReceive(r, src)), calls);
      w'.log == w.log + news && AnsweredOrWaiting(w'.sys, news, r, src)
    decreases |calls|
  {
    var w1 := Step(w, CallReceive(r, src));
    if calls == [] {
      ReceiveStep(w, r, src);
      news := StepResult(w, CallReceive(r, src)).events;
    } else {
      var front, c := calls[..|calls| - 1], calls[|calls| - 1];
      news := ReceiveIsAnswered(w, r, src, front);
      news := AnsweredStep(w, Run(w1, front), news, c, r, src);
    }
  }

  lemma AnsweredStep(w: World, w2: World, news: seq<Event>, c: Call, r: int, src: int) returns (more: seq<Event>)
    requires Inv(w2.sys) && IsPid(r) && w2.log == w.log + news && AnsweredOrWaiting(w2.sys, news, r, src)
    ensures Step(w2, c).log == w.log + more && AnsweredOrWaiting(Step(w2, c).sys, more, r, src)
  {
    more := news;
    if Enabled(w2, c) {
      var es := StepResult(w2, c).events;
      more := news + es;
      FirstFitsAppend(news, es, r, src);
      if !FirstFits(news, r, src) { WaitingStep(w2, c, r, src); }
      assert w2.log + es == w.log + more;
    }
  }

  // ------------------------------------------------------------ refused sends

  ghost predicate Circle(s: Sys) {
    exists path :: IsPath(s, path) && |path| >= 2 && path[0] == path[|path| - 1]
  }

  // A send is refused exactly if waiting for its receiver would close a circle
  // of processes that wait for each other; a send to oneself fails an assertion.
  lemma RefusedExactly(s: Sys, p: int, d: int, m: Message)
    requires Inv(s) && IsPid(p) && IsPid(d) && s.mode[p] == Ready
    ensures
      var t := Send(s, p, d, m);
      if p == d then t == Result(s, [], AssertFailed)
      else if Circle(s.(mode := s.mode[p := Sending(d, m)])) then t == Result(s, [], Panic)
      else t.outcome == Done
  {
    var s' := s.(mode := s.mode[p := Sending(d, m)]);
    if p == d {
    } else if Reaches(s, d, p) {
      var path :| IsPath(s, path) && path[0] == d && path[|path| - 1] == p;
      ClosedPath(s, s', path, p, d, m);
    } else {
      BlockKeepsGrounded(s, s', p, d, m);
      if Circle(s') {
        var path :| IsPath(s', path) && |path| >= 2 && path[0] == path[|path| - 1];
        NoCycle(s', path);
      }
    }
  }

  // The machine stops exactly with such a send, and does nothing after that.
  lemma StopsExactly(w: World, c: Call)
    requires Inv(w.sys)
    ensures w.halted ==> Step(w, c) == w
    ensures !w.halted ==>
      (Step(w, c).halted
       <==> Enabled(w, c) && c.CallSend? && c.p != c.to
            && Circle(w.sys.(mode := w.sys.mode[c.p := Sending(c.to, Message(c.p, c.kind, c.body))])))
  {
    if Enabled(w, c) && c.CallSend? { RefusedExactly(w.sys, c.p, c.to, Message(c.p, c.kind, c.body)); }
  }

  lemma ClosedPath(s: Sys, s': Sys, path: seq<int>, p: int, d: int, m: Message)
    requires IsPath(s, path) && path[0] == d && path[|path| - 1] == p && 0 <= p < |s.mode| && s.mode[p] == Ready
    requires s'.mode == s.mode[p := Sending(d, m)]
    ensures Circle(s')
  {
    var circle := path + [d];
    forall i | 0 <= i < |circle| - 1 ensures WaitsFor(s', circle[i], circle[i + 1]) {
      if i < |path| - 1 { assert WaitsFor(s, path[i], path[i + 1]); }
    }
    assert IsPath(s', circle) && |circle| >= 2 && circle[0] == circle[|circle| - 1];
  }
}
