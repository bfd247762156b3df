// Whole runs of the message-passing machine: safety, conservation of messages
// and bounded waiting, for every sequence of calls and interrupts.
module IpcRuns {
  import opened Constants
  import opened IpcSpec
  import opened IpcInvariant

  datatype Call =
    | CallSend(p: int, to: int, kind: int, body: seq<int>)
    | CallReceive(p: int, src: int)
    | HardwareInterrupt(p: int)

  // halted: panic stops the machine.  A failed assertion on the arguments
  // makes the caller spin, which changes no state.
  datatype World = World(sys: Sys, log: seq<Event>, halted: bool)

  // Only a running process makes a call (kernel/proc.c:248-264).
  predicate Enabled(w: World, c: Call)
    requires WellShaped(w.sys)
  {
    && !w.halted
    && match c
       case CallSend(p, d, _, _) => IsPid(p) && IsPid(d) && w.sys.mode[p] == Ready
       case CallReceive(p, src) => IsPid(p) && w.sys.mode[p] == Ready && (IsPid(src) || src == ANY || src == INTERRUPT)
       case HardwareInterrupt(p) => IsPid(p)
  }

  ghost function StepResult(w: World, c: Call): Result
    requires Inv(w.sys) && Enabled(w, c)
  {
    match c
    case CallSend(p, d, kind, body) => Send(w.sys, p, d, Message(p, kind, body))
    case CallReceive(p, src) => Receive(w.sys, p, src)
    case HardwareInterrupt(p) => Interrupt(w.sys, p)
  }

  ghost function Step(w: World, c: Call): (w': World)
    requires Inv(w.sys)
    ensures Inv(w'.sys)
  {
    if !Enabled(w, c) then w
    else
      var r := StepResult(w, c);
      StepKeepsInv(w, c);
      World(r.sys, w.log + r.events, r.outcome == Panic)
  }

  lemma StepKeepsInv(w: World, c: Call)
    requires Inv(w.sys) && Enabled(w, c)
    ensures Inv(StepResult(w, c).sys)
  {
    match c
    case CallSend(p, d, kind, body) => SendKeepsInv(w.sys, p, d, Message(p, kind, body));
    case CallReceive(p, src) => ReceiveKeepsInv(w.sys, p, src);
    case HardwareInterrupt(p) => InterruptKeepsInv(w.sys, p);
  }

  ghost function Run(w: World, calls: seq<Call>): (w': World)
    requires Inv(w.sys)
    ensures Inv(w'.sys)
    decreases |calls|
  {
    if calls == [] then w else Step(Run(w, calls[..|calls| - 1]), calls[|calls| - 1])
  }

  const NO_MESSAGE := Message(0, 0, EMPTY_BODY)

  // The table after kernel_main: tasks and native processes ready, the rest free.
  const BOOT := World(
    Sys(seq(NR_ALL, i => if i < FIRST_FORKED then Ready else Free), seq(NR_ALL, i => false),
        seq(NR_ALL, i => []), seq(NR_ALL, i => NO_MESSAGE)),
    [], false)

  lemma BootInv()
    ensures Inv(BOOT.sys)
  {
    forall a | 0 <= a < |BOOT.sys.mode| ensures EndsSomewhere(BOOT.sys, a) {
      assert IsChain(BOOT.sys, a, [a]);
    }
  }

  // In every reachable state no chain of blocked senders is a circle, no
  // process waits for one that is queued on it, and no interrupt is lost.
  lemma ReachableStatesAreSafe(calls: seq<Call>)
    ensures Inv(BOOT.sys) && Inv(Run(BOOT, calls).sys)
    ensures forall path :: IsPath(Run(BOOT, calls).sys, path) && |path| >= 2 ==> path[0] != path[|path| - 1]
  {
    BootInv();
    var s := Run(BOOT, calls).sys;
    forall path | IsPath(s, path) && |path| >= 2 ensures path[0] != path[|path| - 1] {
      NoCycle(s, path);
    }
  }

  // ------------------------------------------------ conservation of messages

  ghost function Sent(log: seq<Event>): multiset<Packet>
    decreases |log|
  {
    if log == [] then multiset{}
    else Sent(log[..|log| - 1]) + (match log[|log| - 1] case Accepted(pk) => multiset{pk} case _ => multiset{})
  }

  ghost function Delivered(log: seq<Event>): multiset<Packet>
    decreases |log|
  {
    if log == [] then multiset{}
    else
      var last :=
        match log[|log| - 1] case Met(pk) => multiset{pk} case Taken(pk, _) => multiset{pk} case _ => multiset{};
      Delivered(log[..|log| - 1]) + last
  }

  // One packet for each blocked sender.
  ghost function InFlight(s: Sys): set<Packet> {
    set p | 0 <= p < |s.mode| && s.mode[p].Sending? :: Packet(p, s.mode[p].to, s.mode[p].m)
  }

  lemma InFlightGrows(s: Sys, s': Sys, p: int, d: int, m: Message)
    requires 0 <= p < |s.mode| && !s.mode[p].Sending? && s'.mode == s.mode[p := Sending(d, m)]
    ensures InFlight(s') == InFlight(s) + {Packet(p, d, m)} && Packet(p, d, m) !in InFlight(s)
  {
    forall x | x in InFlight(s') ensures x in InFlight(s) + {Packet(p, d, m)} {}
    forall x | x in InFlight(s) + {Packet(p, d, m)} ensures x in InFlight(s') {
      assert s'.mode[x.from].Sending?;
    }
  }

  lemma InFlightShrinks(s: Sys, s': Sys, p: int)
    requires 0 <= p < |s.mode| && s.mode[p].Sending? && s'.mode == s.mode[p := Ready]
    ensures
      var pk := Packet(p, s.mode[p].to, s.mode[p].m);
      InFlight(s) == InFlight(s') + {pk} && pk !in InFlight(s')
  {
    InFlightGrows(s', s, p, s.mode[p].to, s.mode[p].m);
  }

  lemma InFlightSame(s: Sys, s': Sys, p: int)
    requires 0 <= p < |s.mode| && |s'.mode| == |s.mode|
    requires forall a :: 0 <= a < |s.mode| && a != p ==> s'.mode[a] == s.mode[a]
    requires !s.mode[p].Sending? && !s'.mode[p].Sending?
    ensures InFlight(s') == InFlight(s)
  {
    forall x | x in InFlight(s) ensures x in InFlight(s') { assert s'.mode[x.from].Sending?; }
    forall x | x in InFlight(s') ensures x in InFlight(s) { assert s.mode[x.from].Sending?; }
  }

  lemma LogAppend1(log: seq<Event>, e: Event)
    ensures Sent(log + [e]) == Sent(log) + (match e case Accepted(pk) => multiset{pk} case _ => multiset{})
    ensures Delivered(log + [e]) == Delivered(log)
      + (match e case Met(pk) => multiset{pk} case Taken(pk, _) => multiset{pk} case _ => multiset{})
  {
    assert (log + [e])[..|log|] == log;
  }

  lemma LogAppend2(log: seq<Event>, pk: Packet)
    ensures Sent(log + [Accepted(pk), Met(pk)]) == Sent(log) + multiset{pk}
    ensures Delivered(log + [Accepted(pk), Met(pk)]) == Delivered(log) + multiset{pk}
  {
    assert log + [Accepted(pk), Met(pk)] == (log + [Accepted(pk)]) + [Met(pk)];
    LogAppend1(log, Accepted(pk));
    LogAppend1(log + [Accepted(pk)], Met(pk));
  }

  ghost predicate Balances(log: seq<Event>, s: Sys) {
    Sent(log) == Delivered(log) + multiset(InFlight(s))
  }

  ghost predicate Balanced(w: World) {
    Balances(w.log, w.sys)
  }

  lemma MeetingBalances(log: seq<Event>, s: Sys, s': Sys, pk: Packet)
    requires Balances(log, s) && InFlight(s') == InFlight(s)
    ensures Balances(log + [Accepted(pk), Met(pk)], s')
  {
    LogAppend2(log, pk);
  }

  lemma BlockingBalances(log: seq<Event>, s: Sys, s': Sys, pk: Packet)
    requires Balances(log, s) && 0 <= pk.from < |s.mode| && !s.mode[pk.from].Sending?
    requires s'.mode == s.mode[pk.from := Sending(pk.to, pk.m)]
    ensures Balances(log + [Accepted(pk)], s')
  {
    InFlightGrows(s, s', pk.from, pk.to, pk.m);
    LogAppend1(log, Accepted(pk));
  }

  lemma TakingBalances(log: seq<Event>, s: Sys, s': Sys, pk: Packet, any: bool)
    requires Balances(log, s) && 0 <= pk.from < |s.mode| && s.mode[pk.from] == Sending(pk.to, pk.m)
    requires s'.mode == s.mode[pk.from := Ready]
    ensures Balances(log + [Taken(pk, any)], s')
  {
    InFlightShrinks(s, s', pk.from);
    LogAppend1(log, Taken(pk, any));
  }

  lemma QuietStepBalances(log: seq<Event>, s: Sys, s': Sys, es: seq<Event>)
    requires Balances(log, s) && InFlight(s') == InFlight(s)
    requires es == [] || (|es| == 1 && es[0].Signalled?)
    ensures Balances(log + es, s')
  {
    if es == [] {
      assert log + es == log;
    } else {
      LogAppend1(log, es[0]);
      assert es == [es[0]];
    }
  }

  lemma SendBalances(log: seq<Event>, s: Sys, p: int, d: int, m: Message)
    requires WellShaped(s) && Balances(log, s) && IsPid(p) && IsPid(d) && s.mode[p] == Ready
    ensures var t := Send(s, p, d, m); Balances(log + t.events, t.sys)
  {
    var t := Send(s, p, d, m);
    if p == d || Reaches(s, d, p) {
      QuietStepBalances(log, s, s, t.events);
    } else if Accepts(s.mode[d], p) {
      InFlightSame(s, t.sys, d);
      MeetingBalances(log, s, t.sys, Packet(p, d, m));
    } else {
      BlockingBalances(log, s, t.sys, Packet(p, d, m));
    }
  }

  lemma ReceiveBalances(log: seq<Event>, s: Sys, r: int, src: int)
    requires WellShaped(s) && QueuesMatch(s) && Balances(log, s) && IsPid(r) && s.mode[r] == Ready
    requires IsPid(src) || src == ANY || src == INTERRUPT
    ensures var t := Receive(s, r, src); Balances(log + t.events, t.sys)
  {
    var t := Receive(s, r, src);
    if t.events != [] && t.events[0].Taken? {
      var i := if src == ANY then 0 else IndexOf(s.queue[r], src);
      assert WaitsFor(s, s.queue[r][i], r);
      TakingBalances(log, s, t.sys, t.events[0].pk, t.events[0].any);
    } else {
      InFlightSame(s, t.sys, r);
      QuietStepBalances(log, s, t.sys, t.events);
    }
  }

  lemma InterruptBalances(log: seq<Event>, s: Sys, r: int)
    requires WellShaped(s) && Balances(log, s) && IsPid(r)
    ensures var t := Interrupt(s, r); Balances(log + t.events, t.sys)
  {
    var t := Interrupt(s, r);
    if t.events != [] {
      InFlightSame(s, t.sys, r);
    } else {
      assert InFlight(t.sys) == InFlight(s);
    }
    QuietStepBalances(log, s, t.sys, t.events);
  }

  lemma StepKeepsBalance(w: World, c: Call)
    requires Inv(w.sys) && Balanced(w)
    ensures Balanced(Step(w, c))
  {
    if Enabled(w, c) {
      match c
      case CallSend(p, d, kind, body) => SendBalances(w.log, w.sys, p, d, Message(p, kind, body));
      case CallReceive(p, src) => ReceiveBalances(w.log, w.sys, p, src);
      case HardwareInterrupt(p) => InterruptBalances(w.log, w.sys, p);
    }
  }

  // What was accepted is what was delivered plus one message for each blocked
  // sender: nothing is lost, doubled, altered or delivered elsewhere.
  lemma {:induction false} MessagesAreConserved(w: World, calls: seq<Call>)
    requires Inv(w.sys) && Balanced(w)
    ensures Balanced(Run(w, calls))
    decreases |calls|
  {
    if calls != [] {
      var front := calls[..|calls| - 1];
      MessagesAreConserved(w, front);
      StepKeepsBalance(Run(w, front), calls[|calls| - 1]);
    }
  }

  lemma MessagesAreConservedFromBoot(calls: seq<Call>)
    ensures Inv(BOOT.sys)
    ensures
      var w := Run(BOOT, calls);
      Sent(w.log) == Delivered(w.log) + multiset(InFlight(w.sys))
  {
    BootInv();
    assert InFlight(BOOT.sys) == {};
    MessagesAreConserved(BOOT, calls);
  }

  // ------------------------------------------------------ who signs messages

  // The kernel writes the sender into a message, between two processes.
  predicate Signed(pk: Packet) {
    IsPid(pk.from) && IsPid(pk.to) && pk.from != pk.to && pk.m.source == pk.from
  }

  ghost predicate AllSigned(log: seq<Event>) {
    forall pk :: pk in Sent(log) ==> Signed(pk)
  }

  predicate SignsItsOwn(e: Event) { e.Accepted? ==> Signed(e.pk) }

  lemma {:induction false} EventsSign(log: seq<Event>, es: seq<Event>)
    requires AllSigned(log) && forall i :: 0 <= i < |es| ==> SignsItsOwn(es[i])
    ensures AllSigned(log + es)
    decreases |es|
  {
    if es == [] {
      assert log + es == log;
    } else {
      var front, e := es[..|es| - 1], es[|es| - 1];
      EventsSign(log, front);
      LogAppend1(log + front, e);
      assert log + es == (log + front) + [e] && SignsItsOwn(e);
    }
  }

  lemma StepSigns(w: World, c: Call)
    requires Inv(w.sys) && AllSigned(w.log)
    ensures AllSigned(Step(w, c).log)
  {
    if Enabled(w, c) {
      var es := StepResult(w, c).events;
      assert forall i :: 0 <= i < |es| ==> SignsItsOwn(es[i]);
      EventsSign(w.log, es);
    }
  }

  lemma {:induction false} RunSigns(w: World, calls: seq<Call>)
    requires Inv(w.sys) && AllSigned(w.log)
    ensures AllSigned(Run(w, calls).log)
    decreases |calls|
  {
    if calls != [] {
      var front := calls[..|calls| - 1];
      RunSigns(w, front);
      StepSigns(Run(w, front), calls[|calls| - 1]);
    }
  }

  // Over any run, what was accepted, what was delivered and what is in flight
  // carries the name of the process that sent it.
  lemma EveryMessageIsSigned(calls: seq<Call>)
    ensures Inv(BOOT.sys)
    ensures
      var w := Run(BOOT, calls);
      forall pk :: pk in Sent(w.log) || pk in Delivered(w.log) || pk in InFlight(w.sys) ==> Signed(pk)
  {
    MessagesAreConservedFromBoot(calls);
    RunSigns(BOOT, calls);
  }

  lemma DeliveryStep(w: World, c: Call, i: nat)
    requires Inv(w.sys) && Enabled(w, c)
    requires i < |StepResult(w, c).events|
    requires StepResult(w, c).events[i].Met? || StepResult(w, c).events[i].Taken?
    ensures
      var t := StepResult(w, c);
      var pk := t.events[i].pk;
      && IsPid(pk.to) && t.sys.inbox[pk.to] == pk.m && t.sys.mode[pk.to] == Ready
      && (t.events[i].Met? ==>
            c.CallSend? && pk == Packet(c.p, c.to, Message(c.p, c.kind, c.body)) && c.p != c.to)
      && (t.events[i].Taken? ==> pk in InFlight(w.sys))
  {
    var es := StepResult(w, c).events;
    if c.CallReceive? {
      assert WaitsFor(w.sys, es[i].pk.from, c.p);
    }
  }

  // Whenever a message is delivered in a run, the buffer of the process it was
  // sent to holds it, signed by the process that sent it, either in this call
  // or in an earlier one.
  lemma DeliveryReachesTheBuffer(calls: seq<Call>, c: Call, i: nat)
    requires Inv(BOOT.sys) && Enabled(Run(BOOT, calls), c)
    requires i < |StepResult(Run(BOOT, calls), c).events|
    requires !StepResult(Run(BOOT, calls), c).events[i].Accepted?
    requires !StepResult(Run(BOOT, calls), c).events[i].Signalled?
    ensures
      var w := Run(BOOT, calls);
      var e := StepResult(w, c).events[i];
      var pk := e.pk;
      && Signed(pk) && Step(w, c).sys.inbox[pk.to] == pk.m && Step(w, c).sys.mode[pk.to] == Ready
      && if e.Met? then c.CallSend? && pk == Packet(c.p, c.to, Message(c.p, c.kind, c.body))
         else pk in Sent(w.log) && pk in InFlight(w.sys)
  {
    var w := Run(BOOT, calls);
    DeliveryStep(w, c, i);
    MessagesAreConservedFromBoot(calls);
    EveryMessageIsSigned(calls);
  }

  // -------------------------------------------------------- bounded bypass

  predicate TakenFrom(log: seq<Event>, p: int) {
    exists i :: 0 <= i < |log| && log[i].Taken? && log[i].pk.from == p
  }

  // Receives of r with ANY that took a queued sender.
  function AnyTakes(log: seq<Event>, r: int): nat
    decreases |log|
  {
    if log == [] then 0
    else
      var e := log[|log| - 1];
      AnyTakes(log[..|log| - 1], r) + (if e.Taken? && e.any && e.pk.to == r then 1 else 0)
  }

  lemma {:induction false} AnyTakesAppend(log: seq<Event>, es: seq<Event>, r: int)
    ensures AnyTakes(log + es, r) == AnyTakes(log, r) + AnyTakes(es, r)
    decreases |es|
  {
    if es == [] {
      assert log + es == log;
    } else {
      var front := es[..|es| - 1];
      AnyTakesAppend(log, front, r);
      assert (log + es)[..|log + es| - 1] == log + front;
    }
  }

  // Position of p among the senders queued on r.
  function Position(s: Sys, r: int, p: int): nat
    requires WellShaped(s) && IsPid(r) && p in s.queue[r]
  {
    IndexOf(s.queue[r], p)
  }

  lemma IndexIsUnique(q: seq<int>, i: nat)
    requires i < |q| && NoDuplicates(q)
    ensures IndexOf(q, q[i]) == i
  {
  }

  lemma TakeMovesUp(s: Sys, r: int, i: nat, any: bool, p: int)
    requires Inv(s) && IsPid(r) && s.mode[r] == Ready && i < |s.queue[r]|
    requires p in s.queue[r] && s.queue[r][i] != p
    ensures WaitsFor(s, s.queue[r][i], r)
    ensures
      var s' := Take(s, r, i, any).sys;
      p in s'.queue[r] && Position(s', r, p) == Position(s, r, p) - (if i < Position(s, r, p) then 1 else 0)
  {
    assert WaitsFor(s, s.queue[r][i], r);
    var q, k := s.queue[r], Position(s, r, p);
    WithoutKeepsOthers(q, i);
    IndexIsUnique(Without(q, i), if i < k then k - 1 else k);
  }

  // One step: a queued process moves towards the head, by one on each
  // ANY-receive, until it is taken itself.
  lemma StepMovesUp(w: World, c: Call, r: int, p: int)
    requires Inv(w.sys) && Enabled(w, c) && IsPid(r) && p in w.sys.queue[r]
    requires !TakenFrom(StepResult(w, c).events, p)
    ensures
      var t := StepResult(w, c);
      p in t.sys.queue[r] && Position(t.sys, r, p) + AnyTakes(t.events, r) <= Position(w.sys, r, p)
  {
    var s, t := w.sys, StepResult(w, c);
    assert WaitsFor(s, s.queue[r][IndexOf(s.queue[r], p)], r);
    match c
    case CallSend(x, d, kind, body) =>
      NoTakesInASend(t.events, r);
      if t.sys.queue != s.queue && d == r {
        IndexOfPrefix(s.queue[r], [x], p);
      }
    case CallReceive(x, src) => ReceiveMovesUp(s, x, src, r, p);
    case HardwareInterrupt(x) =>
  }

  lemma ReceiveMovesUp(s: Sys, x: int, src: int, r: int, p: int)
    requires Inv(s) && IsPid(x) && s.mode[x] == Ready && (IsPid(src) || src == ANY || src == INTERRUPT)
    requires IsPid(r) && p in s.queue[r] && !TakenFrom(Receive(s, x, src).events, p)
    ensures
      var t := Receive(s, x, src);
      p in t.sys.queue[r] && Position(t.sys, r, p) + AnyTakes(t.events, r) <= Position(s, r, p)
  {
    var t := Receive(s, x, src);
    if t.events != [] && t.events[0].Taken? {
      var i := if src == ANY then 0 else IndexOf(s.queue[x], src);
      assert s.queue[x][i] == t.events[0].pk.from;
      if x == r {
        TakeMovesUp(s, r, i, src == ANY, p);
      }
    }
  }

  lemma NoTakesInASend(log: seq<Event>, r: int)
    requires forall i :: 0 <= i < |log| ==> !log[i].Taken?
    ensures AnyTakes(log, r) == 0
  {
  }

  lemma IndexOfPrefix(q: seq<int>, tail: seq<int>, p: int)
    requires p in q
    ensures IndexOf(q + tail, p) == IndexOf(q, p)
  {
    if q[0] != p {
      assert (q + tail)[1..] == q[1..] + tail;
      IndexOfPrefix(q[1..], tail, p);
    }
  }

  lemma TakenFromAppend(log: seq<Event>, es: seq<Event>, p: int)
    ensures TakenFrom(log + es, p) <==> TakenFrom(log, p) || TakenFrom(es, p)
  {
    var all := log + es;
    if TakenFrom(log, p) {
      var i :| 0 <= i < |log| && log[i].Taken? && log[i].pk.from == p;
      assert all[i] == log[i];
    }
    if TakenFrom(es, p) {
      var i :| 0 <= i < |es| && es[i].Taken? && es[i].pk.from == p;
      assert all[|log| + i] == es[i];
    }
  }

  // p is still queued on r after the events news, and has moved up enough.
  ghost predicate MovedUp(w: World, w': World, news: seq<Event>, r: int, p: int)
    requires WellShaped(w.sys) && WellShaped(w'.sys) && IsPid(r) && p in w.sys.queue[r]
  {
    && w'.log == w.log + news
    && (TakenFrom(news, p)
        || (p in w'.sys.queue[r] && Position(w'.sys, r, p) + AnyTakes(news, r) <= Position(w.sys, r, p)))
  }

  lemma OneMoreStep(w: World, w1: World, news: seq<Event>, c: Call, r: int, p: int) returns (more: seq<Event>)
    requires Inv(w.sys) && Inv(w1.sys) && IsPid(r) && p in w.sys.queue[r] && MovedUp(w, w1, news, r, p)
    ensures MovedUp(w, Step(w1, c), more, r, p)
  {
    more := news;
    if Enabled(w1, c) {
      var es := StepResult(w1, c).events;
      more := news + es;
      assert Step(w1, c).log == w.log + more;
      TakenFromAppend(news, es, p);
      if !TakenFrom(more, p) {
        AnyTakesAppend(news, es, r);
        StepMovesUp(w1, c, r, p);
      }
    }
  }

  // Over any run: while p is not taken, every ANY-receive of r that is not
  // answered by an interrupt brings p one place nearer.
  lemma {:induction false} BoundedBypass(w: World, calls: seq<Call>, r: int, p: int) returns (news: seq<Event>)
    requires Inv(w.sys) && IsPid(r) && p in w.sys.queue[r]
    ensures MovedUp(w, Run(w, calls), news, r, p)
    decreases |calls|
  {
    if calls == [] {
      news := [];
    } else {
      var front, c := calls[..|calls| - 1], calls[|calls| - 1];
      news := BoundedBypass(w, front, r, p);
      news := OneMoreStep(w, Run(w, front), news, c, r, p);
    }
  }

  // With k senders ahead, k + 1 such receives are enough.
  lemma ServedInTurn(w: World, calls: seq<Call>, r: int, p: int)
    requires Inv(w.sys) && IsPid(r) && p in w.sys.queue[r]
    ensures w.log <= Run(w, calls).log
    ensures
      var news := Run(w, calls).log[|w.log|..];
      AnyTakes(news, r) > Position(w.sys, r, p) ==> TakenFrom(news, p)
  {
    var news := BoundedBypass(w, calls, r, p);
    assert Run(w, calls).log[|w.log|..] == news;
  }
}
