// The choice of the next process and the charging of clock ticks, with the
// bound on how long a runnable process waits.
module SchedulerSpec {
  import opened Constants

  datatype Slot = Slot(flags: set<Flag>, ticks: int, priority: int)

  datatype State = State(slots: seq<Slot>, ready: nat)

  predicate Runnable(s: Slot) { s.flags == {} }

  // Runnable, with a positive number of ticks that no other exceeds, and the
  // first such process of the table.
  predicate IsFirstGreatest(t: seq<Slot>, i: int) {
    && 0 <= i < |t| && Runnable(t[i]) && t[i].ticks > 0
    && (forall j :: 0 <= j < |t| && Runnable(t[j]) ==> t[j].ticks <= t[i].ticks)
    && (forall j :: 0 <= j < i && Runnable(t[j]) ==> t[j].ticks < t[i].ticks)
  }

  // The process one pass over the table finds, -1 for none.
  function Best(t: seq<Slot>): (b: int)
    ensures -1 <= b < |t|
  {
    if t == [] then -1
    else
      var n := |t| - 1;
      var b := Best(t[..n]);
      if Runnable(t[n]) && t[n].ticks > (if b < 0 then 0 else t[b].ticks) then n else b
  }

  lemma {:induction false} BestIsFirstGreatest(t: seq<Slot>)
    ensures Best(t) >= 0 ==> IsFirstGreatest(t, Best(t))
    ensures Best(t) < 0 ==> forall j :: 0 <= j < |t| && Runnable(t[j]) ==> t[j].ticks <= 0
  {
    if t != [] {
      var front := t[..|t| - 1];
      BestIsFirstGreatest(front);
      forall j | 0 <= j < |t| - 1 ensures t[j] == front[j] {}
    }
  }

  // A new epoch: every runnable process gets its priority as time slice.
  function Refill(t: seq<Slot>): (r: seq<Slot>)
    ensures |r| == |t|
  {
    seq(|t|, i requires 0 <= i < |t| => if Runnable(t[i]) then t[i].(ticks := t[i].priority) else t[i])
  }

  // schedule() ends: somebody can run now or after a refill.
  predicate CanSchedule(t: seq<Slot>) {
    exists i :: 0 <= i < |t| && Runnable(t[i]) && (t[i].ticks > 0 || t[i].priority > 0)
  }

  lemma CanScheduleInTwoPasses(t: seq<Slot>)
    ensures CanSchedule(t) <==> Best(t) >= 0 || Best(Refill(t)) >= 0
  {
    BestIsFirstGreatest(t);
    BestIsFirstGreatest(Refill(t));
    if CanSchedule(t) {
      var i :| 0 <= i < |t| && Runnable(t[i]) && (t[i].ticks > 0 || t[i].priority > 0);
      assert Runnable(Refill(t)[i]) && Refill(t)[i].ticks == t[i].priority;
    }
    if Best(Refill(t)) >= 0 {
      assert Runnable(t[Best(Refill(t))]);
    }
  }

  function Schedule(s: State): (s': State)
    requires CanSchedule(s.slots)
    ensures IsFirstGreatest(s'.slots, s'.ready)
    ensures s'.slots == s.slots || s'.slots == Refill(s.slots)
  {
    CanScheduleInTwoPasses(s.slots);
    BestIsFirstGreatest(s.slots);
    BestIsFirstGreatest(Refill(s.slots));
    if Best(s.slots) >= 0 then s.(ready := Best(s.slots))
    else State(Refill(s.slots), Best(Refill(s.slots)))
  }

  // ------------------------------------------------------------------ steps

  // Clock: an interrupt outside the kernel; wakesTty tells whether it made the
  // terminal task ready.  Block: q stops being runnable.  Unblock: q is ready.
  datatype Event = Clock(wakesTty: bool) | Block(q: nat, flag: Flag) | Unblock(q: nat)

  function Charge(t: seq<Slot>, i: nat): (r: seq<Slot>)
    requires i < |t|
    ensures |r| == |t|
  {
    t[i := t[i].(ticks := t[i].ticks - 1)]
  }

  function Wake(t: seq<Slot>, i: nat): (r: seq<Slot>)
    requires i < |t|
    ensures |r| == |t|
  {
    t[i := t[i].(flags := {})]
  }

  // The table after a clock interrupt has charged the running process.
  function Charged(s: State, wakesTty: bool): (t: seq<Slot>)
    requires WellShaped(s)
    ensures |t| == |s.slots|
  {
    var c := Charge(s.slots, s.ready);
    if wakesTty then Wake(c, TASK_TTY) else c
  }

  // schedule() as the rest of a step.  With nobody to run it spins, and only
  // another event can change the state.
  function ScheduleOrSpin(s: State): State {
    if CanSchedule(s.slots) then Schedule(s) else s
  }

  predicate WellShaped(s: State) {
    |s.slots| == NR_ALL && s.ready < NR_ALL
  }

  function Step(s: State, e: Event): (s': State)
    requires WellShaped(s)
    ensures WellShaped(s')
  {
    match e
    case Clock(wakes) =>
      var t := Charged(s, wakes);
      if t[s.ready].ticks > 0 then s.(slots := t) else ScheduleOrSpin(s.(slots := t))
    case Block(q, flag) =>
      if q >= NR_ALL then s
      else
        var t := s.slots[q := s.slots[q].(flags := s.slots[q].flags + {flag})];
        if q == s.ready then ScheduleOrSpin(s.(slots := t)) else s.(slots := t)
    case Unblock(q) => if q >= NR_ALL then s else s.(slots := Wake(s.slots, q))
  }

  function Run(s: State, es: seq<Event>): (s': State)
    requires WellShaped(s)
    ensures WellShaped(s')
    decreases |es|
  {
    if es == [] then s else Step(Run(s, es[..|es| - 1]), es[|es| - 1])
  }

  function Clocks(es: seq<Event>): nat
    decreases |es|
  {
    if es == [] then 0 else Clocks(es[..|es| - 1]) + (if es[|es| - 1].Clock? then 1 else 0)
  }

  // Some interrupt of the run takes a tick from p.
  predicate ChargedIn(s: State, es: seq<Event>, p: nat)
    requires WellShaped(s)
  {
    exists n :: 0 <= n < |es| && es[n].Clock? && Run(s, es[..n]).ready == p
  }

  predicate NeverBlocked(es: seq<Event>, p: nat) {
    forall n :: 0 <= n < |es| ==> !(es[n].Block? && es[n].q == p)
  }

  // ------------------------------------------------------------ no starvation

  function PositivePart(x: int): nat { if x > 0 then x else 0 }

  // Positive ticks of the processes other than p.
  function OthersTicks(t: seq<Slot>, p: nat): nat
    decreases |t|
  {
    if t == [] then 0
    else OthersTicks(t[..|t| - 1], p) + (if |t| - 1 == p then 0 else PositivePart(t[|t| - 1].ticks))
  }

  lemma {:induction false} OthersTicksUpdate(t: seq<Slot>, p: nat, i: nat, x: Slot)
    requires i < |t| && i != p
    ensures OthersTicks(t[i := x], p) == OthersTicks(t, p) - PositivePart(t[i].ticks) + PositivePart(x.ticks)
    decreases |t|
  {
    var n := |t| - 1;
    if i == n {
      assert t[i := x][..n] == t[..n];
    } else {
      assert t[i := x][..n] == t[..n][i := x];
      OthersTicksUpdate(t[..n], p, i, x);
    }
  }

  lemma {:induction false} OthersTicksIgnoresSelf(t: seq<Slot>, p: nat, x: Slot)
    requires p < |t|
    ensures OthersTicks(t[p := x], p) == OthersTicks(t, p)
    decreases |t|
  {
    var n := |t| - 1;
    if p == n {
      assert t[p := x][..n] == t[..n];
    } else {
      assert t[p := x][..n] == t[..n][p := x];
      OthersTicksIgnoresSelf(t[..n], p, x);
    }
  }

  lemma FlagsDoNotCount(t: seq<Slot>, p: nat, i: nat, flags: set<Flag>)
    requires i < |t|
    ensures OthersTicks(t[i := t[i].(flags := flags)], p) == OthersTicks(t, p)
  {
    if i == p { OthersTicksIgnoresSelf(t, p, t[i].(flags := flags)); }
    else { OthersTicksUpdate(t, p, i, t[i].(flags := flags)); }
  }

  predicate Waits(s: State, p: nat) {
    WellShaped(s) && p < NR_ALL && Runnable(s.slots[p]) && s.slots[p].ticks > 0
  }

  // One charge is wasted when the process that runs has none left.
  function Slack(s: State): nat
    requires WellShaped(s)
  {
    if s.slots[s.ready].ticks > 0 then 0 else 1
  }

  // While p waits with ticks of its own nothing is refilled.
  lemma NoRefillWhileWaiting(s: State, p: nat)
    requires Waits(s, p)
    ensures CanSchedule(s.slots) && Schedule(s).slots == s.slots && Slack(Schedule(s)) == 0
  {
    BestIsFirstGreatest(s.slots);
  }

  predicate NoTicksGained(s: State, s': State) {
    |s'.slots| == |s.slots| && forall i :: 0 <= i < |s.slots| ==> s'.slots[i].ticks <= s.slots[i].ticks
  }

  // p waits on, and what the others have pays for the step.
  ghost predicate PaidFor(s: State, s': State, p: nat, charges: nat) {
    && Waits(s, p) && Waits(s', p) && s'.slots[p].ticks == s.slots[p].ticks && NoTicksGained(s, s')
    && OthersTicks(s'.slots, p) + Slack(s') + charges <= OthersTicks(s.slots, p) + Slack(s)
  }

  lemma ClockUsesTicks(s: State, wakes: bool, p: nat)
    requires Waits(s, p) && s.ready != p
    ensures PaidFor(s, Step(s, Clock(wakes)), p, 1)
  {
    var charged := Charge(s.slots, s.ready);
    OthersTicksUpdate(s.slots, p, s.ready, charged[s.ready]);
    FlagsDoNotCount(charged, p, TASK_TTY, {});
    NoRefillWhileWaiting(s.(slots := Charged(s, wakes)), p);
  }

  lemma BlockUsesNothing(s: State, q: nat, flag: Flag, p: nat)
    requires Waits(s, p) && p != q
    ensures PaidFor(s, Step(s, Block(q, flag)), p, 0)
  {
    if q < NR_ALL {
      var flags := s.slots[q].flags + {flag};
      FlagsDoNotCount(s.slots, p, q, flags);
      NoRefillWhileWaiting(s.(slots := s.slots[q := s.slots[q].(flags := flags)]), p);
    }
  }

  lemma UnblockUsesNothing(s: State, q: nat, p: nat)
    requires Waits(s, p)
    ensures PaidFor(s, Step(s, Unblock(q)), p, 0)
  {
    if q < NR_ALL { FlagsDoNotCount(s.slots, p, q, {}); }
  }

  lemma StepUsesTicks(s: State, e: Event, p: nat)
    requires Waits(s, p) && !(e.Block? && e.q == p) && !(e.Clock? && s.ready == p)
    ensures PaidFor(s, Step(s, e), p, if e.Clock? then 1 else 0)
  {
    match e
    case Clock(wakes) => ClockUsesTicks(s, wakes, p);
    case Block(q, flag) => BlockUsesNothing(s, q, flag, p);
    case Unblock(q) => UnblockUsesNothing(s, q, p);
  }

  lemma ChargedInPrefix(s: State, es: seq<Event>, n: nat, p: nat)
    requires WellShaped(s) && n <= |es| && ChargedIn(s, es[..n], p)
    ensures ChargedIn(s, es, p)
  {
    var k :| 0 <= k < n && es[..n][k].Clock? && Run(s, es[..n][..k]).ready == p;
    assert es[..n][..k] == es[..k];
    assert es[k].Clock?;
  }

  // Until p is charged, each interrupt uses up a tick of somebody else.
  lemma {:induction false} WaitingIsPaidFor(s: State, es: seq<Event>, p: nat)
    requires Waits(s, p) && NeverBlocked(es, p) && !ChargedIn(s, es, p)
    ensures PaidFor(s, Run(s, es), p, Clocks(es))
    decreases |es|
  {
    if es != [] {
      var n := |es| - 1;
      if ChargedIn(s, es[..n], p) {
        ChargedInPrefix(s, es, n, p);
      } else {
        WaitingIsPaidFor(s, es[..n], p);
        StepUsesTicks(Run(s, es[..n]), es[n], p);
      }
    }
  }

  // A process that stays runnable with ticks left is charged at the latest by
  // the interrupt after as many as the others have ticks.
  lemma NoStarvation(s: State, es: seq<Event>, p: nat)
    requires Waits(s, p) && NeverBlocked(es, p)
    requires Clocks(es) > OthersTicks(s.slots, p) + Slack(s)
    ensures ChargedIn(s, es, p)
  {
    if !ChargedIn(s, es, p) { WaitingIsPaidFor(s, es, p); }
  }

  // From a state where the running process has a tick left, and as long as
  // somebody can run, the slack above is 0.
  lemma {:induction false} RunningHasTicks(s: State, es: seq<Event>)
    requires WellShaped(s) && Slack(s) == 0
    requires forall n :: 0 <= n <= |es| ==> CanSchedule(Run(s, es[..n]).slots)
    ensures Slack(Run(s, es)) == 0
    decreases |es|
  {
    if es != [] {
      var front := es[..|es| - 1];
      forall n | 0 <= n <= |front| ensures CanSchedule(Run(s, front[..n]).slots) {
        assert front[..n] == es[..n];
      }
      RunningHasTicks(s, front);
      assert es[..|es|] == es;
    }
  }
}
