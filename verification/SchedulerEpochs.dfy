// What an interrupt does to the time slices, and what an epoch is: the runs
// between two refills.
module SchedulerEpochs {
  import opened Constants
  import opened SchedulerSpec

  // A process that could run at once.
  predicate SomebodyCanRun(t: seq<Slot>) {
    exists i :: 0 <= i < |t| && t[i].flags == {} && t[i].ticks > 0
  }

  // New time slices for those who can run, and nothing else.
  predicate NewSlices(t: seq<Slot>, t': seq<Slot>) {
    && |t'| == |t|
    && forall i :: 0 <= i < |t| ==>
         && t'[i].flags == t[i].flags && t'[i].priority == t[i].priority
         && t'[i].ticks == if t[i].flags == {} then t[i].priority else t[i].ticks
  }

  // schedule() gives new slices exactly if nobody could run, and leaves the
  // table alone otherwise (kernel/proc.c:20-33).
  lemma RefillExactly(s: State)
    requires CanSchedule(s.slots)
    ensures if SomebodyCanRun(s.slots) then Schedule(s).slots == s.slots else NewSlices(s.slots, Schedule(s).slots)
  {
    BestIsFirstGreatest(s.slots);
  }

  // An interrupt, before schedule: a tick of the running process, and the
  // terminal task wakes if a key was pressed.
  predicate TickTaken(s: State, wakes: bool, t: seq<Slot>)
    requires WellShaped(s)
  {
    && |t| == NR_ALL
    && forall i :: 0 <= i < NR_ALL ==>
         && t[i].priority == s.slots[i].priority
         && t[i].ticks == s.slots[i].ticks - (if i == s.ready then 1 else 0)
         && t[i].flags == if wakes && i == 0 then {} else s.slots[i].flags
  }

  lemma ClockTakesATick(s: State, wakes: bool)
    requires WellShaped(s)
    ensures TickTaken(s, wakes, Charged(s, wakes))
  {
  }

  // The whole interrupt, outside the kernel (kernel/clock.c:12-26).
  lemma ClockExactly(s: State, wakes: bool) returns (t: seq<Slot>)
    requires WellShaped(s)
    ensures TickTaken(s, wakes, t)
    ensures
      var s' := Step(s, Clock(wakes));
      if t[s.ready].ticks > 0 then s'.slots == t && s'.ready == s.ready
      else if SomebodyCanRun(t) then s'.slots == t && IsFirstGreatest(t, s'.ready)
      else if CanSchedule(t) then NewSlices(t, s'.slots) && IsFirstGreatest(s'.slots, s'.ready)
      else s'.slots == t && s'.ready == s.ready
  {
    t := Charged(s, wakes);
    ClockTakesATick(s, wakes);
    if CanSchedule(t) { RefillExactly(s.(slots := t)); }
  }

  // A process that blocks does not run, and one that wakes up may; only the
  // flags of that process change, but for a refill (kernel/proc.c:52-62).
  lemma BlockExactly(s: State, q: nat, flag: Flag)
    requires WellShaped(s) && q < NR_ALL
    ensures
      var s' := Step(s, Block(q, flag));
      var t := s.slots[q := s.slots[q].(flags := s.slots[q].flags + {flag})];
      && flag in s'.slots[q].flags && (s'.slots == t || NewSlices(t, s'.slots))
      && (q != s.ready ==> s'.slots == t && s'.ready == s.ready)
      && (q == s.ready && CanSchedule(t) ==> s'.ready != q && IsFirstGreatest(s'.slots, s'.ready))
  {
    var t := s.slots[q := s.slots[q].(flags := s.slots[q].flags + {flag})];
    assert flag in t[q].flags;
    if CanSchedule(t) { RefillExactly(s.(slots := t)); }
  }

  lemma UnblockExactly(s: State, q: nat)
    requires WellShaped(s) && q < NR_ALL
    ensures
      var s' := Step(s, Unblock(q));
      s'.ready == s.ready && Runnable(s'.slots[q]) && s'.slots == s.slots[q := s.slots[q].(flags := {})]
  {
  }

  // ----------------------------------------------------------------- epochs

  // Ticks of the processes that can run.
  function Left(t: seq<Slot>): int
    decreases |t|
  {
    if t == [] then 0 else Left(t[..|t| - 1]) + (if t[|t| - 1].flags == {} then t[|t| - 1].ticks else 0)
  }

  predicate NoDebts(t: seq<Slot>) {
    forall i :: 0 <= i < |t| && t[i].flags == {} ==> t[i].ticks >= 0
  }

  lemma {:induction false} LeftAfterCharge(t: seq<Slot>, i: nat)
    requires i < |t| && t[i].flags == {}
    ensures Left(Charge(t, i)) == Left(t) - 1
    decreases |t|
  {
    var n := |t| - 1;
    if i == n {
      assert Charge(t, i)[..n] == t[..n];
    } else {
      assert Charge(t, i)[..n] == Charge(t[..n], i);
      LeftAfterCharge(t[..n], i);
    }
  }

  lemma {:induction false} LeftIsPositive(t: seq<Slot>)
    requires NoDebts(t)
    ensures Left(t) >= 0 && (Left(t) > 0 <==> SomebodyCanRun(t))
    decreases |t|
  {
    if t != [] {
      var n := |t| - 1;
      var front := t[..n];
      LeftIsPositive(front);
      assert SomebodyCanRun(front) ==> SomebodyCanRun(t) by {
        if SomebodyCanRun(front) {
          var i :| 0 <= i < |front| && front[i].flags == {} && front[i].ticks > 0;
          assert t[i] == front[i];
        }
      }
      if SomebodyCanRun(t) {
        var i :| 0 <= i < |t| && t[i].flags == {} && t[i].ticks > 0;
        if i < n { assert front[i] == t[i]; }
      }
    }
  }

  function Interrupts(n: nat): seq<Event> { seq(n, i => Clock(false)) }

  // Interrupts of the run that took a tick from p.
  function Charges(s: State, es: seq<Event>, p: nat): nat
    requires WellShaped(s)
    decreases |es|
  {
    if es == [] then 0
    else
      var front := es[..|es| - 1];
      Charges(s, front, p) + (if es[|es| - 1].Clock? && Run(s, front).ready == p then 1 else 0)
  }

  // After a refill: those who can run have their whole slices, and one of them
  // runs.
  predicate EpochBegins(s: State) {
    && WellShaped(s) && s.slots[s.ready].flags == {} && s.slots[s.ready].ticks > 0
    && forall i :: 0 <= i < NR_ALL && s.slots[i].flags == {} ==> s.slots[i].ticks == s.slots[i].priority >= 0
  }

  // The table after the charges c to those who can run, nothing else changed.
  predicate Spent(t: seq<Slot>, t': seq<Slot>, c: nat -> nat) {
    && |t'| == |t|
    && forall i: nat :: i < |t| ==> t'[i] == t[i].(ticks := t[i].ticks - c(i)) && (t[i].flags != {} ==> c(i) == 0)
  }

  // All of them have spent their whole slices.
  predicate AllSpent(t: seq<Slot>, c: nat -> nat) {
    forall i: nat :: i < |t| && t[i].flags == {} ==> c(i) == t[i].priority
  }

  // In the middle of an epoch: what was charged is what is missing.
  predicate InEpoch(s: State, s': State, c: nat -> nat) {
    && WellShaped(s') && Spent(s.slots, s'.slots, c) && NoDebts(s'.slots)
    && s'.slots[s'.ready].flags == {} && s'.slots[s'.ready].ticks > 0
  }

  function OneMore(c: nat -> nat, p: nat): nat -> nat { i => if i == p then c(i) + 1 else c(i) }

  lemma OneMoreSpent(t: seq<Slot>, t': seq<Slot>, c: nat -> nat, p: nat)
    requires Spent(t, t', c) && p < |t| && t[p].flags == {}
    ensures Spent(t, Charge(t', p), OneMore(c, p))
  {
  }

  // With nothing left, everybody has been charged its priority.
  lemma NothingLeft(s: State, t: seq<Slot>, c: nat -> nat)
    requires EpochBegins(s) && Spent(s.slots, t, c) && NoDebts(t) && !SomebodyCanRun(t)
    ensures AllSpent(s.slots, c)
  {
    forall i: nat | i < NR_ALL && s.slots[i].flags == {} ensures c(i) == s.slots[i].priority {
      assert t[i].flags == {} && t[i].ticks == 0;
    }
  }

  // New slices bring the table back.
  lemma BackAgain(s: State, t: seq<Slot>, now: seq<Slot>, c: nat -> nat)
    requires EpochBegins(s) && Spent(s.slots, t, c) && NewSlices(t, now)
    ensures now == s.slots
  {
    forall i | 0 <= i < NR_ALL ensures now[i] == s.slots[i] {
      assert t[i] == s.slots[i].(ticks := s.slots[i].ticks - c(i));
    }
  }

  lemma CanGoOn(s: State, t: seq<Slot>, c: nat -> nat)
    requires EpochBegins(s) && Spent(s.slots, t, c)
    ensures CanSchedule(t)
  {
    assert t[s.ready].flags == {} && t[s.ready].priority > 0;
  }

  lemma EpochStep(s: State, s': State, c: nat -> nat)
    requires EpochBegins(s) && InEpoch(s, s', c)
    ensures
      var t, c' := Step(s', Clock(false)), OneMore(c, s'.ready);
      if Left(s'.slots) > 1 then InEpoch(s, t, c') && Left(t.slots) == Left(s'.slots) - 1
      else t.slots == s.slots && AllSpent(s.slots, c')
  {
    var c' := OneMore(c, s'.ready);
    var t := ClockExactly(s', false);
    assert t == Charge(s'.slots, s'.ready);
    OneMoreSpent(s.slots, s'.slots, c, s'.ready);
    LeftAfterCharge(s'.slots, s'.ready);
    LeftIsPositive(t);
    CanGoOn(s, t, c');
    if !SomebodyCanRun(t) {
      NothingLeft(s, t, c');
      BackAgain(s, t, Step(s', Clock(false)).slots, c');
    }
  }

  function ChargesOf(s: State, es: seq<Event>): nat -> nat
    requires WellShaped(s)
  {
    p => Charges(s, es, p)
  }

  lemma ChargesStep(s: State, n: nat)
    requires WellShaped(s)
    ensures Interrupts(n + 1)[..n] == Interrupts(n)
    ensures Run(s, Interrupts(n + 1)) == Step(Run(s, Interrupts(n)), Clock(false))
    ensures forall p: nat ::
      ChargesOf(s, Interrupts(n + 1))(p) == OneMore(ChargesOf(s, Interrupts(n)), Run(s, Interrupts(n)).ready)(p)
  {
    assert Interrupts(n + 1)[..n] == Interrupts(n);
  }

  lemma SameCharges(s: State, s': State, c: nat -> nat, d: nat -> nat)
    requires InEpoch(s, s', c) && forall p: nat :: d(p) == c(p)
    ensures InEpoch(s, s', d)
  {
  }

  lemma {:induction false} WithinEpoch(s: State, n: nat)
    requires EpochBegins(s) && n < Left(s.slots)
    ensures
      var s' := Run(s, Interrupts(n));
      InEpoch(s, s', ChargesOf(s, Interrupts(n))) && Left(s'.slots) == Left(s.slots) - n
    decreases n
  {
    if n == 0 {
      assert Interrupts(0) == [];
    } else {
      WithinEpoch(s, n - 1);
      OneTickMore(s, Run(s, Interrupts(n - 1)), n - 1);
    }
  }

  lemma OneTickMore(s: State, s1: State, n: nat)
    requires EpochBegins(s) && s1 == Run(s, Interrupts(n)) && InEpoch(s, s1, ChargesOf(s, Interrupts(n)))
    requires Left(s1.slots) > 1
    ensures
      var s2 := Run(s, Interrupts(n + 1));
      InEpoch(s, s2, ChargesOf(s, Interrupts(n + 1))) && Left(s2.slots) == Left(s1.slots) - 1
  {
    var c := ChargesOf(s, Interrupts(n));
    ChargesStep(s, n);
    EpochStep(s, s1, c);
    SameCharges(s, Run(s, Interrupts(n + 1)), OneMore(c, s1.ready), ChargesOf(s, Interrupts(n + 1)));
  }

  // Between two refills, with nobody blocking or waking up, every process that
  // can run is charged exactly its priority, whatever it is; the refill comes
  // with the interrupt that uses up the last of all slices, and not before.
  lemma EpochIsFair(s: State)
    requires EpochBegins(s)
    ensures Left(s.slots) > 0
    ensures
      var es := Interrupts(Left(s.slots));
      && Run(s, es).slots == s.slots
      && forall p: nat :: p < NR_ALL && s.slots[p].flags == {} ==> Charges(s, es, p) == s.slots[p].priority
  {
    LeftIsPositive(s.slots);
    assert SomebodyCanRun(s.slots) by { assert s.slots[s.ready].ticks > 0; }
    var n := Left(s.slots) - 1;
    WithinEpoch(s, n);
    ChargesStep(s, n);
    EpochStep(s, Run(s, Interrupts(n)), ChargesOf(s, Interrupts(n)));
    forall p: nat | p < NR_ALL && s.slots[p].flags == {}
      ensures Charges(s, Interrupts(n + 1), p) == s.slots[p].priority
    {
      assert ChargesOf(s, Interrupts(n + 1))(p) == s.slots[p].priority;
    }
  }
}
