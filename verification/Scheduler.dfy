// kernel/proc.c: schedule, and kernel/clock.c: clock_handler, on the table.
module Scheduler {
  import opened Constants
  import opened SchedulerSpec

  class ProcTable {
    const slots: array<Slot>
    var ready: nat          // p_proc_ready
    var ticks: int          // ticks since start

    predicate Valid()
      reads this
    {
      slots.Length == NR_ALL && ready < NR_ALL
    }

    function Contents(): (s: State)
      requires Valid()
      reads this, slots
      ensures SchedulerSpec.WellShaped(s)
    {
      State(slots[..], ready)
    }

    // kernel_main's priorities: 15 for tasks, 5 for native processes.
    constructor ()
      ensures Valid() && fresh(slots) && ready == 0 && ticks == 0
      ensures Slack(Contents()) == 0
      ensures forall p :: 0 <= p < NR_ALL ==>
        slots[p] == if p < 5 then Slot({}, 15, 15) else if p < 9 then Slot({}, 5, 5) else Slot({FREE_SLOT}, 0, 0)
    {
      slots := new Slot[NR_ALL](i =>
        if i < NR_TASKS then Slot({}, 15, 15)
        else if i < FIRST_FORKED then Slot({}, 5, 5)
        else Slot({FREE_SLOT}, 0, 0));
      ready, ticks := 0, 0;
    }

    // kernel/proc.c:17-34.  With nobody to run the source loops until an
    // interrupt; CanSchedule is exactly the condition under which it ends.
    method Schedule()
      requires Valid() && CanSchedule(Contents().slots)
      modifies this`ready, slots
      ensures Valid() && Contents() == SchedulerSpec.Schedule(old(Contents()))
    {
      ghost var t0 := slots[..];
      ghost var passes := 0;
      CanScheduleInTwoPasses(t0);
      var greatest := 0;
      while greatest == 0
        invariant Valid() && 0 <= passes <= 2
        invariant passes == 0 ==> slots[..] == t0 && greatest == 0
        invariant passes == 1 && greatest == 0 ==> Best(t0) < 0 && slots[..] == Refill(t0)
        invariant passes == 1 && greatest != 0 ==> slots[..] == t0 && Best(t0) >= 0 && ready == Best(t0)
        invariant passes == 2 ==> Best(t0) < 0 && greatest != 0 && slots[..] == Refill(t0) && ready == Best(Refill(t0))
        decreases 2 - passes
      {
        greatest := FindGreatest();
        if greatest == 0 {
          RefillAll();
        }
        passes := passes + 1;
      }
    }

    // One pass over the table: kernel/proc.c:21-28.
    method FindGreatest() returns (greatest: int)
      requires Valid()
      modifies this`ready
      ensures Valid() && greatest >= 0
      ensures greatest == 0 <==> Best(slots[..]) < 0
      ensures Best(slots[..]) >= 0 ==> ready == Best(slots[..])
      ensures Best(slots[..]) < 0 ==> ready == old(ready)
    {
      ghost var t := slots[..];
      greatest := 0;
      for p := 0 to slots.Length
        invariant Valid()
        invariant greatest == if Best(t[..p]) < 0 then 0 else t[Best(t[..p])].ticks
        invariant greatest >= 0
        invariant if Best(t[..p]) < 0 then ready == old(ready) else greatest > 0 && ready == Best(t[..p])
      {
        assert t[..p + 1][..p] == t[..p];
        if slots[p].flags == {} {
          if slots[p].ticks > greatest {
            greatest := slots[p].ticks;
            ready := p;
          }
        }
      }
      assert t[..slots.Length] == t;
    }

    // kernel/proc.c:30-32
    method RefillAll()
      requires Valid()
      modifies slots
      ensures slots[..] == Refill(old(slots[..]))
    {
      ghost var t := slots[..];
      for p := 0 to slots.Length
        invariant Valid()
        invariant forall i :: 0 <= i < p ==> slots[i] == Refill(t)[i]
        invariant forall i :: p <= i < slots.Length ==> slots[i] == t[i]
      {
        if slots[p].flags == {} {
          slots[p] := slots[p].(ticks := slots[p].priority);
        }
      }
    }

    // kernel/clock.c:12-26.  keyWakes: a key was pressed and info_task found
    // the terminal task waiting for it.  nested: the kernel was interrupted.
    method ClockHandler(nested: bool, keyWakes: bool)
      requires Valid()
      requires
        var t := Charged(Contents(), keyWakes);
        !nested && t[ready].ticks <= 0 ==> CanSchedule(t)
      modifies this, slots
      ensures Valid() && ticks == old(ticks) + 1
      ensures !nested ==> Contents() == Step(old(Contents()), Clock(keyWakes))
      ensures nested ==> Contents() == State(Charged(old(Contents()), keyWakes), old(ready))
    {
      ghost var s := Contents();
      ticks := ticks + 1;
      slots[ready] := slots[ready].(ticks := slots[ready].ticks - 1);
      if keyWakes {
        slots[TASK_TTY] := slots[TASK_TTY].(flags := {});
      }
      assert slots[..] == Charged(s, keyWakes);
      if nested {
        return;
      }
      if slots[ready].ticks > 0 {
        return;
      }
      Schedule();
    }
  }
}
