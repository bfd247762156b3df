// The memory manager over the process table: the loops of mm/exit.c and
// mm/forkexit.c do what the state machine of MmSpec says.
module MemoryManager {
  import opened Constants
  import opened MmSpec
  import opened MmRuns

  class Manager {
    const table: array<Proc>
    var log: seq<Reply>

    ghost predicate Valid() { table.Length == NR_ALL }

    ghost function View(): (s: Mm)
      requires Valid()
      reads this, table
      ensures Sized(s)
    {
      Mm(table[..], log)
    }

    // kernel/main.c:82-96
    constructor ()
      ensures Valid() && fresh(table) && View() == Boot()
    {
      table := new Proc[NR_ALL](p => if p < FIRST_FORKED then Proc({}, NO_TASK, 0) else Proc({FREE_SLOT}, 0, 0));
      log := [];
      new;
      assert table[..] == Boot().table;
    }

    // mm/exit.c:13-20
    method Clean(pid: int)
      requires Valid() && IsPid(pid)
      modifies this, table
      ensures View() == MmSpec.Clean(old(View()), pid)
    {
      table[pid] := table[pid].(flags := {FREE_SLOT});
      log := log + [Status(table[pid].parent, pid, table[pid].status)];
    }

    method StopWaiting(pid: int)
      requires Valid() && IsPid(pid)
      modifies table
      ensures View() == SetFlags(old(View()), pid, old(table[pid].flags) - {WAITING})
    {
      table[pid] := table[pid].(flags := table[pid].flags - {WAITING});
    }

    // mm/exit.c:35-43
    method Leave(pid: int, status: int)
      requires Valid() && IsPid(pid) && IsPid(table[pid].parent)
      modifies this, table
      ensures View() == MmSpec.Leave(old(View()), pid, status)
    {
      var parent := table[pid].parent;
      ghost var waiting := WAITING in table[parent].flags;
      table[pid] := table[pid].(status := status);
      if WAITING in table[parent].flags {
        StopWaiting(parent);
        Clean(pid);
      } else {
        table[pid] := table[pid].(flags := table[pid].flags + {HANGING});
      }
    }

    // mm/exit.c:45-51
    method Adopt(pid: int, i: int)
      requires Valid() && IsSlot(i)
      modifies this, table
      ensures View() == MmSpec.Adopt(old(View()), pid, i)
    {
      if table[i].parent == pid {
        table[i] := table[i].(parent := PROC_INIT);
        if HANGING in table[i].flags && WAITING in table[PROC_INIT].flags {
          StopWaiting(PROC_INIT);
          Clean(i);
        }
      }
    }

    // mm/exit.c:22-53
    method DoExit(pid: int, status: int)
      requires Valid() && IsPid(pid) && IsPid(table[pid].parent)
      modifies this, table
      ensures View() == Exit(old(View()), pid, status)
    {
      Leave(pid, status);
      ghost var s := View();
      var i := NR_TASKS + NR_NATIVE_PROCS;
      while i < NR_TASKS + NR_PROCS
        invariant FIRST_FORKED <= i <= NR_ALL && AdoptFrom(View(), pid, i) == AdoptFrom(s, pid, FIRST_FORKED)
      {
        Adopt(pid, i);
        i := i + 1;
      }
    }

    // mm/exit.c:55-79
    method DoWait(parent: int)
      requires Valid() && IsPid(parent)
      modifies this, table
      ensures View() == Wait(old(View()), parent)
    {
      ghost var s := View();
      var children := 0;
      var i := NR_TASKS + NR_NATIVE_PROCS;
      while i < NR_TASKS + NR_PROCS
        invariant FIRST_FORKED <= i <= NR_ALL && View() == s
        invariant FirstZombie(s, parent, i) == FirstZombie(s, parent, FIRST_FORKED)
        invariant children > 0 <==> exists j :: FIRST_FORKED <= j < i && s.table[j].parent == parent
      {
        if table[i].parent == parent {
          children := children + 1;
          if HANGING in table[i].flags {
            Clean(i);
            return;
          }
        }
        i := i + 1;
      }
      if children > 0 {
        table[parent] := table[parent].(flags := table[parent].flags + {WAITING});
      } else {
        log := log + [NoChild(parent)];
      }
    }

    // mm/forkexit.c:16-34; -1 when the table is full
    method DoFork(pid: int) returns (child: int)
      requires Valid() && IsPid(pid)
      modifies table
      ensures View() == Fork(old(View()), pid)
      ensures child == if FirstFree(old(View()), 0) == NR_ALL then -1 else FirstFree(old(View()), 0)
    {
      ghost var s := View();
      var i := 0;
      while i < NR_TASKS + NR_PROCS && table[i].flags != {FREE_SLOT}
        invariant 0 <= i <= NR_ALL && FirstFree(s, i) == FirstFree(s, 0)
        decreases NR_ALL - i
      {
        i := i + 1;
      }
      if i == NR_TASKS + NR_PROCS { return -1; }
      table[i] := table[pid].(parent := pid);
      child := i;
    }

    // mm/mm.c:13-47: fork is answered at once, exit and wait are not.
    method Serve(e: Event) returns (reply: bool, value: int)
      requires Valid() && Inv(View()) && Legal(View(), e)
      modifies this, table
      ensures View() == Next(old(View()), e) && Inv(View())
      ensures reply <==> e.ForkBy?
      ensures reply ==> (value == -1 <==> forall p :: IsSlot(p) ==> old(View()).table[p].flags != {FREE_SLOT})
      ensures reply && value != -1 ==>
        !Child(old(View()), value, e.p) && Child(View(), value, e.p) && View().table[value].flags == {}
    {
      NextKeeps(View(), e);
      value := 0;
      match e
      case ForkBy(p) =>
        ForkKeeps(View(), p);
        ForkMakesAChild(View(), p);
        reply := true;
        value := DoFork(p);
      case ExitBy(p, status) =>
        reply := false;
        DoExit(p, status);
      case WaitBy(p) =>
        reply := false;
        DoWait(p);
    }
  }
}
