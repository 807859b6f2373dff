/** The task table, updated in place; each method is one locked phase. */
module ProcTable {
  import opened Common
  import opened Sched
  import opened Tasks

  class Table {
    var slots: seq<Slot>
    var used: nat
    var nextPid: int
    var current: int
    ghost var pending: seq<nat>
    ghost var parents: map<int, int>
    ghost var exits: map<int, int>
    ghost var reaped: seq<(int, int)>

    /** proc_init: one running task with pid 1. */
    constructor (n: nat)
      requires n > 0
      ensures Inv(View()) && |slots| == n && current == 0 && nextPid == 2 && used == 1 && reaped == []
    {
      slots := seq(n, i => if i == 0 then Slot(Running, 1, 0, 0) else FREE_SLOT);
      used, nextPid, current := 1, 2, 0;
      pending, parents, exits, reaped := [], map[1 := 0], map[], [];
      new;
      InitKeeps(n);
    }

    ghost function View(): Procs
      reads this
    {
      Procs(slots, used, nextPid, current, pending, parents, exits, reaped)
    }

    /** alloc_task_slot. */
    method AllocSlot() returns (i: nat)
      ensures i == FirstFreeSlot(slots)
    {
      i := 0;
      while i < |slots|
        invariant i <= |slots| && forall k | 0 <= k < i :: slots[k].state != Unused
      {
        if slots[i].state == Unused { return; }
        i := i + 1;
      }
    }

    /** task_create_kernel_thread, once it has a stack: the slot filled, or the table size. */
    method CreateKernelThread() returns (i: nat)
      requires Inv(View())
      modifies this
      ensures View() == CreateThread(old(View())) && Inv(View())
      ensures if i < |old(slots)| then FirstUnused(old(View()), i) && Makes(old(View()), View(), i)
              else SameTasks(old(View()), View()) && forall j | 0 <= j < |slots| :: slots[j].state != Unused
    {
      StepKeeps(View(), NewThread);
      i := AllocSlot();
      if i == |slots| { return; }
      FillSlot(i);
    }

    method FillSlot(i: nat)
      requires i < |slots| && -1 <= current < |slots|
      modifies this`slots, this`nextPid, this`used, this`parents
      ensures View() == Fill(old(View()), i)
    {
      var pid, ppid := nextPid, if current >= 0 then slots[current].pid else 0;
      nextPid := nextPid + 1;
      slots := slots[i := Slot(Runnable, pid, ppid, 0)];
      parents := parents[pid := ppid];
      used := used + 1;
    }

    /** The first locked phase of proc_fork_current. */
    method ForkChoose() returns (ok: bool, i: nat)
      requires Inv(View())
      modifies this`pending
      ensures View() == ForkBegin(old(View())) && Inv(View())
      ensures ok <==> old(current) >= 0 && exists j :: FirstUnused(old(View()), j)
      ensures ok ==> FirstUnused(old(View()), i) && pending == old(pending) + [i]
      ensures !ok ==> pending == old(pending)
    {
      StepKeeps(View(), Begin);
      i := 0;
      if current < 0 { return false, i; }
      i := AllocSlot();
      if i == |slots| { return false, i; }
      assert FirstUnused(View(), i);
      pending := pending + [i];
      return true, i;
    }

    /** The second locked phase of proc_fork_current, for the k-th fork in flight. */
    method ForkFill(ghost k: nat, i: nat) returns (ok: bool)
      requires Inv(View()) && k < |pending| && pending[k] == i
      modifies this
      ensures View() == ForkCommit(old(View()), k) && Inv(View())
      ensures ok <==> old(current) >= 0 && old(slots)[i].state == Unused
      ensures if ok then Makes(old(View()), View(), i) else SameTasks(old(View()), View())
    {
      StepKeeps(View(), Commit(k));
      pending := pending[..k] + pending[k + 1..];
      if current < 0 || slots[i].state != Unused { return false; }
      FillSlot(i);
      return true;
    }

    /** proc_exit_current. */
    method ExitWith(code: int)
      requires Inv(View())
      modifies this
      ensures View() == ExitCurrent(old(View()), code) && Inv(View())
      ensures if old(current) >= 0 then Exits(old(View()), View(), code) else SameTasks(old(View()), View())
    {
      StepKeeps(View(), Exit(code));
      if current < 0 { return; }
      exits := exits[slots[current].pid := code];
      slots := slots[current := slots[current].(exitCode := code)];
      slots := slots[current := slots[current].(state := Zombie)];
    }

    /** proc_waitpid. */
    method WaitFor(pid: int) returns (ret: int, status: int)
      requires Inv(View())
      modifies this
      ensures Waited(View(), ret, status) == Waitpid(old(View()), pid) && Inv(View())
    {
      StepKeeps(View(), Wait(pid));
      if current < 0 { return EFAIL, 0; }
      var parent := slots[current].pid;
      var i := FindChild(parent, pid);
      if i == |slots| { return EFAIL, 0; }
      ret, status := slots[i].pid, slots[i].exitCode;
      reaped := reaped + [(ret, parent)];
      slots := slots[i := Slot(Unused, 0, 0, 0)];
      if used > 0 { used := used - 1; }
    }

    /** The search loop of proc_waitpid. */
    method FindChild(parent: int, pid: int) returns (i: nat)
      ensures i == FirstWaitable(slots, parent, pid)
    {
      i := 0;
      while i < |slots|
        invariant i <= |slots| && forall k | 0 <= k < i :: !Waitable(slots[k], parent, pid)
      {
        var task := slots[i];
        if task.state == Zombie && task.ppid == parent && (pid <= 0 || task.pid == pid) { return; }
        i := i + 1;
      }
    }
  }
}
