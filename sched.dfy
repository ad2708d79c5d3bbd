/**
 * The priority-decay scheduler of sched.c.
 *
 * Tasks live in an arena, `Scheduler.tasks`; a task's handle is its index
 * and `next` is its `next_task` link, 0 standing for the null pointer (the
 * boot task, handle 0, is never anybody's successor).  The list starts at
 * the boot task and, since copy_process only ever appends at the tail,
 * visits the handles in increasing order; Valid() records this.
 */
module Sched {
  import opened Mm

  const TASK_RUNNING: int := 0
  const TASK_ZOMBIE: int := 1
  /** THREAD_SIZE: a task record and its kernel stack share one page. */
  const THREAD_SIZE: nat := 4096

  /** The callee-saved registers that cpu_switch_to saves and restores. */
  datatype CpuContext = CpuContext(
    x19: nat, x20: nat, x21: nat, x22: nat, x23: nat, x24: nat, x25: nat,
    x26: nat, x27: nat, x28: nat, fp: nat, sp: nat, pc: nat)

  const ZeroContext: CpuContext := CpuContext(0, 0, 0, 0, 0, 0, 0, 0, 0, 0, 0, 0, 0)

  /** The register frame saved at exception entry: x0 to x30, sp, pc and pstate. */
  datatype PtRegs = PtRegs(regs: seq<nat>, sp: nat, pc: nat, pstate: nat)

  /** A frame after memzero. */
  function ZeroRegs(): (r: PtRegs)
    ensures |r.regs| == 31 && (forall i :: 0 <= i < 31 ==> r.regs[i] == 0)
    ensures r.sp == 0 && r.pc == 0 && r.pstate == 0
  {
    PtRegs(seq(31, _ => 0), 0, 0, 0)
  }

  /**
   * A task record: the fields the scheduler and fork code read and write.
   * `addr` is the address of the record (its page for a forked task) and
   * `frame` is the pt_regs frame at the top of that page.
   */
  datatype Task = Task(
    cpuContext: CpuContext,
    state: int,
    counter: int,
    priority: int,
    preemptCount: int,
    flags: bv64,
    stack: nat,
    mm: MmStruct,
    next: nat,
    addr: nat,
    frame: PtRegs)

  /** INIT_TASK: running, counter 0, priority 1, preemption enabled, everything else zero. */
  function InitTask(addr: nat, mm: MmStruct): (t: Task)
    ensures t.state == TASK_RUNNING && t.counter == 0 && t.priority == 1 && t.preemptCount == 0
    ensures t.cpuContext == ZeroContext && t.next == 0 && t.addr == addr
  {
    Task(ZeroContext, 0, 0, 1, 0, 0, 0, mm, 0, addr, ZeroRegs())
  }

  /** The list walk from initial_task visits handles 0, 1, ... in order. */
  ghost predicate Linked(ts: seq<Task>) {
    forall i :: 0 <= i < |ts| ==> ts[i].next == if i + 1 < |ts| then i + 1 else 0
  }

  predicate Runnable(t: Task) {
    t.state == TASK_RUNNING
  }

  /**
   * Handle `k` is what the selection scan of _schedule picks: a running task
   * whose counter beats the scan's start value -1, no smaller than any
   * running task's counter, and strictly greater than the counter of every
   * running task before it in the list.
   */
  ghost predicate IsPick(ts: seq<Task>, k: nat) {
    k < |ts| && Runnable(ts[k]) && ts[k].counter >= 0 &&
    (forall j :: 0 <= j < |ts| && Runnable(ts[j]) ==> ts[j].counter <= ts[k].counter) &&
    (forall j :: 0 <= j < k && Runnable(ts[j]) ==> ts[j].counter < ts[k].counter)
  }

  /** Some running task has a counter the scan can pick. */
  ghost predicate HasCandidate(ts: seq<Task>) {
    exists k :: 0 <= k < |ts| && Runnable(ts[k]) && ts[k].counter >= 0
  }

  /** No running task has time left: the scan's best counter is at most 0. */
  ghost predicate AllSpent(ts: seq<Task>) {
    forall k :: 0 <= k < |ts| && Runnable(ts[k]) ==> ts[k].counter <= 0
  }

  /**
   * What _schedule needs to finish with a task: a candidate for the scan,
   * and a positive priority for every running task, so that one decay
   * gives a spent candidate time again.
   */
  ghost predicate CanSchedule(ts: seq<Task>) {
    HasCandidate(ts) && forall k :: 0 <= k < |ts| && Runnable(ts[k]) ==> ts[k].priority > 0
  }

  /**
   * `counter = (counter >> 1) + priority` for every task of the list,
   * whatever its state.  The arithmetic shift of a `long` rounds towards
   * minus infinity, as Dafny's `/ 2` does.
   */
  function Decayed(ts: seq<Task>): (r: seq<Task>)
    ensures |r| == |ts|
    ensures forall i :: 0 <= i < |ts| ==>
      r[i] == ts[i].(counter := r[i].counter) && 2 * (r[i].counter - ts[i].priority) <= ts[i].counter < 2 * (r[i].counter - ts[i].priority) + 2
  {
    seq(|ts|, i requires 0 <= i < |ts| => ts[i].(counter := ts[i].counter / 2 + ts[i].priority))
  }

  /** The list _schedule picks from: decayed once when every running task has spent its time. */
  ghost function Decided(ts: seq<Task>): seq<Task> {
    if AllSpent(ts) then Decayed(ts) else ts
  }

  /** `t->preempt_count += d` for the task at handle `h`. */
  function AddPreempt(ts: seq<Task>, h: nat, d: int): (r: seq<Task>)
    requires h < |ts|
    ensures |r| == |ts| && r[h].preemptCount == ts[h].preemptCount + d
    ensures forall i :: 0 <= i < |ts| ==> r[i] == ts[i].(preemptCount := r[i].preemptCount)
    ensures forall i :: 0 <= i < |ts| && i != h ==> r[i] == ts[i]
  {
    ts[h := ts[h].(preemptCount := ts[h].preemptCount + d)]
  }

  /** A preempt_disable matched by a preempt_enable on the same task changes nothing. */
  lemma PreemptNestingRestores(ts: seq<Task>, h: nat, d: int)
    requires h < |ts|
    ensures AddPreempt(AddPreempt(ts, h, d), h, -d) == ts
  {
    var r := AddPreempt(AddPreempt(ts, h, d), h, -d);
    assert r[h] == ts[h];
  }

  /** The preemption count plays no part in selection or decay. */
  lemma PreemptInvisible(ts: seq<Task>, h: nat, d: int)
    requires h < |ts|
    ensures var r := AddPreempt(ts, h, d);
      CanSchedule(r) == CanSchedule(ts) && AllSpent(r) == AllSpent(ts) &&
      Decided(r) == AddPreempt(Decided(ts), h, d) &&
      forall k :: IsPick(Decided(r), k) == IsPick(Decided(ts), k)
  {
    var r := AddPreempt(ts, h, d);
    assert forall k :: 0 <= k < |ts| ==> Runnable(r[k]) == Runnable(ts[k]) && r[k].counter == ts[k].counter;
    assert CanSchedule(r) == CanSchedule(ts);
    assert AllSpent(r) == AllSpent(ts);
    if AllSpent(ts) {
      assert Decayed(r) == AddPreempt(Decayed(ts), h, d);
    }
    var dr, dt := Decided(r), Decided(ts);
    assert forall k :: 0 <= k < |ts| ==> Runnable(dr[k]) == Runnable(dt[k]) && dr[k].counter == dt[k].counter;
  }

  /** At most one handle is the pick: the scan's result is determined by the list. */
  lemma PickUnique(ts: seq<Task>, a: nat, b: nat)
    requires IsPick(ts, a) && IsPick(ts, b)
    ensures a == b
  {
  }

  /**
   * When every running task has spent its time, one decay gives each spent
   * candidate its priority back: afterwards some running task has a
   * positive counter, and the list can still be scheduled.
   */
  lemma DecayRevives(ts: seq<Task>)
    requires CanSchedule(ts) && AllSpent(ts)
    ensures CanSchedule(Decayed(ts)) && !AllSpent(Decayed(ts))
  {
    var k :| 0 <= k < |ts| && Runnable(ts[k]) && ts[k].counter >= 0;
    var r := Decayed(ts);
    assert ts[k].counter == 0;
    assert r[k].counter == ts[k].priority > 0;
  }

  /** The task _schedule switches to always has time left. */
  lemma PickedHasTime(ts: seq<Task>, k: nat)
    requires CanSchedule(ts) && IsPick(Decided(ts), k)
    ensures Decided(ts)[k].counter > 0
  {
    if AllSpent(ts) {
      DecayRevives(ts);
      var r := Decayed(ts);
      var j :| 0 <= j < |r| && Runnable(r[j]) && r[j].counter > 0;
      assert r[j].counter <= r[k].counter;
    } else {
      var j :| 0 <= j < |ts| && Runnable(ts[j]) && ts[j].counter > 0;
      assert ts[j].counter <= ts[k].counter;
    }
  }

  /** A task that has exited is never picked again: decay keeps every state. */
  lemma ZombieNeverPicked(ts: seq<Task>, k: nat)
    requires k < |ts| && ts[k].state == TASK_ZOMBIE
    ensures !IsPick(Decided(ts), k)
  {
    assert Decided(ts)[k].state == ts[k].state;
  }

  /**
   * The task list, the current task, and the page-table root that set_pgd
   * last installed.
   */
  class Scheduler {
    var tasks: seq<Task>
    var current: nat
    var pgdRoot: nat

    ghost predicate Valid()
      reads this
    {
      0 < |tasks| && current < |tasks| && Linked(tasks) &&
      forall i :: 0 <= i < |tasks| ==> |tasks[i].frame.regs| == 31
    }

    /** The boot state: init_task alone in the list, and current. */
    constructor (initAddr: nat, initMm: MmStruct, root: nat)
      ensures Valid() && tasks == [InitTask(initAddr, initMm)] && current == 0 && pgdRoot == root
    {
      tasks := [InitTask(initAddr, initMm)];
      current := 0;
      pgdRoot := root;
    }

    /** preempt_disable: one more level of preemption lock on the current task. */
    method PreemptDisable()
      requires Valid()
      modifies this
      ensures Valid() && tasks == AddPreempt(old(tasks), old(current), 1)
      ensures current == old(current) && pgdRoot == old(pgdRoot)
    {
      tasks := tasks[current := tasks[current].(preemptCount := tasks[current].preemptCount + 1)];
    }

    /** preempt_enable: one level less. */
    method PreemptEnable()
      requires Valid()
      modifies this
      ensures Valid() && tasks == AddPreempt(old(tasks), old(current), -1)
      ensures current == old(current) && pgdRoot == old(pgdRoot)
    {
      tasks := tasks[current := tasks[current].(preemptCount := tasks[current].preemptCount - 1)];
    }

    /**
     * The selection loop of _schedule: walk the list from initial_task
     * keeping the running task with the strictly greatest counter seen so
     * far, starting from -1.  Returns that counter (-1 when there is no
     * candidate) and its handle.
     */
    method ScanBest() returns (c: int, next: nat)
      requires Valid()
      ensures HasCandidate(tasks) ==> IsPick(tasks, next) && c == tasks[next].counter
      ensures !HasCandidate(tasks) ==> c == -1
    {
      c := -1;
      next := 0;
      var p := 0;
      var more := true;
      while more
        invariant p < |tasks| && (more || p == |tasks| - 1)
        invariant c == -1 ==> forall j :: 0 <= j < p + (if more then 0 else 1) && Runnable(tasks[j]) ==> tasks[j].counter < 0
        invariant c != -1 ==> next < p + (if more then 0 else 1) && Runnable(tasks[next]) && c == tasks[next].counter && c >= 0
        invariant c != -1 ==> forall j :: 0 <= j < p + (if more then 0 else 1) && Runnable(tasks[j]) ==> tasks[j].counter <= c
        invariant c != -1 ==> forall j :: 0 <= j < next && Runnable(tasks[j]) ==> tasks[j].counter < c
        decreases |tasks| - p, more
      {
        if tasks[p].state == TASK_RUNNING && tasks[p].counter > c {
          c := tasks[p].counter;
          next := p;
        }
        if tasks[p].next == 0 {
          more := false;
        } else {
          p := tasks[p].next;
        }
      }
    }

    /** The decay loop of _schedule: every task of the list, whatever its state. */
    method DecayAll()
      requires Valid()
      modifies this
      ensures Valid() && tasks == Decayed(old(tasks))
      ensures current == old(current) && pgdRoot == old(pgdRoot)
    {
      ghost var ts := tasks;
      var p := 0;
      var more := true;
      while more
        invariant |tasks| == |ts| && p < |tasks| && (more || p == |tasks| - 1) && current == old(current) && pgdRoot == old(pgdRoot)
        invariant forall j :: 0 <= j < |ts| ==> tasks[j] == if j < p + (if more then 0 else 1) then Decayed(ts)[j] else ts[j]
        decreases |tasks| - p, more
      {
        tasks := tasks[p := tasks[p].(counter := tasks[p].counter / 2 + tasks[p].priority)];
        if tasks[p].next == 0 {
          more := false;
        } else {
          p := tasks[p].next;
        }
      }
      assert tasks == Decayed(ts);
    }

    /**
     * switch_to: nothing when `next` is already current; otherwise `next`
     * becomes current and its page directory is installed.  The register
     * handoff of cpu_switch_to is not modelled.
     */
    method SwitchTo(next: nat)
      requires Valid() && next < |tasks|
      modifies this
      ensures Valid() && tasks == old(tasks) && current == next
      ensures pgdRoot == if old(current) == next then old(pgdRoot) else tasks[next].mm.pgd
    {
      if current == next {
        return;
      }
      current := next;
      pgdRoot := tasks[next].mm.pgd;
    }

    /**
     * _schedule: with preemption disabled, pick the running task with the
     * greatest counter (earliest on ties), decaying every counter first
     * when all running tasks have spent their time; switch to it, then
     * re-enable preemption, which in a sequential reading lands on the new
     * current task.
     */
    method Reschedule()
      requires Valid() && CanSchedule(tasks)
      modifies this
      ensures Valid() && IsPick(Decided(old(tasks)), current)
      ensures tasks == AddPreempt(AddPreempt(Decided(old(tasks)), old(current), 1), current, -1)
      ensures pgdRoot == if old(current) == current then old(pgdRoot) else tasks[current].mm.pgd
    {
      ghost var prev := current;
      ghost var ts0 := tasks;
      PreemptDisable();
      ghost var ts1 := tasks;
      PreemptInvisible(ts0, prev, 1);
      var c, next := ScanBest();
      if c == 0 {
        assert AllSpent(ts1);
        DecayRevives(ts1);
        DecayAll();
        c, next := ScanBest();
      } else {
        assert !AllSpent(ts1);
      }
      assert IsPick(Decided(ts1), next);
      SwitchTo(next);
      PreemptEnable();
    }

    /** schedule: the caller gives up the rest of its time, then _schedule. */
    method Schedule()
      requires Valid() && CanSchedule(tasks[current := tasks[current].(counter := 0)])
      modifies this
      ensures Valid()
      ensures var ts := old(tasks)[old(current) := old(tasks)[old(current)].(counter := 0)];
        IsPick(Decided(ts), current) &&
        tasks == AddPreempt(AddPreempt(Decided(ts), old(current), 1), current, -1)
      ensures pgdRoot == if old(current) == current then old(pgdRoot) else tasks[current].mm.pgd
    {
      tasks := tasks[current := tasks[current].(counter := 0)];
      Reschedule();
    }

    /** schedule_tail: the first run of a forked task drops the lock copy_process left on it. */
    method ScheduleTail()
      requires Valid()
      modifies this
      ensures Valid() && tasks == AddPreempt(old(tasks), old(current), -1)
      ensures current == old(current) && pgdRoot == old(pgdRoot)
    {
      PreemptEnable();
    }

    /**
     * timer_tick: one tick less for the current task; when it has no time
     * left and preemption is enabled, its counter is set to 0 and _schedule
     * runs (the interrupt unmasking around it is not modelled).  Returns
     * whether it rescheduled.
     */
    method TimerTick() returns (rescheduled: bool)
      requires Valid()
      requires tasks[current].counter - 1 <= 0 && tasks[current].preemptCount <= 0 ==>
        CanSchedule(tasks[current := tasks[current].(counter := 0)])
      modifies this
      ensures Valid()
      ensures rescheduled <==> old(tasks)[old(current)].counter - 1 <= 0 && old(tasks)[old(current)].preemptCount <= 0
      ensures !rescheduled ==>
        tasks == old(tasks)[old(current) := old(tasks)[old(current)].(counter := old(tasks)[old(current)].counter - 1)] &&
        current == old(current) && pgdRoot == old(pgdRoot)
      ensures rescheduled ==>
        var ts := old(tasks)[old(current) := old(tasks)[old(current)].(counter := 0)];
        IsPick(Decided(ts), current) &&
        tasks == AddPreempt(AddPreempt(Decided(ts), old(current), 1), current, -1)
    {
      ghost var ts0 := tasks;
      tasks := tasks[current := tasks[current].(counter := tasks[current].counter - 1)];
      if tasks[current].counter > 0 || tasks[current].preemptCount > 0 {
        return false;
      }
      tasks := tasks[current := tasks[current].(counter := 0)];
      assert tasks == ts0[current := ts0[current].(counter := 0)];
      Reschedule();
      return true;
    }

    /**
     * exit_process: the current task becomes a zombie, with its preemption
     * count unchanged, and schedule picks another task.
     */
    method ExitProcess()
      requires Valid()
      requires CanSchedule(tasks[current := tasks[current].(state := TASK_ZOMBIE, counter := 0)])
      modifies this
      ensures Valid()
      ensures var ts := old(tasks)[old(current) := old(tasks)[old(current)].(state := TASK_ZOMBIE, counter := 0)];
        IsPick(Decided(ts), current) && current != old(current) &&
        tasks == AddPreempt(AddPreempt(Decided(ts), old(current), 1), current, -1)
    {
      ghost var ts0 := tasks;
      PreemptDisable();
      tasks := tasks[current := tasks[current].(state := TASK_ZOMBIE)];
      PreemptEnable();
      assert tasks[current] == ts0[current].(state := TASK_ZOMBIE);
      assert tasks == ts0[current := ts0[current].(state := TASK_ZOMBIE)];
      assert tasks[current := tasks[current].(counter := 0)] == ts0[current := ts0[current].(state := TASK_ZOMBIE, counter := 0)];
      Schedule();
      ZombieNeverPicked(old(tasks)[old(current) := old(tasks)[old(current)].(state := TASK_ZOMBIE, counter := 0)], old(current));
    }
  }
}
