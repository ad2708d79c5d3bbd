/**
 * Task creation of fork.c: copy_process, move_to_user_mode and the
 * placement of a task's register frame in its page.
 */
module Fork {
  import opened Bits
  import opened Mm
  import opened Sched

  /** sizeof(struct pt_regs): 34 eight-byte words, a multiple of 16 so the stack stays aligned. */
  const S_FRAME_SIZE: nat := 272
  /** PSR_MODE_EL0t: the pstate of a return to user mode with SP_EL0. */
  const PSR_MODE_EL0t: nat := 0

  /** Constants defined outside the files modelled: the PF_KTHREAD flag and the address of ret_from_fork. */
  datatype ForkParams = ForkParams(pfKthread: bv64, retFromFork: nat)

  /**
   * task_pt_regs: the register frame occupies the last S_FRAME_SIZE bytes
   * of the task's page, and keeps the page's 16-byte alignment.
   */
  function TaskPtRegs(p: nat): (r: nat)
    ensures p < r && r + S_FRAME_SIZE == p + THREAD_SIZE
    ensures r % 16 == p % 16
  {
    p + THREAD_SIZE - S_FRAME_SIZE
  }

  /** The frame a user-mode child starts from: its parent's, returning 0 on the child's own stack. */
  function ChildFrame(parent: PtRegs, stack: nat): (r: PtRegs)
    requires |parent.regs| == 31
    ensures |r.regs| == 31 && r.regs[0] == 0 && (forall i :: 1 <= i < 31 ==> r.regs[i] == parent.regs[i])
    ensures r.sp == stack + PAGE_SIZE && r.pc == parent.pc && r.pstate == parent.pstate
  {
    parent.(regs := parent.regs[0 := 0], sp := stack + PAGE_SIZE)
  }

  /** `clone_flags & PF_KTHREAD`: the child is a kernel thread. */
  predicate IsKernelThread(cloneFlags: bv64, fp: ForkParams) {
    cloneFlags & fp.pfKthread != 0
  }

  /**
   * The record copy_process writes into the page `page`, zero-filled by
   * get_free_page: a kernel thread starts `fn(args)` from ret_from_fork
   * with a zeroed frame; a user copy starts from its parent's frame;
   * either way it is running, with `pri` as both priority and counter,
   * preemption locked once until schedule_tail, no successor, an empty
   * memory descriptor, and its saved sp at its register frame.
   */
  function NewTask(parent: Task, page: nat, cloneFlags: bv64, fn: nat, args: nat, stack: nat, pri: int,
                   fp: ForkParams, p: Params): (t: Task)
    requires |parent.frame.regs| == 31
    ensures t.state == TASK_RUNNING && t.priority == pri && t.counter == pri && t.preemptCount == 1
    ensures t.flags == cloneFlags && t.next == 0 && t.addr == page && t.mm == ZeroMm(p)
    ensures t.cpuContext.pc == fp.retFromFork && t.cpuContext.sp == TaskPtRegs(page)
    ensures page <= t.cpuContext.sp < page + THREAD_SIZE
    ensures IsKernelThread(cloneFlags, fp) ==>
      t.cpuContext == ZeroContext.(x19 := fn, x20 := args, sp := TaskPtRegs(page), pc := fp.retFromFork) &&
      t.frame == ZeroRegs() && t.stack == 0
    ensures !IsKernelThread(cloneFlags, fp) ==>
      t.cpuContext == ZeroContext.(sp := TaskPtRegs(page), pc := fp.retFromFork) &&
      t.frame == ChildFrame(parent.frame, stack) && t.stack == stack
  {
    var kthread := IsKernelThread(cloneFlags, fp);
    var ctx := if kthread then ZeroContext.(x19 := fn, x20 := args) else ZeroContext;
    Task(ctx.(pc := fp.retFromFork, sp := TaskPtRegs(page)), TASK_RUNNING, pri, pri, 1, cloneFlags,
         if kthread then 0 else stack, ZeroMm(p), 0, page,
         if kthread then ZeroRegs() else ChildFrame(parent.frame, stack))
  }

  /**
   * The `int` that copy_process returns for the page `page`: a page-aligned
   * address is never mistaken for the error value -1, and below 2^31 the
   * address comes back unchanged and positive.
   */
  lemma ForkResult(page: nat)
    requires page % PAGE_SIZE == 0
    ensures Truncate64To32(page) != -1
    ensures 0 < page < TWO_31 ==> Truncate64To32(page) == page > 0
  {
    var w := Wrap32(page);
    assert w % PAGE_SIZE == 0 by {
      assert page == (page / TWO_32) * TWO_32 + w;
      assert TWO_32 == PAGE_SIZE * 0x10_0000;
    }
    assert w != TWO_32 - 1;
  }

  /** Linking a new tail between a preempt_disable and a preempt_enable on an older task. */
  lemma TailLinkKeepsPreempt(ts: seq<Task>, h: nat, c: Task)
    requires h < |ts|
    ensures var n := |ts|;
      var t1 := AddPreempt(ts, h, 1);
      AddPreempt(t1[n - 1 := t1[n - 1].(next := n)] + [c], h, -1) == ts[n - 1 := ts[n - 1].(next := n)] + [c]
  {
  }

  /**
   * copy_process: with preemption disabled, take a page for the child,
   * fill in its record and append it at the tail of the task list; return
   * the page address as an `int`.  When no page is free it returns -1
   * and, returning early, leaves preemption disabled once more.
   */
  method CopyProcess(k: Scheduler, mem: PhysicalMemory, cloneFlags: bv64, fn: nat, args: nat, stack: nat,
                     pri: int, fp: ForkParams) returns (r: int)
    requires k.Valid() && mem.Valid()
    modifies k, mem, mem.memMap
    ensures k.Valid() && mem.Valid() && k.current == old(k.current) && k.pgdRoot == old(k.pgdRoot)
    ensures var g := GetFreePageSpec(old(mem.State()));
      mem.State() == g.0 &&
      (g.1 == 0 ==> r == -1 && k.tasks == AddPreempt(old(k.tasks), old(k.current), 1)) &&
      (g.1 != 0 ==>
        r == Truncate64To32(g.1) &&
        var n := |old(k.tasks)|;
        k.tasks == old(k.tasks)[n - 1 := old(k.tasks)[n - 1].(next := n)] +
          [NewTask(old(k.tasks)[old(k.current)], g.1, cloneFlags, fn, args, stack, pri, fp, mem.params)])
  {
    ghost var ts0 := k.tasks;
    ghost var h := k.current;
    k.PreemptDisable();
    var page := mem.GetFreePage();
    if page == 0 {
      return -1;
    }
    var childregs := TaskPtRegs(page);
    var frame := ZeroRegs();
    var ctx := ZeroContext;
    var taskStack := 0;
    if IsKernelThread(cloneFlags, fp) {
      ctx := ctx.(x19 := fn, x20 := args);
    } else {
      var cur := k.tasks[k.current].frame;
      assert cur == ts0[h].frame;
      frame := cur.(regs := cur.regs[0 := 0], sp := stack + PAGE_SIZE);
      assert frame == ChildFrame(ts0[h].frame, stack);
      taskStack := stack;
    }
    ctx := ctx.(pc := fp.retFromFork, sp := childregs);
    var child := Task(ctx, TASK_RUNNING, pri, pri, 1, cloneFlags, taskStack, ZeroMm(mem.params), 0, page, frame);
    assert child == NewTask(ts0[h], page, cloneFlags, fn, args, stack, pri, fp, mem.params);

    var prev := 0;
    while k.tasks[prev].next != 0
      invariant prev < |k.tasks|
      decreases |k.tasks| - prev
    {
      prev := k.tasks[prev].next;
    }
    ghost var n := |k.tasks|;
    assert prev == n - 1;
    k.tasks := k.tasks[prev := k.tasks[prev].(next := |k.tasks|)] + [child];
    k.PreemptEnable();
    TailLinkKeepsPreempt(ts0, h, child);
    r := Truncate64To32(page);
  }

  /**
   * move_to_user_mode: rewrite the current task's frame to return to `pc`
   * in EL0t, then give it a fresh page as user stack.  Returns 0, or -1
   * when no page is free, in which case the frame is already rewritten.
   */
  method MoveToUserMode(k: Scheduler, mem: PhysicalMemory, pc: nat) returns (r: int)
    requires k.Valid() && mem.Valid()
    modifies k, mem, mem.memMap
    ensures k.Valid() && mem.Valid() && k.current == old(k.current) && k.pgdRoot == old(k.pgdRoot)
    ensures var g := GetFreePageSpec(old(mem.State()));
      var frame := ZeroRegs().(pc := pc, pstate := PSR_MODE_EL0t);
      var t := old(k.tasks)[old(k.current)];
      mem.State() == g.0 &&
      (g.1 == 0 ==> r == -1 && k.tasks == old(k.tasks)[old(k.current) := t.(frame := frame)]) &&
      (g.1 != 0 ==>
        r == 0 && k.tasks == old(k.tasks)[old(k.current) := t.(frame := frame.(sp := g.1 + PAGE_SIZE), stack := g.1)])
  {
    var regs := ZeroRegs();
    regs := regs.(pc := pc, pstate := PSR_MODE_EL0t);
    k.tasks := k.tasks[k.current := k.tasks[k.current].(frame := regs)];
    var stack := mem.GetFreePage();
    if stack == 0 {
      return -1;
    }
    regs := regs.(sp := stack + PAGE_SIZE);
    k.tasks := k.tasks[k.current := k.tasks[k.current].(frame := regs, stack := stack)];
    return 0;
  }
}
