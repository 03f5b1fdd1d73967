/** The scheduler of one hart; every system call, interrupt and turn of the idle loop is one step. */
module Scheduler {
  import opened Common
  import opened SchedState
  import opened SchedSteps

  class Kernel {
    var tasks: Tasks
    var queue: seq<int>
    var cur: Option<int>
    var nextTid: int

    /** Objects replaced by an exec. */
    ghost var gone: set<int>

    constructor ()
      ensures Valid() && Now() == State(map[], [], None, 1, {})
    {
      tasks, queue, cur, nextTid, gone := map[], [], None, 1, {};
    }

    ghost predicate Valid()
      reads this
    {
      Inv(tasks, queue, cur, gone, nextTid)
    }

    ghost function Now(): (s: State)
      reads this
      ensures Ok(s) <==> Valid()
    {
      OkIff(State(tasks, queue, cur, nextTid, gone));
      State(tasks, queue, cur, nextTid, gone)
    }

    /** A killed task stays killed. */
    twostate predicate ExitedStay()
      reads this
    {
      forall x :: x in old(tasks) && old(tasks)[x].state == Exited ==> x in tasks && tasks[x].state == Exited
    }

    /** A vfork parent whose child died without waking it waits for ever, or is killed. */
    twostate predicate StuckStay()
      reads this
    {
      forall c, p {:trigger Stuck(tasks, c, p)} {:trigger Stuck(old(tasks), c, p)} :: Stuck(old(tasks), c, p) ==>
        Stuck(tasks, c, p)
    }

    // ---- queue ----

    /** `push_task`, with its debug assertion as a precondition. */
    method PushTask(x: int)
      requires x in tasks && forall i :: 0 <= i < |queue| ==> queue[i] in tasks && tasks[queue[i]].tid != tasks[x].tid
      modifies this`queue
      ensures queue == old(queue) + [x]
    {
      queue := queue + [x];
    }

    method FetchNextTask() returns (r: Option<int>)
      modifies this`queue
      ensures old(queue) == [] ==> r == None && queue == []
      ensures old(queue) != [] ==> r == Some(old(queue)[0]) && queue == old(queue)[1..]
    {
      if queue == [] { return None; }
      r := Some(queue[0]);
      queue := queue[1..];
    }

    // ---- waking ----

    /** `wakeup_task`: a task that is not blocked is left alone. */
    method WakeupTask(x: int, e: Event)
      requires Valid() && x in tasks
      modifies this`tasks, this`queue
      ensures Valid() && ExitedStay() && StuckStay()
      ensures old(tasks)[x].state == Blocked ==>
        tasks == old(tasks)[x := old(tasks)[x].(state := Ready, event := Some(e))] && queue == old(queue) + [x]
      ensures old(tasks)[x].state != Blocked ==> tasks == old(tasks) && queue == old(queue)
    {
      assert TaskOk(tasks, queue, cur, x);
      if tasks[x].state != Blocked { return; }
      forall c | c in tasks ensures tasks[c].vforkParent != Some(x) { assert VforkOk(tasks, queue, cur, gone, c); }
      ReadyKeeps(tasks, queue, cur, gone, nextTid, x, e);
      tasks := tasks[x := tasks[x].(state := Ready, event := Some(e))];
      PushTask(x);
    }

    /** `wake_parent_waiting_vfork`: `wakeup_task_uninterruptible` queues the parent whatever its
        state is, and that is never a second time. */
    method WakeParentWaitingVfork(c: int)
      requires Valid() && c in tasks
      modifies this`tasks, this`queue
      ensures Valid() && ExitedStay() && tasks.Keys == old(tasks).Keys && tasks[c].vforkParent == None
      ensures tasks == Released(old(tasks), c) && queue == old(queue) + Waiter(old(tasks), c)
      ensures old(tasks)[c].vforkParent.Some? ==> Woken(old(tasks), tasks, old(tasks)[c].vforkParent.value)
      ensures forall d, p :: d != c && Stuck(old(tasks), d, p) ==> Stuck(tasks, d, p)
    {
      if tasks[c].vforkParent == None { return; }
      var p := tasks[c].vforkParent.value;
      ReleaseKeeps(tasks, queue, cur, gone, nextTid, c);
      forall d | d in tasks && d != c ensures tasks[d].vforkParent != Some(p) { assert OneChild(tasks, c, d); }
      tasks := tasks[c := tasks[c].(vforkParent := None)];
      if tasks[p].state == Blocked || tasks[p].state == BlockedUninterruptible {
        tasks := tasks[p := tasks[p].(state := Ready, event := Some(VFork))];
      }
      PushTask(p);
    }

    // ---- the processor ----

    /** A turn of the idle loop: the next task is dropped if it was killed, else it runs on. Behind
        a block it finds a wakeup event, so that the unwrap cannot fail; behind a vfork the event is
        the child's. */
    method RunNext() returns (e: Option<Event>)
      requires Valid() && cur == None
      modifies this`tasks, this`queue, this`cur
      ensures e == Answer(old(Now()), Turn)
      ensures Valid() && ExitedStay() && StuckStay()
      ensures old(queue) == [] ==> cur == None && tasks == old(tasks) && queue == []
      ensures old(queue) != [] ==> queue == old(queue)[1..] && old(queue)[0] in old(tasks)
      ensures old(queue) != [] && old(tasks)[old(queue)[0]].state == Exited ==> cur == None && tasks == old(tasks)
      ensures old(queue) != [] && old(tasks)[old(queue)[0]].state != Exited ==>
        && cur == Some(old(queue)[0]) && tasks == Resumed(old(tasks), old(queue)[0])
        && e == (if old(tasks)[old(queue)[0]].resume == User then None else old(tasks)[old(queue)[0]].event)
        && (e.None? <==> old(tasks)[old(queue)[0]].resume == User)
        && (old(tasks)[old(queue)[0]].resume == AfterVfork ==> e == Some(VFork))
    {
      e := None;
      var r := FetchNextTask();
      if r == None { return; }
      var x := r.value;
      assert QueuedOk(tasks, old(queue)[0]) && TaskOk(tasks, old(queue), cur, x);
      if tasks[x].state != Ready {
        DropKeeps(tasks, old(queue), cur, gone, nextTid);
        return;
      }
      RunKeeps(tasks, old(queue), cur, gone, nextTid);
      if tasks[x].resume != User {
        assert tasks[x].event.Some?;
        e := Some(tasks[x].event.value);
        assert tasks[x].resume == AfterVfork ==> e == Some(VFork);
      }
      tasks := tasks[x := tasks[x].(state := Running, event := None, resume := User)];
      cur := Some(x);
    }

    /** The current task gives up the processor without blocking. */
    method Yield()
      requires Valid() && cur.Some?
      modifies this`tasks, this`queue, this`cur
      ensures Valid() && ExitedStay() && StuckStay() && cur == None && queue == old(queue) + [old(cur).value]
      ensures tasks == Left(old(tasks), old(cur).value, Ready, User)
    {
      var x := cur.value;
      LeaveKeeps(tasks, queue, cur, gone, nextTid, Ready, User);
      tasks := tasks[x := tasks[x].(state := Ready, resume := User)];
      PushTask(x);
      cur := None;
    }

    /** `block` up to the switch away. */
    method Block()
      requires Valid() && cur.Some?
      modifies this`tasks, this`cur
      ensures Valid() && ExitedStay() && StuckStay() && cur == None
      ensures tasks == Left(old(tasks), old(cur).value, Blocked, AfterBlock)
    {
      var x := cur.value;
      LeaveKeeps(tasks, queue, cur, gone, nextTid, Blocked, AfterBlock);
      tasks := tasks[x := tasks[x].(state := Blocked, resume := AfterBlock)];
      cur := None;
    }

    // ---- clone, exec, exit ----

    /** A new task object is queued; the first one at boot, the others by `clone`. */
    method Clone(x: int)
      requires Valid() && x !in tasks
      modifies this`tasks, this`queue, this`nextTid
      ensures Valid() && ExitedStay() && StuckStay() && cur == old(cur) && nextTid == old(nextTid) + 1
      ensures tasks == old(tasks)[x := NewTask(old(nextTid))] && queue == old(queue) + [x]
    {
      SpawnKeeps(tasks, queue, cur, gone, nextTid, x, nextTid);
      tasks := tasks[x := Tcb(nextTid, Ready, None, None, User)];
      nextTid := nextTid + 1;
      PushTask(x);
    }

    /** `clone` with the vfork flag: the parent blocks until the child runs or exits. */
    method CloneVfork(x: int)
      requires Valid() && x !in tasks && cur.Some?
      modifies this`tasks, this`queue, this`cur, this`nextTid
      ensures Valid() && ExitedStay() && StuckStay() && cur == None && queue == old(queue) + [x]
      ensures tasks == Forked(old(tasks), old(cur).value, x, old(nextTid)) && nextTid == old(nextTid) + 1
      ensures tasks[x].vforkParent == old(cur) && tasks[old(cur).value].state == BlockedUninterruptible
    {
      var p := cur.value;
      ForkKeeps(tasks, queue, cur, gone, nextTid, x);
      Clone(x);
      tasks := tasks[x := tasks[x].(vforkParent := Some(p))];
      tasks := tasks[p := tasks[p].(state := BlockedUninterruptible, resume := AfterVfork)];
      assert tasks == Forked(old(tasks), p, x, old(nextTid));
      cur := None;
    }

    /** The current task and the tasks of its process in `group` are killed; all there is to a death by a
        signal, which wakes no vfork parent. (The switch away from the
        processor, which ends the call, is taken here; what comes between does not look at it.) */
    method Kill(group: set<int>)
      requires Valid() && cur.Some? && cur.value in group
      modifies this`tasks, this`cur
      ensures Valid() && ExitedStay() && StuckStay() && cur == None && tasks == Killed(old(tasks), group)
    {
      KillKeeps(tasks, queue, cur, gone, nextTid, group);
      tasks := Killed(tasks, group);
      cur := None;
    }

    /** `exit` and `exit_group`; afterwards a waiting vfork parent is queued. */
    method Exit(group: set<int>)
      requires Valid() && cur.Some? && cur.value in group
      modifies this`tasks, this`queue, this`cur
      ensures Valid() && ExitedStay() && StuckStay() && cur == None
      ensures tasks == Released(Killed(old(tasks), group), old(cur).value)
      ensures queue == old(queue) + Waiter(old(tasks), old(cur).value)
      ensures forall x :: x in group && x in old(tasks) ==> x in tasks && tasks[x].state == Exited
      ensures var parent := old(tasks)[old(cur).value].vforkParent;
        parent.Some? && parent.value !in group ==> Woken(old(tasks), tasks, parent.value)
    {
      var x := cur.value;
      Kill(group);
      WakeParentWaitingVfork(x);
    }

    /** `execve`: the process's tasks are killed and a new object takes over the caller's tid. The old one is gone,
        and what is gone is in no queue. */
    method Exec(group: set<int>, y: int)
      requires Valid() && cur.Some? && cur.value in group && y !in tasks
      modifies this`tasks, this`queue, this`cur, this`gone
      ensures Valid() && ExitedStay() && StuckStay() && cur == None
      ensures var x := old(cur).value;
        && tasks == Released(Killed(old(tasks), group)[y := NewTask(old(tasks)[x].tid)], x)
        && queue == old(queue) + [y] + Waiter(old(tasks), x)
        && gone == old(gone) + {x} && x !in queue
      ensures y in tasks && tasks[y].tid == old(tasks)[old(cur).value].tid && y in queue
      ensures var parent := old(tasks)[old(cur).value].vforkParent;
        parent.Some? && parent.value !in group ==> Woken(old(tasks), tasks, parent.value)
    {
      var x := cur.value;
      ReplaceTask(group, y);
      WakeParentWaitingVfork(x);
      assert TaskOk(tasks, queue, cur, x);
    }

    /** `PCB::exec`: the tasks are killed and the new one is queued. */
    method ReplaceTask(group: set<int>, y: int)
      requires Valid() && cur.Some? && cur.value in group && y !in tasks
      modifies this`tasks, this`queue, this`cur, this`gone
      ensures Valid() && ExitedStay() && StuckStay() && cur == None && queue == old(queue) + [y]
      ensures tasks == Killed(old(tasks), group)[y := NewTask(old(tasks)[old(cur).value].tid)]
      ensures gone == old(gone) + {old(cur).value} && old(cur).value !in queue
    {
      var x := cur.value;
      assert TaskOk(tasks, queue, cur, x);
      forall c | c in tasks ensures tasks[c].vforkParent != Some(x) { assert VforkOk(tasks, queue, cur, gone, c); }
      Kill(group);
      ReplaceKeeps(tasks, queue, gone, nextTid, x, y);
      gone := gone + {x};
      tasks := tasks[y := Tcb(tasks[x].tid, Ready, None, None, User)];
      PushTask(y);
    }

    // ---- whole runs ----

    /** One step; a step that the state does not allow does nothing. */
    method Do(step: Step) returns (e: Option<Event>)
      requires Valid()
      modifies this
      ensures e == Answer(old(Now()), step)
      ensures Valid() && ExitedStay() && StuckStay() && Now() == Next(old(Now()), step)
      ensures forall x {:trigger Kept(old(Now()), step, Now(), x)} :: Kept(old(Now()), step, Now(), x)
      ensures forall c, p {:trigger Fate(old(Now()), step, Now(), c, p)} :: Fate(old(Now()), step, Now(), c, p)
    {
      NextAll(Now(), step);
      e := None;
      match step {
        case Turn => if cur == None { e := RunNext(); }
        case Preempt => if cur.Some? { Yield(); }
        case Wait => if cur.Some? { Block(); }
        case Wake(x, e) => if x in tasks { WakeupTask(x, e); }
        case New(x) => if x !in tasks { Clone(x); }
        case NewVfork(x) => if x !in tasks && cur.Some? { CloneVfork(x); }
        case Die(group) => if cur.Some? { Exit(group + {cur.value}); }
        case DieBySignal(group) => if cur.Some? { Kill(group + {cur.value}); }
        case Replace(group, y) => if cur.Some? && y !in tasks { Exec(group + {cur.value}, y); }
      }
    }

    /** Every run does what its steps do one after the other. No task is lost, a killed task never runs again, what was
        replaced is never queued again, and a vfork parent whose child died without waking it is never woken. */
    method Run(steps: seq<Step>) returns (told: seq<Option<Event>>)
      requires Valid()
      modifies this
      ensures |told| == |steps| && Told(old(Now()), steps, told)
      ensures Valid() && ExitedStay() && StuckStay() && Now() == After(old(Now()), steps) && old(gone) <= gone
      ensures forall x :: x in old(tasks) ==> x in tasks && tasks[x].tid == old(tasks)[x].tid
      ensures forall x :: x in old(tasks) && old(tasks)[x].state != Exited ==>
        (tasks[x].state == Exited <==> exists i :: 0 <= i < |steps| && DiesAt(old(Now()), steps, i, x))
      ensures forall x :: x in old(gone) ==> x !in queue && cur != Some(x)
    {
      told := Execute(steps);
      RunAllTasks(old(Now()), steps);
      RunKept(old(Now()), steps);
      assert forall x :: x in gone ==> TaskOk(tasks, queue, cur, x);
    }

    /** The steps, one after the other. */
    method Execute(steps: seq<Step>) returns (told: seq<Option<Event>>)
      requires Valid()
      modifies this
      ensures Valid() && Now() == After(old(Now()), steps)
      ensures |told| == |steps| && Told(old(Now()), steps, told)
    {
      ghost var s := Now();
      told := [];
      for i := 0 to |steps|
        invariant Valid() && Now() == After(s, steps[..i])
        invariant |told| == i && Told(s, steps, told)
      {
        AfterNext(s, steps, i);
        var e := Do(steps[i]);
        ToldNext(s, steps, told, e);
        told := told + [e];
      }
      assert steps[..|steps|] == steps;
    }
  }

  /** Task 1 waits for its vfork child 2, which runs. */
  method VforkChild() returns (k: Kernel)
    ensures fresh(k) && k.Valid() && k.cur == Some(2) && k.queue == [] && k.tasks.Keys == {1, 2}
    ensures k.tasks[1].state == BlockedUninterruptible && k.tasks[2].vforkParent == Some(1)
  {
    k := new Kernel();
    k.Clone(1);
    var _ := k.RunNext();
    assert k.cur == Some(1) && k.queue == [] && k.tasks.Keys == {1};
    k.CloneVfork(2);
    assert k.queue == [2];
    var _ := k.RunNext();
  }

  /** A vfork parent whose child dies by a signal stays blocked. */
  method StuckBySignal() returns (k: Kernel)
    ensures fresh(k) && k.Valid() && Stuck(k.tasks, 2, 1) && k.tasks[1].state == BlockedUninterruptible
  {
    k := VforkChild();
    k.Kill({2});
  }

  /** So does one whose child has a second task that calls `exit_group`, or `execve` if `exec` is set. */
  method StuckByThread(exec: bool) returns (k: Kernel)
    ensures fresh(k) && k.Valid() && Stuck(k.tasks, 2, 1) && k.tasks[1].state == BlockedUninterruptible
  {
    k := VforkChild();
    k.Clone(3);
    k.Yield();
    assert k.queue == [3, 2];
    var _ := k.RunNext();
    if exec { k.Exec({2, 3}, 4); } else { k.Exit({2, 3}); }
  }
}
