/** What each step of the scheduler does to the tasks, and what holds over every run of steps. */
module SchedSteps {
  import opened Common
  import opened SchedState

  datatype Step =
    | Turn
    | Preempt
    | Wait
    | Wake(task: int, event: Event)
    | New(task: int)
    | NewVfork(task: int)
    | Die(group: set<int>)
    | DieBySignal(group: set<int>)
    | Replace(group: set<int>, task: int)

  /** Task `p` waits for its vfork child `c`, which is dead, or it was killed. */
  ghost predicate Stuck(tasks: Tasks, c: int, p: int) {
    && c in tasks && tasks[c].state == Exited && tasks[c].vforkParent == Some(p)
    && p in tasks && (tasks[p].state == BlockedUninterruptible || tasks[p].state == Exited)
  }

  /** Unless it was killed, `p` has become ready with the event of a vfork. */
  ghost predicate Woken(tasks: Tasks, tasks': Tasks, p: int) {
    && p in tasks && p in tasks'
    && (tasks[p].state != Exited ==> tasks'[p].state == Ready && tasks'[p].event == Some(VFork))
  }

  // ---- what one step does ----

  /** The invariant, folded. */
  ghost predicate Ok(s: State) {
    forall k: nat {:trigger Unfold(k)} :: Unfold(k) ==> Inv(s.tasks, s.queue, s.cur, s.gone, s.nextTid)
  }

  lemma OkIff(s: State)
    ensures Ok(s) <==> Inv(s.tasks, s.queue, s.cur, s.gone, s.nextTid)
  {
    assert Unfold(0);
  }

  function NewTask(tid: int): Tcb {
    Tcb(tid, Ready, None, None, User)
  }

  /** Task `x` leaves the processor. */
  function Left(tasks: Tasks, x: int, state: TaskState, resume: Resume): Tasks
    requires x in tasks
  {
    tasks[x := tasks[x].(state := state, resume := resume)]
  }

  /** Task `x` goes on where it stopped. */
  function Resumed(tasks: Tasks, x: int): Tasks
    requires x in tasks
  {
    tasks[x := tasks[x].(state := Running, event := None, resume := User)]
  }

  function Awake(tasks: Tasks, x: int, e: Event): Tasks
    requires x in tasks
  {
    tasks[x := tasks[x].(state := Ready, event := Some(e))]
  }

  /** The child `x` of the vfork of `p`. */
  function Forked(tasks: Tasks, p: int, x: int, tid: int): Tasks
    requires p in tasks
  {
    Left(tasks, p, BlockedUninterruptible, AfterVfork)[x := NewTask(tid).(vforkParent := Some(p))]
  }

  function Killed(tasks: Tasks, group: set<int>): Tasks {
    map x | x in tasks :: if x in group then tasks[x].(state := Exited) else tasks[x]
  }

  /** The parent that task `c` will queue. */
  function Waiter(tasks: Tasks, c: int): seq<int>
    requires c in tasks
  {
    if tasks[c].vforkParent.Some? then [tasks[c].vforkParent.value] else []
  }

  /** Task `c` has woken its parent, if it has one that waits. */
  function Released(tasks: Tasks, c: int): Tasks
    requires c in tasks
  {
    var tasks' := tasks[c := tasks[c].(vforkParent := None)];
    if tasks[c].vforkParent == None then tasks
    else
      var p := tasks[c].vforkParent.value;
      if p in tasks' && tasks'[p].state == BlockedUninterruptible then Awake(tasks', p, VFork) else tasks'
  }

  /** The tasks a step kills: the caller and the tasks of its process. */
  function Dying(s: State, step: Step): set<int> {
    if s.cur == None then {}
    else
      match step
      case Die(group) => group + {s.cur.value}
      case DieBySignal(group) => group + {s.cur.value}
      case Replace(group, y) => if y in s.tasks then {} else group + {s.cur.value}
      case _ => {}
  }

  /** The steps in which the caller dies or is replaced and looks for a vfork parent. */
  predicate Releases(s: State, step: Step, c: int) {
    s.cur == Some(c) && (step.Die? || (step.Replace? && step.task !in s.tasks))
  }

  /** What a step does; a step that the state does not allow does nothing. */
  ghost function Next(s: State, step: Step): State
    requires Ok(s)
  {
    OkIff(s);
    match step
    case Turn =>
      if s.cur.Some? || s.queue == [] then s
      else
        var x, rest := s.queue[0], s.queue[1..];
        assert QueuedOk(s.tasks, s.queue[0]);
        if s.tasks[x].state == Ready then s.(tasks := Resumed(s.tasks, x), queue := rest, cur := Some(x))
        else s.(queue := rest)
    case Preempt =>
      if s.cur == None then s
      else
        var x := s.cur.value;
        s.(tasks := Left(s.tasks, x, Ready, User), queue := s.queue + [x], cur := None)
    case Wait =>
      if s.cur == None then s else s.(tasks := Left(s.tasks, s.cur.value, Blocked, AfterBlock), cur := None)
    case Wake(x, e) =>
      if x !in s.tasks || s.tasks[x].state != Blocked then s
      else s.(tasks := Awake(s.tasks, x, e), queue := s.queue + [x])
    case New(x) =>
      if x in s.tasks then s
      else s.(tasks := s.tasks[x := NewTask(s.nextTid)], queue := s.queue + [x], nextTid := s.nextTid + 1)
    case NewVfork(x) =>
      if x in s.tasks || s.cur == None then s
      else s.(tasks := Forked(s.tasks, s.cur.value, x, s.nextTid), queue := s.queue + [x], cur := None,
              nextTid := s.nextTid + 1)
    case Die(_) =>
      if s.cur == None then s
      else
        var x := s.cur.value;
        s.(tasks := Released(Killed(s.tasks, Dying(s, step)), x), queue := s.queue + Waiter(s.tasks, x), cur := None)
    case DieBySignal(_) =>
      if s.cur == None then s else s.(tasks := Killed(s.tasks, Dying(s, step)), cur := None)
    case Replace(_, y) =>
      if s.cur == None || y in s.tasks then s
      else
        var x := s.cur.value;
        var tasks := Killed(s.tasks, Dying(s, step))[y := NewTask(s.tasks[x].tid)];
        s.(tasks := Released(tasks, x), queue := s.queue + [y] + Waiter(s.tasks, x), cur := None,
           gone := s.gone + {x})
  }

  /** Making a blocked task ready and queueing it. */
  lemma {:induction false} ReadyKeeps(tasks: Tasks, queue: seq<int>, cur: Option<int>, gone: set<int>, nextTid: int,
                                      x: int, e: Event)
    requires Inv(tasks, queue, cur, gone, nextTid) && x in tasks
    requires tasks[x].state == Blocked || (tasks[x].state == BlockedUninterruptible && e == VFork)
    requires forall c :: c in tasks ==> tasks[c].vforkParent != Some(x)
    ensures Inv(tasks[x := tasks[x].(state := Ready, event := Some(e))], queue + [x], cur, gone, nextTid)
    ensures forall i :: 0 <= i < |queue| ==> queue[i] in tasks && tasks[queue[i]].tid != tasks[x].tid
  {
    var tasks', queue' := tasks[x := tasks[x].(state := Ready, event := Some(e))], queue + [x];
    assert TaskOk(tasks, queue, cur, x);
    forall y | y in tasks' ensures TaskOk(tasks', queue', cur, y) {
      assert TaskOk(tasks, queue, cur, y);
    }
    forall c | c in tasks' ensures VforkOk(tasks', queue', cur, gone, c) {
      assert VforkOk(tasks, queue, cur, gone, c);
    }
    forall c, d ensures OneChild(tasks', c, d) { assert OneChild(tasks, c, d); }
    forall y, z ensures OneTid(tasks', gone, y, z) { assert OneTid(tasks, gone, y, z); }
    forall i | 0 <= i < |queue| ensures queue[i] in tasks && tasks[queue[i]].tid != tasks[x].tid {
      assert OneTid(tasks, gone, queue[i], x);
    }
  }

  lemma {:induction false} TakeKeeps(tasks: Tasks, queue: seq<int>, cur: Option<int>, gone: set<int>, nextTid: int,
                                     c: int)
    requires Inv(tasks, queue, cur, gone, nextTid) && c in tasks && tasks[c].vforkParent.Some?
    ensures var tasks' := tasks[c := tasks[c].(vforkParent := None)];
      && Inv(tasks', queue, cur, gone, nextTid)
      && forall d :: d in tasks' ==> tasks'[d].vforkParent != tasks[c].vforkParent
  {
    var tasks' := tasks[c := tasks[c].(vforkParent := None)];
    forall y | y in tasks' ensures TaskOk(tasks', queue, cur, y) { assert TaskOk(tasks, queue, cur, y); }
    forall i | 0 <= i < |queue| ensures QueuedOk(tasks', queue[i]) { assert QueuedOk(tasks, queue[i]); }
    forall d | d in tasks'
      ensures VforkOk(tasks', queue, cur, gone, d) && tasks'[d].vforkParent != tasks[c].vforkParent
    {
      assert VforkOk(tasks, queue, cur, gone, d) && OneChild(tasks, c, d);
    }
    forall d, e ensures OneChild(tasks', d, e) { assert OneChild(tasks, d, e); }
    forall y, z ensures OneTid(tasks', gone, y, z) { assert OneTid(tasks, gone, y, z); }
  }

  /** Waking the parent of a vfork child. */
  lemma {:induction false} ReleaseKeeps(tasks: Tasks, queue: seq<int>, cur: Option<int>, gone: set<int>, nextTid: int,
                                        c: int)
    requires Inv(tasks, queue, cur, gone, nextTid) && c in tasks
    ensures Inv(Released(tasks, c), queue + Waiter(tasks, c), cur, gone, nextTid)
    ensures tasks[c].vforkParent.Some? ==>
      var p := tasks[c].vforkParent.value;
      && p in tasks && (tasks[p].state == BlockedUninterruptible || tasks[p].state == Exited)
      && forall i :: 0 <= i < |queue| ==> queue[i] in tasks && tasks[queue[i]].tid != tasks[p].tid
  {
    if tasks[c].vforkParent == None {
      assert queue + [] == queue;
    } else {
      var p := tasks[c].vforkParent.value;
      assert VforkOk(tasks, queue, cur, gone, c) && TaskOk(tasks, queue, cur, p);
      TakeKeeps(tasks, queue, cur, gone, nextTid, c);
      var tasks' := tasks[c := tasks[c].(vforkParent := None)];
      if tasks'[p].state == BlockedUninterruptible {
        ReadyKeeps(tasks', queue, cur, gone, nextTid, p, VFork);
      } else {
        QueueExited(tasks', queue, cur, gone, nextTid, p);
      }
    }
  }

  /** Queueing a parent that was killed while it waited. */
  lemma {:induction false} QueueExited(tasks: Tasks, queue: seq<int>, cur: Option<int>, gone: set<int>, nextTid: int,
                                       p: int)
    requires Inv(tasks, queue, cur, gone, nextTid) && p in tasks && tasks[p].state == Exited
    requires p !in queue && p !in gone && forall c :: c in tasks ==> tasks[c].vforkParent != Some(p)
    ensures Inv(tasks, queue + [p], cur, gone, nextTid)
    ensures forall i :: 0 <= i < |queue| ==> queue[i] in tasks && tasks[queue[i]].tid != tasks[p].tid
  {
    var queue' := queue + [p];
    forall y | y in tasks ensures TaskOk(tasks, queue', cur, y) { assert TaskOk(tasks, queue, cur, y); }
    forall c | c in tasks ensures VforkOk(tasks, queue', cur, gone, c) { assert VforkOk(tasks, queue, cur, gone, c); }
    forall i | 0 <= i < |queue| ensures queue[i] in tasks && tasks[queue[i]].tid != tasks[p].tid {
      assert OneTid(tasks, gone, queue[i], p);
    }
  }

  lemma {:induction false} DropKeeps(tasks: Tasks, queue: seq<int>, cur: Option<int>, gone: set<int>, nextTid: int)
    requires Inv(tasks, queue, cur, gone, nextTid) && queue != [] && tasks[queue[0]].state == Exited
    ensures Inv(tasks, queue[1..], cur, gone, nextTid)
  {
    var rest := queue[1..];
    assert queue == [queue[0]] + rest;
    forall y | y in tasks ensures TaskOk(tasks, rest, cur, y) { assert TaskOk(tasks, queue, cur, y); }
    forall c | c in tasks ensures VforkOk(tasks, rest, cur, gone, c) { assert VforkOk(tasks, queue, cur, gone, c); }
  }

  lemma {:induction false} RunKeeps(tasks: Tasks, queue: seq<int>, cur: Option<int>, gone: set<int>, nextTid: int)
    requires Inv(tasks, queue, cur, gone, nextTid) && cur == None && queue != [] && tasks[queue[0]].state == Ready
    ensures var x := queue[0];
      Inv(tasks[x := tasks[x].(state := Running, event := None, resume := User)], queue[1..], Some(x), gone, nextTid)
  {
    var x, rest := queue[0], queue[1..];
    var tasks' := tasks[x := tasks[x].(state := Running, event := None, resume := User)];
    assert queue == [x] + rest;
    assert forall i :: 0 <= i < |rest| ==> rest[i] == queue[i + 1];
    forall y | y in tasks' ensures TaskOk(tasks', rest, Some(x), y) { assert TaskOk(tasks, queue, cur, y); }
    forall i | 0 <= i < |rest| ensures QueuedOk(tasks', rest[i]) { assert QueuedOk(tasks, queue[i + 1]); }
    forall c | c in tasks'
      ensures VforkOk(tasks', rest, Some(x), gone, c)
    {
      assert VforkOk(tasks, queue, cur, gone, c);
    }
    forall d, e ensures OneChild(tasks', d, e) { assert OneChild(tasks, d, e); }
    forall y, z ensures OneTid(tasks', gone, y, z) { assert OneTid(tasks, gone, y, z); }
  }

  /** The current task leaves the processor, ready and queued or blocked and not. */
  lemma {:induction false} LeaveKeeps(tasks: Tasks, queue: seq<int>, cur: Option<int>, gone: set<int>, nextTid: int,
                                      state: TaskState, resume: Resume)
    requires Inv(tasks, queue, cur, gone, nextTid) && cur.Some?
    requires (state, resume) == (Ready, User) || (state, resume) == (Blocked, AfterBlock)
             || (state, resume) == (BlockedUninterruptible, AfterVfork)
    ensures Inv(tasks[cur.value := tasks[cur.value].(state := state, resume := resume)],
                if state == Ready then queue + [cur.value] else queue, None, gone, nextTid)
    ensures forall i :: 0 <= i < |queue| ==> queue[i] in tasks && tasks[queue[i]].tid != tasks[cur.value].tid
  {
    var x := cur.value;
    var tasks' := tasks[x := tasks[x].(state := state, resume := resume)];
    var queue' := if state == Ready then queue + [x] else queue;
    assert TaskOk(tasks, queue, cur, x);
    forall y | y in tasks' ensures TaskOk(tasks', queue', None, y) { assert TaskOk(tasks, queue, cur, y); }
    forall i | 0 <= i < |queue'| ensures QueuedOk(tasks', queue'[i]) && queue'[i] !in gone {
      if i < |queue| { assert QueuedOk(tasks, queue[i]); }
    }
    forall c | c in tasks'
      ensures VforkOk(tasks', queue', None, gone, c)
    {
      assert VforkOk(tasks, queue, cur, gone, c);
    }
    forall d, e ensures OneChild(tasks', d, e) { assert OneChild(tasks, d, e); }
    forall y, z ensures OneTid(tasks', gone, y, z) { assert OneTid(tasks, gone, y, z); }
    forall i | 0 <= i < |queue| ensures queue[i] in tasks && tasks[queue[i]].tid != tasks[x].tid {
      assert OneTid(tasks, gone, queue[i], x);
    }
  }

  lemma {:induction false} SpawnKeeps(tasks: Tasks, queue: seq<int>, cur: Option<int>, gone: set<int>, nextTid: int,
                                      x: int, tid: int)
    requires Inv(tasks, queue, cur, gone, nextTid) && x !in tasks && tid == nextTid
    ensures Inv(tasks[x := Tcb(tid, Ready, None, None, User)], queue + [x], cur, gone, nextTid + 1)
    ensures forall i :: 0 <= i < |queue| ==> queue[i] in tasks && tasks[queue[i]].tid != tid
  {
    var tasks', queue' := tasks[x := Tcb(tid, Ready, None, None, User)], queue + [x];
    forall i | 0 <= i < |queue'|
      ensures QueuedOk(tasks', queue'[i]) && queue'[i] !in gone && (i < |queue| ==> queue'[i] != x)
    {
      if i < |queue| { assert QueuedOk(tasks, queue[i]); }
    }
    forall y | y in tasks' ensures TaskOk(tasks', queue', cur, y) {
      if y != x { assert TaskOk(tasks, queue, cur, y); }
    }
    forall c | c in tasks' ensures VforkOk(tasks', queue', cur, gone, c) {
      if c != x { assert VforkOk(tasks, queue, cur, gone, c); }
    }
    forall d, e ensures OneChild(tasks', d, e) { assert OneChild(tasks, d, e); }
    forall y, z ensures OneTid(tasks', gone, y, z) { assert OneTid(tasks, gone, y, z); }
  }

  /** The new child remembers its parent, which has just left the processor. */
  lemma {:induction false} VforkKeeps(tasks: Tasks, queue: seq<int>, gone: set<int>, nextTid: int, x: int, p: int,
                                      before: Tasks, cur: Option<int>)
    requires Inv(tasks, queue, None, gone, nextTid) && x in tasks && p in tasks && x != p
    requires tasks[x].vforkParent == None && tasks[p].state == BlockedUninterruptible && p !in gone
    requires Inv(before, queue, cur, gone, nextTid) && cur == Some(p) && before.Keys == tasks.Keys
    requires forall c :: c in tasks ==> tasks[c].vforkParent == before[c].vforkParent
    ensures Inv(tasks[x := tasks[x].(vforkParent := Some(p))], queue, None, gone, nextTid)
  {
    var tasks' := tasks[x := tasks[x].(vforkParent := Some(p))];
    forall y | y in tasks' ensures TaskOk(tasks', queue, None, y) { assert TaskOk(tasks, queue, None, y); }
    forall i | 0 <= i < |queue| ensures QueuedOk(tasks', queue[i]) { assert QueuedOk(tasks, queue[i]); }
    assert TaskOk(tasks, queue, None, p);
    forall c | c in tasks' ensures VforkOk(tasks', queue, None, gone, c) {
      if c != x { assert VforkOk(tasks, queue, None, gone, c); }
    }
    forall d, e ensures OneChild(tasks', d, e) {
      assert OneChild(tasks, d, e);
      if d in tasks { assert VforkOk(before, queue, cur, gone, d); }
      if e in tasks { assert VforkOk(before, queue, cur, gone, e); }
    }
    forall y, z ensures OneTid(tasks', gone, y, z) { assert OneTid(tasks, gone, y, z); }
  }

  lemma {:induction false} ForkKeeps(tasks: Tasks, queue: seq<int>, cur: Option<int>, gone: set<int>, nextTid: int,
                                     x: int)
    requires Inv(tasks, queue, cur, gone, nextTid) && x !in tasks && cur.Some?
    ensures Inv(Forked(tasks, cur.value, x, nextTid), queue + [x], None, gone, nextTid + 1)
  {
    var p := cur.value;
    SpawnKeeps(tasks, queue, cur, gone, nextTid, x, nextTid);
    var spawned, queue' := tasks[x := NewTask(nextTid)], queue + [x];
    LeaveKeeps(spawned, queue', cur, gone, nextTid + 1, BlockedUninterruptible, AfterVfork);
    var left := Left(spawned, p, BlockedUninterruptible, AfterVfork);
    assert TaskOk(spawned, queue', cur, p);
    VforkKeeps(left, queue', gone, nextTid + 1, x, p, spawned, cur);
    assert left[x := left[x].(vforkParent := Some(p))] == Forked(tasks, p, x, nextTid);
  }

  lemma {:induction false} KillKeeps(tasks: Tasks, queue: seq<int>, cur: Option<int>, gone: set<int>, nextTid: int,
                                     group: set<int>)
    requires Inv(tasks, queue, cur, gone, nextTid) && cur.Some? && cur.value in group
    ensures Inv(Killed(tasks, group), queue, None, gone, nextTid)
  {
    var tasks' := Killed(tasks, group);
    forall y | y in tasks' ensures TaskOk(tasks', queue, None, y) { assert TaskOk(tasks, queue, cur, y); }
    forall i | 0 <= i < |queue| ensures QueuedOk(tasks', queue[i]) { assert QueuedOk(tasks, queue[i]); }
    forall c | c in tasks' ensures VforkOk(tasks', queue, None, gone, c) { assert VforkOk(tasks, queue, cur, gone, c); }
    forall d, e ensures OneChild(tasks', d, e) { assert OneChild(tasks, d, e); }
    forall y, z ensures OneTid(tasks', gone, y, z) { assert OneTid(tasks, gone, y, z); }
  }

  /** A new object with the tid of one that was killed and that nothing can queue any more. */
  lemma {:induction false} ReplaceKeeps(tasks: Tasks, queue: seq<int>, gone: set<int>, nextTid: int, x: int, y: int)
    requires Inv(tasks, queue, None, gone, nextTid) && x in tasks && y !in tasks && tasks[x].state == Exited
    requires x !in queue && x !in gone && forall c :: c in tasks ==> tasks[c].vforkParent != Some(x)
    ensures Inv(tasks[y := Tcb(tasks[x].tid, Ready, None, None, User)], queue + [y], None, gone + {x}, nextTid)
    ensures forall i :: 0 <= i < |queue| ==> queue[i] in tasks && tasks[queue[i]].tid != tasks[x].tid
  {
    var tasks', queue', gone' := tasks[y := Tcb(tasks[x].tid, Ready, None, None, User)], queue + [y], gone + {x};
    forall i | 0 <= i < |queue| ensures queue[i] in tasks && tasks[queue[i]].tid != tasks[x].tid {
      assert QueuedOk(tasks, queue[i]) && OneTid(tasks, gone, queue[i], x);
    }
    forall i | 0 <= i < |queue'|
      ensures QueuedOk(tasks', queue'[i]) && queue'[i] !in gone' && (i < |queue| ==> queue'[i] != y)
    {
      if i < |queue| { assert QueuedOk(tasks, queue[i]); }
    }
    forall z | z in tasks' ensures TaskOk(tasks', queue', None, z) {
      if z != y { assert TaskOk(tasks, queue, None, z); }
    }
    forall c | c in tasks' ensures VforkOk(tasks', queue', None, gone', c) {
      if c != y { assert VforkOk(tasks, queue, None, gone, c); }
    }
    forall d, e ensures OneChild(tasks', d, e) { assert OneChild(tasks, d, e); }
    forall z, w ensures OneTid(tasks', gone', z, w) {
      assert OneTid(tasks, gone, z, w) && OneTid(tasks, gone, z, x) && OneTid(tasks, gone, x, w);
    }
  }

  // ---- every step ----

  /** Killing the group, and a new object in place of the caller. */
  lemma {:induction false} ExecKeeps(tasks: Tasks, queue: seq<int>, cur: Option<int>, gone: set<int>, nextTid: int,
                                     group: set<int>, y: int)
    requires Inv(tasks, queue, cur, gone, nextTid) && cur.Some? && cur.value in group && y !in tasks
    ensures var tasks' := Killed(tasks, group)[y := NewTask(tasks[cur.value].tid)];
      Inv(tasks', queue + [y], None, gone + {cur.value}, nextTid)
  {
    var x := cur.value;
    assert TaskOk(tasks, queue, cur, x);
    forall c | c in tasks ensures tasks[c].vforkParent != Some(x) { assert VforkOk(tasks, queue, cur, gone, c); }
    KillKeeps(tasks, queue, cur, gone, nextTid, group);
    ReplaceKeeps(Killed(tasks, group), queue, gone, nextTid, x, y);
  }

  lemma {:induction false} NextKeeps(s: State, step: Step)
    requires Ok(s)
    ensures Ok(Next(s, step))
  {
    var State(tasks, queue, cur, nextTid, gone) := s;
    OkIff(s);
    OkIff(Next(s, step));
    match step
    case Turn =>
      if cur == None && queue != [] {
        assert QueuedOk(tasks, queue[0]);
        if tasks[queue[0]].state == Ready { RunKeeps(tasks, queue, cur, gone, nextTid); }
        else { DropKeeps(tasks, queue, cur, gone, nextTid); }
      }
    case Preempt => if cur.Some? { LeaveKeeps(tasks, queue, cur, gone, nextTid, Ready, User); }
    case Wait => if cur.Some? { LeaveKeeps(tasks, queue, cur, gone, nextTid, Blocked, AfterBlock); }
    case Wake(x, e) =>
      if x in tasks && tasks[x].state == Blocked {
        forall c | c in tasks ensures tasks[c].vforkParent != Some(x) { assert VforkOk(tasks, queue, cur, gone, c); }
        ReadyKeeps(tasks, queue, cur, gone, nextTid, x, e);
      }
    case New(x) => if x !in tasks { SpawnKeeps(tasks, queue, cur, gone, nextTid, x, nextTid); }
    case NewVfork(x) => if x !in tasks && cur.Some? { ForkKeeps(tasks, queue, cur, gone, nextTid, x); }
    case Die(_) =>
      if cur.Some? {
        KillKeeps(tasks, queue, cur, gone, nextTid, Dying(s, step));
        ReleaseKeeps(Killed(tasks, Dying(s, step)), queue, None, gone, nextTid, cur.value);
      }
    case DieBySignal(_) => if cur.Some? { KillKeeps(tasks, queue, cur, gone, nextTid, Dying(s, step)); }
    case Replace(_, y) =>
      if cur.Some? && y !in tasks {
        ExecKeeps(tasks, queue, cur, gone, nextTid, Dying(s, step), y);
        var tasks' := Killed(tasks, Dying(s, step))[y := NewTask(tasks[cur.value].tid)];
        ReleaseKeeps(tasks', queue + [y], None, gone + {cur.value}, nextTid, cur.value);
      }
  }

  /** No step forgets a task or changes its tid, and a task is killed exactly by the steps that kill it. */
  lemma {:induction false} NextTasks(s: State, step: Step, x: int)
    requires Ok(s) && x in s.tasks
    ensures var tasks' := Next(s, step).tasks;
      && x in tasks' && tasks'[x].tid == s.tasks[x].tid
      && (tasks'[x].state == Exited <==> s.tasks[x].state == Exited || x in Dying(s, step))
  {
    OkIff(s);
    if s.queue != [] { assert QueuedOk(s.tasks, s.queue[0]); }
  }

  /** A vfork parent is woken exactly when the child itself exits or calls exec; every other step leaves it waiting,
      unless it is killed. */
  lemma {:induction false} NextVfork(s: State, step: Step, c: int, p: int)
    requires Ok(s) && c in s.tasks && s.tasks[c].vforkParent == Some(p)
    ensures var tasks' := Next(s, step).tasks;
      && p in s.tasks && p in tasks' && c in tasks'
      && (!Releases(s, step, c) ==> tasks'[c].vforkParent == Some(p))
      && (s.tasks[p].state != Exited && p !in Dying(s, step) ==>
            if Releases(s, step, c) then tasks'[p].state == Ready && tasks'[p].event == Some(VFork)
            else tasks'[p].state == BlockedUninterruptible)
  {
    OkIff(s);
    assert VforkOk(s.tasks, s.queue, s.cur, s.gone, c) && TaskOk(s.tasks, s.queue, s.cur, p);
    if s.queue != [] { assert QueuedOk(s.tasks, s.queue[0]); }
    if s.cur.Some? { assert OneChild(s.tasks, c, s.cur.value); }
  }

  /** What a step from `s` to `t` does to task `x`: it stays, under its tid, and is killed exactly by what kills it. */
  ghost predicate Kept(s: State, step: Step, t: State, x: int) {
    x in s.tasks ==>
      && x in t.tasks && t.tasks[x].tid == s.tasks[x].tid
      && (t.tasks[x].state == Exited <==> s.tasks[x].state == Exited || x in Dying(s, step))
  }

  /** What it does to `p`, which waits for its vfork child `c` and is not killed: `p` is woken exactly when `c` itself
      exits or calls exec, and is stuck when `c` dies in any other way. */
  ghost predicate Fate(s: State, step: Step, t: State, c: int, p: int) {
    c in s.tasks && s.tasks[c].vforkParent == Some(p) && p in s.tasks && s.tasks[p].state != Exited
    && p !in Dying(s, step) ==>
      && p in t.tasks
      && (t.tasks[p].state == Ready && t.tasks[p].event == Some(VFork) <==> Releases(s, step, c))
      && (c in Dying(s, step) && !Releases(s, step, c) ==> Stuck(t.tasks, c, p))
  }

  lemma {:induction false} NextAll(s: State, step: Step)
    requires Ok(s)
    ensures forall x {:trigger Kept(s, step, Next(s, step), x)} :: Kept(s, step, Next(s, step), x)
    ensures forall c, p {:trigger Fate(s, step, Next(s, step), c, p)} :: Fate(s, step, Next(s, step), c, p)
  {
    var t := Next(s, step);
    forall x ensures Kept(s, step, t, x) {
      if x in s.tasks { NextTasks(s, step, x); }
    }
    forall c, p ensures Fate(s, step, t, c, p) {
      if c in s.tasks && s.tasks[c].vforkParent == Some(p) {
        NextVfork(s, step, c, p);
        NextTasks(s, step, c);
      }
    }
  }

  // ---- every run ----

  ghost function After(s: State, steps: seq<Step>): (r: State)
    requires Ok(s)
    ensures Ok(r)
  {
    if steps == [] then s
    else
      var n := |steps| - 1;
      NextKeeps(After(s, steps[..n]), steps[n]);
      Next(After(s, steps[..n]), steps[n])
  }

  lemma {:induction false} AfterNext(s: State, steps: seq<Step>, i: nat)
    requires Ok(s) && i < |steps|
    ensures After(s, steps[..i + 1]) == Next(After(s, steps[..i]), steps[i])
  {
    assert steps[..i + 1][..i] == steps[..i];
  }

  /** Step `i` of a run kills task `x`. */
  ghost predicate DiesAt(s: State, steps: seq<Step>, i: nat, x: int)
    requires Ok(s) && i < |steps|
  {
    x in Dying(After(s, steps[..i]), steps[i])
  }

  /** No task is lost: no run forgets one or changes its tid, and those killed are exactly those some step kills. */
  lemma {:induction false} RunTasks(s: State, steps: seq<Step>, x: int)
    requires Ok(s) && x in s.tasks
    ensures var tasks' := After(s, steps).tasks;
      && x in tasks' && tasks'[x].tid == s.tasks[x].tid
      && (tasks'[x].state == Exited <==>
          s.tasks[x].state == Exited || exists i :: 0 <= i < |steps| && DiesAt(s, steps, i, x))
  {
    if steps != [] {
      var n := |steps| - 1;
      var before := steps[..n];
      RunTasks(s, before, x);
      NextTasks(After(s, before), steps[n], x);
      forall i | 0 <= i < n ensures DiesAt(s, before, i, x) <==> DiesAt(s, steps, i, x) {
        assert before[..i] == steps[..i];
      }
      assert DiesAt(s, steps, n, x) <==> x in Dying(After(s, before), steps[n]);
    }
  }

  lemma {:induction false} RunAllTasks(s: State, steps: seq<Step>)
    requires Ok(s)
    ensures forall x :: x in s.tasks ==> x in After(s, steps).tasks && After(s, steps).tasks[x].tid == s.tasks[x].tid
    ensures forall x :: x in s.tasks && s.tasks[x].state == Exited ==> After(s, steps).tasks[x].state == Exited
    ensures forall x :: x in s.tasks && s.tasks[x].state != Exited ==>
      (After(s, steps).tasks[x].state == Exited <==> exists i :: 0 <= i < |steps| && DiesAt(s, steps, i, x))
  {
    forall x | x in s.tasks { RunTasks(s, steps, x); }
  }

  lemma {:induction false} StuckNext(s: State, step: Step, c: int, p: int)
    requires Ok(s) && Stuck(s.tasks, c, p)
    ensures !Releases(s, step, c) && Stuck(Next(s, step).tasks, c, p)
  {
    OkIff(s);
    assert TaskOk(s.tasks, s.queue, s.cur, c);
    NextTasks(s, step, c);
    NextTasks(s, step, p);
    NextVfork(s, step, c, p);
  }

  /** A vfork parent whose child is dead without having woken it is never woken. */
  lemma {:induction false} StuckLater(s: State, steps: seq<Step>, i: nat, j: nat, c: int, p: int)
    requires Ok(s) && i <= j <= |steps| && Stuck(After(s, steps[..i]).tasks, c, p)
    ensures Stuck(After(s, steps[..j]).tasks, c, p)
  {
    if i < j {
      var k := j - 1;
      var t := After(s, steps[..k]);
      assert Stuck(t.tasks, c, p) by { StuckLater(s, steps, i, k, c, p); }
      StuckNext(t, steps[k], c, p);
      AfterNext(s, steps, k);
    }
  }

  lemma {:induction false} GoneNext(s: State, step: Step)
    requires Ok(s)
    ensures s.gone <= Next(s, step).gone
  {
  }

  lemma {:induction false} GoneGrows(s: State, steps: seq<Step>)
    requires Ok(s)
    ensures s.gone <= After(s, steps).gone
  {
    if steps != [] {
      GoneGrows(s, steps[..|steps| - 1]);
      GoneNext(After(s, steps[..|steps| - 1]), steps[|steps| - 1]);
    }
  }

  /** What is gone stays gone, and what is stuck stays stuck. */
  lemma {:induction false} RunKept(s: State, steps: seq<Step>)
    requires Ok(s)
    ensures s.gone <= After(s, steps).gone
    ensures forall c, p {:trigger Stuck(s.tasks, c, p)} {:trigger Stuck(After(s, steps).tasks, c, p)} ::
      Stuck(s.tasks, c, p) ==> Stuck(After(s, steps).tasks, c, p)
  {
    GoneGrows(s, steps);
    forall c, p | Stuck(s.tasks, c, p) ensures Stuck(After(s, steps).tasks, c, p) {
      StuckLater(s, steps, 0, |steps|, c, p);
      assert steps[..0] == [] && steps[..|steps|] == steps;
    }
  }

  /** The fate of a vfork parent `p` when its child dies at step `i` of a run: it is woken exactly when the child itself
      exits or calls exec; otherwise it is stuck in every later state. */
  lemma {:induction false} VforkFate(s: State, steps: seq<Step>, i: nat, c: int, p: int)
    requires Ok(s) && i < |steps| && DiesAt(s, steps, i, c) && !DiesAt(s, steps, i, p)
    requires var t := After(s, steps[..i]);
      && c in t.tasks && t.tasks[c].vforkParent == Some(p)
      && p in t.tasks && t.tasks[p].state != Exited
    ensures var t, t' := After(s, steps[..i]), After(s, steps[..i + 1]);
      && p in t'.tasks
      && (t'.tasks[p].state == Ready && t'.tasks[p].event == Some(VFork) <==> Releases(t, steps[i], c))
      && (!Releases(t, steps[i], c) ==> forall j :: i < j <= |steps| ==> Stuck(After(s, steps[..j]).tasks, c, p))
  {
    var t := After(s, steps[..i]);
    AfterNext(s, steps, i);
    NextVfork(t, steps[i], c, p);
    NextTasks(t, steps[i], c);
    if !Releases(t, steps[i], c) {
      forall j | i < j <= |steps| ensures Stuck(After(s, steps[..j]).tasks, c, p) {
        StuckLater(s, steps, i + 1, j, c, p);
      }
    }
  }

  // ---- fairness of the queue ----

  /** A turn of the idle loop that takes a task from the queue. */
  predicate Takes(s: State, step: Step) {
    step.Turn? && s.cur == None && s.queue != []
  }

  ghost function Taken(s: State, steps: seq<Step>): nat
    requires Ok(s)
  {
    if steps == [] then 0
    else
      var n := |steps| - 1;
      Taken(s, steps[..n]) + if Takes(After(s, steps[..n]), steps[n]) then 1 else 0
  }

  /** The queue is first in, first out. */
  lemma {:induction false} NextQueue(s: State, step: Step)
    requires Ok(s)
    ensures (if Takes(s, step) then s.queue[1..] else s.queue) <= Next(s, step).queue
  {
    OkIff(s);
    if s.queue != [] { assert QueuedOk(s.tasks, s.queue[0]); }
  }

  /** Task `x` is taken at step `i`. */
  ghost predicate TakenAt(s: State, steps: seq<Step>, i: nat, x: int)
    requires Ok(s) && i < |steps|
  {
    var t := After(s, steps[..i]);
    Takes(t, steps[i]) && t.queue[0] == x
  }

  /** Task `x` has `k` tasks before it in the queue, or has been taken. */
  ghost predicate InTurn(s: State, steps: seq<Step>, x: int, k: int)
    requires Ok(s)
  {
    && (k >= 0 ==> k < |After(s, steps).queue| && After(s, steps).queue[k] == x)
    && (k < 0 ==> exists i :: 0 <= i < |steps| && TakenAt(s, steps, i, x))
  }

  lemma {:induction false} InTurnNext(s: State, steps: seq<Step>, x: int, k: int)
    requires Ok(s) && steps != [] && InTurn(s, steps[..|steps| - 1], x, k)
    ensures InTurn(s, steps, x, if Takes(After(s, steps[..|steps| - 1]), steps[|steps| - 1]) then k - 1 else k)
  {
    var m := |steps| - 1;
    var before := steps[..m];
    NextQueue(After(s, before), steps[m]);
    if k < 0 {
      var i :| 0 <= i < m && TakenAt(s, before, i, x);
      assert before[..i] == steps[..i];
      assert TakenAt(s, steps, i, x);
    } else if k == 0 && Takes(After(s, before), steps[m]) {
      assert TakenAt(s, steps, m, x);
    }
  }

  /** Every queued task has its turn: the task with `k` others before it is taken by turn `k` + 1, and not before. */
  lemma {:induction false} Fair(s: State, steps: seq<Step>, k: nat)
    requires Ok(s) && k < |s.queue|
    ensures InTurn(s, steps, s.queue[k], k - Taken(s, steps))
  {
    if steps != [] {
      Fair(s, steps[..|steps| - 1], k);
      InTurnNext(s, steps, s.queue[k], k - Taken(s, steps[..|steps| - 1]));
    }
  }

  /** A task that is taken runs, unless it was killed. */
  lemma {:induction false} TakenRuns(s: State, steps: seq<Step>, i: nat, x: int)
    requires Ok(s) && i < |steps| && TakenAt(s, steps, i, x)
    ensures var t, t' := After(s, steps[..i]), After(s, steps[..i + 1]);
      && x in t.tasks && t'.cur == if t.tasks[x].state == Exited then None else Some(x)
  {
    AfterNext(s, steps, i);
    var t := After(s, steps[..i]);
    OkIff(t);
    assert QueuedOk(t.tasks, t.queue[0]);
  }

  // ---- what a task that was blocked is told ----

  /** The event with which a step resumes a task behind a block. */
  ghost function Answer(s: State, step: Step): Option<Event>
    requires Ok(s)
  {
    OkIff(s);
    if !Takes(s, step) then None
    else
      assert QueuedOk(s.tasks, s.queue[0]);
      var t := s.tasks[s.queue[0]];
      if t.state == Ready && t.resume != User then t.event else None
  }

  /** A blocked task stays as it is until it is woken or killed. */
  lemma {:induction false} BlockedStays(s: State, step: Step, x: int)
    requires Ok(s) && x in s.tasks && s.tasks[x].state == Blocked && x !in Dying(s, step)
    requires !(step.Wake? && step.task == x)
    ensures x in Next(s, step).tasks && Next(s, step).tasks[x] == s.tasks[x]
  {
    OkIff(s);
    assert TaskOk(s.tasks, s.queue, s.cur, x);
    if s.queue != [] { assert QueuedOk(s.tasks, s.queue[0]); }
    if s.cur.Some? { assert VforkOk(s.tasks, s.queue, s.cur, s.gone, s.cur.value); }
  }

  /** A ready task stays as it is until it is taken or killed. */
  lemma {:induction false} ReadyStays(s: State, step: Step, x: int)
    requires Ok(s) && x in s.tasks && s.tasks[x].state == Ready && x !in Dying(s, step)
    requires !(Takes(s, step) && s.queue[0] == x)
    ensures x in Next(s, step).tasks && Next(s, step).tasks[x] == s.tasks[x]
  {
    OkIff(s);
    assert TaskOk(s.tasks, s.queue, s.cur, x);
    if s.queue != [] { assert QueuedOk(s.tasks, s.queue[0]); }
    if s.cur.Some? { assert VforkOk(s.tasks, s.queue, s.cur, s.gone, s.cur.value); }
  }

  lemma {:induction false} StillBlocked(s: State, steps: seq<Step>, i: nat, j: nat, x: int)
    requires Ok(s) && i <= j <= |steps| && x in After(s, steps[..i]).tasks
    requires After(s, steps[..i]).tasks[x].state == Blocked
    requires forall h :: i <= h < j ==> !DiesAt(s, steps, h, x) && !(steps[h].Wake? && steps[h].task == x)
    ensures var t := After(s, steps[..j]); x in t.tasks && t.tasks[x] == After(s, steps[..i]).tasks[x]
  {
    if i < j {
      var h := j - 1;
      StillBlocked(s, steps, i, h, x);
      AfterNext(s, steps, h);
      assert !DiesAt(s, steps, h, x);
      BlockedStays(After(s, steps[..h]), steps[h], x);
    }
  }

  lemma {:induction false} StillReady(s: State, steps: seq<Step>, i: nat, j: nat, x: int)
    requires Ok(s) && i <= j <= |steps| && x in After(s, steps[..i]).tasks
    requires After(s, steps[..i]).tasks[x].state == Ready
    requires forall h :: i <= h < j ==> !DiesAt(s, steps, h, x) && !TakenAt(s, steps, h, x)
    ensures var t := After(s, steps[..j]); x in t.tasks && t.tasks[x] == After(s, steps[..i]).tasks[x]
  {
    if i < j {
      var h := j - 1;
      StillReady(s, steps, i, h, x);
      AfterNext(s, steps, h);
      assert !DiesAt(s, steps, h, x) && !TakenAt(s, steps, h, x);
      ReadyStays(After(s, steps[..h]), steps[h], x);
    }
  }

  /** A task that blocks at step `i`, is woken first by step `j` and taken next by step `k` is told the event of step
      `j`. */
  lemma {:induction false} Answered(s: State, steps: seq<Step>, i: nat, j: nat, k: nat, x: int)
    requires Ok(s) && i < j < k < |steps|
    requires steps[i] == Wait && After(s, steps[..i]).cur == Some(x)
    requires steps[j].Wake? && steps[j].task == x && TakenAt(s, steps, k, x)
    requires forall h :: i < h < j ==> !(steps[h].Wake? && steps[h].task == x)
    requires forall h :: j < h < k ==> !TakenAt(s, steps, h, x)
    requires forall h :: i < h < k ==> !DiesAt(s, steps, h, x)
    ensures Answer(After(s, steps[..k]), steps[k]) == Some(steps[j].event)
  {
    var a, b, c := After(s, steps[..i]), After(s, steps[..j]), After(s, steps[..k]);
    var ev := steps[j].event;
    assert x in b.tasks && b.tasks[x].state == Blocked && b.tasks[x].resume == AfterBlock by {
      WaitBlocks(a, x);
      AfterNext(s, steps, i);
      StillBlocked(s, steps, i + 1, j, x);
    }
    assert x in c.tasks && c.tasks[x] == b.tasks[x].(state := Ready, event := Some(ev)) by {
      WakeReadies(b, x, ev);
      AfterNext(s, steps, j);
      StillReady(s, steps, j + 1, k, x);
    }
    AnswerIs(c, steps[k], x);
  }

  lemma {:induction false} WaitBlocks(s: State, x: int)
    requires Ok(s) && s.cur == Some(x)
    ensures var t := Next(s, Wait); x in t.tasks && t.tasks[x].state == Blocked && t.tasks[x].resume == AfterBlock
  {
    OkIff(s);
  }

  lemma {:induction false} WakeReadies(s: State, x: int, ev: Event)
    requires Ok(s) && x in s.tasks && s.tasks[x].state == Blocked
    ensures var t := Next(s, Wake(x, ev)); x in t.tasks && t.tasks[x] == s.tasks[x].(state := Ready, event := Some(ev))
  {
  }

  lemma {:induction false} AnswerIs(s: State, step: Step, x: int)
    requires Ok(s) && Takes(s, step) && s.queue[0] == x && x in s.tasks
    requires s.tasks[x].state == Ready && s.tasks[x].resume != User
    ensures Answer(s, step) == s.tasks[x].event
  {
  }

  /** What the steps of a run so far told the tasks they resumed. */
  ghost predicate Told(s: State, steps: seq<Step>, told: seq<Option<Event>>)
    requires Ok(s)
  {
    |told| <= |steps| && forall k :: 0 <= k < |told| ==> told[k] == Answer(After(s, steps[..k]), steps[k])
  }

  lemma {:induction false} ToldNext(s: State, steps: seq<Step>, told: seq<Option<Event>>, e: Option<Event>)
    requires Ok(s) && Told(s, steps, told) && |told| < |steps|
    requires e == Answer(After(s, steps[..|told|]), steps[|told|])
    ensures Told(s, steps, told + [e])
  {
    var told' := told + [e];
    forall k | 0 <= k < |told'| ensures told'[k] == Answer(After(s, steps[..k]), steps[k]) {
      assert told'[k] == if k < |told| then told[k] else e;
    }
  }
}
