/** Tasks, the ready queue and the processor of one hart, between two steps. */
module SchedState {
  import opened Common

  datatype TaskState = Running | Ready | Blocked | BlockedUninterruptible | Exited

  /** Why a blocked task was woken. */
  datatype Event = VFork | Other(tag: int)

  /** Where a task goes on when it runs again: in user code, behind `block`, or behind the
      `block_uninterruptible` of a vfork. */
  datatype Resume = User | AfterBlock | AfterVfork

  datatype Tcb = Tcb(tid: int, state: TaskState, event: Option<Event>, vforkParent: Option<int>, resume: Resume)

  /** Task objects; an exec makes a second object with the same tid. */
  type Tasks = map<int, Tcb>

  /** Everything between two steps; `gone` are the objects replaced by an exec. */
  datatype State = State(tasks: Tasks, queue: seq<int>, cur: Option<int>, nextTid: int, gone: set<int>)

  // ---- invariant ----

  ghost predicate TaskOk(tasks: Tasks, queue: seq<int>, cur: Option<int>, x: int)
    requires x in tasks
  {
    var t := tasks[x];
    match t.state
    case Running => cur == Some(x) && x !in queue && t.event == None && t.resume == User
    case Ready =>
      && cur != Some(x) && x in queue
      && (t.resume == User <==> t.event == None) && (t.resume == AfterVfork ==> t.event == Some(VFork))
    case Blocked => cur != Some(x) && x !in queue && t.event == None && t.resume == AfterBlock
    case BlockedUninterruptible => cur != Some(x) && x !in queue && t.event == None && t.resume == AfterVfork
    case Exited => cur != Some(x)
  }

  /** A queued task is one that may run, or one that was killed while it waited. */
  ghost predicate QueuedOk(tasks: Tasks, x: int) {
    x in tasks && (tasks[x].state == Ready || tasks[x].state == Exited)
  }

  /** The parent a vfork child will wake is still waiting for it, or was killed; it is not queued. */
  ghost predicate VforkOk(tasks: Tasks, queue: seq<int>, cur: Option<int>, gone: set<int>, c: int)
    requires c in tasks
  {
    tasks[c].vforkParent.Some? ==>
      var p := tasks[c].vforkParent.value;
      && p in tasks && p !in queue && p !in gone && cur != Some(p)
      && (tasks[p].state == BlockedUninterruptible || tasks[p].state == Exited)
  }

  ghost predicate OneChild(tasks: Tasks, c: int, d: int) {
    c in tasks && d in tasks && c != d && tasks[c].vforkParent.Some? ==> tasks[c].vforkParent != tasks[d].vforkParent
  }

  /** Two objects with one tid: the older was replaced by an exec. */
  ghost predicate OneTid(tasks: Tasks, gone: set<int>, x: int, y: int) {
    x in tasks && y in tasks && x != y && x !in gone && y !in gone ==> tasks[x].tid != tasks[y].tid
  }

  ghost predicate Inv(tasks: Tasks, queue: seq<int>, cur: Option<int>, gone: set<int>, nextTid: int) {
    && (forall x {:trigger TaskOk(tasks, queue, cur, x)} :: x in tasks ==> TaskOk(tasks, queue, cur, x))
    && (forall i :: 0 <= i < |queue| ==> QueuedOk(tasks, queue[i]) && queue[i] !in gone)
    && (forall i, j :: 0 <= i < j < |queue| ==> queue[i] != queue[j])
    && (cur.Some? ==> cur.value in tasks && tasks[cur.value].state == Running)
    && (forall c {:trigger VforkOk(tasks, queue, cur, gone, c)} :: c in tasks ==> VforkOk(tasks, queue, cur, gone, c))
    && (forall c, d {:trigger OneChild(tasks, c, d)} :: OneChild(tasks, c, d))
    && (forall x, y {:trigger OneTid(tasks, gone, x, y)} :: OneTid(tasks, gone, x, y))
    && (forall x :: x in tasks ==> tasks[x].tid < nextTid)
    && (forall x :: x in gone ==> x in tasks && tasks[x].state == Exited)
  }

  /** Queued tasks have different tids. */
  lemma {:induction false} QueueTids(tasks: Tasks, queue: seq<int>, cur: Option<int>, gone: set<int>, nextTid: int)
    requires Inv(tasks, queue, cur, gone, nextTid)
    ensures forall i, j :: 0 <= i < j < |queue| ==>
      queue[i] in tasks && queue[j] in tasks && tasks[queue[i]].tid != tasks[queue[j]].tid
  {
    forall i, j | 0 <= i < j < |queue|
      ensures queue[i] in tasks && queue[j] in tasks && tasks[queue[i]].tid != tasks[queue[j]].tid
    {
      assert OneTid(tasks, gone, queue[i], queue[j]);
    }
  }

  /** No task is lost or queued twice: off the processor, a task is Ready exactly when it is queued
      and was not killed, and then it is queued once. */
  lemma {:induction false} NoneLost(tasks: Tasks, queue: seq<int>, cur: Option<int>, gone: set<int>, nextTid: int,
                                    x: int)
    requires Inv(tasks, queue, cur, gone, nextTid) && x in tasks && tasks[x].state != Exited
    ensures tasks[x].state == Ready <==> x in queue
    ensures tasks[x].state == Running <==> cur == Some(x)
    ensures x in queue ==> multiset(queue)[x] == 1
  {
    assert TaskOk(tasks, queue, cur, x);
    if x in queue {
      var i :| 0 <= i < |queue| && queue[i] == x;
      assert queue == queue[..i] + [x] + queue[i + 1..];
      assert x !in queue[..i] && x !in queue[i + 1..];
    }
  }
}
