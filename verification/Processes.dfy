/** Processes: clone, exit with orphans moving to init, and waiting for children. */
module Processes {
  import opened Common

  const INIT: int := 1

  datatype State = Running | Exited(code: int) | Dead

  /** A process control block. `live` says that the process still has tasks; `waiting` are the tasks
      blocked in a wait. */
  datatype Proc = Proc(parent: Option<int>, state: State, live: bool, children: seq<int>, waiting: seq<int>)

  type Procs = map<int, Proc>

  // ---- invariant ----

  /** Process `p` and its own list of children. */
  ghost predicate ProcOk(procs: Procs, codes: map<int, int>, collected: set<int>, p: int)
    requires p in procs
  {
    var t := procs[p];
    && (p == INIT ==> t.parent == None && t.live)
    && (p != INIT ==> t.parent.Some? && t.parent.value in procs && t.parent.value != p)
    && (t.live ==> p !in codes && p !in collected && !t.state.Exited?)
    && (!t.live ==> p in codes && t.children == [] && t.state == if p in collected then Dead else Exited(codes[p]))
    && (p != INIT && p !in collected ==> p in procs[t.parent.value].children)
    && (forall i, j :: 0 <= i < j < |t.children| ==> t.children[i] != t.children[j])
  }

  /** A listed child names the owner of the list as its parent. */
  ghost predicate ChildOk(procs: Procs, p: int, c: int) {
    p in procs && c in procs[p].children ==> c in procs && c != INIT && procs[c].parent == Some(p)
  }

  ghost predicate Inv(procs: Procs, codes: map<int, int>, collected: set<int>) {
    && INIT in procs
    && (forall p {:trigger ProcOk(procs, codes, collected, p)} :: p in procs ==> ProcOk(procs, codes, collected, p))
    && (forall p, c {:trigger ChildOk(procs, p, c)} :: ChildOk(procs, p, c))
    && (forall p :: p in codes || p in collected ==> p in procs)
  }

  /** A process whose status was not collected is in one list of children, once, and the owner of
      that list is the process its parent field names. */
  lemma {:induction false} OneList(procs: Procs, codes: map<int, int>, collected: set<int>, c: int, p: int)
    requires Inv(procs, codes, collected) && c in procs && c != INIT && c !in collected && p in procs
    ensures c in procs[p].children <==> procs[c].parent == Some(p)
    ensures c in procs[p].children ==> multiset(procs[p].children)[c] == 1
  {
    assert ProcOk(procs, codes, collected, c) && ProcOk(procs, codes, collected, p) && ChildOk(procs, p, c);
    var s := procs[p].children;
    if c in s {
      var i :| 0 <= i < |s| && s[i] == c;
      assert s == s[..i] + [c] + s[i + 1..];
      assert c !in s[..i] && c !in s[i + 1..];
    }
  }

  // ---- steps ----

  lemma {:induction false} CloneKeeps(procs: Procs, codes: map<int, int>, collected: set<int>, p: int, c: int)
    requires Inv(procs, codes, collected) && p in procs && procs[p].live && c !in procs
    ensures Inv(Cloned(procs, p, c), codes, collected)
  {
    var procs' := Cloned(procs, p, c);
    forall q | q in procs' ensures ProcOk(procs', codes, collected, q) {
      if q != c {
        assert ProcOk(procs, codes, collected, q);
        if q != INIT && q !in collected { assert q in procs[procs[q].parent.value].children; }
        assert ChildOk(procs, p, c);
      }
    }
    forall q, d ensures ChildOk(procs', q, d) {
      assert ChildOk(procs, q, d);
      if q == c { assert procs'[q].children == []; }
    }
  }

  function Cloned(procs: Procs, p: int, c: int): Procs
    requires p in procs
  {
    procs[p := procs[p].(children := procs[p].children + [c])][c := Proc(Some(p), Running, true, [], [])]
  }

  /** Process `q` after the tasks of `p` are gone, its waiters taken and its children given to init. */
  function After(procs: Procs, p: int, code: int, q: int): Proc
    requires p in procs && q in procs
  {
    var t, kids := procs[q], procs[p].children;
    var t1 := if Some(q) == procs[p].parent then t.(waiting := []) else t;
    if q == p then t1.(state := Exited(code), live := false, children := [])
    else if q == INIT then t1.(children := t.children + kids)
    else if q in kids then t1.(parent := Some(INIT))
    else t1
  }

  function Left(procs: Procs, p: int, code: int): Procs
    requires p in procs
  {
    map q | q in procs :: After(procs, p, code, q)
  }

  /** The last two assignments of an exit complete what it does. */
  lemma {:induction false} LeftIs(procs: Procs, now: Procs, p: int, code: int)
    requires p in procs && p != INIT && INIT in procs && procs[p].parent.Some? && procs[p].parent.value in procs
    requires p != procs[p].parent.value && INIT !in procs[p].children && p !in procs[p].children
    requires now.Keys == procs.Keys
    requires var parent := procs[p].parent.value;
      var left := procs[p := procs[p].(state := Exited(code), live := false)];
      var woken := left[parent := left[parent].(waiting := [])];
      forall q :: q in now ==>
        now[q] == if q in procs[p].children then woken[q].(parent := Some(INIT)) else woken[q]
    ensures now[INIT := now[INIT].(children := now[INIT].children + procs[p].children)]
               [p := now[p].(children := [])] == Left(procs, p, code)
  {
    var after, left := Left(procs, p, code), now[INIT := now[INIT].(children := now[INIT].children + procs[p].children)]
                                                [p := now[p].(children := [])];
    forall q | q in procs ensures left[q] == after[q] {
      assert q in now;
    }
    assert left.Keys == after.Keys;
  }

  lemma {:induction false} ExitKeeps(procs: Procs, codes: map<int, int>, collected: set<int>, p: int, code: int)
    requires Inv(procs, codes, collected) && p in procs && procs[p].live && p != INIT
    ensures Inv(Left(procs, p, code), codes[p := code], collected)
  {
    var procs', kids := Left(procs, p, code), procs[p].children;
    assert ProcOk(procs, codes, collected, p) && ProcOk(procs, codes, collected, INIT);
    forall q | q in procs' ensures ProcOk(procs', codes[p := code], collected, q) {
      assert ProcOk(procs, codes, collected, q) && ChildOk(procs, p, q) && ChildOk(procs, p, INIT);
      if q == INIT { KidsApart(procs, codes, collected, p); }
      if q != INIT && q !in collected {
        var up := procs[q].parent.value;
        assert ProcOk(procs, codes, collected, up);
        if up == p {
          assert q in procs'[INIT].children;
        } else {
          assert q in procs'[up].children;
        }
      }
    }
    forall q, c ensures ChildOk(procs', q, c) {
      assert ChildOk(procs, q, c) && ChildOk(procs, p, c);
    }
  }

  /** The children of `p` are not yet in init's list. */
  lemma {:induction false} KidsApart(procs: Procs, codes: map<int, int>, collected: set<int>, p: int)
    requires Inv(procs, codes, collected) && p in procs && p != INIT
    ensures forall i, j :: 0 <= i < j < |procs[INIT].children + procs[p].children| ==>
      (procs[INIT].children + procs[p].children)[i] != (procs[INIT].children + procs[p].children)[j]
  {
    var a, b := procs[INIT].children, procs[p].children;
    assert ProcOk(procs, codes, collected, p) && ProcOk(procs, codes, collected, INIT);
    forall i, j | 0 <= i < j < |a + b| ensures (a + b)[i] != (a + b)[j] {
      if i < |a| <= j {
        assert a[i] in a && b[j - |a|] in b;
        assert ChildOk(procs, INIT, a[i]) && ChildOk(procs, p, b[j - |a|]);
      }
    }
  }

  // ---- collecting ----

  /** `recycle` marks the process dead whatever its state was. */
  function Recycled(procs: Procs, c: int): Procs
    requires c in procs
  {
    procs[c := procs[c].(state := Dead)]
  }

  /** Collecting: the status of an exited process is taken once; a live process is only marked, and its
      later exit still sets its status. */
  lemma {:induction false} RecycleKeeps(procs: Procs, codes: map<int, int>, collected: set<int>, c: int)
    requires Inv(procs, codes, collected) && c in procs
    ensures var collected' := if procs[c].state.Exited? then collected + {c} else collected;
      Inv(Recycled(procs, c), codes, collected')
    ensures procs[c].state.Exited? ==> c in codes && procs[c].state.code == codes[c] && c !in collected
  {
    var procs', collected' := Recycled(procs, c), if procs[c].state.Exited? then collected + {c} else collected;
    assert ProcOk(procs, codes, collected, c);
    forall q | q in procs' ensures ProcOk(procs', codes, collected', q) { assert ProcOk(procs, codes, collected, q); }
    forall q, d ensures ChildOk(procs', q, d) { assert ChildOk(procs, q, d); }
  }

  /** Child `c` is the first in the list whose status was not collected. */
  ghost predicate FirstOf(kids: seq<int>, c: int, codes: map<int, int>, collected: set<int>) {
    exists i :: 0 <= i < |kids| && kids[i] == c && forall k :: 0 <= k < i ==>
      !(kids[k] in codes && kids[k] !in collected)
  }

  /** What waiting leaves alone: who lives, whose child it is, and who waits already. */
  ghost predicate Steady(procs: Procs, procs': Procs) {
    procs'.Keys == procs.Keys && forall q :: q in procs ==>
      procs'[q].live == procs[q].live && procs'[q].parent == procs[q].parent && procs[q].waiting <= procs'[q].waiting
  }

  /** A task waits for a child of `p`. */
  function Registered(procs: Procs, p: int, task: int): Procs
    requires p in procs
  {
    procs[p := procs[p].(waiting := procs[p].waiting + [task])]
  }

  function Retained(procs: Procs, p: int, c: int): Procs
    requires p in procs
  {
    procs[p := procs[p].(children := Without(procs[p].children, c))]
  }

  function Without(s: seq<int>, c: int): (r: seq<int>)
    ensures forall x :: x in r <==> x in s && x != c
  {
    if s == [] then [] else (if s[0] == c then [] else [s[0]]) + Without(s[1..], c)
  }

  /** The others stay, in their order. */
  lemma {:induction false} WithoutOnce(a: seq<int>, c: int, b: seq<int>)
    requires c !in a && c !in b
    ensures Without(a + [c] + b, c) == a + b
  {
    if a == [] {
      assert [] + [c] + b == [c] + b && ([c] + b)[1..] == b && [] + b == b;
      WithoutNone(b, c);
    } else {
      var s := a + [c] + b;
      assert s[1..] == a[1..] + [c] + b && a + b == [a[0]] + (a[1..] + b);
      WithoutOnce(a[1..], c, b);
    }
  }

  lemma {:induction false} WithoutNone(s: seq<int>, c: int)
    requires c !in s
    ensures Without(s, c) == s
  {
    if s != [] {
      WithoutNone(s[1..], c);
      assert s == [s[0]] + s[1..];
    }
  }

  lemma {:induction false} WithoutDistinct(s: seq<int>, c: int)
    requires forall i, j :: 0 <= i < j < |s| ==> s[i] != s[j]
    ensures forall i, j :: 0 <= i < j < |Without(s, c)| ==> Without(s, c)[i] != Without(s, c)[j]
  {
    if s != [] {
      var rest := Without(s[1..], c);
      WithoutDistinct(s[1..], c);
      assert s[0] !in s[1..];
      assert s[0] !in rest;
      var r := Without(s, c);
      forall i, j | 0 <= i < j < |r| ensures r[i] != r[j] {
        if s[0] == c { assert r == rest; } else { assert r == [s[0]] + rest && r[j] == rest[j - 1]; }
      }
    }
  }

  /** `retain`: a collected child leaves the list. */
  lemma {:induction false} RetainKeeps(procs: Procs, codes: map<int, int>, collected: set<int>, p: int, c: int)
    requires Inv(procs, codes, collected) && p in procs && c in collected
    ensures Inv(Retained(procs, p, c), codes, collected)
  {
    var procs' := Retained(procs, p, c);
    assert ProcOk(procs, codes, collected, p);
    WithoutDistinct(procs[p].children, c);
    forall q | q in procs' ensures ProcOk(procs', codes, collected, q) { assert ProcOk(procs, codes, collected, q); }
    forall q, d ensures ChildOk(procs', q, d) { assert ChildOk(procs, q, d); }
  }

  // ---- the process table ----

  datatype Wait = Got(pid: int, code: int) | NotYet | NoChild | Blocks

  datatype Step =
    | Clone(parent: int, child: int)
    | Exits(process: int, status: int)
    | WaitFor(waiter: int, awaited: int, blocking: bool, task: int)
    | Resume(waiter: int, awaited: int, woken: int, task: int)
    | WaitAny(waiter: int, blocking: bool, task: int)
    | ResumeAny(waiter: int, woken: int)

  predicate ExitsNow(procs: Procs, step: Step, p: int) {
    step.Exits? && step.process == p && p in procs && procs[p].live && p != INIT
  }

  /** What a step does to process `q`: it stays, lives on unless it exits, keeps its parent unless that exits, and its
      waiting tasks wait on until a child exits. */
  ghost predicate Kept(procs: Procs, step: Step, procs': Procs, q: int) {
    q in procs ==>
      && q in procs' && (procs'[q].live <==> procs[q].live && !ExitsNow(procs, step, q))
      && (procs'[q].parent == procs[q].parent
          || exists p :: ExitsNow(procs, step, p) && q in procs[p].children && procs'[q].parent == Some(INIT))
      && (procs[q].waiting <= procs'[q].waiting
          || exists p :: ExitsNow(procs, step, p) && procs[p].parent == Some(q) && procs'[q].waiting == [])
  }

  /** A new process is the child of a clone. */
  ghost predicate Made(procs: Procs, step: Step, procs': Procs) {
    forall q :: q in procs' && q !in procs ==>
      step.Clone? && step.child == q && step.parent in procs && procs'[q].parent == Some(step.parent)
  }

  ghost predicate ExitIn(steps: seq<Step>, q: int) {
    q != INIT && exists i :: 0 <= i < |steps| && steps[i].Exits? && steps[i].process == q
  }

  lemma {:induction false} ExitInNext(steps: seq<Step>, k: nat, q: int)
    requires k < |steps|
    ensures ExitIn(steps[..k + 1], q) <==>
      ExitIn(steps[..k], q) || (q != INIT && steps[k].Exits? && steps[k].process == q)
  {
    assert steps[..k + 1] == steps[..k] + [steps[k]];
    assert steps[..k + 1][k] == steps[k];
    if ExitIn(steps[..k], q) {
      var i :| 0 <= i < k && steps[..k][i].Exits? && steps[..k][i].process == q;
      assert steps[..k + 1][i].Exits?;
    }
  }

  lemma {:induction false} LeftKept(procs: Procs, step: Step)
    requires step.Exits? && ExitsNow(procs, step, step.process)
    ensures forall q {:trigger Kept(procs, step, Left(procs, step.process, step.status), q)} ::
      Kept(procs, step, Left(procs, step.process, step.status), q)
  {
    var p, left := step.process, Left(procs, step.process, step.status);
    forall q ensures Kept(procs, step, left, q) {
      if q in procs {
        assert left[q] == After(procs, p, step.status, q);
        if q != p && q != INIT && q in procs[p].children { assert ExitsNow(procs, step, p); }
      }
    }
  }

  class Table {
    var procs: Procs

    /** The status each process exited with, and the processes whose status was collected. */
    ghost var codes: map<int, int>
    ghost var collected: set<int>

    constructor ()
      ensures Valid() && procs == map[INIT := Proc(None, Running, true, [], [])] && codes == map[] && collected == {}
    {
      procs := map[INIT := Proc(None, Running, true, [], [])];
      codes, collected := map[], {};
    }

    ghost predicate Valid()
      reads this
    {
      Inv(procs, codes, collected)
    }

    /** Statuses and collections are never undone. */
    twostate predicate Onward()
      reads this
    {
      && old(collected) <= collected
      && forall p :: p in old(codes) ==> p in codes && codes[p] == old(codes)[p]
    }

    /** Child `pid` is no longer in the list of `p`. */
    predicate Unlisted(pid: int, p: int)
      reads this
    {
      p in procs && pid !in procs[p].children
    }

    /** `clone_task` for a new process. */
    method CloneTask(p: int, c: int)
      requires Valid() && p in procs && procs[p].live && c !in procs
      modifies this
      ensures Valid() && Onward() && procs == Cloned(old(procs), p, c)
      ensures codes == old(codes) && collected == old(collected)
    {
      CloneKeeps(procs, codes, collected, p, c);
      procs := procs[p := procs[p].(children := procs[p].children + [c])];
      procs := procs[c := Proc(Some(p), Running, true, [], [])];
    }

    /** `exit` of a process other than init, whose exit halts the system. The parent's waiting tasks are
        woken with the event of this child. */
    method Exit(p: int, code: int) returns (woken: seq<int>)
      requires Valid() && p in procs && procs[p].live && p != INIT
      modifies this
      ensures Valid() && Onward() && procs == Left(old(procs), p, code) && codes == old(codes)[p := code]
      ensures old(procs)[p].parent.Some? && old(procs)[p].parent.value in old(procs)
      ensures woken == old(procs)[old(procs)[p].parent.value].waiting && collected == old(collected)
    {
      ghost var was := procs;
      ExitKeeps(procs, codes, collected, p, code);
      assert ProcOk(procs, codes, collected, p) && ChildOk(procs, p, INIT) && ChildOk(procs, p, p);
      forall c | c in procs[p].children ensures c in procs && c != INIT && c != p { assert ChildOk(procs, p, c); }
      var parent, kids := procs[p].parent.value, procs[p].children;
      procs := procs[p := procs[p].(state := Exited(code), live := false)];
      woken := procs[parent].waiting;
      procs := procs[parent := procs[parent].(waiting := [])];
      Reparent(kids);
      LeftIs(was, procs, p, code);
      procs := procs[INIT := procs[INIT].(children := procs[INIT].children + kids)];
      procs := procs[p := procs[p].(children := [])];
      codes := codes[p := code];
    }

    /** The children of an exiting process get init as their parent. */
    method Reparent(kids: seq<int>)
      requires forall i :: 0 <= i < |kids| ==> kids[i] in procs
      modifies this`procs
      ensures procs.Keys == old(procs).Keys
      ensures forall q :: q in procs ==>
        procs[q] == if q in kids then old(procs)[q].(parent := Some(INIT)) else old(procs)[q]
    {
      for i := 0 to |kids|
        invariant procs.Keys == old(procs).Keys
        invariant forall q :: q in procs ==>
          procs[q] == if q in kids[..i] then old(procs)[q].(parent := Some(INIT)) else old(procs)[q]
      {
        assert kids[i] in old(procs).Keys;
        procs := procs[kids[i] := procs[kids[i]].(parent := Some(INIT))];
        assert kids[..i + 1] == kids[..i] + [kids[i]];
      }
      assert kids[..|kids|] == kids;
    }

    /** `recycle`: gives the status of an exited process, once. */
    method Recycle(c: int) returns (code: Option<int>)
      requires Valid() && c in procs
      modifies this`procs, this`collected
      ensures Steady(old(procs), procs)
      ensures Valid() && Onward() && procs == Recycled(old(procs), c)
      ensures code.Some? <==> c in codes && c !in old(collected)
      ensures code.Some? ==> code.value == codes[c] && collected == old(collected) + {c}
      ensures code.None? ==> collected == old(collected)
    {
      RecycleKeeps(procs, codes, collected, c);
      assert ProcOk(procs, codes, collected, c);
      code := if procs[c].state.Exited? then Some(procs[c].state.code) else None;
      procs := procs[c := procs[c].(state := Dead)];
      if code.Some? { collected := collected + {c}; }
    }

    /** `wait_child` up to its block. A status collected here leaves the child in the list. */
    method WaitChild(p: int, pid: int, blocked: bool, task: int) returns (r: Wait)
      requires Valid() && p in procs
      modifies this`procs, this`collected
      ensures Steady(old(procs), procs)
      ensures Valid() && Onward() && procs.Keys == old(procs).Keys
      ensures pid !in old(procs)[p].children ==> r == (if blocked then NoChild else NotYet) && unchanged(this)
      ensures r.Got? <==> pid in old(procs)[p].children && pid in codes && pid !in old(collected)
      ensures r.Got? ==> r == Got(pid, codes[pid]) && collected == old(collected) + {pid} && !Unlisted(pid, p)
      ensures !r.Got? ==> collected == old(collected)
      ensures pid in old(procs)[p].children && !r.Got? ==> r == (if blocked then Blocks else NotYet)
      ensures pid in old(procs)[p].children ==> pid in old(procs)
      ensures pid in old(procs)[p].children ==>
        procs == if r.Blocks? then Registered(Recycled(old(procs), pid), p, task) else Recycled(old(procs), pid)
    {
      if pid !in procs[p].children { return if blocked then NoChild else NotYet; }
      assert ChildOk(procs, p, pid);
      var code := Recycle(pid);
      if code.Some? { return Got(pid, code.value); }
      if !blocked { return NotYet; }
      Register(p, task);
      r := Blocks;
    }

    /** A task starts to wait. */
    method Register(p: int, task: int)
      requires Valid() && p in procs
      modifies this`procs
      ensures Steady(old(procs), procs)
      ensures Valid() && Onward() && procs == Registered(old(procs), p, task)
    {
      procs := procs[p := procs[p].(waiting := procs[p].waiting + [task])];
      forall q | q in procs
        ensures ProcOk(procs, codes, collected, q)
      {
        assert ProcOk(old(procs), codes, collected, q);
      }
      forall q, c ensures ChildOk(procs, q, c) { assert ChildOk(old(procs), q, c); }
    }

    /** Collects the status of a child and takes it off the list. */
    method Collect(p: int, pid: int) returns (code: Option<int>)
      requires Valid() && p in procs && pid in procs
      modifies this`procs, this`collected
      ensures Steady(old(procs), procs)
      ensures Valid() && Onward() && procs.Keys == old(procs).Keys
      ensures procs == if code.Some? then Retained(Recycled(old(procs), pid), p, pid) else Recycled(old(procs), pid)
      ensures code.Some? <==> pid in codes && pid !in old(collected)
      ensures code.Some? ==> code.value == codes[pid] && collected == old(collected) + {pid} && Unlisted(pid, p)
      ensures code.None? ==> collected == old(collected)
    {
      code := Recycle(pid);
      if code.Some? {
        RetainKeeps(procs, codes, collected, p, pid);
        procs := procs[p := procs[p].(children := Without(procs[p].children, pid))];
      }
    }

    /** `wait_child` after it was woken for child `woken`: for another child than its own it waits again, and
        another waiter may have been faster. */
    method WaitChildResume(p: int, pid: int, woken: int, task: int) returns (r: Wait)
      requires Valid() && p in procs && pid in procs
      modifies this`procs, this`collected
      ensures Steady(old(procs), procs)
      ensures Valid() && Onward() && procs.Keys == old(procs).Keys
      ensures woken != pid ==> r == Blocks && procs == Registered(old(procs), p, task) && collected == old(collected)
      ensures woken == pid ==>
        && r == (if pid in codes && pid !in old(collected) then Got(pid, codes[pid]) else NoChild)
        && procs == if r.Got? then Retained(Recycled(old(procs), pid), p, pid) else Recycled(old(procs), pid)
      ensures r.Got? ==> collected == old(collected) + {pid} && Unlisted(pid, p)
      ensures !r.Got? ==> collected == old(collected)
    {
      if woken != pid {
        Register(p, task);
        return Blocks;
      }
      var code := Collect(p, pid);
      r := if code.Some? then Got(pid, code.value) else NoChild;
    }

    /** `wait_any_child` up to its block: the first exited child in the list. */
    method WaitAnyChild(p: int, blocked: bool, task: int) returns (r: Wait)
      requires Valid() && p in procs
      modifies this`procs, this`collected
      ensures Steady(old(procs), procs)
      ensures Valid() && Onward() && procs.Keys == old(procs).Keys
      ensures r.Got? <==> exists c :: c in old(procs)[p].children && c in codes && c !in old(collected)
      ensures r.Got? ==>
        && r.pid in old(procs)[p].children && r.pid in codes && r.code == codes[r.pid] && r.pid !in old(collected)
        && collected == old(collected) + {r.pid} && Unlisted(r.pid, p)
        && r.pid in old(procs) && procs == Retained(Recycled(old(procs), r.pid), p, r.pid)
      ensures r.Got? ==> FirstOf(old(procs)[p].children, r.pid, codes, old(collected))
      ensures !r.Got? ==> collected == old(collected) && r == (if blocked then Blocks else NotYet)
      ensures !r.Got? ==> procs == if blocked then Registered(old(procs), p, task) else old(procs)
    {
      var kids, i := procs[p].children, 0;
      while i < |kids|
        invariant 0 <= i <= |kids| && forall k :: 0 <= k < i ==> !(kids[k] in codes && kids[k] !in collected)
      {
        var c := kids[i];
        assert c in kids;
        assert ChildOk(procs, p, c) && ProcOk(procs, codes, collected, c);
        if procs[c].state.Exited? {
          assert FirstOf(kids, c, codes, collected);
          var code := Collect(p, c);
          return Got(c, code.value);
        }
        i := i + 1;
      }
      if !blocked { return NotYet; }
      Register(p, task);
      r := Blocks;
    }

    /** `wait_any_child` after it was woken for child `woken`. If another waiter was faster it blocks again, and
        this time nothing registers it. */
    method WaitAnyChildResume(p: int, woken: int) returns (r: Wait)
      requires Valid() && p in procs
      modifies this`procs, this`collected
      ensures Steady(old(procs), procs)
      ensures Valid() && Onward() && procs.Keys == old(procs).Keys
      ensures r.Got? <==> woken in old(procs)[p].children && woken in codes && woken !in old(collected)
      ensures r.Got? ==> r == Got(woken, codes[woken]) && collected == old(collected) + {woken} && Unlisted(woken, p)
      ensures r.Got? ==> woken in old(procs) && procs == Retained(Recycled(old(procs), woken), p, woken)
      ensures !r.Got? ==> r == Blocks && collected == old(collected) && procs[p].waiting == old(procs)[p].waiting
      ensures !r.Got? ==> (procs == old(procs) || (woken in old(procs) && procs == Recycled(old(procs), woken)))
    {
      if woken !in procs[p].children { return Blocks; }
      assert ChildOk(procs, p, woken);
      var code := Collect(p, woken);
      r := if code.Some? then Got(woken, code.value) else Blocks;
    }

    // ---- whole runs ----

    /** One step; a step the state does not allow does nothing. */
    method Do(step: Step) returns (r: Wait)
      requires Valid()
      modifies this
      ensures Valid() && Onward()
      ensures r.Got? ==> r.pid in codes && r.code == codes[r.pid] && r.pid !in old(collected) && r.pid in collected
      ensures forall q {:trigger Kept(old(procs), step, procs, q)} :: Kept(old(procs), step, procs, q)
      ensures Made(old(procs), step, procs)
    {
      r := NotYet;
      match step {
        case Clone(p, c) => if p in procs && procs[p].live && c !in procs { CloneTask(p, c); }
        case Exits(p, code) =>
          if p in procs && procs[p].live && p != INIT {
            LeftKept(procs, step);
            var _ := Exit(p, code);
          }
        case _ => if step.waiter in procs { r := DoWait(step); }
      }
    }

    /** A step of a wait. */
    method DoWait(step: Step) returns (r: Wait)
      requires Valid() && !step.Clone? && !step.Exits? && step.waiter in procs
      modifies this`procs, this`collected
      ensures Valid() && Onward() && procs.Keys == old(procs).Keys
      ensures r.Got? ==> r.pid in codes && r.code == codes[r.pid] && r.pid !in old(collected) && r.pid in collected
      ensures Steady(old(procs), procs)
    {
      r := NotYet;
      match step {
        case WaitFor(p, pid, blocked, task) => r := WaitChild(p, pid, blocked, task);
        case Resume(p, pid, woken, task) => if pid in procs { r := WaitChildResume(p, pid, woken, task); }
        case WaitAny(p, blocked, task) => r := WaitAnyChild(p, blocked, task);
        case ResumeAny(p, woken) => r := WaitAnyChildResume(p, woken);
      }
    }

    /** In every run each exit status is collected at most once, and it is the status of that exit. No process is lost,
        and one that lived has exited exactly when a step said so. */
    method Run(steps: seq<Step>) returns (seen: seq<Wait>)
      requires Valid()
      modifies this
      ensures Valid() && Onward() && |seen| == |steps|
      ensures forall i :: 0 <= i < |seen| && seen[i].Got? ==> seen[i].pid in codes && seen[i].code == codes[seen[i].pid]
      ensures forall i, j :: 0 <= i < j < |seen| && seen[i].Got? && seen[j].Got? ==> seen[i].pid != seen[j].pid
      ensures forall q :: q in old(procs) ==>
        q in procs && (procs[q].live <==> old(procs)[q].live && !ExitIn(steps, q))
    {
      seen := [];
      for k := 0 to |steps|
        invariant Valid() && Onward() && |seen| == k
        invariant forall q :: q in old(procs) ==>
          q in procs && (procs[q].live <==> old(procs)[q].live && !ExitIn(steps[..k], q))
        invariant forall i :: 0 <= i < k && seen[i].Got? ==>
          seen[i].pid in codes && seen[i].code == codes[seen[i].pid] && seen[i].pid in collected
        invariant forall i, j :: 0 <= i < j < k && seen[i].Got? && seen[j].Got? ==> seen[i].pid != seen[j].pid
      {
        ghost var before := procs;
        var r := Do(steps[k]);
        seen := seen + [r];
        forall q | q in old(procs)
          ensures q in procs && (procs[q].live <==> old(procs)[q].live && !ExitIn(steps[..k + 1], q))
        {
          assert Kept(before, steps[k], procs, q);
          ExitInNext(steps, k, q);
        }
      }
      assert steps[..|steps|] == steps;
    }
  }

  /** Two tasks of init wait for any of its children 2 and 3. */
  method TwoWaiters(a: int, b: int) returns (t: Table)
    ensures fresh(t) && t.Valid() && t.codes == map[] && t.collected == {} && t.procs.Keys == {INIT, 2, 3}
    ensures t.procs[INIT] == Proc(None, Running, true, [2, 3], [a, b])
    ensures t.procs[2] == t.procs[3] == Proc(Some(INIT), Running, true, [], [])
  {
    t := new Table();
    t.CloneTask(INIT, 2);
    t.CloneTask(INIT, 3);
    assert t.procs[INIT].children == [2, 3];
    var _ := t.WaitAnyChild(INIT, true, a);
    var _ := t.WaitAnyChild(INIT, true, b);
  }

  /** The exit of child 2 wakes both, `a` collects it and `b` blocks again; then the exit of child 3 does not wake
      `b`. */
  method WaiterForgotten(a: int, b: int) returns (t: Table)
    ensures fresh(t) && t.Valid() && INIT in t.procs && t.procs[INIT].waiting == []
    ensures 3 in t.procs[INIT].children && 3 in t.codes && 3 !in t.collected
  {
    t := TwoWaiters(a, b);
    var woken := t.Exit(2, 0);
    assert woken == [a, b];
    assert t.procs[INIT] == Proc(None, Running, true, [2, 3], []);
    assert t.procs[3] == Proc(Some(INIT), Running, true, [], []);
    var r := t.WaitAnyChildResume(INIT, 2);
    assert r == Got(2, 0) && 3 in t.procs[INIT].children;
    r := t.WaitAnyChildResume(INIT, 2);
    assert r == Blocks && t.procs[3].live && t.procs[3].parent == Some(INIT);
    woken := t.Exit(3, 0);
    assert woken == [];
  }
}
