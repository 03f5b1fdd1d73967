/** The timer heap and interval timers. */
module Timer {
  import opened Common

  /** An interval timer of a process. */
  datatype Slot = Slot(process: int, which: nat)

  datatype Callback =
    | WakeTask(task: int)
    | OneShot(slot: Slot)
    | Periodic(slot: Slot, interval: nat)
  {
    predicate For(s: Slot) {
      (OneShot? || Periodic?) && slot == s
    }
  }

  datatype TimerEvent = TimerEvent(time: nat, callback: Callback)

  type Heap = map<nat, TimerEvent>

  /** A timer that fired: which, its deadline, and when. */
  datatype Fired = Fired(id: nat, deadline: nat, at: nat)

  // ---- invariant ----

  ghost predicate EventOk(heap: Heap, armed: map<Slot, nat>, nextId: nat, spent: set<nat>, id: nat)
    requires id in heap
  {
    && 0 < id <= nextId && id !in spent
    && (heap[id].callback.Periodic? ==> heap[id].callback.interval >= 1)
    && (!heap[id].callback.WakeTask? ==> heap[id].callback.slot in armed && armed[heap[id].callback.slot] == id)
  }

  /** `spent` are the ids that fired or were removed: every id given out is there or in the heap. */
  ghost predicate Inv(heap: Heap, armed: map<Slot, nat>, nextId: nat, spent: set<nat>) {
    && (forall id {:trigger EventOk(heap, armed, nextId, spent, id)} :: id in heap ==>
      EventOk(heap, armed, nextId, spent, id))
    && (forall s :: s in armed ==> armed[s] <= nextId)
    && (forall id: nat {:trigger id in spent} {:trigger id in heap} :: 0 < id <= nextId <==> id in heap || id in spent)
  }

  /** The heap holds at most one event for each interval timer of a process. */
  lemma {:induction false} OneEvent(heap: Heap, armed: map<Slot, nat>, nextId: nat, spent: set<nat>, s: Slot, a: nat,
                                    b: nat)
    requires Inv(heap, armed, nextId, spent) && a in heap && b in heap
    requires heap[a].callback.For(s) && heap[b].callback.For(s)
    ensures a == b
  {
    assert EventOk(heap, armed, nextId, spent, a) && EventOk(heap, armed, nextId, spent, b);
  }

  ghost predicate NoneFor(heap: Heap, s: Slot) {
    forall id :: id in heap ==> !heap[id].callback.For(s)
  }

  /** What the callback of a timer that fired leaves: a single shot is forgotten, a period is armed
      again unless its process has exited. */
  ghost predicate Settled(heap: Heap, armed: map<Slot, nat>, exited: set<int>, c: Callback) {
    match c
    case WakeTask(_) => true
    case OneShot(slot) => slot !in armed && NoneFor(heap, slot)
    case Periodic(slot, _) =>
      if slot.process in exited then NoneFor(heap, slot)
      else slot in armed && armed[slot] in heap && heap[armed[slot]].callback == c
  }

  /** Heap and ids after a callback at time `clock`: waking a task, the single shot of `setitimer`, and
      `setitimer_helper`, which arms the next period unless the process exited or the timer was disarmed. */
  function HeapAfter(heap: Heap, armed: map<Slot, nat>, exited: set<int>, nextId: nat, clock: nat, c: Callback): Heap {
    if Rearms(armed, exited, c) then heap[nextId + 1 := TimerEvent(clock + c.interval, c)] else heap
  }

  function ArmedAfter(armed: map<Slot, nat>, exited: set<int>, nextId: nat, c: Callback): map<Slot, nat> {
    if Rearms(armed, exited, c) then armed[c.slot := nextId + 1]
    else if c.OneShot? then armed - {c.slot}
    else armed
  }

  predicate Rearms(armed: map<Slot, nat>, exited: set<int>, c: Callback) {
    c.Periodic? && c.slot.process !in exited && c.slot in armed
  }

  /** The callback of a timer that fires leaves its own slot settled. */
  lemma {:induction false} NowSettled(heap: Heap, armed: map<Slot, nat>, exited: set<int>, nextId: nat,
                                      spent: set<nat>, clock: nat, id: nat)
    requires Inv(heap, armed, nextId, spent) && id in heap
    ensures var c := heap[id].callback;
      Settled(HeapAfter(heap - {id}, armed, exited, nextId, clock, c), ArmedAfter(armed, exited, nextId, c), exited, c)
  {
    var c := heap[id].callback;
    assert EventOk(heap, armed, nextId, spent, id);
    forall k | k in heap - {id} ensures c.WakeTask? || !heap[k].callback.For(c.slot) {
      assert EventOk(heap, armed, nextId, spent, k);
    }
  }

  /** It leaves the slots of others as they are. */
  lemma {:induction false} StaysSettled(heap: Heap, armed: map<Slot, nat>, exited: set<int>, nextId: nat,
                                        spent: set<nat>, clock: nat, id: nat,
                                        c: Callback)
    requires Inv(heap, armed, nextId, spent) && id in heap && Settled(heap, armed, exited, c)
    requires c.WakeTask? || !heap[id].callback.For(c.slot)
    ensures var d := heap[id].callback;
      Settled(HeapAfter(heap - {id}, armed, exited, nextId, clock, d), ArmedAfter(armed, exited, nextId, d), exited, c)
  {
    forall k | k in heap ensures k <= nextId { assert EventOk(heap, armed, nextId, spent, k); }
  }

  /** The events due at a time. */
  function Due(heap: Heap, now: nat): set<nat> {
    set id | id in heap && heap[id].time <= now
  }

  ghost predicate FiredSince(fired: seq<Fired>, n: nat, id: nat) {
    exists i :: n <= i < |fired| && fired[i].id == id
  }

  lemma {:induction false} FiredNext(log: seq<Fired>, fired: seq<Fired>, n: nat)
    requires n <= |log| && |fired| == |log| + 1 && fired[..|log|] == log
    ensures forall k :: FiredSince(fired, n, k) <==> FiredSince(log, n, k) || k == fired[|log|].id
  {
    assert forall i :: 0 <= i < |log| ==> fired[i] == log[i];
    forall k | FiredSince(log, n, k) ensures FiredSince(fired, n, k) {
      var i :| n <= i < |log| && log[i].id == k;
      assert fired[i].id == k;
    }
    assert FiredSince(fired, n, fired[|log|].id);
  }

  /** From place `n` on, deadlines only grow, up to `now`. */
  ghost predicate InOrder(fired: seq<Fired>, n: nat, now: nat) {
    && (forall i :: n <= i < |fired| ==> fired[i].deadline <= now)
    && (forall i, j :: n <= i < j < |fired| ==> fired[i].deadline <= fired[j].deadline)
  }

  lemma {:induction false} OrderNext(log: seq<Fired>, fired: seq<Fired>, n: nat, now: nat)
    requires n <= |log| && |fired| == |log| + 1 && fired[..|log|] == log && InOrder(log, n, now)
    requires fired[|log|].deadline <= now && (|log| > n ==> log[|log| - 1].deadline <= fired[|log|].deadline)
    ensures InOrder(fired, n, now)
  {
    assert forall i :: 0 <= i < |log| ==> fired[i] == log[i];
  }

  /** An expiry pass that began with `start`: what is due was there, what is not due stayed, what is new is
      due later, and what fired is settled. */
  ghost predicate Passing(start: Heap, nextId: nat, heap: Heap, armed: map<Slot, nat>, exited: set<int>, now: nat) {
    && (forall k :: k in Due(heap, now) ==> k in start && heap[k] == start[k])
    && (forall k :: k in start && start[k].time > now ==> k in heap && heap[k] == start[k])
    && (forall k :: k in heap && k !in start ==> k > nextId && heap[k].callback.Periodic? && heap[k].time > now)
    && (forall k :: k in Due(start, now) && k !in Due(heap, now) ==> Settled(heap, armed, exited, start[k].callback))
    && (forall k :: k in Due(start, now) && k in heap ==> heap[k] == start[k])
    && OnePerSlot(start) && forall k :: k in start ==> k <= nextId
  }

  /** What is new since `start` is due one period after the time its callback ran, between `from` and `to`. */
  ghost predicate Rearmed(start: Heap, heap: Heap, from: nat, to: nat) {
    forall k :: k in heap && k !in start ==>
      heap[k].callback.Periodic? && from <= heap[k].time - heap[k].callback.interval <= to
  }

  /** From places `n` and `k` on, what fired and the callbacks run go together: each timer its own. */
  ghost predicate RanThese(start: Heap, fired: seq<Fired>, n: nat, ran: seq<Callback>, k: nat) {
    && n <= |fired| && k <= |ran| && |ran| - k == |fired| - n
    && forall i :: n <= i < |fired| ==> fired[i].id in start && ran[k + (i - n)] == start[fired[i].id].callback
  }

  lemma {:induction false} RanNext(start: Heap, fired: seq<Fired>, fired': seq<Fired>, n: nat, ran: seq<Callback>,
                                   ran': seq<Callback>, k: nat)
    requires RanThese(start, fired, n, ran, k) && |fired'| == |fired| + 1 && fired'[..|fired|] == fired
    requires fired'[|fired|].id in start && ran' == ran + [start[fired'[|fired|].id].callback]
    ensures RanThese(start, fired', n, ran', k) && ran'[..k] == ran[..k]
  {
    forall i | n <= i < |fired'| ensures fired'[i].id in start && ran'[k + (i - n)] == start[fired'[i].id].callback {
      if i < |fired| { assert fired'[i] == fired'[..|fired|][i]; }
    }
  }

  ghost predicate OnePerSlot(heap: Heap) {
    forall j, k :: j in heap && k in heap && j != k && !heap[j].callback.WakeTask? ==>
      !heap[k].callback.For(heap[j].callback.slot)
  }

  lemma {:induction false} PassStart(heap: Heap, armed: map<Slot, nat>, nextId: nat, spent: set<nat>,
                                     exited: set<int>, now: nat)
    requires Inv(heap, armed, nextId, spent)
    ensures Passing(heap, nextId, heap, armed, exited, now)
  {
    forall k | k in heap ensures k <= nextId { assert EventOk(heap, armed, nextId, spent, k); }
    forall j, k | j in heap && k in heap && j != k && !heap[j].callback.WakeTask?
      ensures !heap[k].callback.For(heap[j].callback.slot)
    {
      assert EventOk(heap, armed, nextId, spent, j) && EventOk(heap, armed, nextId, spent, k);
    }
  }

  /** One event of the pass fires. */
  lemma {:induction false} PassOn(start: Heap, nextId0: nat, heap: Heap, armed: map<Slot, nat>, exited: set<int>,
                                  nextId: nat, spent: set<nat>,
                                  clock: nat, now: nat, id: nat)
    requires Passing(start, nextId0, heap, armed, exited, now) && Inv(heap, armed, nextId, spent)
    requires nextId0 <= nextId && now <= clock && id in Due(heap, now)
    ensures var c := heap[id].callback;
      var heap' := HeapAfter(heap - {id}, armed, exited, nextId, clock, c);
      var armed' := ArmedAfter(armed, exited, nextId, c);
      && Due(heap', now) == Due(heap, now) - {id} && Passing(start, nextId0, heap', armed', exited, now)
      && forall k :: k in heap' ==> (k in heap && heap'[k] == heap[k]) || heap'[k].time > now
  {
    var c := heap[id].callback;
    var heap', armed' := HeapAfter(heap - {id}, armed, exited, nextId, clock, c), ArmedAfter(armed, exited, nextId, c);
    assert EventOk(heap, armed, nextId, spent, id);
    forall k | k in heap ensures k <= nextId { assert EventOk(heap, armed, nextId, spent, k); }
    assert forall k :: k in heap' <==> (k in heap && k != id) || (Rearms(armed, exited, c) && k == nextId + 1);
    forall k | k in Due(start, now) && k !in Due(heap', now) ensures Settled(heap', armed', exited, start[k].callback) {
      if k in Due(heap, now) {
        NowSettled(heap, armed, exited, nextId, spent, clock, id);
      } else {
        StaysSettled(heap, armed, exited, nextId, spent, clock, id, start[k].callback);
      }
    }
  }

  /** The log of the pass from place `n` on: what was due and is no longer, in order, before all that is left. */
  ghost predicate Logged(start: Heap, fired: seq<Fired>, n: nat, heap: Heap, now: nat) {
    && (forall k :: k in Due(start, now) <==> k in Due(heap, now) || FiredSince(fired, n, k))
    && n <= |fired| && InOrder(fired, n, now)
    && (|fired| > n ==> forall k :: k in heap ==> fired[|fired| - 1].deadline <= heap[k].time)
  }

  lemma {:induction false} LogOn(start: Heap, log: seq<Fired>, fired: seq<Fired>, n: nat, heap: Heap, heap': Heap,
                                 now: nat, id: nat)
    requires Logged(start, log, n, heap, now) && id in Due(heap, now) && Due(heap', now) == Due(heap, now) - {id}
    requires forall k :: k in heap ==> heap[id].time <= heap[k].time
    requires forall k :: k in heap' ==> (k in heap && heap'[k] == heap[k]) || heap'[k].time > now
    requires |fired| == |log| + 1 && fired[..|log|] == log && fired[|log|].id == id
    requires fired[|log|].deadline == heap[id].time
    ensures Logged(start, fired, n, heap', now)
  {
    FiredNext(log, fired, n);
    OrderNext(log, fired, n, now);
  }

  class Timers {
    var heap: Heap
    var nextId: nat
    var clock: nat

    /** `itimer_ids` of every process. */
    var armed: map<Slot, nat>

    /** Processes that exited and were not reaped yet. */
    var exited: set<int>

    /** What fired, in order; the ids taken off the heap by `remove`; both kinds together. */
    ghost var fired: seq<Fired>

    /** The callbacks that were run, in order. */
    ghost var ran: seq<Callback>
    ghost var removed: set<nat>
    ghost var spent: set<nat>

    constructor (clock: nat)
      ensures Valid() && heap == map[] && fired == []
    {
      heap, nextId, this.clock, armed, exited := map[], 0, clock, map[], {};
      fired, ran, removed, spent := [], [], {}, {};
    }

    /** No timer fires before its deadline, twice, or after it was removed. */
    ghost predicate Valid()
      reads this
    {
      && Inv(heap, armed, nextId, spent) && removed <= spent
      && (forall i :: 0 <= i < |fired| ==>
            fired[i].id in spent && fired[i].id !in removed && fired[i].deadline <= fired[i].at)
      && (forall i, j :: 0 <= i < j < |fired| ==> fired[i].id != fired[j].id)
    }

    /** A process exits; its timers stay in the heap. */
    method ProcessExits(process: int)
      requires Valid()
      modifies this`exited
      ensures Valid() && exited == old(exited) + {process}
    {
      exited := exited + {process};
    }

    /** Its status is collected, and it no longer counts as exited. */
    method ProcessCollected(process: int)
      requires Valid()
      modifies this`exited
      ensures Valid() && exited == old(exited) - {process}
    {
      exited := exited - {process};
    }

    /** Time passes. */
    method Tick(us: nat)
      requires Valid()
      modifies this`clock
      ensures Valid() && clock == old(clock) + us
    {
      clock := clock + us;
    }

    /** `add_timer`. The caller of an interval timer stores the id. */
    method AddTimer(us: nat, callback: Callback) returns (id: nat)
      requires callback.Periodic? ==> callback.interval >= 1
      requires Valid() && (!callback.WakeTask? ==> NoneFor(heap, callback.slot))
      modifies this`heap, this`nextId, this`armed
      ensures Valid() && id == nextId == old(nextId) + 1
      ensures heap == old(heap)[id := TimerEvent(clock + us, callback)]
      ensures armed == if callback.WakeTask? then old(armed) else old(armed)[callback.slot := id]
    {
      nextId := nextId + 1;
      id := nextId;
      heap := heap[id := TimerEvent(clock + us, callback)];
      if !callback.WakeTask? { armed := armed[callback.slot := id]; }
      forall k | k in heap ensures EventOk(heap, armed, nextId, spent, k) {
        if k != id { assert EventOk(old(heap), old(armed), old(nextId), spent, k); }
      }
    }

    /** `remove`. */
    method Remove(id: nat)
      requires Valid()
      modifies this`heap, this`spent, this`removed
      ensures Valid() && heap == old(heap) - {id} && fired == old(fired)
      ensures removed == if id in old(heap) then old(removed) + {id} else old(removed)
    {
      if id in heap {
        assert EventOk(heap, armed, nextId, spent, id);
        spent, removed := spent + {id}, removed + {id};
      }
      heap := heap - {id};
      forall k | k in heap ensures EventOk(heap, armed, nextId, spent, k) {
        assert EventOk(old(heap), armed, nextId, old(spent), k);
      }
    }

    // ---- expiry ----

    /** `peek` of the heap: an event with the earliest deadline. */
    method Peek() returns (r: Option<nat>)
      ensures r.None? <==> heap == map[]
      ensures r.Some? ==> r.value in heap && forall k :: k in heap ==> heap[r.value].time <= heap[k].time
    {
      r := None;
      var rest := heap.Keys;
      while rest != {}
        invariant rest <= heap.Keys
        invariant r.None? ==> rest == heap.Keys
        invariant r.Some? ==> r.value in heap
        invariant r.Some? ==> forall k :: k in heap && k !in rest ==> heap[r.value].time <= heap[k].time
        decreases |rest|
      {
        var k :| k in rest;
        if r == None || heap[k].time < heap[r.value].time { r := Some(k); }
        rest := rest - {k};
      }
    }

    /** Takes a due event off the heap. */
    method Pop(id: nat) returns (callback: Callback)
      requires Valid() && id in heap && heap[id].time <= clock
      modifies this`heap, this`fired, this`spent
      ensures Valid() && heap == old(heap) - {id} && callback == old(heap)[id].callback
      ensures fired == old(fired) + [Fired(id, old(heap)[id].time, clock)]
      ensures !callback.WakeTask? ==> NoneFor(heap, callback.slot)
    {
      callback := heap[id].callback;
      assert EventOk(heap, armed, nextId, spent, id);
      fired := fired + [Fired(id, heap[id].time, clock)];
      spent := spent + {id};
      heap := heap - {id};
      forall k | k in heap ensures EventOk(heap, armed, nextId, spent, k) {
        assert EventOk(old(heap), armed, nextId, old(spent), k);
      }
      if !callback.WakeTask? {
        forall k | k in heap ensures !heap[k].callback.For(callback.slot) {
          assert EventOk(old(heap), armed, nextId, old(spent), k);
        }
      }
    }

    /** Runs a callback, which takes some time. */
    method Call(callback: Callback)
      requires Valid() && (callback.Periodic? ==> callback.interval >= 1)
      requires !callback.WakeTask? ==> NoneFor(heap, callback.slot)
      modifies this`heap, this`nextId, this`armed, this`clock, this`ran
      ensures Valid() && clock >= old(clock) && nextId >= old(nextId) && ran == old(ran) + [callback]
      ensures heap == HeapAfter(old(heap), old(armed), exited, old(nextId), clock, callback)
      ensures armed == ArmedAfter(old(armed), exited, old(nextId), callback)
    {
      var us: nat :| true;
      Tick(us);
      ran := ran + [callback];
      match callback {
        case WakeTask(_) =>
        case OneShot(slot) => Disarm(slot);
        case Periodic(slot, interval) =>
          if slot.process in exited { return; }
          if slot !in armed { return; }
          var _ := AddTimer(interval, callback);
      }
    }

    /** Forgets the id of an interval timer that has no event. */
    method Disarm(slot: Slot)
      requires Valid() && NoneFor(heap, slot)
      modifies this`armed
      ensures Valid() && armed == old(armed) - {slot}
    {
      armed := armed - {slot};
      forall k | k in heap ensures EventOk(heap, armed, nextId, spent, k) {
        assert EventOk(heap, old(armed), nextId, spent, k);
        assert !heap[k].callback.For(slot);
      }
    }

    /** Fires one due event: it leaves the heap, and what its callback adds is due later. */
    method Fire(id: nat, now: nat)
      requires Valid() && now <= clock && id in heap && heap[id].time <= now
      modifies this`heap, this`nextId, this`armed, this`clock, this`fired, this`spent, this`ran
      ensures Valid() && now <= old(clock) <= clock && nextId >= old(nextId)
      ensures heap == HeapAfter(old(heap) - {id}, old(armed), exited, old(nextId), clock, old(heap)[id].callback)
      ensures armed == ArmedAfter(old(armed), exited, old(nextId), old(heap)[id].callback)
      ensures |fired| == |old(fired)| + 1 && fired[..|old(fired)|] == old(fired)
      ensures fired[|old(fired)|].id == id && fired[|old(fired)|].deadline == old(heap)[id].time
      ensures ran == old(ran) + [old(heap)[id].callback]
    {
      assert EventOk(heap, armed, nextId, spent, id);
      var callback := Pop(id);
      Call(callback);
    }

    /** `wakeup_expired`: one pass ends, fires the timers that are due and no others, each once and in
        the order of their deadlines. All other timers stay, and what is new is due later. */
    method WakeupExpired(now: nat)
      requires Valid() && now <= clock
      modifies this`heap, this`nextId, this`armed, this`clock, this`fired, this`spent, this`ran
      ensures Valid() && Due(heap, now) == {} && |fired| >= |old(fired)| && fired[..|old(fired)|] == old(fired)
      ensures InOrder(fired, |old(fired)|, now)
      ensures forall k :: k in Due(old(heap), now) <==> FiredSince(fired, |old(fired)|, k)
      ensures forall k :: k in old(heap) && old(heap)[k].time > now ==> k in heap && heap[k] == old(heap)[k]
      ensures forall k :: k in heap && k !in old(heap) ==> k > old(nextId) && heap[k].callback.Periodic?
      ensures forall k :: k in Due(old(heap), now) ==> Settled(heap, armed, exited, old(heap)[k].callback)
      ensures Rearmed(old(heap), heap, old(clock), clock)
      ensures RanThese(old(heap), fired, |old(fired)|, ran, |old(ran)|) && ran[..|old(ran)|] == old(ran)
    {
      ghost var start, n, k, nextId0, from := heap, |fired|, |ran|, nextId, clock;
      PassStart(heap, armed, nextId, spent, exited, now);
      AlongIff(start, nextId0, n, k, from, now);
      while true
        invariant Valid() && now <= clock && Along(start, nextId0, n, k, from, now)
        invariant n <= |fired| && fired[..n] == old(fired) && k <= |ran| && ran[..k] == old(ran)
        decreases Due(heap, now)
      {
        var r := Peek();
        if r == None { break; }
        if heap[r.value].time > now { break; }
        FireNext(r.value, now, start, nextId0, n, k, from);
      }
      AlongIff(start, nextId0, n, k, from, now);
    }

    /** A pass that began with `start` is under way. */
    ghost predicate AlongNow(start: Heap, nextId0: nat, n: nat, k: nat, from: nat, now: nat)
      reads this
    {
      && nextId0 <= nextId && from <= clock && Passing(start, nextId0, heap, armed, exited, now)
      && Logged(start, fired, n, heap, now) && Rearmed(start, heap, from, clock) && RanThese(start, fired, n, ran, k)
    }

    /** The same, folded. */
    ghost predicate Along(start: Heap, nextId0: nat, n: nat, k: nat, from: nat, now: nat)
      reads this
    {
      forall i: nat {:trigger Unfold(i)} :: Unfold(i) ==> AlongNow(start, nextId0, n, k, from, now)
    }

    lemma AlongIff(start: Heap, nextId0: nat, n: nat, k: nat, from: nat, now: nat)
      ensures Along(start, nextId0, n, k, from, now) <==> AlongNow(start, nextId0, n, k, from, now)
    {
      assert Unfold(0);
    }

    /** One round: the earliest event is due and fires. */
    method FireNext(id: nat, now: nat, ghost start: Heap, ghost nextId0: nat, ghost n: nat, ghost k: nat,
                    ghost from: nat)
      requires Valid() && now <= clock && id in Due(heap, now) && Along(start, nextId0, n, k, from, now)
      requires forall j :: j in heap ==> heap[id].time <= heap[j].time
      modifies this`heap, this`nextId, this`armed, this`clock, this`fired, this`spent, this`ran
      ensures Valid() && now <= clock && Along(start, nextId0, n, k, from, now)
      ensures Due(heap, now) == Due(old(heap), now) - {id}
      ensures |fired| == |old(fired)| + 1 && fired[..|old(fired)|] == old(fired)
      ensures ran == old(ran) + [old(heap)[id].callback]
    {
      ghost var heap1, armed1, nextId1, spent1 := heap, armed, nextId, spent;
      AlongIff(start, nextId0, n, k, from, now);
      Fire(id, now);
      PassOn(start, nextId0, heap1, armed1, exited, nextId1, spent1, clock, now, id);
      LogOn(start, old(fired), fired, n, heap1, heap, now, id);
      RanNext(start, old(fired), fired, n, old(ran), ran, k);
      AlongIff(start, nextId0, n, k, from, now);
    }

    /** `setitimer` of a valid kind; a zero value only disarms. The timers of others stay. */
    method SetItimer(slot: Slot, value: nat, interval: nat) returns (ok: bool)
      requires Valid()
      modifies this`heap, this`nextId, this`armed, this`spent, this`removed
      ensures Valid() && fired == old(fired) && (ok <==> slot.which < 3)
      ensures !ok ==> unchanged(this)
      ensures var callback := if interval == 0 then OneShot(slot) else Periodic(slot, interval);
        var kept := if slot in old(armed) then old(heap) - {old(armed)[slot]} else old(heap);
        && NoneFor(kept, slot)
        && (ok && value == 0 ==> heap == kept && armed == old(armed) - {slot} && nextId == old(nextId))
        && (ok && value > 0 ==>
              && nextId == old(nextId) + 1 && armed == old(armed)[slot := nextId]
              && heap == kept[nextId := TimerEvent(clock + value, callback)])
    {
      OnlyArmed(heap, armed, nextId, spent, slot);
      if slot.which >= 3 { return false; }
      if slot in armed { Remove(armed[slot]); }
      Disarm(slot);
      ok := true;
      if value == 0 { return; }
      var _ := AddTimer(value, if interval == 0 then OneShot(slot) else Periodic(slot, interval));
      assert armed == old(armed)[slot := nextId];
    }
  }

  /** A periodic timer of a process that exits before it expires: the expiry arms it again exactly when the status of
      the process has been collected by then. */
  method ExpiryAfterExit(t: Timers, slot: Slot, value: nat, interval: nat, collected: bool)
    requires t.Valid() && slot.which < 3 && value > 0 && interval > 0
    modifies t
    ensures t.Valid() && (NoneFor(t.heap, slot) <==> !collected)
  {
    var _ := t.SetItimer(slot, value, interval);
    ghost var id := t.nextId;
    t.ProcessExits(slot.process);
    if collected { t.ProcessCollected(slot.process); }
    t.Tick(value);
    assert id in Due(t.heap, t.clock);
    t.WakeupExpired(t.clock);
  }

  lemma {:induction false} OnlyArmed(heap: Heap, armed: map<Slot, nat>, nextId: nat, spent: set<nat>, slot: Slot)
    requires Inv(heap, armed, nextId, spent)
    ensures NoneFor(if slot in armed then heap - {armed[slot]} else heap, slot)
  {
    forall k | k in heap && heap[k].callback.For(slot) ensures slot in armed && armed[slot] == k {
      assert EventOk(heap, armed, nextId, spent, k);
    }
  }
}
