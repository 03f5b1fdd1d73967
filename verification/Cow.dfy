/** `AnonymousArea`: demand-zero pages, copy-on-write and fork, proved to behave as if every
    fork had copied all memory. */
module Cow {
  import opened Common
  import opened CowPlain
  import opened CowState

  datatype Access = Read | Write | Execute

  function Abs(memory: Memory, areas: Areas): Plain {
    map a | a in areas :: PlainArea(areas[a].ubase, areas[a].perm, Contents(memory, areas[a]))
  }

  // ---- relating the two ----

  lemma {:induction false} AbsSame(memory: Memory, areas: Areas, memory': Memory, areas': Areas)
    requires View(memory', areas') == View(memory, areas) && areas'.Keys == areas.Keys
    requires forall a :: a in areas ==> areas'[a].ubase == areas[a].ubase && areas'[a].perm == areas[a].perm
    ensures Abs(memory', areas') == Abs(memory, areas)
  {
    forall a | a in areas ensures Abs(memory', areas')[a] == Abs(memory, areas)[a] {
      assert View(memory', areas')[a] == View(memory, areas)[a];
    }
  }

  lemma {:induction false} AbsPage(memory: Memory, areas: Areas, memory': Memory, areas': Areas, a: int,
                                   pages: seq<Page>)
    requires a in areas && areas'.Keys == areas.Keys
    requires View(memory', areas') == View(memory, areas)[a := pages]
    requires forall b :: b in areas ==> areas'[b].ubase == areas[b].ubase && areas'[b].perm == areas[b].perm
    ensures Abs(memory', areas') == Abs(memory, areas)[a := Abs(memory, areas)[a].(pages := pages)]
  {
    var p, p' := Abs(memory, areas), Abs(memory', areas');
    forall b | b in areas ensures p'[b] == (if b == a then p[a].(pages := pages) else p[b]) {
      var v, v' := View(memory, areas), View(memory', areas');
      assert v'[b] == if b == a then pages else v[b];
    }
    assert p'.Keys == p.Keys;
  }

  class Machine {
    var memory: Memory
    var areas: Areas

    constructor ()
      ensures Valid() && Plain() == map[]
    {
      memory, areas := map[], map[];
    }

    ghost predicate Valid()
      reads this
    {
      Inv(memory, areas)
    }

    ghost function Plain(): Plain
      reads this
    {
      Abs(memory, areas)
    }

    /** The frame allocator: any frame that is not in use. */
    method FreshFrame() returns (f: Frame)
      ensures f !in memory
    {
      NotAll(memory.Keys);
      f :| f !in memory;
    }

    /** `allocate_page`: a zeroed frame for an untouched page. */
    method AllocatePage(a: int, i: nat) returns (kpage: Frame)
      requires Valid() && a in areas && i < |areas[a].slots| && areas[a].slots[i] == Unallocated
      modifies this
      ensures Valid() && Plain() == old(Plain()) && areas == Mapped(old(areas), a, i, kpage)
    {
      kpage := FreshFrame();
      FreshSole(memory, areas, a, i, kpage);
      MapKeeps(memory, areas, a, i, kpage, memory[kpage := ZeroPage()]);
      AbsSame(memory, areas, memory[kpage := ZeroPage()], Mapped(areas, a, i, kpage));
      memory := memory[kpage := ZeroPage()];
      areas := Mapped(areas, a, i, kpage);
    }

    /** `copy_on_write_page`: the last holder keeps the frame, any other gets a copy. */
    method CopyOnWritePage(a: int, i: nat) returns (kpage: Frame)
      requires Valid() && a in areas && i < |areas[a].slots| && areas[a].slots[i].Cow?
      modifies this
      ensures Valid() && Plain() == old(Plain()) && areas == Mapped(old(areas), a, i, kpage)
    {
      assert SlotOk(memory, areas, a, i);
      var f := areas[a].slots[i].frame;
      if Sole(areas, a, i, f) {
        kpage := f;
      } else {
        kpage := FreshFrame();
        FreshSole(memory, areas, a, i, kpage);
      }
      ghost var memory' := memory[kpage := memory[f]];
      MapKeeps(memory, areas, a, i, kpage, memory');
      AbsSame(memory, areas, memory', Mapped(areas, a, i, kpage));
      memory := memory[kpage := memory[f]];
      areas := Mapped(areas, a, i, kpage);
    }

    // ---- translation for the kernel ----

    /** The page and offset of an address, or past the last page. */
    method Locate(a: int, uaddr: nat) returns (i: nat, o: nat)
      requires a in areas && uaddr >= areas[a].ubase
      ensures i == (uaddr - areas[a].ubase) / PGSIZE && o == (uaddr - areas[a].ubase) % PGSIZE < PGSIZE
    {
      i, o := (uaddr - areas[a].ubase) / PGSIZE, (uaddr - areas[a].ubase) % PGSIZE;
    }

    method TranslateRead(a: int, uaddr: nat) returns (r: Option<(Frame, nat)>)
      requires Valid() && a in areas && uaddr >= areas[a].ubase
      modifies this
      ensures Valid() && Plain() == old(Plain())
      ensures r.Some? <==> Reaches(Plain(), a, uaddr)
      ensures r.Some? ==>
        && r.value.0 in memory && r.value.1 < |memory[r.value.0]|
        && Some(memory[r.value.0][r.value.1]) == ReadAt(Plain(), a, uaddr)
    {
      var i, o := Locate(a, uaddr);
      if i >= |areas[a].slots| { return None; }
      assert SlotOk(memory, areas, a, i);
      var page;
      if areas[a].slots[i] == Unallocated {
        page := AllocatePage(a, i);
        assert SlotOk(memory, areas, a, i);
      } else {
        page := areas[a].slots[i].frame;
      }
      r := Some((page, o));
    }

    method TranslateWrite(a: int, uaddr: nat) returns (r: Option<(Frame, nat)>)
      requires Valid() && a in areas && uaddr >= areas[a].ubase
      modifies this
      ensures Valid() && Plain() == old(Plain())
      ensures r.Some? <==> Reaches(Plain(), a, uaddr) && Plain()[a].perm.w
      ensures r.Some? ==> Writable(a, uaddr, r.value.0, r.value.1)
    {
      if !areas[a].perm.w { return None; }
      var i, o := Locate(a, uaddr);
      if i >= |areas[a].slots| { return None; }
      assert SlotOk(memory, areas, a, i);
      var page;
      match areas[a].slots[i] {
        case Unallocated => page := AllocatePage(a, i);
        case Allocated(f) => page := f;
        case Cow(_) => page := CopyOnWritePage(a, i);
      }
      assert SlotOk(memory, areas, a, i);
      r := Some((page, o));
    }

    /** Address `uaddr` of area `a` is byte `o` of frame `f`, which no other slot holds. */
    ghost predicate Writable(a: int, uaddr: nat, f: Frame, o: nat)
      reads this
    {
      && a in areas && uaddr >= areas[a].ubase && o == (uaddr - areas[a].ubase) % PGSIZE
      && var i := (uaddr - areas[a].ubase) / PGSIZE;
      i < |areas[a].slots| && areas[a].slots[i] == Allocated(f) && f in memory && areas[a].perm.w
    }

    /** A store of one byte to physical memory. */
    method Poke(f: Frame, o: nat, v: byte, ghost a: int, ghost uaddr: nat)
      requires Valid() && Writable(a, uaddr, f, o)
      modifies this`memory
      ensures Valid() && Plain() == WriteAt(old(Plain()), a, uaddr, v)
    {
      ghost var i := (uaddr - areas[a].ubase) / PGSIZE;
      assert Held(areas, f);
      var page := Patch(memory[f], o, v);
      WriteKeeps(memory, areas, a, i, page);
      AbsPage(memory, areas, memory[f := page], areas, a, View(memory, areas)[a][i := page]);
      memory := memory[f := page];
    }

    method ReadKernel(a: int, uaddr: nat) returns (r: Option<byte>)
      requires Valid() && a in areas && uaddr >= areas[a].ubase
      modifies this
      ensures Valid() && Plain() == old(Plain()) && r == ReadAt(Plain(), a, uaddr)
    {
      var at := TranslateRead(a, uaddr);
      r := if at.None? then None else Some(memory[at.value.0][at.value.1]);
    }

    method WriteKernel(a: int, uaddr: nat, v: byte) returns (ok: bool)
      requires Valid() && a in areas && uaddr >= areas[a].ubase
      modifies this
      ensures Valid() && Plain() == WriteAt(old(Plain()), a, uaddr, v)
      ensures ok <==> Reaches(old(Plain()), a, uaddr) && old(areas)[a].perm.w
    {
      var at := TranslateWrite(a, uaddr);
      ok := at.Some?;
      if ok { Poke(at.value.0, at.value.1, v, a, uaddr); }
    }

    // ---- user accesses ----

    /** The page-table entry lets the access through. */
    predicate Permitted(a: int, i: nat, access: Access)
      reads this
      requires a in areas
    {
      && i in areas[a].ptes
      && match access
         case Read => areas[a].perm.r
         case Write => areas[a].ptes[i].writable
         case Execute => areas[a].perm.x
    }

    predicate MatchPerm(a: int, access: Access)
      reads this
      requires a in areas
    {
      match access
      case Read => areas[a].perm.r
      case Write => areas[a].perm.w
      case Execute => areas[a].perm.x
    }

    /** `try_to_fix_memory_fault`, after an access that the entry refused and the area allows. Its two
        panics are unreachable, and the access goes through afterwards. */
    method TryToFixMemoryFault(a: int, uaddr: nat, access: Access) returns (fixed: bool)
      requires Valid() && a in areas && uaddr >= areas[a].ubase && MatchPerm(a, access)
      requires !Permitted(a, (uaddr - areas[a].ubase) / PGSIZE, access)
      modifies this
      ensures Valid() && Plain() == old(Plain()) && a in areas && areas[a].ubase == old(areas)[a].ubase
      ensures fixed <==> Reaches(Plain(), a, uaddr)
      ensures fixed ==> Permitted(a, (uaddr - areas[a].ubase) / PGSIZE, access)
    {
      var i, _ := Locate(a, uaddr);
      if i >= |areas[a].slots| { return false; }
      assert SlotOk(memory, areas, a, i);
      var page;
      match areas[a].slots[i] {
        case Unallocated => page := AllocatePage(a, i);
        case Allocated(_) => assert false;
        case Cow(_) =>
          if access != Write { assert false; }
          page := CopyOnWritePage(a, i);
      }
      assert SlotOk(memory, areas, a, i);
      fixed := true;
    }

    /** A user load or instruction fetch, its fault handled. */
    method LoadUser(a: int, uaddr: nat, access: Access) returns (r: Option<byte>)
      requires Valid() && a in areas && uaddr >= areas[a].ubase && access != Write
      modifies this
      ensures Valid() && Plain() == old(Plain())
      ensures r == if old(MatchPerm(a, access)) then ReadAt(Plain(), a, uaddr) else None
    {
      var i, o := Locate(a, uaddr);
      if !MatchPerm(a, access) { return None; }
      if !Permitted(a, i, access) {
        var fixed := TryToFixMemoryFault(a, uaddr, access);
        if !fixed { return None; }
      }
      assert SlotOk(memory, areas, a, i);
      r := Some(memory[areas[a].ptes[i].frame][o]);
    }

    /** A user store, its fault handled. */
    method StoreUser(a: int, uaddr: nat, v: byte) returns (ok: bool)
      requires Valid() && a in areas && uaddr >= areas[a].ubase
      modifies this
      ensures Valid() && Plain() == WriteAt(old(Plain()), a, uaddr, v)
      ensures ok <==> Reaches(old(Plain()), a, uaddr) && old(areas)[a].perm.w
    {
      var i, o := Locate(a, uaddr);
      if !Permitted(a, i, Write) {
        if !areas[a].perm.w { return false; }
        var fixed := TryToFixMemoryFault(a, uaddr, Write);
        if !fixed { return false; }
      }
      assert SlotOk(memory, areas, a, i);
      Poke(areas[a].ptes[i].frame, o, v, a, uaddr);
      ok := true;
    }

    // ---- areas ----

    method NewArea(a: int, ubase: nat, perm: Perm, n: nat)
      requires Valid() && a !in areas
      modifies this
      ensures Valid() && Plain() == old(Plain())[a := PlainArea(ubase, perm, Zeros(n))]
    {
      var slots := seq(n, _ => Unallocated);
      AddKeeps(memory, areas, a, Area(ubase, perm, slots, map[]));
      areas := areas[a := Area(ubase, perm, slots, map[])];
    }

    /** `fork`: the child's slots and entries in a first pass, the parent's in a second. */
    method ForkArea(a: int, c: int)
      requires Valid() && a in areas && c !in areas
      modifies this
      ensures Valid() && Plain() == old(Plain())[c := old(Plain())[a]]
    {
      var area := areas[a];
      var frames: seq<Slot>, newPtes: map<nat, Pte> := [], map[];
      for i := 0 to |area.slots|
        invariant |frames| == i && forall k :: 0 <= k < i ==> frames[k] == Share(area.slots[k])
        invariant forall k: nat :: k in newPtes <==> k < i && area.slots[k] != Unallocated
        invariant forall k: nat :: k in newPtes ==> newPtes[k] == Pte(area.slots[k].frame, false)
      {
        match area.slots[i] {
          case Unallocated => frames := frames + [Unallocated];
          case Allocated(f) =>
            newPtes := newPtes[i := Pte(f, false)];
            frames := frames + [Cow(f)];
          case Cow(f) =>
            newPtes := newPtes[i := Pte(f, false)];
            frames := frames + [Cow(f)];
        }
      }
      var slots, ptes := area.slots, area.ptes;
      forall k: nat | k < |area.slots| ensures SlotOk(memory, areas, a, k) {}
      for i := 0 to |area.slots|
        invariant |slots| == |area.slots| && ptes.Keys == area.ptes.Keys
        invariant forall k :: 0 <= k < i ==> slots[k] == Share(area.slots[k])
        invariant forall k :: i <= k < |slots| ==> slots[k] == area.slots[k]
        invariant forall k :: k in ptes ==> ptes[k] == if k < i then Pte(area.ptes[k].frame, false) else area.ptes[k]
      {
        assert SlotOk(memory, areas, a, i);
        if slots[i].Allocated? {
          if area.perm.w { ptes := ptes[i := Pte(ptes[i].frame, false)]; }
          slots := slots[i := Cow(slots[i].frame)];
        }
      }
      ForkParts(memory, areas, a, frames, newPtes, slots, ptes);
      ForkKeeps(memory, areas, a, c);
      AbsFork(memory, areas, a, c);
      areas := areas[a := area.(slots := slots, ptes := ptes)][c := Area(area.ubase, area.perm, frames, newPtes)];
    }

    /** Removes the entry of a slot and lets its frame go; the last reference frees it. */
    method DropSlot(a: int, i: nat)
      requires Valid() && a in areas && i < |areas[a].slots|
      modifies this
      ensures Valid() && a in areas && |areas[a].slots| == |old(areas)[a].slots|
      ensures Plain() == old(Plain())[a := old(Plain())[a].(pages := old(Plain())[a].pages[i := ZeroPage()])]
    {
      ghost var before := Plain();
      if areas[a].slots[i] == Unallocated {
        assert before[a].pages[i := ZeroPage()] == before[a].pages;
        return;
      }
      var f := areas[a].slots[i].frame;
      DropKeeps(memory, areas, a, i);
      ghost var memory' := if Sole(areas, a, i, f) then memory - {f} else memory;
      AbsPage(memory, areas, memory', Dropped(areas, a, i), a, View(memory, areas)[a][i := ZeroPage()]);
      memory := if Sole(areas, a, i, f) then memory - {f} else memory;
      areas := Dropped(areas, a, i);
    }

    /** `unmap`, slot by slot. */
    method UnmapArea(a: int)
      requires Valid() && a in areas
      modifies this
      ensures Valid() && a in areas
      ensures Plain() == old(Plain())[a := old(Plain())[a].(pages := Zeros(|old(areas)[a].slots|))]
    {
      ghost var before, pages := Plain(), Plain()[a].pages;
      ghost var n := |areas[a].slots|;
      assert Zeros(0) + pages[0..] == pages;
      assert before == before[a := before[a].(pages := pages)];
      for i := 0 to |areas[a].slots|
        invariant Valid() && a in areas && |areas[a].slots| == n
        invariant Plain() == before[a := before[a].(pages := Zeros(i) + pages[i..])]
      {
        ZerosNext(pages, i);
        DropSlot(a, i);
      }
      assert Zeros(n) + pages[n..] == Zeros(n);
    }

    // ---- whole runs ----

    /** One step of any kind; a step outside every area has no effect. */
    method Do(op: Op) returns (r: Option<byte>)
      requires Valid()
      modifies this
      ensures Valid() && Plain() == Step(old(Plain()), op) && r == Seen(old(Plain()), op)
    {
      r := None;
      match op {
        case Map(a, ubase, perm, n) => if a !in areas { NewArea(a, ubase, perm, n); }
        case Load(a, uaddr) => if a in areas && uaddr >= areas[a].ubase { r := LoadUser(a, uaddr, Read); }
        case Fetch(a, uaddr) => if a in areas && uaddr >= areas[a].ubase { r := LoadUser(a, uaddr, Execute); }
        case Store(a, uaddr, v) =>
          if a in areas && uaddr >= areas[a].ubase {
            var ok := StoreUser(a, uaddr, v);
            r := if ok then Some(v) else None;
          }
        case KernelRead(a, uaddr) => if a in areas && uaddr >= areas[a].ubase { r := ReadKernel(a, uaddr); }
        case KernelWrite(a, uaddr, v) =>
          if a in areas && uaddr >= areas[a].ubase {
            var ok := WriteKernel(a, uaddr, v);
            r := if ok then Some(v) else None;
          }
        case Fork(a, c) => if a in areas && c !in areas { ForkArea(a, c); }
        case Unmap(a) => if a in areas { UnmapArea(a); }
      }
    }

    /** Copy-on-write refines full copying: any interleaving of steps reports what it would report,
        and leaves every address space reading what it would read, if each fork had copied all memory. */
    method Run(ops: seq<Op>) returns (seen: seq<Option<byte>>)
      requires Valid()
      modifies this
      ensures Valid() && Plain() == After(old(Plain()), ops)
      ensures |seen| == |ops| && Reported(old(Plain()), ops, seen)
      ensures forall k :: 0 <= k < |ops| && seen[k].Some? && Reads(ops[k]) ==>
        seen[k] == Latest(old(Plain()), ops[..k], ops[k].area, ops[k].uaddr)
    {
      ghost var p := Plain();
      PlainSized(memory, areas);
      seen := [];
      for i := 0 to |ops|
        invariant Valid() && Plain() == After(p, ops[..i])
        invariant |seen| == i && Reported(p, ops, seen)
      {
        AfterNext(p, ops, i);
        var r := Do(ops[i]);
        ReportedNext(p, ops, seen, r);
        seen := seen + [r];
      }
      assert ops[..|ops|] == ops;
      ReportedLatest(p, ops, seen);
    }
  }

  /** Each step so far reported what it would report on memory that is never shared. */
  ghost predicate Reported(p: Plain, ops: seq<Op>, seen: seq<Option<byte>>) {
    |seen| <= |ops| && forall k :: 0 <= k < |seen| ==> seen[k] == Seen(After(p, ops[..k]), ops[k])
  }

  lemma {:induction false} PlainSized(memory: Memory, areas: Areas)
    requires Inv(memory, areas)
    ensures Sized(Abs(memory, areas))
  {
    forall a, i | a in areas && 0 <= i < |areas[a].slots| ensures |Abs(memory, areas)[a].pages[i]| == PGSIZE {
      assert SlotOk(memory, areas, a, i);
    }
  }

  lemma {:induction false} ReportedLatest(p: Plain, ops: seq<Op>, seen: seq<Option<byte>>)
    requires Sized(p) && Reported(p, ops, seen) && |seen| == |ops|
    ensures forall k :: 0 <= k < |ops| && seen[k].Some? && Reads(ops[k]) ==>
      seen[k] == Latest(p, ops[..k], ops[k].area, ops[k].uaddr)
  {
    forall k | 0 <= k < |ops| && seen[k].Some? && Reads(ops[k])
      ensures seen[k] == Latest(p, ops[..k], ops[k].area, ops[k].uaddr)
    {
      ReadsLatest(p, ops[..k], ops[k].area, ops[k].uaddr);
    }
  }

  lemma {:induction false} ReportedNext(p: Plain, ops: seq<Op>, seen: seq<Option<byte>>, r: Option<byte>)
    requires Reported(p, ops, seen) && |seen| < |ops| && r == Seen(After(p, ops[..|seen|]), ops[|seen|])
    ensures Reported(p, ops, seen + [r])
  {
    var seen' := seen + [r];
    forall k | 0 <= k < |seen'| ensures seen'[k] == Seen(After(p, ops[..k]), ops[k]) {
      assert seen'[k] == if k < |seen| then seen[k] else r;
    }
  }

  lemma {:induction false} ZerosNext(pages: seq<Page>, i: nat)
    requires i < |pages|
    ensures (Zeros(i) + pages[i..])[i := ZeroPage()] == Zeros(i + 1) + pages[i + 1..]
  {
    var s, t := (Zeros(i) + pages[i..])[i := ZeroPage()], Zeros(i + 1) + pages[i + 1..];
    forall k | 0 <= k < |pages| ensures s[k] == t[k] {
      if k > i { assert s[k] == pages[k] == t[k]; }
    }
  }

  lemma {:induction false} AddKeeps(memory: Memory, areas: Areas, a: int, area: Area)
    requires Inv(memory, areas) && a !in areas && area.ptes == map[]
    requires forall i :: 0 <= i < |area.slots| ==> area.slots[i] == Unallocated
    ensures Inv(memory, areas[a := area])
    ensures Abs(memory, areas[a := area])
      == Abs(memory, areas)[a := PlainArea(area.ubase, area.perm, Zeros(|area.slots|))]
  {
    var areas' := areas[a := area];
    forall b, j: nat | b in areas' && j < |areas'[b].slots| ensures SlotOk(memory, areas', b, j) {
      if b != a {
        assert SlotOk(memory, areas, b, j);
        forall f, d, k: nat | d in areas' && k < |areas'[d].slots| && Holds(areas', d, k, f)
          ensures Holds(areas, d, k, f)
        {
        }
      }
    }
    forall f | f in memory ensures Held(areas', f) {
      var b, j: nat :| Holds(areas, b, j, f);
      assert Holds(areas', b, j, f);
    }
    assert Contents(memory, area) == Zeros(|area.slots|);
  }

  lemma {:induction false} AbsFork(memory: Memory, areas: Areas, a: int, c: int)
    requires a in areas && c !in areas
    requires View(memory, Forked(areas, a, c)) == View(memory, areas)[c := View(memory, areas)[a]]
    ensures Abs(memory, Forked(areas, a, c)) == Abs(memory, areas)[c := Abs(memory, areas)[a]]
  {
    var areas' := Forked(areas, a, c);
    var p, p' := Abs(memory, areas), Abs(memory, areas');
    forall b | b in areas' ensures p'[b] == p[if b == c then a else b] {
      var v, v' := View(memory, areas), View(memory, areas');
      assert v'[b] == v[if b == c then a else b];
    }
    assert p'.Keys == p.Keys + {c};
  }

  /** The two passes of a fork build the shared area. */
  lemma {:induction false} ForkParts(memory: Memory, areas: Areas, a: int, frames: seq<Slot>, newPtes: map<nat, Pte>,
                                     slots: seq<Slot>, ptes: map<nat, Pte>)
    requires Inv(memory, areas) && a in areas
    requires |frames| == |slots| == |areas[a].slots|
    requires forall k :: 0 <= k < |slots| ==> frames[k] == slots[k] == Share(areas[a].slots[k])
    requires forall k: nat :: k in newPtes <==> k < |slots| && areas[a].slots[k] != Unallocated
    requires forall k: nat :: k in newPtes ==> newPtes[k] == Pte(areas[a].slots[k].frame, false)
    requires ptes.Keys == areas[a].ptes.Keys
    requires forall k :: k in ptes ==>
      ptes[k] == if k < |slots| then Pte(areas[a].ptes[k].frame, false) else areas[a].ptes[k]
    ensures areas[a].(slots := slots, ptes := ptes) == Shared(areas[a])
    ensures Area(areas[a].ubase, areas[a].perm, frames, newPtes) == Shared(areas[a])
  {
    forall k: nat | k < |areas[a].slots| ensures k in newPtes <==> k in areas[a].ptes {
      assert SlotOk(memory, areas, a, k);
    }
    forall k | k in newPtes ensures newPtes[k] == ReadOnly(areas[a].ptes)[k] {
      assert SlotOk(memory, areas, a, k);
    }
    assert newPtes == ReadOnly(areas[a].ptes) == ptes;
    assert frames == slots == ShareAll(areas[a].slots);
  }

  lemma {:induction false} Above(s: set<int>) returns (m: int)
    ensures forall x: int :: x in s ==> x < m
    decreases |s|
  {
    if x: int :| x in s {
      var rest := s - {x};
      m := Above(rest);
      assert forall y :: y in s ==> y == x || y in rest;
      m := if x < m then m else x + 1;
    } else {
      m := 0;
    }
  }

  lemma {:induction false} NotAll(s: set<int>)
    ensures exists f: int :: f !in s
  {
    var m := Above(s);
    assert m !in s;
  }
}
