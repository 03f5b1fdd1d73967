/** Private anonymous memory shared copy-on-write: frames, the slots that hold them, and the
    page-table entries that let user code reach them. */
module CowState {
  import opened Common

  const PGSIZE: nat := 4096

  type Page = seq<byte>

  /** A page as the frame allocator hands it out. */
  function ZeroPage(): (p: Page)
    ensures |p| == PGSIZE && forall i :: 0 <= i < PGSIZE ==> p[i] == 0
  {
    seq(PGSIZE, _ => 0)
  }

  type Frame = int

  /** `FrameState`: each `Allocated` or `Cow` slot holds one reference to its frame. */
  datatype Slot = Unallocated | Allocated(frame: Frame) | Cow(frame: Frame)

  /** A valid page-table entry. */
  datatype Pte = Pte(frame: Frame, writable: bool)

  datatype Perm = Perm(r: bool, w: bool, x: bool)

  /** An area of one address space, with the part of the page table that covers it. */
  datatype Area = Area(ubase: nat, perm: Perm, slots: seq<Slot>, ptes: map<nat, Pte>)

  type Areas = map<int, Area>
  type Memory = map<Frame, Page>

  // ---- references ----

  /** Slot `i` of area `a` holds frame `f`. */
  predicate Holds(areas: Areas, a: int, i: nat, f: Frame) {
    a in areas && i < |areas[a].slots| && areas[a].slots[i] != Unallocated && areas[a].slots[i].frame == f
  }

  /** Slot `i` of area `a` is the only one that holds `f`: the reference count is one. */
  predicate Sole(areas: Areas, a: int, i: nat, f: Frame) {
    forall b, j: nat | b in areas && j < |areas[b].slots| :: Holds(areas, b, j, f) ==> b == a && j == i
  }

  // ---- invariant ----

  /** A writable entry needs an `Allocated` slot whose frame no other slot holds. */
  ghost predicate SlotOk(memory: Memory, areas: Areas, a: int, i: nat)
    requires a in areas && i < |areas[a].slots|
  {
    match areas[a].slots[i]
    case Unallocated => i !in areas[a].ptes
    case Allocated(f) =>
      f in memory && i in areas[a].ptes && areas[a].ptes[i] == Pte(f, areas[a].perm.w) && Sole(areas, a, i, f)
    case Cow(f) => f in memory && i in areas[a].ptes && areas[a].ptes[i] == Pte(f, false)
  }

  ghost predicate Held(areas: Areas, f: Frame) {
    exists a, i: nat :: Holds(areas, a, i, f)
  }

  ghost predicate Inv(memory: Memory, areas: Areas) {
    && (forall a, i: nat :: a in areas && i < |areas[a].slots| ==> SlotOk(memory, areas, a, i))
    && (forall a, i: nat :: a in areas && i in areas[a].ptes ==> i < |areas[a].slots|)
    && (forall f :: f in memory ==> |memory[f]| == PGSIZE && Held(areas, f))
  }

  // ---- what an address space reads ----

  function PageOf(memory: Memory, s: Slot): Page {
    if s == Unallocated || s.frame !in memory then ZeroPage() else memory[s.frame]
  }

  /** The contents of an area, untouched pages being zero. */
  function Contents(memory: Memory, area: Area): (r: seq<Page>)
    ensures |r| == |area.slots| && forall i :: 0 <= i < |r| ==> r[i] == PageOf(memory, area.slots[i])
  {
    seq(|area.slots|, i requires 0 <= i < |area.slots| => PageOf(memory, area.slots[i]))
  }

  /** Every area's contents. */
  function View(memory: Memory, areas: Areas): map<int, seq<Page>> {
    map a | a in areas :: Contents(memory, areas[a])
  }

  // ---- steps ----

  /** Slot `i` of area `a` becomes `Allocated(f)` and is mapped with the area's permission. */
  function Mapped(areas: Areas, a: int, i: nat, f: Frame): Areas
    requires a in areas && i < |areas[a].slots|
  {
    var area := areas[a];
    areas[a := area.(slots := area.slots[i := Allocated(f)], ptes := area.ptes[i := Pte(f, area.perm.w)])]
  }

  lemma {:induction false} HoldsMapped(areas: Areas, a: int, i: nat, f: Frame, b: int, j: nat, g: Frame)
    requires a in areas && i < |areas[a].slots|
    ensures Holds(Mapped(areas, a, i, f), b, j, g) <==> (if b == a && j == i then g == f else Holds(areas, b, j, g))
  {
  }

  lemma {:induction false} HeldLive(memory: Memory, areas: Areas, b: int, j: nat, g: Frame)
    requires Inv(memory, areas) && Holds(areas, b, j, g)
    ensures g in memory
  {
    assert SlotOk(memory, areas, b, j);
  }

  /** Other slots stay as they were when slot `i` of `a` takes a frame no one else holds. */
  lemma {:induction false} MappedOk(memory: Memory, areas: Areas, a: int, i: nat, f: Frame, memory': Memory)
    requires Inv(memory, areas) && a in areas && i < |areas[a].slots| && Sole(areas, a, i, f)
    requires f in memory' && forall g :: g in memory ==> g in memory'
    ensures forall b, j: nat :: b in areas && j < |areas[b].slots| ==> SlotOk(memory', Mapped(areas, a, i, f), b, j)
  {
    var areas' := Mapped(areas, a, i, f);
    forall b, j: nat | b in areas && j < |areas[b].slots| ensures SlotOk(memory', areas', b, j) {
      assert SlotOk(memory, areas, b, j);
      if areas'[b].slots[j].Allocated? {
        var g := areas'[b].slots[j].frame;
        forall c, k: nat | c in areas' && k < |areas'[c].slots| && Holds(areas', c, k, g) ensures c == b && k == j {
          HoldsMapped(areas, a, i, f, c, k, g);
          HoldsMapped(areas, a, i, f, b, j, g);
        }
      }
    }
  }

  /** No frame loses its last holder when slot `i` of `a` lets go of one that others hold too. */
  lemma {:induction false} MappedHeld(areas: Areas, a: int, i: nat, f: Frame, g: Frame)
    requires a in areas && i < |areas[a].slots| && Held(areas, g)
    requires Holds(areas, a, i, g) && g != f ==> !Sole(areas, a, i, g)
    ensures Held(Mapped(areas, a, i, f), g)
  {
    var b, j: nat :| Holds(areas, b, j, g);
    HoldsMapped(areas, a, i, f, b, j, g);
    if b == a && j == i && g != f {
      var c, k: nat :| c in areas && k < |areas[c].slots| && Holds(areas, c, k, g) && !(c == a && k == i);
      HoldsMapped(areas, a, i, f, c, k, g);
    }
  }

  /** No slot holds a frame that is not live. */
  lemma {:induction false} FreshSole(memory: Memory, areas: Areas, a: int, i: nat, f: Frame)
    requires Inv(memory, areas) && f !in memory
    ensures Sole(areas, a, i, f)
  {
    forall b, j: nat | b in areas && j < |areas[b].slots| && Holds(areas, b, j, f) ensures false {
      HeldLive(memory, areas, b, j, f);
    }
  }

  /** Mapping `f`, which no other slot holds, with the contents the page already had. */
  lemma {:induction false} MapKeeps(memory: Memory, areas: Areas, a: int, i: nat, f: Frame, memory': Memory)
    requires Inv(memory, areas) && a in areas && i < |areas[a].slots| && Sole(areas, a, i, f)
    requires memory' == memory[f := PageOf(memory, areas[a].slots[i])]
    requires areas[a].slots[i] != Unallocated && areas[a].slots[i].frame != f ==>
      !Sole(areas, a, i, areas[a].slots[i].frame)
    ensures Inv(memory', Mapped(areas, a, i, f)) && View(memory', Mapped(areas, a, i, f)) == View(memory, areas)
  {
    var areas' := Mapped(areas, a, i, f);
    assert SlotOk(memory, areas, a, i);
    MappedOk(memory, areas, a, i, f, memory');
    forall g | g in memory' ensures Held(areas', g) {
      if g == f {
        assert Holds(areas', a, i, f);
      } else {
        MappedHeld(areas, a, i, f, g);
      }
    }
    MappedView(memory, areas, a, i, f, memory');
  }

  lemma {:induction false} MappedView(memory: Memory, areas: Areas, a: int, i: nat, f: Frame, memory': Memory)
    requires Inv(memory, areas) && a in areas && i < |areas[a].slots| && Sole(areas, a, i, f)
    requires memory' == memory[f := PageOf(memory, areas[a].slots[i])]
    ensures View(memory', Mapped(areas, a, i, f)) == View(memory, areas)
  {
    var areas' := Mapped(areas, a, i, f);
    forall b, j: nat | b in areas && j < |areas[b].slots|
      ensures PageOf(memory', areas'[b].slots[j]) == PageOf(memory, areas[b].slots[j])
    {
      assert SlotOk(memory, areas, b, j);
      assert Holds(areas, b, j, f) ==> b == a && j == i;
    }
    SameView(memory, areas, memory', areas');
  }

  lemma {:induction false} SameView(memory: Memory, areas: Areas, memory': Memory, areas': Areas)
    requires areas.Keys == areas'.Keys
    requires forall a :: a in areas ==> |areas'[a].slots| == |areas[a].slots|
    requires forall a, i: nat :: a in areas && i < |areas[a].slots| ==>
      PageOf(memory', areas'[a].slots[i]) == PageOf(memory, areas[a].slots[i])
    ensures View(memory', areas') == View(memory, areas)
  {
    forall a | a in areas ensures Contents(memory', areas'[a]) == Contents(memory, areas[a]) {
    }
  }

  // ---- writing ----

  /** A write through an `Allocated` slot is seen in that page of that area, and nowhere else. */
  lemma {:induction false} WriteKeeps(memory: Memory, areas: Areas, a: int, i: nat, page: Page)
    requires Inv(memory, areas) && a in areas && i < |areas[a].slots| && areas[a].slots[i].Allocated?
    requires |page| == PGSIZE
    ensures var memory' := memory[areas[a].slots[i].frame := page];
      && Inv(memory', areas)
      && View(memory', areas) == View(memory, areas)[a := View(memory, areas)[a][i := page]]
  {
    var f := areas[a].slots[i].frame;
    var memory' := memory[f := page];
    assert SlotOk(memory, areas, a, i);
    forall b, j: nat | b in areas && j < |areas[b].slots| ensures SlotOk(memory', areas, b, j) {
      assert SlotOk(memory, areas, b, j);
    }
    forall b | b in areas
      ensures Contents(memory', areas[b])
        == (if b == a then Contents(memory, areas[a])[i := page] else Contents(memory, areas[b]))
    {
      forall j: nat | j < |areas[b].slots| && !(b == a && j == i)
        ensures PageOf(memory', areas[b].slots[j]) == PageOf(memory, areas[b].slots[j])
      {
        assert Holds(areas, b, j, f) ==> b == a && j == i;
      }
    }
  }

  // ---- forking ----

  function Share(s: Slot): Slot {
    if s.Allocated? then Cow(s.frame) else s
  }

  function ShareAll(ss: seq<Slot>): (r: seq<Slot>)
    ensures |r| == |ss| && forall i :: 0 <= i < |ss| ==> r[i] == Share(ss[i])
  {
    seq(|ss|, i requires 0 <= i < |ss| => Share(ss[i]))
  }

  function ReadOnly(ptes: map<nat, Pte>): map<nat, Pte> {
    map i | i in ptes :: Pte(ptes[i].frame, false)
  }

  /** An area whose pages may all be shared. */
  function Shared(area: Area): Area {
    area.(slots := ShareAll(area.slots), ptes := ReadOnly(area.ptes))
  }

  /** Parent and child after a fork. */
  function Forked(areas: Areas, a: int, c: int): Areas
    requires a in areas
  {
    areas[a := Shared(areas[a])][c := Shared(areas[a])]
  }

  lemma {:induction false} HoldsForked(areas: Areas, a: int, c: int, b: int, j: nat, f: Frame)
    requires a in areas && c !in areas
    ensures Holds(Forked(areas, a, c), b, j, f) <==> (if b == c then Holds(areas, a, j, f) else Holds(areas, b, j, f))
  {
  }

  /** Forking shares every frame and changes no contents; the child reads what the parent reads. */
  lemma {:induction false} ForkKeeps(memory: Memory, areas: Areas, a: int, c: int)
    requires Inv(memory, areas) && a in areas && c !in areas
    ensures Inv(memory, Forked(areas, a, c))
    ensures View(memory, Forked(areas, a, c)) == View(memory, areas)[c := View(memory, areas)[a]]
  {
    var areas' := Forked(areas, a, c);
    forall b, j: nat | b in areas' && j < |areas'[b].slots| ensures SlotOk(memory, areas', b, j) {
      var was := if b == c then a else b;
      assert SlotOk(memory, areas, was, j);
      if areas'[b].slots[j].Allocated? {
        var f := areas'[b].slots[j].frame;
        forall d, k: nat | d in areas' && k < |areas'[d].slots| && Holds(areas', d, k, f) ensures d == b && k == j {
          HoldsForked(areas, a, c, d, k, f);
        }
      }
    }
    forall f | f in memory ensures Held(areas', f) {
      var b, j: nat :| Holds(areas, b, j, f);
      HoldsForked(areas, a, c, b, j, f);
    }
    ForkView(memory, areas, a, c);
  }

  lemma {:induction false} ForkView(memory: Memory, areas: Areas, a: int, c: int)
    requires a in areas && c !in areas
    ensures View(memory, Forked(areas, a, c)) == View(memory, areas)[c := View(memory, areas)[a]]
  {
    var areas' := Forked(areas, a, c);
    forall b | b in areas'
      ensures Contents(memory, areas'[b]) == Contents(memory, areas[if b == c then a else b])
    {
    }
  }

  // ---- unmapping ----

  /** Slot `i` of area `a` let go, its entry removed. */
  function Dropped(areas: Areas, a: int, i: nat): Areas
    requires a in areas && i < |areas[a].slots|
  {
    areas[a := areas[a].(slots := areas[a].slots[i := Unallocated], ptes := areas[a].ptes - {i})]
  }

  lemma {:induction false} HoldsDropped(areas: Areas, a: int, i: nat, b: int, j: nat, g: Frame)
    requires a in areas && i < |areas[a].slots|
    ensures Holds(Dropped(areas, a, i), b, j, g) <==> !(b == a && j == i) && Holds(areas, b, j, g)
  {
  }

  /** Dropping the last reference frees the frame; no entry is left that could reach it. */
  lemma {:induction false} DropKeeps(memory: Memory, areas: Areas, a: int, i: nat)
    requires Inv(memory, areas) && a in areas && i < |areas[a].slots| && areas[a].slots[i] != Unallocated
    ensures var f := areas[a].slots[i].frame;
      var memory' := if Sole(areas, a, i, f) then memory - {f} else memory;
      && Inv(memory', Dropped(areas, a, i))
      && View(memory', Dropped(areas, a, i)) == View(memory, areas)[a := View(memory, areas)[a][i := ZeroPage()]]
  {
    var f := areas[a].slots[i].frame;
    var memory' := if Sole(areas, a, i, f) then memory - {f} else memory;
    var areas' := Dropped(areas, a, i);
    DropOk(memory, areas, a, i, memory');
    forall g | g in memory' ensures Held(areas', g) {
      DropHeld(areas, a, i, g);
    }
    DropView(memory, areas, a, i, memory');
  }

  /** Only the dropped page reads differently. */
  lemma {:induction false} DropView(memory: Memory, areas: Areas, a: int, i: nat, memory': Memory)
    requires a in areas && i < |areas[a].slots| && areas[a].slots[i] != Unallocated
    requires var f := areas[a].slots[i].frame; memory' == if Sole(areas, a, i, f) then memory - {f} else memory
    ensures View(memory', Dropped(areas, a, i)) == View(memory, areas)[a := View(memory, areas)[a][i := ZeroPage()]]
  {
    var f := areas[a].slots[i].frame;
    var areas' := Dropped(areas, a, i);
    forall b | b in areas
      ensures Contents(memory', areas'[b]) ==
        (if b == a then Contents(memory, areas[a])[i := ZeroPage()] else Contents(memory, areas[b]))
    {
      forall j: nat | j < |areas[b].slots| && !(b == a && j == i)
        ensures PageOf(memory', areas'[b].slots[j]) == PageOf(memory, areas[b].slots[j])
      {
        assert Sole(areas, a, i, f) && Holds(areas, b, j, f) ==> b == a && j == i;
      }
    }
  }

  lemma {:induction false} DropHeld(areas: Areas, a: int, i: nat, g: Frame)
    requires a in areas && i < |areas[a].slots| && Held(areas, g)
    requires Holds(areas, a, i, g) ==> !Sole(areas, a, i, g)
    ensures Held(Dropped(areas, a, i), g)
  {
    var b, j: nat :| Holds(areas, b, j, g);
    HoldsDropped(areas, a, i, b, j, g);
    if b == a && j == i {
      var c, k: nat :| c in areas && k < |areas[c].slots| && Holds(areas, c, k, g) && !(c == a && k == i);
      HoldsDropped(areas, a, i, c, k, g);
    }
  }

  lemma {:induction false} DropOk(memory: Memory, areas: Areas, a: int, i: nat, memory': Memory)
    requires Inv(memory, areas) && a in areas && i < |areas[a].slots| && areas[a].slots[i] != Unallocated
    requires var f := areas[a].slots[i].frame; memory' == if Sole(areas, a, i, f) then memory - {f} else memory
    ensures forall b, j: nat :: b in areas && j < |areas[b].slots| ==> SlotOk(memory', Dropped(areas, a, i), b, j)
  {
    var f, areas' := areas[a].slots[i].frame, Dropped(areas, a, i);
    forall b, j: nat | b in areas && j < |areas[b].slots| ensures SlotOk(memory', areas', b, j) {
      assert SlotOk(memory, areas, b, j);
      assert Sole(areas, a, i, f) && Holds(areas, b, j, f) ==> b == a && j == i;
      if areas'[b].slots[j].Allocated? {
        var g := areas'[b].slots[j].frame;
        forall c, k: nat | c in areas' && k < |areas'[c].slots| && Holds(areas', c, k, g) ensures c == b && k == j {
          HoldsDropped(areas, a, i, c, k, g);
        }
      }
    }
  }
}
