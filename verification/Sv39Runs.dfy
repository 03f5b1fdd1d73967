/** The life of a page table: any sequence of calls is a sequence of updates of a map, and dropping the table at the end
    gives back exactly the pages it took. */
module Sv39Runs {
  import opened Common
  import opened Sv39Pte
  import opened Sv39Table
  import opened Sv39Hardware
  import opened Sv39

  datatype Call =
    | Mmap(uaddr: nat, frame: PageNo, perm: Perm)
    | MmapReplace(uaddr: nat, frame: PageNo, perm: Perm)
    | MmapReplaceKaddr(uaddr: nat, frame: PageNo)
    | MmapReplacePerm(uaddr: nat, perm: Perm)
    | Munmap(uaddr: nat)
    | MunmapWithCheck(uaddr: nat, frame: PageNo)
    | TakeAccessDirtyBit(uaddr: nat)
  {
    /** Calls that may need new tables. */
    predicate Creates() {
      Mmap? || MmapReplace? || MmapReplaceKaddr? || MmapReplacePerm?
    }

    /** The page to map, if any, is not one of the allocator's. */
    predicate Apart(pool: seq<PageNo>) {
      Mmap? || MmapReplace? || MmapReplaceKaddr? ==> IsPpn(frame) && frame !in pool
    }
  }

  /** Virtual pages, each with its page and flags. */
  type View = map<seq<nat>, (PageNo, Word)>

  /** A call as an update of a map. Mapping a mapped page and unmapping one that is not panics in the kernel; such
      calls, and a change of permissions of a page that is not mapped, are skipped. */
  function Updated(view: View, call: Call): View {
    var v := Vpn(call.uaddr);
    match call
    case Mmap(_, frame, perm) => if v in view then view else view[v := (frame, FromPerm(perm) | A | D)]
    case MmapReplace(_, frame, perm) => view[v := (frame, FromPerm(perm))]
    case MmapReplaceKaddr(_, frame) => if v in view then view[v := (frame, view[v].1)] else view
    case MmapReplacePerm(_, perm) => if v in view then view[v := (view[v].0, FromPerm(perm))] else view
    case Munmap(_) => view - {v}
    case MunmapWithCheck(_, frame) => if v in view && view[v].0 == frame then view - {v} else view
    case TakeAccessDirtyBit(_) => if v in view then view[v := (view[v].0, view[v].1 & !(A | D))] else view
  }

  function After(view: View, calls: seq<Call>): View {
    if calls == [] then view else Updated(After(view, calls[..|calls| - 1]), calls[|calls| - 1])
  }

  function At(view: View, v: seq<nat>): Option<(PageNo, Word)> {
    if v in view then Some(view[v]) else None
  }

  /** The table translates as the map says. */
  ghost predicate Shows(t: PageTable, view: View)
    reads t
  {
    forall v {:trigger t.Map(v)} {:trigger At(view, v)} :: IsVpn(v) ==> t.Map(v) == At(view, v)
  }

  /** The hardware finds in the table what the map says. */
  ghost predicate Sees(t: PageTable, view: View)
    reads t
  {
    forall v {:trigger At(view, v)} :: IsVpn(v) ==> HardwareWalk(t.mem, t.root.value, v) == Meant(At(view, v))
  }

  /** One key has changed, as in the map. */
  lemma {:induction false} ShowsOn(mem: Memory, tree: Tree, view: View, t: PageTable, view': View, v: seq<nat>)
    requires forall u {:trigger Translate(mem, tree, u)} :: IsVpn(u) ==> Translate(mem, tree, u) == At(view, u)
    requires IsVpn(v) && OnlyAt(mem, tree, t.mem, t.tree, v) && t.Map(v) == At(view', v)
    requires forall u :: u != v ==> At(view', u) == At(view, u)
    ensures Shows(t, view')
  {
    forall u | IsVpn(u) ensures t.Map(u) == At(view', u) {
      if u != v { assert t.Map(u) == Translate(mem, tree, u); }
    }
  }

  /** One call; false when it may need more tables than the allocator has pages for. */
  method Do(t: PageTable, call: Call, ghost view: View) returns (done: bool)
    requires t.Valid() && Shows(t, view)
    requires (call.Mmap? || call.MmapReplace? || call.MmapReplaceKaddr?) ==> IsPpn(call.frame) && t.Data(call.frame)
    modifies t
    ensures t.Valid() && t.freed == old(t.freed)
    ensures Took(old(t.tree), old(t.pool), t.tree, t.pool) && Own(old(t.mem), t.tree, t.mem)
    ensures done <==> !call.Creates() || old(|t.pool|) >= 2
    ensures done ==> Shows(t, Updated(view, call))
    ensures !done ==> t.pool == old(t.pool) && Shows(t, view)
  {
    OwnSelf(t.mem, t.tree);
    ghost var mem, tree, v := t.mem, t.tree, Vpn(call.uaddr);
    done := !call.Creates() || |t.pool| >= 2;
    if !done { return; }
    var pte := t.FindPte(Vpn(call.uaddr));
    assert pte.Some? <==> v in view by { assert t.Map(v) == At(view, v); }
    if call.Mmap? || call.MmapReplace? {
      Mapping(t, call, pte.Some?, view);
    } else if call.Creates() {
      Changing(t, call, pte.Some?, view);
    } else {
      Others(t, call, pte.Some?, view);
    }
  }

  method Mapping(t: PageTable, call: Call, mapped: bool, ghost view: View)
    requires t.Valid() && Shows(t, view) && (call.Mmap? || call.MmapReplace?) && |t.pool| >= 2
    requires mapped == (Vpn(call.uaddr) in view)
    requires !call.MmapReplacePerm? ==> IsPpn(call.frame) && t.Data(call.frame)
    modifies t
    ensures t.Valid() && t.freed == old(t.freed) && Shows(t, Updated(view, call))
    ensures Took(old(t.tree), old(t.pool), t.tree, t.pool) && Own(old(t.mem), t.tree, t.mem)
  {
    OwnSelf(t.mem, t.tree);
    ghost var mem, tree, v := t.mem, t.tree, Vpn(call.uaddr);
    assert t.Map(v) == At(view, v);
    match call {
      case Mmap(uaddr, frame, perm) => if !mapped { t.Mmap(uaddr, frame, perm); }
      case MmapReplace(uaddr, frame, perm) => t.MmapReplace(uaddr, frame, perm);
    }
    ShowsOn(mem, tree, view, t, Updated(view, call), v);
  }

  method Changing(t: PageTable, call: Call, mapped: bool, ghost view: View)
    requires t.Valid() && Shows(t, view) && (call.MmapReplaceKaddr? || call.MmapReplacePerm?) && |t.pool| >= 2
    requires mapped == (Vpn(call.uaddr) in view)
    requires !call.MmapReplacePerm? ==> IsPpn(call.frame) && t.Data(call.frame)
    modifies t
    ensures t.Valid() && t.freed == old(t.freed) && Shows(t, Updated(view, call))
    ensures Took(old(t.tree), old(t.pool), t.tree, t.pool) && Own(old(t.mem), t.tree, t.mem)
  {
    OwnSelf(t.mem, t.tree);
    ghost var mem, tree, v := t.mem, t.tree, Vpn(call.uaddr);
    assert t.Map(v) == At(view, v);
    match call {
      case MmapReplaceKaddr(uaddr, frame) => t.MmapReplaceKaddr(uaddr, frame);
      case MmapReplacePerm(uaddr, perm) => if mapped { t.MmapReplacePerm(uaddr, perm); }
    }
    ShowsOn(mem, tree, view, t, Updated(view, call), v);
  }

  method Others(t: PageTable, call: Call, mapped: bool, ghost view: View)
    requires t.Valid() && Shows(t, view) && !call.Creates() && mapped == (Vpn(call.uaddr) in view)
    modifies t
    ensures t.Valid() && t.freed == old(t.freed) && Shows(t, Updated(view, call))
    ensures Took(old(t.tree), old(t.pool), t.tree, t.pool) && Own(old(t.mem), t.tree, t.mem)
  {
    OwnSelf(t.mem, t.tree);
    ghost var mem, tree, v := t.mem, t.tree, Vpn(call.uaddr);
    assert t.Map(v) == At(view, v);
    match call {
      case Munmap(uaddr) => if mapped { t.Munmap(uaddr); }
      case MunmapWithCheck(uaddr, frame) => var _ := t.MunmapWithCheck(uaddr, frame);
      case TakeAccessDirtyBit(uaddr) => var _ := t.TakeAccessDirtyBit(uaddr);
    }
    ShowsOn(mem, tree, view, t, Updated(view, call), v);
  }

  lemma {:induction false} AfterNext(view: View, calls: seq<Call>, i: nat)
    requires i < |calls|
    ensures After(view, calls[..i + 1]) == Updated(After(view, calls[..i]), calls[i])
  {
    assert calls[..i + 1][..i] == calls[..i];
  }

  /** The pages of the allocator, `pool`, are now tables or still with it. */
  lemma {:induction false} Apportioned(mem: Memory, pool: seq<PageNo>, tree: Tree, mem': Memory, pool': seq<PageNo>)
    requires Fresh(mem, pool) && Fresh(mem', pool') && Took(map[], pool, tree, pool') && Own(mem, tree, mem')
    ensures mem' - tree.Values == mem
    ensures forall f :: f in pool <==> f in pool' || f in tree.Values
    ensures forall f :: f in tree.Values ==> f !in pool'
  {
    OwnIff(mem, tree, mem');
    forall f | f in tree.Values ensures f in pool && f !in mem && f in mem' {
      var p :| p in tree && tree[p] == f;
      assert f in pool;
    }
  }

  /** As many of the calls as the allocator has pages for; then the table translates as the map that they make. */
  method Use(t: PageTable, calls: seq<Call>, ghost mem: Memory, ghost pool: seq<PageNo>) returns (n: nat)
    requires t.Valid() && Shows(t, map[]) && Took(map[], pool, t.tree, t.pool) && Own(mem, t.tree, t.mem)
    requires forall i :: 0 <= i < |calls| ==> calls[i].Apart(pool)
    modifies t
    ensures n <= |calls| && (n < |calls| ==> calls[n].Creates() && |t.pool| < 2)
    ensures t.Valid() && Shows(t, After(map[], calls[..n])) && t.freed == old(t.freed)
    ensures Took(map[], pool, t.tree, t.pool) && Own(mem, t.tree, t.mem)
    ensures Sees(t, After(map[], calls[..n]))
  {
    n := UseAll(t, calls, mem, pool);
    SeenByHardware(t, After(map[], calls[..n]));
  }

  method UseAll(t: PageTable, calls: seq<Call>, ghost mem: Memory, ghost pool: seq<PageNo>) returns (n: nat)
    requires t.Valid() && Shows(t, map[]) && Took(map[], pool, t.tree, t.pool) && Own(mem, t.tree, t.mem)
    requires forall i :: 0 <= i < |calls| ==> calls[i].Apart(pool)
    modifies t
    ensures n <= |calls| && (n < |calls| ==> calls[n].Creates() && |t.pool| < 2)
    ensures t.Valid() && Shows(t, After(map[], calls[..n])) && t.freed == old(t.freed)
    ensures Took(map[], pool, t.tree, t.pool) && Own(mem, t.tree, t.mem)
  {
    n := 0;
    ghost var view := map[];
    while n < |calls|
      invariant n <= |calls| && t.Valid() && Shows(t, view) && view == After(map[], calls[..n])
      invariant t.freed == old(t.freed)
      invariant Took(map[], pool, t.tree, t.pool) && Own(mem, t.tree, t.mem)
    {
      var done := UseOnce(t, calls[n], view, mem, pool);
      if !done { return; }
      AfterNext(map[], calls, n);
      n, view := n + 1, Updated(view, calls[n]);
    }
  }

  lemma {:induction false} SeenByHardware(t: PageTable, view: View)
    requires t.Linked() && Shows(t, view)
    ensures Sees(t, view)
  {
    forall v | IsVpn(v) ensures HardwareWalk(t.mem, t.root.value, v) == Meant(At(view, v)) {
      HardwareAgrees(t.mem, t.tree, v);
      assert t.Map(v) == At(view, v);
    }
  }

  method UseOnce(t: PageTable, call: Call, ghost view: View, ghost mem: Memory, ghost pool: seq<PageNo>)
    returns (done: bool)
    requires t.Valid() && Shows(t, view) && Took(map[], pool, t.tree, t.pool) && Own(mem, t.tree, t.mem)
    requires call.Apart(pool)
    modifies t
    ensures t.Valid() && t.freed == old(t.freed) && Took(map[], pool, t.tree, t.pool) && Own(mem, t.tree, t.mem)
    ensures done ==> Shows(t, Updated(view, call))
    ensures !done ==> call.Creates() && |t.pool| < 2 && Shows(t, view)
  {
    ghost var tree1, pool1, mem1 := t.tree, t.pool, t.mem;
    if call.Mmap? || call.MmapReplace? || call.MmapReplaceKaddr? {
      TookData(map[], pool, t.tree, t.pool, call.frame);
    }
    done := Do(t, call, view);
    TookOn(map[], pool, tree1, pool1, t.tree, t.pool);
    OwnOn(mem, tree1, mem1, t.tree, t.mem);
  }

  /** A page table is made, used and dropped. The first `n` calls are made, all of them if the allocator has pages
      enough. Afterwards memory is as it was before, and the pages freed are those taken from the allocator, each once;
      none of them is mapped by the calls. */
  method Lifetime(mem: Memory, pool: seq<PageNo>, calls: seq<Call>)
    returns (n: nat, t: PageTable, ghost tables: set<PageNo>)
    requires Fresh(mem, pool) && pool != [] && forall i :: 0 <= i < |calls| ==> calls[i].Apart(pool)
    ensures n <= |calls| && (n < |calls| ==> calls[n].Creates() && |t.pool| < 2)
    ensures t.mem == mem && multiset(t.freed) == multiset(tables)
    ensures forall f :: f in pool <==> f in t.pool || f in tables
    ensures forall f :: f in tables ==> f !in t.pool
    ensures var view := After(map[], calls[..n]);
      forall v :: v in view && IsVpn(v) ==> view[v].0 !in tables && view[v].0 !in t.pool
  {
    t := new PageTable(mem, pool);
    TookOne(map[], pool, [], t.root, t.pool);
    assert map[][[] := t.root] == t.tree;
    OwnIff(mem, t.tree, t.mem);
    assert t.tree[[]] == t.root && t.root in t.tree.Values;
    n := UseAll(t, calls, mem, pool);
    tables := t.tree.Values;
    ghost var view := After(map[], calls[..n]);
    forall v | v in view && IsVpn(v) ensures view[v].0 !in tables && view[v].0 !in t.pool {
      assert t.Map(v) == At(view, v);
    }
    Apportioned(mem, pool, t.tree, t.mem, t.pool);
    t.Drop();
  }
}
