/** The Sv39 page table: the three-level walk, creation on demand, and recursive freeing. */
module Sv39 {
  import opened Common
  import opened Sv39Pte
  import opened Sv39Table

  const LEAF_LEVEL: nat := 2

  /** A page-table entry read from memory, and where it was read. */
  datatype Pte = Pte(word: Word, table: PageNo, index: nat)

  class PageTable {
    var root: PageNo

    /** Table pages, here and of other owners, and the pages the allocator will hand out next. */
    var mem: Memory
    var pool: seq<PageNo>

    /** The pages given back, in order. */
    var freed: seq<PageNo>

    ghost var tree: Tree

    /** The tables form the tree, and the allocator has other pages. */
    ghost predicate Linked()
      reads this
    {
      Inv(mem, tree) && tree[[]] == root && Fresh(mem, pool)
    }

    /** Besides, no page is mapped that holds a table or that the allocator has. */
    ghost predicate Valid()
      reads this
    {
      Linked() && Exclusive(mem, tree, pool)
    }

    /** A page to map: neither a table nor with the allocator. */
    ghost predicate Data(frame: PageNo)
      reads this
    {
      NoTable(tree, pool, frame)
    }

    ghost function Map(v: seq<nat>): Option<(PageNo, Word)>
      requires IsVpn(v)
      reads this
    {
      Translate(mem, tree, v)
    }

    /** `create`: an empty root. */
    constructor (mem: Memory, pool: seq<PageNo>)
      requires Fresh(mem, pool) && pool != []
      ensures Valid() && freed == [] && tree == map[[] := root] && this.mem == mem[root := Zeros()]
      ensures pool == [root] + this.pool
      ensures forall v :: IsVpn(v) ==> Map(v) == None
    {
      root, this.pool := pool[0], pool[1..];
      this.mem := mem[pool[0] := Zeros()];
      freed := [];
      tree := map[[] := pool[0]];
      LinkFields(0, pool[0]);
      new;
      forall i: nat | i < ENTRIES ensures EntryOk(this.mem, tree, [], i) {
        assert [] + [i] != [];
      }
    }

    /** The allocator takes back a page that is not mapped. */
    method Recycle(page: PageNo)
      requires Valid() && page !in mem && IsPpn(page) && page !in pool
      requires forall v :: IsVpn(v) && Map(v).Some? ==> Map(v).value.0 != page
      modifies this`pool
      ensures Valid() && pool == old(pool) + [page]
    {
      pool := pool + [page];
    }

    /** The allocator: a zeroed page nobody uses. */
    method AllocZero() returns (page: PageNo)
      requires Fresh(mem, pool) && pool != []
      modifies this`pool
      ensures page !in mem && IsPpn(page) && Fresh(mem, pool) && page !in pool && old(pool) == [page] + pool
    {
      page := pool[0];
      pool := pool[1..];
    }

    // ---- walking ----

    method FindPte(v: seq<nat>) returns (r: Option<Pte>)
      requires Linked() && IsVpn(v)
      ensures r.Some? <==> Map(v).Some?
      ensures r.Some? ==> v[..2] in tree && r.value.table == tree[v[..2]] && r.value.index == v[2]
      ensures r.Some? ==> Leaf(mem, tree, v) == Some(r.value.word)
    {
      var table := root;
      assert v[..0] == [];
      for level := 0 to 3
        invariant level <= 2 ==> v[..level] in tree && table == tree[v[..level]]
        invariant level < 3
      {
        assert IsTable(mem, table);
        var w := mem[table][v[level]];
        assert v[..level] + [v[level]] == v[..level + 1];
        if !IsValid(w) {
          if level < 2 { Missing(mem, tree, v, level); }
          return None;
        }
        if level == LEAF_LEVEL { return Some(Pte(w, table, v[level])); }
        assert EntryOk(mem, tree, v[..level], v[level]);
        table := Ppn(w);
      }
      r := None;
    }

    /** Makes sure the table for entry `v[level]` of the table at `v[..level]` exists. */
    method Descend(v: seq<nat>, level: nat, table: PageNo) returns (next: PageNo)
      requires Linked() && IsVpn(v) && level < 2 && v[..level] in tree && table == tree[v[..level]] && pool != []
      modifies this`mem, this`pool, this`tree
      ensures Linked() && |pool| >= |old(pool)| - 1 && SameMap(old(mem), old(tree), mem, tree)
      ensures Took(old(tree), old(pool), tree, pool)
      ensures v[..level + 1] in tree && next == tree[v[..level + 1]]
      ensures Pages(old(mem), old(pool), mem) && Own(old(mem), tree, mem)
    {
      OwnSelf(mem, tree);
      var path, i := v[..level], v[level];
      assert path + [i] == v[..level + 1];
      assert IsTable(mem, table) && EntryOk(mem, tree, path, i);
      var w := mem[table][i];
      if !IsValid(w) {
        var page := AllocZero();
        GrowKeeps(mem, tree, path, i, page);
        GrowSame(mem, tree, path, i, page);
        LinkFields(w, page);
        w := SetFlags(SetPpn(w, page), V);
        mem := mem[page := Zeros()];
        mem := mem[table := mem[table][i := w]];
        tree := tree[path + [i] := page];
        FreshMore(old(mem), mem, page, pool);
        TookOne(old(tree), old(pool), path + [i], page, pool);
        OwnGrown(old(mem), old(tree), mem, path, path + [i], page);
      }
      next := Ppn(w);
    }

    method FindPteOrCreate(v: seq<nat>) returns (r: Pte)
      requires Linked() && IsVpn(v) && |pool| >= 2
      modifies this`mem, this`pool, this`tree
      ensures Linked() && SameMap(old(mem), old(tree), mem, tree) && Took(old(tree), old(pool), tree, pool)
      ensures forall p :: p in tree && p !in old(tree) ==> tree[p] !in old(mem)
      ensures r.word == LeafWord(old(mem), old(tree), v)
      ensures v[..2] in tree && r.table == tree[v[..2]] && r.index == v[2] && Leaf(mem, tree, v) == Some(r.word)
      ensures Pages(old(mem), old(pool), mem) && Own(old(mem), tree, mem) && |pool| >= |old(pool)| - 2
    {
      var table := root;
      assert v[..0] == [];
      OwnSelf(mem, tree);
      for level := 0 to 2
        invariant Linked() && |pool| >= 2 - level && SameMap(old(mem), old(tree), mem, tree)
        invariant Took(old(tree), old(pool), tree, pool)
        invariant v[..level] in tree && table == tree[v[..level]]
        invariant Pages(old(mem), old(pool), mem) && Own(old(mem), tree, mem) && |pool| >= |old(pool)| - level
      {
        ghost var tree1, pool1, mem1 := tree, pool, mem;
        table := Descend(v, level, table);
        OwnOn(old(mem), tree1, mem1, tree, mem);
        TookOn(old(tree), old(pool), tree1, pool1, tree, pool);
      }
      forall p | p in tree && p !in old(tree) ensures tree[p] !in old(mem) {
        assert tree[p] in old(pool);
      }
      assert IsTable(mem, table);
      r := Pte(mem[table][v[2]], table, v[2]);
      assert LeafWord(mem, tree, v) == r.word;
    }

    /** Writes an entry back to where it was read. */
    method WriteBack(pte: Pte, ghost v: seq<nat>)
      requires Linked() && IsVpn(v) && v[..2] in tree && pte.table == tree[v[..2]] && pte.index == v[2]
      modifies this`mem
      ensures Linked() && OnlyAt(old(mem), tree, mem, tree, v) && Leaf(mem, tree, v) == Some(pte.word)
      ensures mem.Keys == old(mem).Keys && Own(old(mem), tree, mem)
    {
      StoreKeeps(mem, tree, v, pte.word);
      OwnStore(mem, tree, v[..2], mem[pte.table][pte.index := pte.word]);
      mem := mem[pte.table := mem[pte.table][pte.index := pte.word]];
    }

    // ---- mapping ----

    /** `mmap`: one more page; the page must not be mapped. */
    method Mmap(uaddr: nat, frame: PageNo, perm: Perm)
      requires Valid() && IsPpn(frame) && Data(frame) && |pool| >= 2 && Map(Vpn(uaddr)) == None
      modifies this`mem, this`pool, this`tree
      ensures Valid() && Map(Vpn(uaddr)) == Some((frame, FromPerm(perm) | A | D))
      ensures Pages(old(mem), old(pool), mem) && |pool| >= |old(pool)| - 2 && Took(old(tree), old(pool), tree, pool)
      ensures Own(old(mem), tree, mem)
      ensures OnlyAt(old(mem), old(tree), mem, tree, Vpn(uaddr))
    {
      var pte := FindPteOrCreate(Vpn(uaddr));
      ghost var mem1 := mem;
      PermRoundTrip(perm);
      EntryFields(pte.word, FromPerm(perm) | A | D, frame);
      WriteBack(pte.(word := SetPpn(SetFlags(pte.word, FromPerm(perm) | A | D), frame)), Vpn(uaddr));
      OwnOn(old(mem), tree, mem1, tree, mem);
      ExclusiveAt(old(mem), old(tree), old(pool), mem, tree, pool, Vpn(uaddr));
    }

    method MmapReplace(uaddr: nat, frame: PageNo, perm: Perm)
      requires Valid() && IsPpn(frame) && Data(frame) && |pool| >= 2
      modifies this`mem, this`pool, this`tree
      ensures Valid() && Map(Vpn(uaddr)) == Some((frame, FromPerm(perm)))
      ensures Pages(old(mem), old(pool), mem) && |pool| >= |old(pool)| - 2 && Took(old(tree), old(pool), tree, pool)
      ensures Own(old(mem), tree, mem)
      ensures OnlyAt(old(mem), old(tree), mem, tree, Vpn(uaddr))
    {
      var pte := FindPteOrCreate(Vpn(uaddr));
      ghost var mem1 := mem;
      PermRoundTrip(perm);
      EntryFields(pte.word, FromPerm(perm), frame);
      WriteBack(pte.(word := SetPpn(SetFlags(pte.word, FromPerm(perm)), frame)), Vpn(uaddr));
      OwnOn(old(mem), tree, mem1, tree, mem);
      ExclusiveAt(old(mem), old(tree), old(pool), mem, tree, pool, Vpn(uaddr));
    }

    /** Keeps the flags, so that a page that was not mapped stays so. */
    method MmapReplaceKaddr(uaddr: nat, frame: PageNo)
      requires Valid() && IsPpn(frame) && Data(frame) && |pool| >= 2
      modifies this`mem, this`pool, this`tree
      ensures Valid() && OnlyAt(old(mem), old(tree), mem, tree, Vpn(uaddr))
      ensures Pages(old(mem), old(pool), mem) && |pool| >= |old(pool)| - 2 && Took(old(tree), old(pool), tree, pool)
      ensures Own(old(mem), tree, mem)
      ensures var was := old(Map(Vpn(uaddr))); Map(Vpn(uaddr)) == if was.Some? then Some((frame, was.value.1)) else None
    {
      var pte := FindPteOrCreate(Vpn(uaddr));
      ghost var mem1 := mem;
      PpnFields(pte.word, frame);
      WriteBack(pte.(word := SetPpn(pte.word, frame)), Vpn(uaddr));
      OwnOn(old(mem), tree, mem1, tree, mem);
      ExclusiveAt(old(mem), old(tree), old(pool), mem, tree, pool, Vpn(uaddr));
    }

    /** Keeps the page number, also the stale one of a page that was not mapped: what is mapped stays
        apart from the tables exactly when that page number is. */
    method MmapReplacePerm(uaddr: nat, perm: Perm)
      requires Valid() && |pool| >= 2
      modifies this`mem, this`pool, this`tree
      ensures Linked() && OnlyAt(old(mem), old(tree), mem, tree, Vpn(uaddr))
      ensures Map(Vpn(uaddr)) == Some((Ppn(LeafWord(old(mem), old(tree), Vpn(uaddr))), FromPerm(perm)))
      ensures old(Map(Vpn(uaddr))).Some? ==> Map(Vpn(uaddr)).value.0 == old(Map(Vpn(uaddr))).value.0
      ensures Valid() <==> old(Data(Ppn(LeafWord(mem, tree, Vpn(uaddr)))))
      ensures old(Map(Vpn(uaddr))).Some? ==> Valid()
      ensures Pages(old(mem), old(pool), mem) && |pool| >= |old(pool)| - 2 && Took(old(tree), old(pool), tree, pool)
      ensures Own(old(mem), tree, mem)
    {
      var pte := FindPteOrCreate(Vpn(uaddr));
      ghost var mem1 := mem;
      PermRoundTrip(perm);
      FlagsFields(pte.word, FromPerm(perm));
      WriteBack(pte.(word := SetFlags(pte.word, FromPerm(perm))), Vpn(uaddr));
      OwnOn(old(mem), tree, mem1, tree, mem);
      ExclusiveAt(old(mem), old(tree), old(pool), mem, tree, pool, Vpn(uaddr));
    }

    /** `munmap`: the page must be mapped. Its page number stays in the entry. */
    method Munmap(vaddr: nat)
      requires Valid() && Map(Vpn(vaddr)).Some?
      modifies this`mem
      ensures Valid() && Map(Vpn(vaddr)) == None && OnlyAt(old(mem), tree, mem, tree, Vpn(vaddr))
      ensures Ppn(LeafWord(mem, tree, Vpn(vaddr))) == old(Map(Vpn(vaddr))).value.0 && mem.Keys == old(mem).Keys
      ensures Own(old(mem), tree, mem)
    {
      var pte := FindPte(Vpn(vaddr));
      FlagsFields(pte.value.word, 0);
      WriteBack(pte.value.(word := SetFlags(pte.value.word, 0)), Vpn(vaddr));
      ExclusiveAt(old(mem), tree, pool, mem, tree, pool, Vpn(vaddr));
    }

    method MunmapWithCheck(uaddr: nat, frame: PageNo) returns (done: bool)
      requires Valid()
      modifies this`mem
      ensures Valid() && OnlyAt(old(mem), tree, mem, tree, Vpn(uaddr)) && Own(old(mem), tree, mem)
      ensures done <==> old(Map(Vpn(uaddr))).Some? && old(Map(Vpn(uaddr))).value.0 == frame
      ensures Map(Vpn(uaddr)) == if done then None else old(Map(Vpn(uaddr)))
    {
      OwnSelf(mem, tree);
      var pte := FindPte(Vpn(uaddr));
      if pte.None? || Ppn(pte.value.word) != frame { return false; }
      FlagsFields(pte.value.word, 0);
      WriteBack(pte.value.(word := SetFlags(pte.value.word, 0)), Vpn(uaddr));
      ExclusiveAt(old(mem), tree, pool, mem, tree, pool, Vpn(uaddr));
      done := true;
    }

    /** Reads and clears the accessed and dirty bits of a mapped page. */
    method TakeAccessDirtyBit(uaddr: nat) returns (r: Option<(bool, bool)>)
      requires Valid()
      modifies this`mem
      ensures Valid() && OnlyAt(old(mem), tree, mem, tree, Vpn(uaddr)) && Own(old(mem), tree, mem)
      ensures var was := old(Map(Vpn(uaddr)));
        && (was.None? ==> r == None && Map(Vpn(uaddr)) == None)
        && (was.Some? ==>
              && r == Some((was.value.1 & A == A, was.value.1 & D == D))
              && Map(Vpn(uaddr)) == Some((was.value.0, was.value.1 & !(A | D))))
    {
      OwnSelf(mem, tree);
      var pte := FindPte(Vpn(uaddr));
      if pte.None? { return None; }
      var flags := Flags(pte.value.word);
      ClearBits(pte.value.word);
      WriteBack(pte.value.(word := SetFlags(pte.value.word, flags & !(A | D))), Vpn(uaddr));
      ExclusiveAt(old(mem), tree, pool, mem, tree, pool, Vpn(uaddr));
      r := Some((flags & A == A, flags & D == D));
    }

    // ---- freeing ----

    /** Gives a page back to the allocator; giving it back twice would be an error. */
    method Free(page: PageNo)
      requires page in mem
      modifies this`mem, this`freed
      ensures mem == old(mem) - {page} && freed == old(freed) + [page]
    {
      mem := mem - {page};
      freed := freed + [page];
    }

    /** `free_pagetable`: frees the table at `path` after everything below it. */
    method FreePagetable(table: PageNo, level: nat, ghost path: seq<nat>, ghost before: Memory)
      requires Inv(before, tree) && path in tree && table == tree[path] && level == |path| <= 2
      requires Intact(before, mem, Under(tree, path))
      modifies this`mem, this`freed
      ensures mem == old(mem) - Under(tree, path)
      ensures multiset(freed) == multiset(old(freed)) + multiset(Under(tree, path))
      decreases 2 - level, 1
    {
      UnderAll(before, tree, path);
      ghost var below := UnderFirst(tree, path, ENTRIES);
      if level != LEAF_LEVEL {
        FreeEntries(table, level, path, before);
      } else {
        LeafTable(before, tree, path);
      }
      Together(old(mem), below, {table});
      assert multiset(freed) == multiset(old(freed)) + multiset(below);
      Free(table);
    }

    /** The loop of `free_pagetable` over the entries of one table. */
    method FreeEntries(table: PageNo, level: nat, ghost path: seq<nat>, ghost before: Memory)
      requires Inv(before, tree) && path in tree && table == tree[path] && level == |path| < 2
      requires Intact(before, mem, Under(tree, path))
      modifies this`mem, this`freed
      ensures mem == old(mem) - UnderFirst(tree, path, ENTRIES)
      ensures multiset(freed) == multiset(old(freed)) + multiset(UnderFirst(tree, path, ENTRIES))
      decreases 2 - level, 0, 1
    {
      ghost var done: set<PageNo> := {};
      assert done == UnderFirst(tree, path, 0);
      for i := 0 to ENTRIES
        invariant done == UnderFirst(tree, path, i) && mem == old(mem) - done
        invariant multiset(freed) == multiset(old(freed)) + multiset(done)
      {
        Entry(before, tree, path, i, old(mem), mem);
        ghost var below := FreeEntry(table, level, i, path, before);
        Together(old(mem), done, below);
        done := done + below;
      }
    }

    /** One entry: nothing, or the table below it. */
    method FreeEntry(table: PageNo, level: nat, i: nat, ghost path: seq<nat>, ghost before: Memory)
      returns (ghost below: set<PageNo>)
      requires Inv(before, tree) && path in tree && table == tree[path] && level == |path| < 2 && i < ENTRIES
      requires table in mem && mem[table] == before[table] && Intact(before, mem, Under(tree, path + [i]))
      requires IsTable(mem, table) && EntryOk(before, tree, path, i)
      requires !IsValid(mem[table][i]) ==> Under(tree, path + [i]) == {}
      modifies this`mem, this`freed
      ensures below == Under(tree, path + [i]) && mem == old(mem) - below
      ensures multiset(freed) == multiset(old(freed)) + multiset(below)
      decreases 2 - level, 0, 0
    {
      below := Under(tree, path + [i]);
      var w := mem[table][i];
      if IsValid(w) { FreePagetable(Ppn(w), level + 1, path + [i], before); }
    }

    /** Dropping the page table frees every table page once and nothing else; pages that are mapped
        are not freed. */
    method Drop()
      requires Linked()
      modifies this`mem, this`freed, this`root
      ensures mem == old(mem) - tree.Values
      ensures multiset(freed) == multiset(old(freed)) + multiset(tree.Values)
      ensures old(Valid()) ==> forall v :: IsVpn(v) && old(Map(v)).Some? ==> old(Map(v)).value.0 !in tree.Values
    {
      AllUnder(tree);
      FreePagetable(root, 0, [], mem);
      root := PageNo(0);
    }
  }

  lemma {:induction false} TookOne(tree: Tree, pool: seq<PageNo>, path: seq<nat>, page: PageNo, rest: seq<PageNo>)
    requires pool == [page] + rest && path !in tree
    ensures Took(tree, pool, tree[path := page], rest)
  {
    var tree' := tree[path := page];
    forall f | f in pool ensures f in rest || exists p :: p in tree' && tree'[p] == f {
      if f == page { assert path in tree' && tree'[path] == f; }
    }
  }

  lemma {:induction false} TookOn(tree: Tree, pool: seq<PageNo>, tree1: Tree, pool1: seq<PageNo>, tree2: Tree,
                                  pool2: seq<PageNo>)
    requires Took(tree, pool, tree1, pool1) && Took(tree1, pool1, tree2, pool2)
    ensures Took(tree, pool, tree2, pool2)
  {
    forall f | f in pool ensures f in pool2 || exists p :: p in tree2 && tree2[p] == f {
      if f !in pool1 {
        var p :| p in tree1 && tree1[p] == f;
        assert p in tree2 && tree2[p] == f;
      }
    }
    forall p | p in tree2 && p !in tree ensures tree2[p] in pool {
      if p in tree1 { assert tree2[p] == tree1[p]; }
    }
  }

  lemma {:induction false} OwnGrown(mem: Memory, tree: Tree, mem': Memory, parent: seq<nat>, path: seq<nat>,
                                    page: PageNo)
    requires Own(mem, tree, mem) && parent in tree && path !in tree && tree[parent] in mem
    requires page in mem' && tree[parent] in mem'
    requires mem' == mem[page := mem'[page]][tree[parent] := mem'[tree[parent]]]
    ensures Own(mem, tree[path := page], mem')
  {
    OwnIff(mem, tree, mem);
    OwnIff(mem, tree[path := page], mem');
    var tree' := tree[path := page];
    assert tree'[path] == page && tree'[parent] == tree[parent];
    forall f ensures f in tree'.Values <==> f in tree.Values || f == page {
      if f in tree.Values {
        var p :| p in tree && tree[p] == f;
        assert p in tree' && tree'[p] == f;
      }
    }
  }

  /** A page that was mapped and unmapped and went back to the allocator is mapped again by a change of
      permissions, and is then a page of the allocator or a table. */
  method StaleFrame(t: PageTable, frame: PageNo, perm: Perm)
    requires t.Valid() && t.Data(frame) && frame !in t.mem && IsPpn(frame) && |t.pool| >= 4 && t.Map(Vpn(0)) == None
    requires forall v :: IsVpn(v) && t.Map(v).Some? ==> t.Map(v).value.0 != frame
    modifies t
    ensures t.Linked() && t.Map(Vpn(0)).Some? && t.Map(Vpn(0)).value.0 == frame && !t.Data(frame) && !t.Valid()
  {
    t.Mmap(0, frame, perm);
    t.Munmap(0);
    t.Recycle(frame);
    assert !t.Data(frame) && Ppn(LeafWord(t.mem, t.tree, Vpn(0))) == frame;
    t.MmapReplacePerm(0, perm);
  }

  /** Memory has gained only pages of the allocator. */
  ghost predicate Pages(mem: Memory, pool: seq<PageNo>, mem': Memory) {
    (forall p :: p in mem ==> p in mem') && forall p :: p in mem' ==> p in mem || p in pool
  }

  /** These pages are still there, as they were before freeing began. */
  ghost predicate Intact(before: Memory, mem: Memory, pages: set<PageNo>) {
    forall p :: p in pages ==> p in mem && p in before && mem[p] == before[p]
  }

  /** What freeing finds at entry `i` once the earlier entries are done. */
  lemma {:induction false} Entry(before: Memory, tree: Tree, path: seq<nat>, i: nat, start: Memory, mem: Memory)
    requires Inv(before, tree) && path in tree && |path| < 2 && i < ENTRIES && Intact(before, start, Under(tree, path))
    requires mem == start - UnderFirst(tree, path, i)
    ensures tree[path] in mem && mem[tree[path]] == before[tree[path]] && IsTable(mem, tree[path])
    ensures EntryOk(before, tree, path, i) && Intact(before, mem, Under(tree, path + [i]))
    ensures !IsValid(mem[tree[path]][i]) ==> Under(tree, path + [i]) == {}
    ensures UnderFirst(tree, path, i + 1) == UnderFirst(tree, path, i) + Under(tree, path + [i])
    ensures UnderFirst(tree, path, i) !! Under(tree, path + [i])
  {
    UnderAll(before, tree, path);
    UnderNext(tree, path, i);
    UnderApart(before, tree, path, i);
    FirstMonotone(tree, path, i);
    FirstMonotone(tree, path, i + 1);
    assert IsTable(before, tree[path]) && EntryOk(before, tree, path, i);
    if !IsValid(before[tree[path]][i]) { UnderNothing(before, tree, path + [i]); }
  }

  /** Two disjoint sets of pages, freed one after the other. */
  lemma {:induction false} Together(mem: Memory, a: set<PageNo>, b: set<PageNo>)
    requires a !! b
    ensures (mem - a) - b == mem - (a + b) && multiset(a + b) == multiset(a) + multiset(b)
    ensures b == {} ==> a + b == a
  {
  }

  lemma {:induction false} AllUnder(tree: Tree)
    ensures Under(tree, []) == tree.Values
  {
  }

  lemma {:induction false} LeafTable(mem: Memory, tree: Tree, path: seq<nat>)
    requires Inv(mem, tree) && path in tree && |path| == 2
    ensures UnderFirst(tree, path, ENTRIES) == {}
  {
  }

  lemma {:induction false} FirstMonotone(tree: Tree, path: seq<nat>, i: nat)
    requires i <= ENTRIES
    ensures UnderFirst(tree, path, i) <= UnderFirst(tree, path, ENTRIES)
  {
  }

  lemma {:induction false} EntryFields(w: Word, flags: Word, frame: PageNo)
    requires flags & 0xff == flags && flags & V == V && IsPpn(frame)
    ensures var e := SetPpn(SetFlags(w, flags), frame); Flags(e) == flags && IsValid(e) && Ppn(e) == frame
  {
    FlagsFields(w, flags);
    PpnFields(SetFlags(w, flags), frame);
  }

  lemma {:induction false} ClearBits(w: Word)
    ensures var f := Flags(w) & !(A | D);
      && Flags(SetFlags(w, f)) == f && Ppn(SetFlags(w, f)) == Ppn(w) && (IsValid(w) <==> IsValid(SetFlags(w, f)))
  {
    var f := Flags(w) & !(A | D);
    KeepValid(Flags(w));
    FlagsFields(w, f);
  }

  lemma {:induction false} KeepValid(flags: Word)
    ensures var f := flags & !(A | D); (flags & V == V <==> f & V == V) && (flags & 0xff == flags ==> f & 0xff == f)
  {
  }

  /** The allocator's next pages are distinct and unused. */
  predicate Fresh(mem: Memory, pool: seq<PageNo>) {
    && (forall i :: 0 <= i < |pool| ==> pool[i] !in mem && IsPpn(pool[i]))
    && forall i, j :: 0 <= i < j < |pool| ==> pool[i] != pool[j]
  }

  lemma {:induction false} FreshMore(mem: Memory, mem': Memory, page: PageNo, pool: seq<PageNo>)
    requires Fresh(mem, pool) && page !in pool && mem'.Keys == mem.Keys + {page}
    ensures Fresh(mem', pool)
  {
    forall i | 0 <= i < |pool| ensures pool[i] !in mem' {
      assert pool[i] in pool && (pool[i] in mem'.Keys <==> pool[i] in mem.Keys || pool[i] == page);
    }
  }

  /** An entry that leads nowhere ends the walk without a translation. */
  lemma {:induction false} Missing(mem: Memory, tree: Tree, v: seq<nat>, level: nat)
    requires Inv(mem, tree) && IsVpn(v) && level < 2 && v[..level] in tree
    requires !IsValid(mem[tree[v[..level]]][v[level]])
    ensures v[..level + 1] !in tree && Leaf(mem, tree, v) == None
  {
    assert EntryOk(mem, tree, v[..level], v[level]);
    assert v[..level] + [v[level]] == v[..level + 1];
    assert v[..2][..1] == v[..1];
  }
}
