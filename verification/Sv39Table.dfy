/** The table pages of a Sv39 page table as a tree. */
module Sv39Table {
  import opened Common
  import opened Sv39Pte

  const ENTRIES: nat := 512

  /** Physical memory that may hold table pages, by page number. */
  type Memory = map<PageNo, seq<Word>>

  /** Which table page is reached by which indices from the root. */
  type Tree = map<seq<nat>, PageNo>

  predicate IsTable(mem: Memory, p: PageNo) {
    p in mem && |mem[p]| == ENTRIES && IsPpn(p)
  }

  /** Entry `i` of the table at `path` leads to the table at `path + [i]`, if there is one. */
  ghost predicate EntryOk(mem: Memory, tree: Tree, path: seq<nat>, i: nat)
    requires path in tree && IsTable(mem, tree[path]) && i < ENTRIES
  {
    && (IsValid(mem[tree[path]][i]) <==> path + [i] in tree)
    && (path + [i] in tree ==> Ppn(mem[tree[path]][i]) == tree[path + [i]] && Flags(mem[tree[path]][i]) == 1)
  }

  /** Tables are linked exactly as the tree says, and no page is reached twice. */
  ghost predicate Inv(mem: Memory, tree: Tree) {
    && [] in tree
    && (forall path :: path in tree ==> |path| <= 2 && IsTable(mem, tree[path]))
    && (forall path, i: nat :: path in tree && |path| < 2 && i < ENTRIES ==> EntryOk(mem, tree, path, i))
    && (forall path :: path in tree && path != [] ==> Parented(tree, path))
    && (forall a, b {:trigger Apart(tree, a, b)} :: Apart(tree, a, b))
  }

  /** Two places in the tree are two pages. */
  predicate Apart(tree: Tree, a: seq<nat>, b: seq<nat>) {
    a in tree && b in tree && tree[a] == tree[b] ==> a == b
  }

  predicate Parented(tree: Tree, path: seq<nat>)
    requires path != []
  {
    path[..|path| - 1] in tree && path[|path| - 1] < ENTRIES
  }

  predicate IsVpn(v: seq<nat>) {
    |v| == 3 && v[0] < ENTRIES && v[1] < ENTRIES && v[2] < ENTRIES
  }

  /** The leaf entry for a virtual page, valid or not, if its table exists. */
  function Leaf(mem: Memory, tree: Tree, v: seq<nat>): Option<Word>
    requires IsVpn(v)
  {
    if v[..2] in tree && IsTable(mem, tree[v[..2]]) then Some(mem[tree[v[..2]]][v[2]]) else None
  }

  /** The leaf entry, 0 where there is no table yet. */
  function LeafWord(mem: Memory, tree: Tree, v: seq<nat>): Word
    requires IsVpn(v)
  {
    var leaf := Leaf(mem, tree, v);
    if leaf.Some? then leaf.value else 0
  }

  /** The translation of a virtual page: a physical page number and flags. */
  function Translate(mem: Memory, tree: Tree, v: seq<nat>): Option<(PageNo, Word)>
    requires IsVpn(v)
  {
    var w := LeafWord(mem, tree, v);
    if IsValid(w) then Some((Ppn(w), Flags(w))) else None
  }

  // ---- a new table page ----

  function Zeros(): (r: seq<Word>)
    ensures |r| == ENTRIES && forall i :: 0 <= i < ENTRIES ==> r[i] == 0
  {
    seq(ENTRIES, _ => 0)
  }

  function LinkWord(w: Word, page: PageNo): Word {
    SetFlags(SetPpn(w, page), V)
  }

  lemma {:induction false} LinkFields(w: Word, page: PageNo)
    requires IsPpn(page)
    ensures IsValid(LinkWord(w, page)) && Ppn(LinkWord(w, page)) == page && !IsValid(0)
    ensures Flags(LinkWord(w, page)) == 1
  {
  }

  /** Memory and tree after entry `i` of the table at `path` gets a new, empty table. */
  function Grown(mem: Memory, tree: Tree, path: seq<nat>, i: nat, page: PageNo): (Memory, Tree)
    requires path in tree && IsTable(mem, tree[path]) && i < ENTRIES
  {
    var table := mem[tree[path]];
    (mem[page := Zeros()][tree[path] := table[i := LinkWord(table[i], page)]], tree[path + [i] := page])
  }

  lemma {:induction false} GrowKeeps(mem: Memory, tree: Tree, path: seq<nat>, i: nat, page: PageNo)
    requires Inv(mem, tree) && path in tree && |path| < 2 && i < ENTRIES
    requires page !in mem && IsPpn(page) && path + [i] !in tree
    ensures var (mem', tree') := Grown(mem, tree, path, i, page); Inv(mem', tree')
  {
    var (mem', tree') := Grown(mem, tree, path, i, page);
    var grown := path + [i];
    LinkFields(mem[tree[path]][i], page);
    forall p | p in tree' ensures |p| <= 2 && IsTable(mem', tree'[p]) {
      assert p == grown || (p in tree && IsTable(mem, tree[p]));
    }
    forall p, j: nat | p in tree' && |p| < 2 && j < ENTRIES ensures EntryOk(mem', tree', p, j) {
      GrownEntry(mem, tree, path, i, page, p, j);
    }
    forall p | p in tree' && p != [] ensures Parented(tree', p) {
      if p == grown { assert grown[..|path|] == path; } else { assert Parented(tree, p); }
    }
    forall a, b ensures Apart(tree', a, b) {
      assert Apart(tree, a, b);
      assert a in tree ==> IsTable(mem, tree[a]);
      assert b in tree ==> IsTable(mem, tree[b]);
    }
  }

  lemma {:induction false} GrownEntry(mem: Memory, tree: Tree, path: seq<nat>, i: nat, page: PageNo, p: seq<nat>,
                                      j: nat)
    requires Inv(mem, tree) && path in tree && |path| < 2 && i < ENTRIES
    requires page !in mem && IsPpn(page) && path + [i] !in tree
    requires (p in tree || p == path + [i]) && |p| < 2 && j < ENTRIES
    ensures var (mem', tree') := Grown(mem, tree, path, i, page);
      p in tree' && IsTable(mem', tree'[p]) && EntryOk(mem', tree', p, j)
  {
    var (mem', tree') := Grown(mem, tree, path, i, page);
    var table := path + [i];
    LinkFields(mem[tree[path]][i], page);
    if p == table {
      // The new table is empty, and nothing was under it before.
      assert (p + [j])[..|p|] == p && p + [j] != table;
    } else {
      assert EntryOk(mem, tree, p, j) && IsTable(mem, tree[p]);
      assert (p + [j])[..|p|] == p && (p + [j])[|p|] == j;
      assert table[..|path|] == path && table[|path|] == i;
      assert p + [j] == table <==> p == path && j == i;
      assert Apart(tree, p, path);
    }
  }

  /** A new table page changes no translation. */
  lemma {:induction false} GrowTranslates(mem: Memory, tree: Tree, path: seq<nat>, i: nat, page: PageNo, v: seq<nat>)
    requires Inv(mem, tree) && path in tree && |path| < 2 && i < ENTRIES && IsVpn(v)
    requires page !in mem && IsPpn(page) && path + [i] !in tree
    ensures var (mem', tree') := Grown(mem, tree, path, i, page);
      LeafWord(mem', tree', v) == LeafWord(mem, tree, v) && Translate(mem', tree', v) == Translate(mem, tree, v)
  {
    var (mem', tree') := Grown(mem, tree, path, i, page);
    var p := v[..2];
    LinkFields(mem[tree[path]][i], page);
    if p == path + [i] {
      assert mem'[page][v[2]] == 0;
    } else if p in tree {
      assert IsTable(mem, tree[p]) && Apart(tree, p, path);
    }
  }

  // ---- a leaf entry ----

  /** Memory after the leaf entry of `v` is written. */
  function Stored(mem: Memory, tree: Tree, v: seq<nat>, w: Word): Memory
    requires IsVpn(v) && v[..2] in tree && IsTable(mem, tree[v[..2]])
  {
    mem[tree[v[..2]] := mem[tree[v[..2]]][v[2] := w]]
  }

  /** Writing a leaf entry changes the translation of that page and of no other. */
  lemma {:induction false} StoreKeeps(mem: Memory, tree: Tree, v: seq<nat>, w: Word)
    requires Inv(mem, tree) && IsVpn(v) && v[..2] in tree
    ensures IsTable(mem, tree[v[..2]]) && Inv(Stored(mem, tree, v, w), tree)
    ensures Leaf(Stored(mem, tree, v, w), tree, v) == Some(w)
    ensures forall u :: IsVpn(u) && u != v ==> Leaf(Stored(mem, tree, v, w), tree, u) == Leaf(mem, tree, u)
  {
    assert IsTable(mem, tree[v[..2]]);
    var mem' := Stored(mem, tree, v, w);
    forall p | p in tree ensures |p| <= 2 && IsTable(mem', tree[p]) {
      assert IsTable(mem, tree[p]);
    }
    forall p, j: nat | p in tree && |p| < 2 && j < ENTRIES ensures EntryOk(mem', tree, p, j) {
      assert EntryOk(mem, tree, p, j) && Apart(tree, p, v[..2]);
    }
    forall u | IsVpn(u) && u != v ensures Leaf(mem', tree, u) == Leaf(mem, tree, u) {
      if u[..2] == v[..2] {
        assert u == u[..2] + [u[2]] && v == v[..2] + [v[2]];
      } else if u[..2] in tree {
        assert IsTable(mem, tree[u[..2]]) && Apart(tree, u[..2], v[..2]);
      }
    }
  }

  /** No virtual page but `v` is translated differently. */
  ghost predicate OnlyAt(mem: Memory, tree: Tree, mem': Memory, tree': Tree, v: seq<nat>) {
    forall u :: IsVpn(u) && u != v ==> Translate(mem', tree', u) == Translate(mem, tree, u)
  }

  ghost predicate SameMap(mem: Memory, tree: Tree, mem': Memory, tree': Tree) {
    forall u {:trigger LeafWord(mem', tree', u)} {:trigger Translate(mem', tree', u)} :: IsVpn(u) ==>
      LeafWord(mem', tree', u) == LeafWord(mem, tree, u) && Translate(mem', tree', u) == Translate(mem, tree, u)
  }

  lemma {:induction false} GrowSame(mem: Memory, tree: Tree, path: seq<nat>, i: nat, page: PageNo)
    requires Inv(mem, tree) && path in tree && |path| < 2 && i < ENTRIES
    requires page !in mem && IsPpn(page) && path + [i] !in tree
    ensures var (mem', tree') := Grown(mem, tree, path, i, page); SameMap(mem, tree, mem', tree')
  {
    var (mem', tree') := Grown(mem, tree, path, i, page);
    forall u | IsVpn(u)
      ensures LeafWord(mem', tree', u) == LeafWord(mem, tree, u) && Translate(mem', tree', u) == Translate(mem, tree, u)
    {
      GrowTranslates(mem, tree, path, i, page, u);
    }
  }

  // ---- pages that are mapped ----

  /** `f` holds no table and the allocator does not have it. */
  ghost predicate NoTable(tree: Tree, pool: seq<PageNo>, f: PageNo) {
    f !in pool && forall p :: p in tree ==> tree[p] != f
  }

  ghost predicate Exclusive(mem: Memory, tree: Tree, pool: seq<PageNo>) {
    forall v {:trigger Translate(mem, tree, v)} :: IsVpn(v) && Translate(mem, tree, v).Some? ==>
      NoTable(tree, pool, Translate(mem, tree, v).value.0)
  }

  /** Tables stay, new ones are pages the allocator had, and it has no others than before. */
  ghost predicate Took(tree: Tree, pool: seq<PageNo>, tree': Tree, pool': seq<PageNo>) {
    && (forall p :: p in tree ==> p in tree' && tree'[p] == tree[p])
    && (forall p :: p in tree' && p !in tree ==> tree'[p] in pool)
    && (forall f :: f in pool' ==> f in pool)
    && (forall f :: f in pool ==> f in pool' || exists p :: p in tree' && tree'[p] == f)
  }

  /** Memory has gained the tables of `tree`, and no other page has changed. */
  ghost predicate Gained(mem: Memory, tree: Tree, mem': Memory) {
    && (forall p :: p in mem' <==> p in mem || p in tree.Values)
    && (forall p :: p in mem && p !in tree.Values ==> mem'[p] == mem[p])
  }

  /** The same, folded. */
  ghost predicate Own(mem: Memory, tree: Tree, mem': Memory) {
    forall k: nat {:trigger Unfold(k)} :: Unfold(k) ==> Gained(mem, tree, mem')
  }

  lemma OwnIff(mem: Memory, tree: Tree, mem': Memory)
    ensures Own(mem, tree, mem') <==> Gained(mem, tree, mem')
  {
    assert Unfold(0);
  }

  /** A table is written. */
  lemma {:induction false} OwnStore(mem: Memory, tree: Tree, path: seq<nat>, words: seq<Word>)
    requires Inv(mem, tree) && path in tree
    ensures Own(mem, tree, mem[tree[path] := words])
  {
    OwnSelf(mem, tree);
    OwnIff(mem, tree, mem);
    OwnIff(mem, tree, mem[tree[path] := words]);
    assert tree[path] in tree.Values;
  }

  lemma {:induction false} OwnOn(mem: Memory, tree: Tree, mem1: Memory, tree1: Tree, mem2: Memory)
    requires Own(mem, tree, mem1) && Own(mem1, tree1, mem2)
    requires forall p :: p in tree ==> p in tree1 && tree1[p] == tree[p]
    ensures Own(mem, tree1, mem2)
  {
    OwnIff(mem, tree, mem1);
    OwnIff(mem1, tree1, mem2);
    OwnIff(mem, tree1, mem2);
    forall f | f in tree.Values ensures f in tree1.Values {
      var p :| p in tree && tree[p] == f;
      assert tree1[p] == f;
    }
  }

  lemma {:induction false} OwnSelf(mem: Memory, tree: Tree)
    requires Inv(mem, tree)
    ensures Own(mem, tree, mem)
  {
    OwnIff(mem, tree, mem);
    forall f | f in tree.Values ensures f in mem {
      var p :| p in tree && tree[p] == f;
      assert IsTable(mem, f);
    }
  }

  /** New tables take no page that was free to be mapped, and give none. */
  lemma {:induction false} TookData(tree: Tree, pool: seq<PageNo>, tree': Tree, pool': seq<PageNo>, f: PageNo)
    requires Took(tree, pool, tree', pool')
    ensures NoTable(tree', pool', f) <==> NoTable(tree, pool, f)
  {
    if NoTable(tree, pool, f) {
      forall p | p in tree' ensures tree'[p] != f {
        if p in tree { assert tree'[p] == tree[p]; }
      }
    }
    if NoTable(tree', pool', f) {
      forall p | p in tree ensures tree[p] != f { assert tree'[p] == tree[p]; }
    }
  }

  /** One key changed: what is mapped stays apart from the tables exactly when the new page is. */
  lemma {:induction false} ExclusiveAt(mem: Memory, tree: Tree, pool: seq<PageNo>, mem': Memory, tree': Tree,
                                       pool': seq<PageNo>,
                                       v: seq<nat>)
    requires Exclusive(mem, tree, pool) && OnlyAt(mem, tree, mem', tree', v) && Took(tree, pool, tree', pool')
    requires IsVpn(v)
    ensures Exclusive(mem', tree', pool') <==>
      (Translate(mem', tree', v).Some? ==> NoTable(tree, pool, Translate(mem', tree', v).value.0))
  {
    forall u | IsVpn(u) && Translate(mem', tree', u).Some?
      ensures NoTable(tree', pool', Translate(mem', tree', u).value.0)
        <==> NoTable(tree, pool, Translate(mem', tree', u).value.0)
      ensures u != v ==> NoTable(tree, pool, Translate(mem', tree', u).value.0)
    {
      TookData(tree, pool, tree', pool', Translate(mem', tree', u).value.0);
      if u != v { assert Translate(mem', tree', u) == Translate(mem, tree, u); }
    }
  }

  // ---- subtrees ----

  /** The table pages at or below `path`. */
  function Under(tree: Tree, path: seq<nat>): set<PageNo> {
    set p | p in tree && path <= p :: tree[p]
  }

  /** The table pages below the first `i` entries of the table at `path`. */
  function UnderFirst(tree: Tree, path: seq<nat>, i: nat): set<PageNo> {
    set p | p in tree && path < p && p[|path|] < i :: tree[p]
  }

  /** Nothing is below an entry that leads nowhere. */
  lemma {:induction false} UnderNothing(mem: Memory, tree: Tree, path: seq<nat>)
    requires Inv(mem, tree) && path !in tree
    ensures Under(tree, path) == {}
  {
    forall p | p in tree && path <= p ensures false {
      assert p[..|path|] == path;
      Ancestors(mem, tree, p, |path|);
    }
  }

  lemma {:induction false} Ancestors(mem: Memory, tree: Tree, p: seq<nat>, k: nat)
    requires Inv(mem, tree) && p in tree && k <= |p|
    ensures p[..k] in tree
    decreases |p|
  {
    if k < |p| {
      assert Parented(tree, p);
      var q := p[..|p| - 1];
      Ancestors(mem, tree, q, k);
      assert q[..k] == p[..k];
    } else {
      assert p[..k] == p;
    }
  }

  /** One entry more. */
  lemma {:induction false} UnderNext(tree: Tree, path: seq<nat>, i: nat)
    ensures UnderFirst(tree, path, i + 1) == UnderFirst(tree, path, i) + Under(tree, path + [i])
  {
    forall p | p in tree
      ensures path < p && p[|path|] < i + 1 <==> (path < p && p[|path|] < i) || path + [i] <= p
    {
      if path < p && p[|path|] == i { assert (path + [i]) == p[..|path| + 1]; }
      if path + [i] <= p { assert path == (path + [i])[..|path|] && p[|path|] == i; }
    }
  }

  /** A table and everything below its entries. */
  lemma {:induction false} UnderAll(mem: Memory, tree: Tree, path: seq<nat>)
    requires Inv(mem, tree) && path in tree
    ensures Under(tree, path) == UnderFirst(tree, path, ENTRIES) + {tree[path]}
    ensures tree[path] !in UnderFirst(tree, path, ENTRIES)
  {
    forall p | p in tree && path < p ensures p[|path|] < ENTRIES {
      Ancestors(mem, tree, p, |path| + 1);
      assert Parented(tree, p[..|path| + 1]);
    }
    forall p | p in tree ensures path <= p <==> p == path || path < p {
      if path <= p && |p| == |path| { assert p == p[..|path|] == path; }
    }
    forall p | p in tree && path < p ensures tree[p] != tree[path] {
      assert Apart(tree, p, path);
    }
  }

  /** Different entries have nothing in common below them. */
  lemma {:induction false} UnderApart(mem: Memory, tree: Tree, path: seq<nat>, i: nat)
    requires Inv(mem, tree)
    ensures UnderFirst(tree, path, i) !! Under(tree, path + [i])
  {
    forall p, q | p in tree && q in tree && path < p && p[|path|] < i && path + [i] <= q ensures tree[p] != tree[q] {
      assert q[|path|] == i && Apart(tree, p, q);
    }
  }
}
