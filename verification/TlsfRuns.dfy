/** Whole runs of the TLSF heap: what every sequence of allocations and frees keeps, and
    that the allocator's own integrity checks accept every heap it can produce. */
module TlsfRuns {
  import opened Bits
  import opened TlsfMapping
  import opened TlsfTiling
  import opened TlsfLayout
  import opened TlsfControl
  import opened TlsfSteps
  import opened TlsfHeap

  // ---- runs ----

  datatype State = State(m: Tiling, client: map<int, nat>)

  /** One successful call: `Malloc`, `Memalign` or `Free`. */
  ghost predicate Step(s: State, s': State, at: Pool) {
    || (exists b, gap: nat, size: nat, p :: AllocStep(s.m, s.client, s'.m, s'.client, b, gap, size, p))
    || (exists p :: FreeStep(s.m, s.client, s'.m, s'.client, at, p))
  }

  ghost predicate Inv(s: State, at: Pool) {
    Coherent(s.m, at) && Exact(s.client, s.m, at)
  }

  ghost predicate Run(t: seq<State>, at: Pool) {
    forall i :: 0 <= i < |t| - 1 ==> Step(t[i], t[i + 1], at)
  }

  lemma MallocKeeps(s: State, s': State, at: Pool, b: int, size: nat, p: int)
    requires Inv(s, at) && AllocStep(s.m, s.client, s'.m, s'.client, b, 0, size, p)
    ensures Inv(s', at)
  {
    AllocStepOk(s.m, s.client, at, b, size);
  }

  lemma MemalignKeeps(s: State, s': State, at: Pool, b: int, gap: nat, size: nat, p: int)
    requires Inv(s, at) && gap > 0 && AllocStep(s.m, s.client, s'.m, s'.client, b, gap, size, p)
    ensures Inv(s', at)
  {
    var m1, m' := GapStepOk(s.m, s.client, at, b, gap, size);
  }

  lemma FreeKeeps(s: State, s': State, at: Pool, p: int)
    requires Inv(s, at) && FreeStep(s.m, s.client, s'.m, s'.client, at, p)
    ensures Inv(s', at)
  {
    FreeCoherent(s.m, at, p - 16);
    FreeExact(s.client, s.m, at, p - 16);
  }

  lemma StepKeeps(s: State, s': State, at: Pool)
    requires Inv(s, at) && Step(s, s', at)
    ensures Inv(s', at)
  {
    if b, gap: nat, size: nat, p :| AllocStep(s.m, s.client, s'.m, s'.client, b, gap, size, p) {
      if gap == 0 {
        MallocKeeps(s, s', at, b, size, p);
      } else {
        MemalignKeeps(s, s', at, b, gap, size, p);
      }
    } else {
      var p :| FreeStep(s.m, s.client, s'.m, s'.client, at, p);
      FreeKeeps(s, s', at, p);
    }
  }

  /** In every run from a coherent heap, every state is coherent, and at every state any two
      live ranges are disjoint and inside the pool. */
  lemma {:induction false} RunSafe(t: seq<State>, at: Pool, i: nat, p: int, q: int)
    requires Run(t, at) && i < |t| && Inv(t[0], at)
    ensures Inv(t[i], at)
    ensures p in t[i].client && q in t[i].client && p != q ==>
      p + t[i].client[p] <= q || q + t[i].client[q] <= p
    ensures p in t[i].client ==> at.base + 16 <= p && p + t[i].client[p] <= at.end + 8 && p % 8 == 0
  {
    if i > 0 {
      RunSafe(t, at, i - 1, p, q);
      StepKeeps(t[i - 1], t[i], at);
    }
    if p in t[i].client { Disjoint(t[i].client, t[i].m, at, p, p); }
    if p in t[i].client && q in t[i].client { Disjoint(t[i].client, t[i].m, at, p, q); }
  }

  /** Freeing undoes allocating: an allocation freed at once leaves the same blocks, with the
      same sizes and marks, and the same clients. */
  lemma FreeRestores(s: State, s': State, s'': State, at: Pool, b: int, gap: nat, size: nat, p: int)
    requires Inv(s, at) && AllocStep(s.m, s.client, s'.m, s'.client, b, gap, size, p)
    requires FreeStep(s'.m, s'.client, s''.m, s''.client, at, p)
    ensures s'' == s
  {
    FreeUndoesAligned(s.m, at, b, gap, size);
    assert s''.client == s.client;
  }

  /** Two requests in a row: the second is not refused when what the first leaves of its block reaches its round-up. */
  method MallocTwice(h: Heap, size: nat, next: nat) returns (p: int, q: int, ghost block: int)
    requires h.Valid() && size < SIZE_T && next < SIZE_T
    modifies h, h.ctl, h.ctl.slBitmap, h.ctl.heads
    ensures h.Valid()
    ensures var a, b := AdjustRequestSize(size, ALIGN_SIZE), AdjustRequestSize(next, ALIGN_SIZE);
      && (p != 0 ==> block in old(h.m) && old(h.m)[block].free)
      && (p != 0 && b != 0 && old(h.m)[block].size >= a + 8 + RoundUp(b) ==> q != 0)
  {
    ghost var m, client := h.m, h.client;
    AdjustWord(next);
    ghost var a, b := AdjustRequestSize(size, ALIGN_SIZE), AdjustRequestSize(next, ALIGN_SIZE);
    p, block := h.Malloc(size);
    if p != 0 && b != 0 && m[block].size >= a + 8 + RoundUp(b) {
      GoodFit(b, SearchClass(b));
      RestFits(m, client, h.m, h.client, block, 0, a, p, b);
    }
    ghost var other;
    q, other := h.Malloc(next);
  }

  // ---- the tiling is exact ----

  /** The blocks `tlsf_walk_pool` visits from `b` on, the sentinel last. */
  ghost function Walk(m: Tiling, at: Pool, b: int): seq<int>
    requires Tiles(m, at) && b in m
    decreases at.end - b
  {
    if b == at.end then [b]
    else
      assert Next(m, b) in m;
      [b] + Walk(m, at, Next(m, b))
  }

  /** Bytes of the blocks of a walk, headers included. */
  ghost function Bytes(m: Tiling, w: seq<int>): int
    requires forall i :: 0 <= i < |w| ==> w[i] in m
  {
    if w == [] then 0 else 8 + m[w[0]].size + Bytes(m, w[1..])
  }

  /** The walk visits every block once, in address order. */
  lemma {:induction false} WalkAll(m: Tiling, at: Pool, b: int)
    requires Tiles(m, at) && b in m
    ensures var w := Walk(m, at, b);
      && (forall c :: c in w <==> c in m && c >= b)
      && (forall i, j :: 0 <= i < j < |w| ==> w[i] < w[j])
      && w[0] == b
    decreases at.end - b
  {
    if b != at.end {
      var n := Next(m, b);
      assert n in m;
      WalkAll(m, at, n);
      forall c | c in m && c > b ensures c >= n { assert Apart(m, b, c); }
      var w := Walk(m, at, b);
      assert forall c :: c in w <==> c == b || c in Walk(m, at, n);
      forall i, j | 0 <= i < j < |w| ensures w[i] < w[j] {
        if i == 0 { assert w[j] in Walk(m, at, n); }
      }
    }
  }

  /** The blocks fill the pool exactly: their bytes add up to it. */
  lemma {:induction false} WalkBytes(m: Tiling, at: Pool, b: int)
    requires Tiles(m, at) && b in m
    ensures forall i :: 0 <= i < |Walk(m, at, b)| ==> Walk(m, at, b)[i] in m
    ensures Bytes(m, Walk(m, at, b)) == at.end - b + 8
    decreases at.end - b
  {
    WalkAll(m, at, b);
    if b != at.end {
      assert Next(m, b) in m;
      WalkBytes(m, at, Next(m, b));
      assert Walk(m, at, b)[1..] == Walk(m, at, Next(m, b));
    }
  }

  // ---- the allocator's own checks ----

  /** `tlsf_check_pool`: walks the blocks; each prev-free bit must repeat the status before. */
  method CheckPool(h: Heap, pool: int) returns (status: int)
    requires h.Valid() && h.m != map[] && pool - 8 == h.at.base
    ensures status == 0
  {
    status := 0;
    var prevFree := false;
    var block := pool - 8;
    while h.SizeAt(block) != 0
      invariant block in h.m && status == 0 && prevFree == h.m[block].prevFree
      decreases h.at.end - block
    {
      Header(h.mem, h.m, h.at, block);
      if prevFree != IsPrevFree(h.mem[block + 8]) { status := status - 1; }
      if h.SizeAt(block) != BlockSize(h.mem[block + 8]) { status := status - 1; }
      prevFree := IsFree(h.mem[block + 8]);
      assert Next(h.m, block) in h.m;
      block := block + 16 + h.SizeAt(block) - 8;
    }
  }

  /** What `tlsf_check` insists on for one listed block. */
  lemma ListedOk(h: Heap, b: int)
    requires h.Valid() && h.m != map[] && b in h.m && h.m[b].free
    ensures b + 8 in h.mem && var w := h.mem[b + 8];
      && IsFree(w) && !IsPrevFree(w) && BlockSize(w) == h.m[b].size >= BLOCK_SIZE_MIN
    ensures var n := Next(h.m, b);
      && n in h.m && n + 8 in h.mem && !IsFree(h.mem[n + 8]) && IsPrevFree(h.mem[n + 8])
  {
    var n := Next(h.m, b);
    assert n in h.m;
    Header(h.mem, h.m, h.at, b);
    Header(h.mem, h.m, h.at, n);
  }

  /** The inner loop of `tlsf_check`: every block of list `[i][j]`. */
  method CheckList(h: Heap, i: nat, j: nat) returns (status: int)
    requires h.Valid() && h.m != map[] && i < FL_INDEX_COUNT && j < SL_INDEX_COUNT
    ensures status == 0
  {
    status := 0;
    ghost var c := 32 * i + j;
    ghost var l := h.ctl.ls[c];
    TiesIff(h.mem, h.m, h.ctl.ls, h.client, h.at, {}, {});
    assert ListOk(h.m, l, c, {});
    var block := h.ctl.heads[32 * i + j];
    ghost var k := 0;
    while block != h.ctl.nil
      invariant 0 <= k <= |l| && status == 0
      invariant block == if k < |l| then l[k] else h.ctl.nil
      decreases |l| - k
    {
      ListedOk(h, block);
      var w := h.mem[block + 8];
      var next := block + 16 + BlockSize(w) - 8;
      if !IsFree(w) { status := status - 1; }
      if IsPrevFree(w) { status := status - 1; }
      if IsFree(h.mem[next + 8]) { status := status - 1; }
      if !IsPrevFree(h.mem[next + 8]) { status := status - 1; }
      if BlockSize(w) < BLOCK_SIZE_MIN { status := status - 1; }
      SizeBits(h.m[block].size);
      var fl, sl := MappingInsert(BlockSize(w));
      if !(fl == i && sl == j) { status := status - 1; }
      assert LinkAt(h.mem, h.ctl.ls[c], k, h.at.nil);
      block := h.mem[block + 16];
      k := k + 1;
    }
  }

  /** `tlsf_check`: the bitmaps agree with each other and with the heads, and every list is good. */
  method Check(h: Heap) returns (status: int)
    requires h.Valid() && h.m != map[]
    ensures status == 0
  {
    status := 0;
    var i := 0;
    while i < FL_INDEX_COUNT
      invariant i <= FL_INDEX_COUNT && status == 0
    {
      var j := 0;
      while j < SL_INDEX_COUNT
        invariant j <= SL_INDEX_COUNT && status == 0
      {
        var s := CheckEntry(h, i, j);
        status := status + s;
        j := j + 1;
      }
      i := i + 1;
    }
  }

  method CheckEntry(h: Heap, i: nat, j: nat) returns (status: int)
    requires h.Valid() && h.m != map[] && i < FL_INDEX_COUNT && j < SL_INDEX_COUNT
    ensures status == 0
  {
    status := 0;
    AndPow2(h.ctl.flBitmap, i);
    AndPow2(h.ctl.slBitmap[i], j);
    BitsAgree(h, i, j);
    var flMap := And(h.ctl.flBitmap, Pow2(i));
    var slList := h.ctl.slBitmap[i];
    var slMap := And(slList, Pow2(j));
    var block := h.ctl.heads[32 * i + j];
    if flMap == 0 && slMap != 0 { status := status - 1; }
    if slMap == 0 {
      if block != h.ctl.nil { status := status - 1; }
      return;
    }
    if slList == 0 { status := status - 1; }
    if block == h.ctl.nil { status := status - 1; }
    var s := CheckList(h, i, j);
    status := status + s;
  }

  lemma BitsAgree(h: Heap, i: nat, j: nat)
    requires h.Valid() && h.m != map[] && i < FL_INDEX_COUNT && j < SL_INDEX_COUNT
    ensures var l := h.ctl.ls[32 * i + j];
      && (Bit(h.ctl.slBitmap[i], j) <==> l != [])
      && (l != [] ==> Bit(h.ctl.flBitmap, i) && h.ctl.slBitmap[i] != 0 && l[0] != h.ctl.nil)
  {
    var l := h.ctl.ls[32 * i + j];
    assert h.ctl.slBitmap[..][i] == h.ctl.slBitmap[i];
    if l != [] {
      ZeroBit(j);
      TiesIff(h.mem, h.m, h.ctl.ls, h.client, h.at, {}, {});
      assert ListOk(h.m, l, 32 * i + j, {});
    }
  }
}
