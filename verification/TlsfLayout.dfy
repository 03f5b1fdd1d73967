/** What the words of a TLSF pool mean: the physical tiling of the pool by blocks,
    the free lists threaded through the free blocks, and the bitmaps over them.
    Everything here is about values; `TlsfHeap` runs the allocator on them. */
module TlsfLayout {
  import opened Bits
  import opened TlsfMapping
  import opened TlsfTiling
  import opened Common

  type Memory = map<int, int>

  /** The size word: the size with the status in its two low bits. */
  function Word(b: Block): int {
    b.size + (if b.free then 1 else 0) + (if b.prevFree then 2 else 0)
  }

  /** A word of the pool. */
  ghost predicate InPool(at: Pool, a: int) {
    at.base + 8 <= a < at.end + 16 && a % 8 == 0
  }

  /** The memory the allocator may touch: the pool, and the link words of `block_null`. */
  ghost predicate Domain(mem: Memory, at: Pool) {
    && at.nil + 16 in mem && at.nil + 24 in mem
    && forall a {:trigger InPool(at, a)} :: InPool(at, a) ==> a in mem
  }

  ghost predicate Words(mem: Memory, m: Tiling) {
    forall b :: b in m ==> b + 8 in mem && mem[b + 8] == Word(m[b])
  }

  /** Back pointers of the free blocks, except those in `x`. */
  ghost predicate BackLinks(mem: Memory, m: Tiling, x: set<int>) {
    forall b {:trigger Next(m, b)} :: b in m && m[b].free && b !in x ==> Next(m, b) in mem && mem[Next(m, b)] == b
  }

  // ---- free lists ----

  function NextIn(l: seq<int>, k: nat, nil: int): int {
    if k + 1 < |l| then l[k + 1] else nil
  }

  function First(l: seq<int>, nil: int): int {
    if |l| > 0 then l[0] else nil
  }

  function PrevIn(l: seq<int>, k: nat, nil: int): int {
    if 0 < k <= |l| then l[k - 1] else nil
  }

  /** The link words of the `k`th block of list `l`. */
  ghost predicate LinkAt(mem: Memory, l: seq<int>, k: nat, nil: int)
    requires k < |l|
  {
    && l[k] + 16 in mem && mem[l[k] + 16] == NextIn(l, k, nil)
    && l[k] + 24 in mem && mem[l[k] + 24] == PrevIn(l, k, nil)
  }

  /** The doubly linked lists spell out `ls`. */
  ghost predicate Links(mem: Memory, ls: seq<seq<int>>, nil: int) {
    forall c, k {:trigger LinkAt(mem, ls[c], k, nil)} ::
      0 <= c < |ls| && 0 <= k < |ls[c]| ==> LinkAt(mem, ls[c], k, nil)
  }

  ghost predicate Heads(heads: seq<int>, ls: seq<seq<int>>, nil: int) {
    && |heads| == |ls| == CLASSES
    && forall c :: 0 <= c < CLASSES ==> heads[c] == First(ls[c], nil)
  }

  /** Both bitmaps mark exactly the non-empty lists. */
  ghost predicate Bitmaps(fl: nat, sl: seq<nat>, ls: seq<seq<int>>) {
    && |ls| == CLASSES && |sl| == FL_INDEX_COUNT && fl < Pow2(32)
    && (forall i :: 0 <= i < FL_INDEX_COUNT ==> sl[i] < Pow2(32))
    && (forall i: nat :: i < 32 ==> (Bit(fl, i) <==> i < FL_INDEX_COUNT && sl[i] != 0))
    && (forall i: nat, j: nat :: i < FL_INDEX_COUNT && j < SL_INDEX_COUNT ==>
          (Bit(sl[i], j) <==> ls[32 * i + j] != []))
  }

  /** List `c` holds free blocks of its own class, none of them in `out`, none twice. */
  ghost predicate ListOk(m: Tiling, l: seq<int>, c: nat, out: set<int>) {
    && (forall k :: 0 <= k < |l| ==>
          l[k] in m && m[l[k]].free && l[k] !in out && ClassOf(m[l[k]].size) == c)
    && (forall i, k :: 0 <= i < k < |l| ==> l[i] != l[k])
  }

  /** Each free block outside `out` is in the one list its size maps to, once; nothing else is listed. */
  ghost predicate Members(m: Tiling, ls: seq<seq<int>>, out: set<int>) {
    && |ls| == CLASSES
    && (forall c {:trigger ls[c]} :: 0 <= c < CLASSES ==> ListOk(m, ls[c], c, out))
    && (forall b {:trigger ClassOf(m[b].size)} :: b in m && m[b].free && b !in out ==>
          ClassOf(m[b].size) < CLASSES && b in ls[ClassOf(m[b].size)])
  }

  /** Client memory: payload address to size. Every range is inside one used block. */
  ghost predicate Owned(client: map<int, nat>, m: Tiling, at: Pool) {
    forall p :: p in client ==>
      p - 16 in m && p - 16 != at.end && !m[p - 16].free && client[p] <= m[p - 16].size
  }

  /** The clients hold exactly the payloads of the used blocks. */
  ghost predicate Exact(client: map<int, nat>, m: Tiling, at: Pool) {
    && Owned(client, m, at)
    && (forall b {:trigger Whole(client, m, b)} :: b in m && b + 16 in client ==> Whole(client, m, b))
    && (forall b {:trigger Taken(client, b)} :: b in m && b != at.end && !m[b].free ==> Taken(client, b))
  }

  ghost predicate Taken(client: map<int, nat>, b: int) {
    b + 16 in client
  }

  /** The client has the whole payload. */
  ghost predicate Whole(client: map<int, nat>, m: Tiling, b: int)
    requires b in m && b + 16 in client
  {
    client[b + 16] == m[b].size
  }

  /** Live ranges are pairwise disjoint, aligned and inside the pool. */
  lemma Disjoint(client: map<int, nat>, m: Tiling, at: Pool, p: int, q: int)
    requires Tiles(m, at) && Exact(client, m, at) && p in client && q in client
    ensures p != q ==> p + client[p] <= q || q + client[q] <= p
    ensures p % 8 == 0 && at.base + 16 <= p && p + client[p] <= at.end + 8
  {
    var b, c := p - 16, q - 16;
    assert b in m && c in m && (p != q ==> Apart(m, b, c)) && Apart(m, b, at.end);
    assert Aligned(m, b);
    AddWords(b);
  }

  lemma AddWords(b: int)
    requires b % 8 == 0
    ensures (b + 16) % 8 == 0
  {
  }

  lemma SplitExact(client: map<int, nat>, m: Tiling, at: Pool, b: int, size: nat)
    requires Tiles(m, at) && Exact(client, m, at) && b in m && m[b].free && Next(m, b) in m
    requires m[b].size >= 32 + size && b + 8 + size !in m
    ensures Exact(client, Split(m, b, size, true), at)
  {
    var m', r := Split(m, b, size, true), b + 8 + size;
    forall p | p in client ensures p - 16 in m' && !m'[p - 16].free && client[p] <= m'[p - 16].size {
      assert p - 16 in m && p - 16 != b;
    }
    forall c | c in m' && c + 16 in client ensures Whole(client, m', c) {
      NotHeld(client, m, at, b);
      assert c in m && Whole(client, m, c);
    }
    forall c | c in m' && c != at.end && !m'[c].free ensures Taken(client, c) {
      assert c in m && Taken(client, c);
    }
  }

  lemma UsedExact(client: map<int, nat>, m: Tiling, at: Pool, b: int)
    requires Exact(client, m, at) && b in m && m[b].free && b != at.end && m[b].size > 0 && Next(m, b) in m
    ensures Exact(client[b + 16 := m[b].size], Mark(m, b, false), at)
  {
    var client', m' := client[b + 16 := m[b].size], Mark(m, b, false);
    forall c | c in m' && c + 16 in client' ensures Whole(client', m', c) {
      if c != b { assert c in m && Whole(client, m, c); }
    }
    forall c | c in m' && c != at.end && !m'[c].free ensures Taken(client', c) {
      if c != b { assert c in m && Taken(client, c); }
    }
  }

  lemma AllocExact(client: map<int, nat>, m: Tiling, at: Pool, b: int, size: nat)
    requires Tiles(m, at) && Exact(client, m, at) && b in m && m[b].free && Next(m, b) in m
    requires 0 < size <= m[b].size && (m[b].size >= 32 + size ==> b + 8 + size !in m)
    ensures var m' := AllocAt(m, b, size); Exact(client[b + 16 := m'[b].size], m', at)
  {
    if m[b].size >= 32 + size { SplitExact(client, m, at, b, size); }
    UsedExact(client, TrimFree(m, b, size), at, b);
  }

  lemma FreedExact(client: map<int, nat>, m: Tiling, at: Pool, b: int)
    requires Exact(client, m, at) && b in m && b != at.end && m[b].size > 0 && Next(m, b) in m
    ensures Exact(client - {b + 16}, Mark(m, b, true), at)
  {
    var client', m' := client - {b + 16}, Mark(m, b, true);
    forall c | c in m' && c + 16 in client' ensures Whole(client', m', c) {
      assert c in m && Whole(client, m, c);
    }
    forall c | c in m' && c != at.end && !m'[c].free ensures Taken(client', c) {
      assert c in m && Taken(client, c);
    }
  }

  /** Free blocks are nobody's. */
  lemma AbsorbExact(client: map<int, nat>, m: Tiling, at: Pool, a: int, b: int)
    requires Exact(client, m, at) && a in m && b in m && a != b && m[a].free && m[b].free && a != at.end && b != at.end
    requires Next(m, a) == b && Next(m, b) in m
    ensures Exact(client, Absorb(m, a, b), at)
  {
    var m' := Absorb(m, a, b);
    NotHeld(client, m, at, a);
    NotHeld(client, m, at, b);
    forall c | c in m' && c + 16 in client ensures Whole(client, m', c) {
      assert c in m && Whole(client, m, c);
    }
    forall c | c in m' && c != at.end && !m'[c].free ensures Taken(client, c) {
      assert c in m && Taken(client, c);
    }
  }

  lemma MergeExact(client: map<int, nat>, m: Tiling, at: Pool, b: int)
    requires Tiles(m, at) && PrevBits(m, at) && Exact(client, m, at) && b in m && b != at.end && m[b].free
    ensures var (m', b') := MergePrev(m, at, b); Exact(client, m', at)
  {
    MergePrevKeeps(m, at, b);
    if m[b].prevFree { AbsorbExact(client, m, at, PrevOf(m, at, b), b); }
  }

  lemma FreeExact(client: map<int, nat>, m: Tiling, at: Pool, b: int)
    requires Coherent(m, at) && Exact(client, m, at) && b in m && b != at.end && !m[b].free
    ensures Exact(client - {b + 16}, FreeAt(m, at, b), at)
  {
    var client', m1 := client - {b + 16}, Mark(m, b, true);
    assert Next(m, b) in m;
    MarkKeeps(m, at, b, true);
    FreedExact(client, m, at, b);
    MergePrevKeeps(m1, at, b);
    MergeExact(client', m1, at, b);
    var (m2, b2) := MergePrev(m1, at, b);
    var n := Next(m2, b2);
    assert n in m2;
    if m2[n].free { AbsorbExact(client', m2, at, b2, n); }
  }

  /** A successful allocation of `size` bytes, `gap` bytes into free block `b`: the blocks
      and the clients before and after. */
  ghost predicate AllocStep(m: Tiling, client: map<int, nat>, m': Tiling, client': map<int, nat>,
                            b: int, gap: nat, size: nat, p: int)
  {
    && b in m && m[b].free && Next(m, b) in m
    && size % 8 == 0 && size >= BLOCK_SIZE_MIN && m[b].size >= gap + size
    && gap % 8 == 0 && (gap > 0 ==> gap >= 32)
    && m' == AllocAligned(m, b, gap, size) && Carved(m, m', b, gap, size)
    && p == b + gap + 16 && p - 16 in m' && p !in client
    && client' == client[p := m'[p - 16].size] && size <= client'[p] < size + 32
  }

  /** No free block reaches the round-up of a request. */
  ghost predicate NoFit(m: Tiling, size: nat) {
    forall b :: b in m && m[b].free ==> m[b].size < RoundUp(size)
  }

  ghost predicate FreeStep(m: Tiling, client: map<int, nat>, m': Tiling, client': map<int, nat>, at: Pool, p: int) {
    && p in client && p - 16 in m && p - 16 != at.end && Tiles(m, at) && PrevBits(m, at)
    && m' == FreeAt(m, at, p - 16) && client' == client - {p}
  }

  /** The blocks and clients after an allocation, from those before. */
  lemma AllocStepOk(m: Tiling, client: map<int, nat>, at: Pool, b: int, size: nat)
    requires Coherent(m, at) && Exact(client, m, at) && b in m && m[b].free
    requires size % 8 == 0 && BLOCK_SIZE_MIN <= size <= m[b].size
    ensures Next(m, b) in m
    ensures var m', p := AllocAt(m, b, size), b + 16;
      p - 16 in m' && var client' := client[p := m'[b].size];
      Coherent(m', at) && Exact(client', m', at) && AllocStep(m, client, m', client', b, 0, size, p)
  {
    AllocCoherent(m, at, b, size);
    assert Exact(client[b + 16 := AllocAt(m, b, size)[b].size], AllocAt(m, b, size), at) by {
      if m[b].size >= 32 + size { SplitKeeps(m, at, b, size); }
      AllocExact(client, m, at, b, size);
    }
    NotHeld(client, m, at, b);
    AlignedCarved(m, at, b, 0, size);
  }

  /** What is left of a block that was cut can be had: a request whose round-up it reaches is not refused. */
  lemma RestFits(m: Tiling, client: map<int, nat>, m': Tiling, client': map<int, nat>, b: int, gap: nat, size: nat,
                 p: int, next: nat)
    requires AllocStep(m, client, m', client', b, gap, size, p)
    requires m[b].size >= gap + size + 32 && RoundUp(next) + gap + size + 8 <= m[b].size
    ensures client'[p] == size && !NoFit(m', next)
  {
    var r := b + gap + 8 + size;
    assert r in m' && m'[r].free && m'[r].size == m[b].size - gap - size - 8;
  }

  lemma NotHeld(client: map<int, nat>, m: Tiling, at: Pool, b: int)
    requires Exact(client, m, at) && b in m && m[b].free
    ensures b + 16 !in client
  {
    var p := b + 16;
    assert p - 16 == b;
  }

  lemma GapExact(m: Tiling, client: map<int, nat>, at: Pool, b: int, gap: nat, size: nat)
    requires Tiles(m, at) && PrevBits(m, at) && Exact(client, m, at) && b in m && m[b].free && b != at.end
    requires size % 8 == 0 && size >= BLOCK_SIZE_MIN && m[b].size >= gap + size
    requires gap % 8 == 0 && gap >= 32 && Next(m, b) in m
    ensures b + gap !in m
    ensures var m' := AllocAt(Split(m, b, gap - 8, true), b + gap, size);
      Exact(client[b + gap + 16 := m'[b + gap].size], m', at)
  {
    var m1, r := Split(m, b, gap - 8, true), b + gap;
    SplitKeeps(m, at, b, gap - 8);
    SplitExact(client, m, at, b, gap - 8);
    assert Next(m1, r) == Next(m, b);
    if m1[r].size >= 32 + size { SplitKeeps(m1, at, r, size); }
    AllocExact(client, m1, at, r, size);
  }

  lemma GapStepOk(m: Tiling, client: map<int, nat>, at: Pool, b: int, gap: nat, size: nat)
    returns (m1: Tiling, m': Tiling)
    requires Coherent(m, at) && Exact(client, m, at) && b in m && m[b].free
    requires size % 8 == 0 && size >= BLOCK_SIZE_MIN && m[b].size >= gap + size
    requires gap % 8 == 0 && gap >= 32
    ensures Next(m, b) in m
    ensures m1 == Split(m, b, gap - 8, true)
    ensures b + gap in m1 && m1[b + gap].free && m1[b + gap].size >= size && Next(m1, b + gap) in m1
    ensures m' == AllocAt(m1, b + gap, size) && b + gap in m' && Coherent(m', at)
    ensures Exact(client[b + gap + 16 := m'[b + gap].size], m', at)
    ensures AllocStep(m, client, m', client[b + gap + 16 := m'[b + gap].size], b, gap, size, b + gap + 16)
  {
    AlignedCoherent(m, at, b, gap, size);
    var r := b + gap;
    m1 := Split(m, b, gap - 8, true);
    assert Next(m1, r) == Next(m, b);
    m' := AllocAt(m1, r, size);
    GapExact(m, client, at, b, gap, size);
    AlignedCarved(m, at, b, gap, size);
  }

  /** A word that no client range overlaps. */
  ghost predicate Clear(client: map<int, nat>, a: int) {
    forall p :: p in client ==> a + 8 <= p || p + client[p] <= a
  }

  /** What holds between two steps of the allocator: blocks in `x` may lack their
      back pointer, free blocks in `out` are in no list. */
  ghost predicate Shape(mem: Memory, m: Tiling, ls: seq<seq<int>>, client: map<int, nat>, at: Pool, x: set<int>,
                        out: set<int>) {
    Tiles(m, at) && Domain(mem, at) && Words(mem, m) && |ls| == CLASSES && Ties(mem, m, ls, client, at, x, out)
  }

  /** The part of it that only the steps look into, folded. */
  ghost predicate Ties(mem: Memory, m: Tiling, ls: seq<seq<int>>, client: map<int, nat>, at: Pool, x: set<int>,
                       out: set<int>) {
    forall k: nat {:trigger Unfold(k)} :: Unfold(k) ==>
      BackLinks(mem, m, x) && Owned(client, m, at) && Members(m, ls, out) && Links(mem, ls, at.nil)
  }

  lemma TiesIff(mem: Memory, m: Tiling, ls: seq<seq<int>>, client: map<int, nat>, at: Pool, x: set<int>, out: set<int>)
    ensures Ties(mem, m, ls, client, at, x, out) <==>
      BackLinks(mem, m, x) && Owned(client, m, at) && Members(m, ls, out) && Links(mem, ls, at.nil)
  {
    assert Unfold(0);
  }

  /** What it says about one block. */
  lemma ShapeAt(mem: Memory, m: Tiling, ls: seq<seq<int>>, client: map<int, nat>, at: Pool, x: set<int>, out: set<int>,
                b: int)
    requires Shape(mem, m, ls, client, at, x, out) && b in m
    ensures m[b].free ==> b + 16 !in client
    ensures m[b].free && b !in x ==> Next(m, b) in mem && mem[Next(m, b)] == b
    ensures b + 16 in client ==> client[b + 16] <= m[b].size
  {
    TiesIff(mem, m, ls, client, at, x, out);
    var p := b + 16;
    assert p in client ==> p - 16 == b;
  }

  lemma PayloadAligned(m: Tiling, at: Pool, b: int)
    requires Tiles(m, at) && b in m
    ensures b > 0 && (b + 16) % 8 == 0
  {
    assert Aligned(m, b);
  }

  // ---- a new pool ----

  lemma DomainGrows(mem: Memory, mem': Memory, at: Pool)
    requires Domain(mem, at) && mem.Keys <= mem'.Keys
    ensures Domain(mem', at)
  {
    forall a | InPool(at, a) ensures a in mem' { assert a in mem; }
  }

  /** One free block and the sentinel. */
  function NewTiling(base: int, size: nat): Tiling {
    map[base := Block(size, true, false), base + 8 + size := Block(0, false, true)]
  }

  /** The words of a new pool, as they were stored. */
  lemma PoolWords(mem: Memory, mem': Memory, at: Pool, size: nat)
    requires at.nil + 32 <= at.base + 8 && at.end == at.base + 8 + size && size >= BLOCK_SIZE_MIN
    requires mem' == mem[at.base + 8 := size + 1][at.base + 16 := at.nil][at.base + 24 := at.nil]
                        [at.nil + 24 := at.base][at.end := at.base][at.end + 8 := 2]
    ensures at.base + 8 in mem' && mem'[at.base + 8] == size + 1
    ensures at.base + 16 in mem' && mem'[at.base + 16] == at.nil && at.base + 24 in mem' && mem'[at.base + 24] == at.nil
    ensures at.end in mem' && mem'[at.end] == at.base && at.end + 8 in mem' && mem'[at.end + 8] == 2
  {
  }

  lemma NewPool(mem0: Memory, mem: Memory, ls: seq<seq<int>>, at: Pool, size: nat)
    requires 0 < at.nil && at.nil + 32 <= at.base + 8 && at.base % 8 == 0
    requires size % 8 == 0 && BLOCK_SIZE_MIN <= size < BLOCK_SIZE_MAX && at.end == at.base + 8 + size
    requires Domain(mem0, at)
    requires mem == mem0[at.base + 8 := size + 1][at.base + 16 := at.nil][at.base + 24 := at.nil]
                        [at.nil + 24 := at.base][at.end := at.base][at.end + 8 := 2]
    requires |ls| == CLASSES && ClassOf(size) < CLASSES
    requires forall c :: 0 <= c < CLASSES ==> ls[c] == if c == ClassOf(size) then [at.base] else []
    ensures var m := NewTiling(at.base, size);
      Coherent(m, at) && Exact(map[], m, at) && Shape(mem, m, ls, map[], at, {}, {})
  {
    DomainGrows(mem0, mem, at);
    PoolWords(mem0, mem, at, size);
    NewCoherent(at, size);
    NewShape(mem, ls, at, size);
  }

  lemma NewCoherent(at: Pool, size: nat)
    requires 0 < at.nil && at.nil + 32 <= at.base + 8 && at.base % 8 == 0
    requires size % 8 == 0 && BLOCK_SIZE_MIN <= size < BLOCK_SIZE_MAX && at.end == at.base + 8 + size
    ensures var m := NewTiling(at.base, size); Coherent(m, at) && Exact(map[], m, at)
  {
    var m := NewTiling(at.base, size);
    EndAligned(at.base, size);
    assert m.Keys == {at.base, at.end} && Next(m, at.base) == at.end;
    assert Aligned(m, at.base) && Aligned(m, at.end);
  }

  lemma {:induction false} EndAligned(base: int, size: nat)
    requires base % 8 == 0 && size % 8 == 0
    ensures (base + 8 + size) % 8 == 0
  {
  }

  lemma NewShape(mem: Memory, ls: seq<seq<int>>, at: Pool, size: nat)
    requires size >= BLOCK_SIZE_MIN && at.end == at.base + 8 + size
    requires Domain(mem, at) && Tiles(NewTiling(at.base, size), at)
    requires at.base + 8 in mem && mem[at.base + 8] == size + 1
    requires at.base + 16 in mem && mem[at.base + 16] == at.nil && at.base + 24 in mem && mem[at.base + 24] == at.nil
    requires at.end in mem && mem[at.end] == at.base && at.end + 8 in mem && mem[at.end + 8] == 2
    requires |ls| == CLASSES && ClassOf(size) < CLASSES
    requires forall c :: 0 <= c < CLASSES ==> ls[c] == if c == ClassOf(size) then [at.base] else []
    ensures Shape(mem, NewTiling(at.base, size), ls, map[], at, {}, {})
  {
    var m := NewTiling(at.base, size);
    forall c | 0 <= c < CLASSES ensures ListOk(m, ls[c], c, {}) { }
    forall b | b in m && m[b].free && b !in {}
      ensures ClassOf(m[b].size) < CLASSES && b in ls[ClassOf(m[b].size)] { }
    forall c, k | 0 <= c < |ls| && 0 <= k < |ls[c]| ensures LinkAt(mem, ls[c], k, at.nil) {
      assert c == ClassOf(size) && ls[c] == [at.base];
    }
    TiesIff(mem, m, ls, map[], at, {}, {});
  }

  // ---- list operations ----

  function Without(l: seq<int>, k: nat): seq<int>
    requires k < |l|
  {
    l[..k] + l[k + 1..]
  }

  /** Words that carry no link: list writes leave headers and back pointers alone. */
  lemma LinkWrite(mem: Memory, m: Tiling, x: set<int>, at: Pool, b: int, off: int, v: int)
    requires Tiles(m, at) && Domain(mem, at)
    requires Words(mem, m) && BackLinks(mem, m, x)
    requires b == at.nil || (b in m && m[b].free)
    requires off == 16 || off == 24
    ensures b + off in mem
    ensures Domain(mem[b + off := v], at)
    ensures Words(mem[b + off := v], m) && BackLinks(mem[b + off := v], m, x)
  {
    var mem' := mem[b + off := v];
    if b in m {
      assert Aligned(m, b) && Apart(m, b, at.end);
      assert InPool(at, b + off);
    }
    forall c | c in m ensures c + 8 in mem' && mem'[c + 8] == Word(m[c]) {
      if b in m && c != b { assert Apart(m, b, c); }
    }
    forall c | c in m && m[c].free && c !in x
      ensures Next(m, c) in mem' && mem'[Next(m, c)] == c
    {
      if b in m && c != b { assert Apart(m, b, c); }
    }
  }

  lemma LinkWriteClear(client: map<int, nat>, m: Tiling, at: Pool, b: int, off: int)
    requires Tiles(m, at) && Owned(client, m, at)
    requires b == at.nil || (b in m && m[b].free)
    requires off == 16 || off == 24
    ensures Clear(client, b + off)
  {
    forall p | p in client ensures b + off + 8 <= p || p + client[p] <= b + off {
      var c := p - 16;
      if b in m { assert Apart(m, b, c); }
    }
  }

  /** Two different blocks, or a block and `block_null`, are far enough apart that their link words differ. */
  lemma Spread(m: Tiling, at: Pool, b: int, c: int)
    requires Tiles(m, at)
    requires b in m && m[b].free
    requires c == at.nil || (c in m && m[c].free)
    ensures b != c ==> b + 32 <= c || c + 32 <= b || c + 24 < b + 16
  {
    if c in m && b != c { assert Apart(m, b, c); }
  }

  /** Memory after unlinking the `k`th block of list `l`. */
  function Unlinked(mem: Memory, l: seq<int>, k: nat, nil: int): Memory {
    mem[NextIn(l, k, nil) + 24 := PrevIn(l, k, nil)][PrevIn(l, k, nil) + 16 := NextIn(l, k, nil)]
  }

  lemma UnlinkedOther(mem: Memory, m: Tiling, at: Pool, l: seq<int>, k: nat, l': seq<int>, i: nat)
    requires Tiles(m, at)
    requires k < |l| && i < |l'| && LinkAt(mem, l', i, at.nil)
    requires forall j :: 0 <= j < |l| ==> l[j] in m && m[l[j]].free && l[j] != l'[i]
    requires l'[i] in m && m[l'[i]].free
    ensures LinkAt(Unlinked(mem, l, k, at.nil), l', i, at.nil)
  {
    Spread(m, at, l'[i], NextIn(l, k, at.nil));
    Spread(m, at, l'[i], PrevIn(l, k, at.nil));
  }

  lemma UnlinkedSame(mem: Memory, m: Tiling, at: Pool, l: seq<int>, c: nat, out: set<int>, k: nat, i: nat)
    requires Tiles(m, at) && ListOk(m, l, c, out)
    requires k < |l| && i < |l| && i != k && LinkAt(mem, l, i, at.nil)
    ensures LinkAt(Unlinked(mem, l, k, at.nil), Without(l, k), if i > k then i - 1 else i, at.nil)
  {
    var l', i' := Without(l, k), if i > k then i - 1 else i;
    var next, prev := NextIn(l, k, at.nil), PrevIn(l, k, at.nil);
    Spread(m, at, l[i], next);
    Spread(m, at, l[i], prev);
    assert l'[i'] == l[i];
    assert NextIn(l', i', at.nil) == if i + 1 == k then next else NextIn(l, i, at.nil);
    assert PrevIn(l', i', at.nil) == if i == k + 1 then prev else PrevIn(l, i, at.nil);
  }

  lemma WithoutOk(m: Tiling, l: seq<int>, c: nat, out: set<int>, k: nat)
    requires ListOk(m, l, c, out) && k < |l|
    ensures ListOk(m, Without(l, k), c, out + {l[k]})
    ensures forall b :: b in l && b != l[k] ==> b in Without(l, k)
  {
    var l' := Without(l, k);
    assert forall i :: 0 <= i < |l'| ==> l'[i] == l[if i >= k then i + 1 else i];
    forall b | b in l && b != l[k] ensures b in l' {
      var i :| 0 <= i < |l| && l[i] == b;
      assert l'[if i > k then i - 1 else i] == b;
    }
  }

  lemma UnlinkMembers(m: Tiling, ls: seq<seq<int>>, out: set<int>, c: nat, k: nat)
    requires Members(m, ls, out)
    requires c < CLASSES && k < |ls[c]|
    ensures Members(m, ls[c := Without(ls[c], k)], out + {ls[c][k]})
  {
    WithoutOk(m, ls[c], c, out, k);
    var ls' := ls[c := Without(ls[c], k)];
    forall d | 0 <= d < CLASSES ensures ListOk(m, ls'[d], d, out + {ls[c][k]}) {
      if d != c { assert ListOk(m, ls[d], d, out); }
    }
  }

  lemma UnlinkOk(mem: Memory, m: Tiling, ls: seq<seq<int>>, out: set<int>, at: Pool, c: nat, k: nat)
    requires Tiles(m, at) && Members(m, ls, out) && Links(mem, ls, at.nil)
    requires c < CLASSES && k < |ls[c]|
    ensures Links(Unlinked(mem, ls[c], k, at.nil), ls[c := Without(ls[c], k)], at.nil)
  {
    var ls' := ls[c := Without(ls[c], k)];
    var mem' := Unlinked(mem, ls[c], k, at.nil);
    forall d, i | 0 <= d < |ls'| && 0 <= i < |ls'[d]|
      ensures LinkAt(mem', ls'[d], i, at.nil)
    {
      var i0 := if d == c && i >= k then i + 1 else i;
      assert LinkAt(mem, ls[d], i0, at.nil);
      if d == c {
        UnlinkedSame(mem, m, at, ls[c], c, out, k, i0);
      } else {
        UnlinkedOther(mem, m, at, ls[c], k, ls[d], i);
      }
    }
  }

  lemma Find(m: Tiling, ls: seq<seq<int>>, at: Pool, out: set<int>, b: int) returns (k: nat)
    requires Tiles(m, at) && Members(m, ls, out) && b in m && m[b].free && b !in out
    ensures ClassOf(m[b].size) < CLASSES
    ensures var l := ls[ClassOf(m[b].size)];
      k < |l| && l[k] == b && at.nil !in l && forall i :: 0 < i < |l| ==> l[i] != l[0]
  {
    var l := ls[ClassOf(m[b].size)];
    assert ListOk(m, l, ClassOf(m[b].size), out);
    k :| 0 <= k < |l| && l[k] == b;
  }

  /** Taking the `k`th block out of list `c`: the stores are allowed and keep the shape. */
  lemma Unlink(mem: Memory, m: Tiling, ls: seq<seq<int>>, client: map<int, nat>, at: Pool, x: set<int>, out: set<int>,
               c: nat, k: nat)
    requires Shape(mem, m, ls, client, at, x, out) && c < CLASSES && k < |ls[c]|
    ensures var next, prev := NextIn(ls[c], k, at.nil), PrevIn(ls[c], k, at.nil);
      && next + 24 in mem && prev + 16 in mem
      && Clear(client, next + 24) && Clear(client, prev + 16)
    ensures LinkAt(mem, ls[c], k, at.nil)
    ensures Shape(Unlinked(mem, ls[c], k, at.nil), m, ls[c := Without(ls[c], k)], client, at, x, out + {ls[c][k]})
  {
    var next, prev := NextIn(ls[c], k, at.nil), PrevIn(ls[c], k, at.nil);
    TiesIff(mem, m, ls, client, at, x, out);
    assert ListOk(m, ls[c], c, out);
    LinkWriteClear(client, m, at, next, 24);
    LinkWriteClear(client, m, at, prev, 16);
    TwoLinkWrites(mem, m, x, at, next, prev);
    UnlinkOk(mem, m, ls, out, at, c, k);
    UnlinkMembers(m, ls, out, c, k);
    TiesIff(Unlinked(mem, ls[c], k, at.nil), m, ls[c := Without(ls[c], k)], client, at, x, out + {ls[c][k]});
  }

  /** The stores of a linking leave headers and back pointers alone. */
  lemma ThreeLinkWrites(mem: Memory, m: Tiling, x: set<int>, at: Pool, b: int, current: int)
    requires Tiles(m, at) && Domain(mem, at) && Words(mem, m) && BackLinks(mem, m, x) && b in m && m[b].free
    requires current == at.nil || (current in m && m[current].free)
    ensures b + 16 in mem && b + 24 in mem && current + 24 in mem
    ensures var mem' := mem[b + 16 := current][b + 24 := at.nil][current + 24 := b];
      Domain(mem', at) && Words(mem', m) && BackLinks(mem', m, x)
  {
    var mem1 := mem[b + 16 := current];
    var mem2 := mem1[b + 24 := at.nil];
    LinkWrite(mem, m, x, at, b, 16, current);
    LinkWrite(mem1, m, x, at, b, 24, at.nil);
    LinkWrite(mem2, m, x, at, current, 24, b);
    LinkWrite(mem, m, x, at, b, 24, at.nil);
    LinkWrite(mem, m, x, at, current, 24, b);
  }

  /** Everything that holds when a free block leaves its list `c`. */
  lemma TakeOut(mem: Memory, m: Tiling, ls: seq<seq<int>>, client: map<int, nat>, at: Pool, x: set<int>, out: set<int>,
                b: int, c: nat)
    returns (k: nat, next: int, prev: int)
    requires Shape(mem, m, ls, client, at, x, out) && b in m && m[b].free && b !in out && c == ClassOf(m[b].size)
    ensures c < CLASSES && k < |ls[c]| && ls[c][k] == b && at.nil !in ls[c]
    ensures forall i :: 0 < i < |ls[c]| ==> ls[c][i] != ls[c][0]
    ensures next == NextIn(ls[c], k, at.nil) && prev == PrevIn(ls[c], k, at.nil)
    ensures next + 24 in mem && prev + 16 in mem && Clear(client, next + 24) && Clear(client, prev + 16)
    ensures LinkAt(mem, ls[c], k, at.nil)
    ensures Shape(Unlinked(mem, ls[c], k, at.nil), m, ls[c := Without(ls[c], k)], client, at, x, out + {b})
  {
    TiesIff(mem, m, ls, client, at, x, out);
    k := Find(m, ls, at, out, b);
    next, prev := NextIn(ls[c], k, at.nil), PrevIn(ls[c], k, at.nil);
    Unlink(mem, m, ls, client, at, x, out, c, k);
  }

  /** Both stores of an unlinking leave headers and back pointers alone. */
  lemma TwoLinkWrites(mem: Memory, m: Tiling, x: set<int>, at: Pool, next: int, prev: int)
    requires Tiles(m, at) && Domain(mem, at) && Words(mem, m) && BackLinks(mem, m, x)
    requires (next == at.nil || (next in m && m[next].free)) && (prev == at.nil || (prev in m && m[prev].free))
    ensures next + 24 in mem && prev + 16 in mem
    ensures var mem' := mem[next + 24 := prev][prev + 16 := next];
      Domain(mem', at) && Words(mem', m) && BackLinks(mem', m, x)
  {
    LinkWrite(mem, m, x, at, next, 24, prev);
    LinkWrite(mem, m, x, at, prev, 16, next);
    LinkWrite(mem[next + 24 := prev], m, x, at, prev, 16, next);
  }

  /** Memory after linking `b` in front of list `l`. */
  function Linked(mem: Memory, l: seq<int>, b: int, nil: int): Memory {
    mem[b + 16 := First(l, nil)][b + 24 := nil][First(l, nil) + 24 := b]
  }

  lemma LinkedAt(mem: Memory, m: Tiling, ls: seq<seq<int>>, out: set<int>, at: Pool, b: int, c: nat, d: nat, i: nat)
    requires Tiles(m, at) && Members(m, ls, out) && Links(mem, ls, at.nil)
    requires b in out && b in m && m[b].free && c < CLASSES && d < CLASSES && i < |ls[d]|
    ensures
      var l' := if d == c then [b] + ls[c] else ls[d];
      LinkAt(Linked(mem, ls[c], b, at.nil), l', if d == c then i + 1 else i, at.nil)
  {
    assert LinkAt(mem, ls[d], i, at.nil);
    var y := ls[d][i];
    Spread(m, at, y, b);
    Spread(m, at, y, First(ls[c], at.nil));
    if d != c {
      assert y != First(ls[c], at.nil);
    }
  }

  lemma LinkMembers(m: Tiling, ls: seq<seq<int>>, out: set<int>, b: int)
    requires Members(m, ls, out)
    requires b in out && b in m && m[b].free && ClassOf(m[b].size) < CLASSES
    ensures var c := ClassOf(m[b].size); Members(m, ls[c := [b] + ls[c]], out - {b})
  {
    var c := ClassOf(m[b].size);
    var ls' := ls[c := [b] + ls[c]];
    forall y | y in m && m[y].free && y !in out - {b}
      ensures ClassOf(m[y].size) < CLASSES && y in ls'[ClassOf(m[y].size)]
    {
      var d := ClassOf(m[y].size);
      if y == b {
        assert ls'[c][0] == b;
      } else {
        var i :| 0 <= i < |ls[d]| && ls[d][i] == y;
        assert ls'[d][if d == c then i + 1 else i] == y;
      }
    }
  }

  lemma LinkOk(mem: Memory, m: Tiling, ls: seq<seq<int>>, out: set<int>, at: Pool, b: int, c: nat)
    requires Tiles(m, at) && Members(m, ls, out) && Links(mem, ls, at.nil)
    requires b in out && b in m && m[b].free && c < CLASSES
    ensures Links(Linked(mem, ls[c], b, at.nil), ls[c := [b] + ls[c]], at.nil)
  {
    var ls' := ls[c := [b] + ls[c]];
    var mem' := Linked(mem, ls[c], b, at.nil);
    forall d, i | 0 <= d < |ls'| && 0 <= i < |ls'[d]|
      ensures LinkAt(mem', ls'[d], i, at.nil)
    {
      if d == c && i == 0 {
        if |ls[c]| > 0 { assert ls[c][0] in m; }
        Spread(m, at, b, First(ls[c], at.nil));
      } else {
        LinkedAt(mem, m, ls, out, at, b, c, d, if d == c then i - 1 else i);
      }
    }
  }

  /** Putting `b` at the head of its list: the stores are allowed and keep the shape. */
  lemma Link(mem: Memory, m: Tiling, ls: seq<seq<int>>, client: map<int, nat>, at: Pool, x: set<int>, out: set<int>,
             b: int, c: nat, nil: int)
    returns (first: int)
    requires Shape(mem, m, ls, client, at, x, out)
    requires b in out && b in m && m[b].free && c == ClassOf(m[b].size) < CLASSES && nil == at.nil
    ensures first == First(ls[c], nil) && b + 16 in mem && b + 24 in mem && first + 24 in mem
    ensures Clear(client, b + 16) && Clear(client, b + 24) && Clear(client, first + 24)
    ensures Shape(Linked(mem, ls[c], b, nil), m, ls[c := [b] + ls[c]], client, at, x, out - {b})
  {
    first := First(ls[c], nil);
    var current := first;
    TiesIff(mem, m, ls, client, at, x, out);
    assert ListOk(m, ls[c], c, out);
    LinkWriteClear(client, m, at, b, 16);
    LinkWriteClear(client, m, at, b, 24);
    LinkWriteClear(client, m, at, current, 24);
    ThreeLinkWrites(mem, m, x, at, b, current);
    LinkOk(mem, m, ls, out, at, b, c);
    LinkMembers(m, ls, out, b);
    TiesIff(Linked(mem, ls[c], b, at.nil), m, ls[c := [b] + ls[c]], client, at, x, out - {b});
  }

  // ---- bitmaps ----

  /** `bitmap |= 1U << j` and `bitmap &= ~(1U << j)`. */
  function SetBit(w: nat, j: nat): nat { Or(w, Pow2(j)) }

  function ClearBit(w: nat, j: nat): nat { AndNot(w, Pow2(j)) }

  lemma SetBitOk(w: nat, j: nat)
    requires w < Pow2(32) && j < 32
    ensures SetBit(w, j) < Pow2(32) && SetBit(w, j) != 0
    ensures forall i: nat :: Bit(SetBit(w, j), i) <==> Bit(w, i) || i == j
  {
    Pow2Monotone(j, 32);
    OrBound(32, w, Pow2(j));
    forall i: nat ensures Bit(SetBit(w, j), i) <==> Bit(w, i) || i == j {
      OrBit(w, Pow2(j), i);
      Pow2Bit(j, i);
    }
    assert Bit(SetBit(w, j), j);
    ZeroBit(j);
  }

  lemma ClearBitOk(w: nat, j: nat)
    requires w < Pow2(32) && j < 32
    ensures ClearBit(w, j) < Pow2(32)
    ensures forall i: nat :: Bit(ClearBit(w, j), i) <==> Bit(w, i) && i != j
  {
    AndNotBound(w, Pow2(j));
    forall i: nat ensures Bit(ClearBit(w, j), i) <==> Bit(w, i) && i != j {
      AndNotBit(w, Pow2(j), i);
      Pow2Bit(j, i);
    }
  }

  /** A list got a new member. */
  lemma BitmapsInsert(fl: nat, sl: seq<nat>, ls: seq<seq<int>>, i: nat, j: nat, l: seq<int>)
    requires Bitmaps(fl, sl, ls) && i < FL_INDEX_COUNT && j < SL_INDEX_COUNT && l != []
    ensures Bitmaps(SetBit(fl, i), sl[i := SetBit(sl[i], j)], ls[32 * i + j := l])
  {
    SetBitOk(fl, i);
    SetBitOk(sl[i], j);
  }

  /** A list lost a member but is not empty. */
  lemma BitmapsKeep(fl: nat, sl: seq<nat>, ls: seq<seq<int>>, i: nat, j: nat, l: seq<int>)
    requires Bitmaps(fl, sl, ls) && i < FL_INDEX_COUNT && j < SL_INDEX_COUNT
    requires l != [] && ls[32 * i + j] != []
    ensures Bitmaps(fl, sl, ls[32 * i + j := l])
  {
  }

  /** A list became empty. */
  lemma BitmapsClear(fl: nat, sl: seq<nat>, ls: seq<seq<int>>, i: nat, j: nat)
    requires Bitmaps(fl, sl, ls) && i < FL_INDEX_COUNT && j < SL_INDEX_COUNT
    requires ls[32 * i + j] != []
    ensures
      var s := ClearBit(sl[i], j);
      Bitmaps(if s == 0 then ClearBit(fl, i) else fl, sl[i := s], ls[32 * i + j := []])
  {
    ClearBitOk(fl, i);
    ClearBitOk(sl[i], j);
    if sl[i] == 0 { ZeroBit(j); }
  }
}
