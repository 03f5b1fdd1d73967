/** The physical side of the TLSF heap: the blocks that tile the pool, and what
    splitting, coalescing and marking do to them. */
module TlsfTiling {
  import opened TlsfMapping

  /** A block header: payload size, and the two status bits of the size word. */
  datatype Block = Block(size: nat, free: bool, prevFree: bool)

  /** Blocks by header address. A block at `b` owns the bytes from `b + 8` to
      `Next(b) + 8`: its size word, then its payload, whose last word is the
      `prev_phys_block` field of the next header. */
  type Tiling = map<int, Block>

  /** First block, sentinel, and `block_null` in the control structure. */
  datatype Pool = Pool(base: int, end: int, nil: int)

  function Next(m: Tiling, b: int): int
    requires b in m
  {
    b + 8 + m[b].size
  }

  /** `m` tiles the pool from `base` up to the zero-size sentinel at `end`. */
  ghost predicate Tiles(m: Tiling, at: Pool) {
    && 0 < at.nil && at.nil + 32 <= at.base + 8
    && at.end - at.base - 8 < BLOCK_SIZE_MAX
    && at.base in m && at.end in m && m[at.end].size == 0 && !m[at.end].free
    && (forall b :: b in m ==> at.base <= b <= at.end)
    && (forall b {:trigger Aligned(m, b)} :: b in m ==> Aligned(m, b))
    && (forall b :: b in m && b != at.end ==> BLOCK_SIZE_MIN <= m[b].size < BLOCK_SIZE_MAX)
    && (forall b {:trigger Next(m, b)} :: b in m && b != at.end ==> Next(m, b) in m)
    && (forall b, c {:trigger Apart(m, b, c)} :: b in m && c in m && b != c ==> Apart(m, b, c))
  }

  /** Block address and size are multiples of the word size. */
  ghost predicate Aligned(m: Tiling, b: int)
    requires b in m
  {
    b % 8 == 0 && m[b].size % 8 == 0
  }

  /** Two blocks share no byte. */
  ghost predicate Apart(m: Tiling, b: int, c: int)
    requires b in m && c in m
  {
    b + 8 + m[b].size <= c || c + 8 + m[c].size <= b
  }

  /** Each prev-free bit agrees with the block physically before. */
  ghost predicate PrevBits(m: Tiling, at: Pool) {
    && at.base in m && !m[at.base].prevFree
    && forall b {:trigger Next(m, b)} :: b in m && b != at.end && Next(m, b) in m ==>
         m[Next(m, b)].prevFree == m[b].free
  }

  /** No two neighbours are both free. */
  ghost predicate Coalesced(m: Tiling) {
    forall b :: b in m ==> !(m[b].free && m[b].prevFree)
  }

  /** The physical part of the heap invariant. */
  ghost predicate Coherent(m: Tiling, at: Pool) {
    Tiles(m, at) && PrevBits(m, at) && Coalesced(m)
  }

  // ---- steps ----

  /** Marking `b` free or used, with the prev-free bit of its neighbour. */
  function Mark(m: Tiling, b: int, free: bool): Tiling
    requires b in m && m[b].size > 0 && Next(m, b) in m
  {
    m[Next(m, b) := m[Next(m, b)].(prevFree := free)][b := m[b].(free := free)]
  }

  /** `b` keeps `size` bytes; the rest is a new block. */
  function Cut(m: Tiling, b: int, size: nat, free: bool, prevFree: bool): Tiling
    requires b in m && m[b].size >= size + 8
  {
    m[b := m[b].(size := size)][b + 8 + size := Block(m[b].size - size - 8, free, prevFree)]
  }

  /** After a split the second part is free; its prev-free bit `g` is whatever memory held there. */
  function Split(m: Tiling, b: int, size: nat, g: bool): Tiling
    requires b in m && m[b].size >= size + 32 && Next(m, b) in m
  {
    m[b := m[b].(size := size)]
     [b + 8 + size := Block(m[b].size - size - 8, true, g)]
     [Next(m, b) := m[Next(m, b)].(prevFree := true)]
  }

  lemma SplitBit(m: Tiling, b: int, size: nat, g: bool)
    requires b in m && m[b].size >= size + 32 && Next(m, b) in m
    ensures var m', r := Split(m, b, size, g), b + 8 + size;
      m'[r := m'[r].(prevFree := true)] == Split(m, b, size, true)
  {
  }

  lemma SplitIsCut(m: Tiling, b: int, size: nat, f: bool, g: bool)
    requires b in m && m[b].size >= size + 32 && Next(m, b) in m
    ensures var m', r := Cut(m, b, size, f, g), b + 8 + size;
      Next(m', r) == Next(m, b) && Mark(m', r, true) == Split(m, b, size, g)
  {
  }

  /** `p` takes over the storage of the block after it. */
  function Absorb(m: Tiling, p: int, b: int): Tiling
    requires p in m && b in m && p != b
  {
    (m - {b})[p := m[p].(size := m[p].size + m[b].size + 8)]
  }

  // ---- the steps keep the tiling ----

  lemma TilesSetHeader(m: Tiling, at: Pool, b: int, r: Block)
    requires Tiles(m, at) && b in m && r.size == m[b].size && (b == at.end ==> !r.free)
    ensures Tiles(m[b := r], at)
  {
    var m' := m[b := r];
    forall c | c in m' ensures Aligned(m', c) { assert Aligned(m, c); }
    forall c | c in m' && c != at.end ensures Next(m', c) in m' { assert Next(m, c) in m; }
    forall c, d | c in m' && d in m' && c != d ensures Apart(m', c, d) { assert Apart(m, c, d); }
  }

  lemma TilesCut(m: Tiling, at: Pool, b: int, size: nat, free: bool, prevFree: bool)
    requires Tiles(m, at) && b in m && b != at.end
    requires size % 8 == 0 && size >= BLOCK_SIZE_MIN && m[b].size >= 32 + size
    ensures Tiles(Cut(m, b, size, free, prevFree), at)
    ensures b + 8 + size !in m
  {
    var r := b + 8 + size;
    assert Next(m, b) in m && Aligned(m, b);
    assert r in m ==> Apart(m, b, r);
    var m' := Cut(m, b, size, free, prevFree);
    assert Apart(m, b, Next(m, b));
    forall c | c in m' ensures Aligned(m', c) { if c != r { assert Aligned(m, c); } }
    forall c | c in m' && c != at.end ensures Next(m', c) in m' { if c != r && c != b { assert Next(m, c) in m; } }
    forall c, d | c in m' && d in m' && c != d ensures Apart(m', c, d) {
      if c != r && d != r { assert Apart(m, c, d); }
      else if c == r && d != b { assert Apart(m, b, d); }
      else if d == r && c != b { assert Apart(m, b, c); }
    }
  }

  lemma TilesAbsorb(m: Tiling, at: Pool, p: int, b: int)
    requires Tiles(m, at) && p in m && b in m && p != at.end && b != at.end && Next(m, p) == b
    ensures Next(m, b) in m && Tiles(Absorb(m, p, b), at)
  {
    var m' := Absorb(m, p, b);
    assert Next(m, b) in m && Aligned(m, b) && Aligned(m, p);
    forall c | c in m' ensures Aligned(m', c) { assert Aligned(m, c); }
    forall c | c in m' && c != at.end ensures Next(m', c) in m' {
      if c != p {
        assert Next(m, c) in m;
        assert Apart(m, c, p) && Apart(m, c, b);
      }
    }
    forall c, d | c in m' && d in m' && c != d ensures Apart(m', c, d) {
      assert Apart(m, c, d);
      if c == p { assert Apart(m, b, d); }
      if d == p { assert Apart(m, b, c); }
    }
  }

  // ---- predecessors ----

  lemma {:induction false} Largest(s: set<int>, b: int) returns (p: int)
    requires b in s
    ensures p in s && forall c :: c in s ==> c <= p
    decreases s
  {
    if c :| c in s && c > b {
      p := Largest(s - {b}, c);
      assert c in s - {b};
      assert forall d :: d in s && d != b ==> d in s - {b};
    } else {
      p := b;
    }
  }

  /** Every block but the first has one right before it. */
  lemma Predecessor(m: Tiling, at: Pool, b: int) returns (p: int)
    requires Tiles(m, at) && b in m && b != at.base
    ensures p in m && p != at.end && Next(m, p) == b
  {
    var below := set c | c in m && c < b;
    p := Largest(below, at.base);
    var n := Next(m, p);
    assert n in m && Apart(m, p, b);
    assert n < b ==> n in below;
  }

  /** The block right before `b`. */
  ghost function PrevOf(m: Tiling, at: Pool, b: int): (p: int)
    requires Tiles(m, at) && b in m && b != at.base
    ensures p in m && p != at.end && Next(m, p) == b
  {
    assert exists p :: p in m && p != at.end && Next(m, p) == b by { var p := Predecessor(m, at, b); }
    var p :| p in m && p != at.end && Next(m, p) == b;
    p
  }

  lemma PrevUnique(m: Tiling, at: Pool, p: int, q: int)
    requires Tiles(m, at) && p in m && q in m && p != at.end && q != at.end && Next(m, p) == Next(m, q)
    ensures p == q
  {
    assert p != q ==> Apart(m, p, q);
  }

  // ---- the steps keep the prev-free bits ----

  lemma MarkKeeps(m: Tiling, at: Pool, b: int, free: bool)
    requires Tiles(m, at) && PrevBits(m, at) && b in m && b != at.end
    ensures Next(m, b) in m
    ensures Tiles(Mark(m, b, free), at) && PrevBits(Mark(m, b, free), at)
  {
    var n := Next(m, b);
    assert n in m;
    TilesSetHeader(m, at, n, m[n].(prevFree := free));
    TilesSetHeader(m[n := m[n].(prevFree := free)], at, b, m[b].(free := free));
    var m' := Mark(m, b, free);
    assert Apart(m, at.base, b) || b == at.base;
    forall c | c in m' && c != at.end && Next(m', c) in m' ensures m'[Next(m', c)].prevFree == m'[c].free {
      assert Next(m', c) == Next(m, c);
      assert c != b ==> Apart(m, c, b);
    }
  }

  lemma AbsorbKeeps(m: Tiling, at: Pool, p: int, b: int)
    requires Tiles(m, at) && PrevBits(m, at)
    requires p in m && p != at.end && Next(m, p) == b && b in m && m[p].free && m[b].free
    ensures Tiles(Absorb(m, p, b), at) && PrevBits(Absorb(m, p, b), at)
    ensures Next(m, b) in m && Next(Absorb(m, p, b), p) == Next(m, b)
  {
    TilesAbsorb(m, at, p, b);
    var m' := Absorb(m, p, b);
    forall c | c in m' && c != at.end && Next(m', c) in m' ensures m'[Next(m', c)].prevFree == m'[c].free {
      if c == p { assert Next(m', p) == Next(m, b); }
      else { assert Next(m', c) == Next(m, c); }
    }
  }

  // ---- allocating ----

  /** Trims a free block down to `size` bytes when what is left makes a block. */
  function TrimFree(m: Tiling, b: int, size: nat): Tiling
    requires b in m && Next(m, b) in m
  {
    if m[b].size >= 32 + size then Split(m, b, size, true) else m
  }

  /** What `tlsf_malloc` does to the free block it found. */
  function AllocAt(m: Tiling, b: int, size: nat): Tiling
    requires b in m && size > 0 && m[b].size >= size && Next(m, b) in m
  {
    Mark(TrimFree(m, b, size), b, false)
  }

  lemma SplitKeeps(m: Tiling, at: Pool, b: int, size: nat)
    requires Tiles(m, at) && PrevBits(m, at) && b in m && b != at.end && m[b].free
    requires size % 8 == 0 && size >= BLOCK_SIZE_MIN && m[b].size >= 32 + size
    ensures Next(m, b) in m && b + 8 + size !in m
    ensures Tiles(Split(m, b, size, true), at) && PrevBits(Split(m, b, size, true), at)
  {
    var n, r := Next(m, b), b + 8 + size;
    var m1 := Cut(m, b, size, true, true);
    var m' := Split(m, b, size, true);
    assert n in m;
    TilesCut(m, at, b, size, true, true);
    TilesSetHeader(m1, at, n, m1[n].(prevFree := true));
    assert m' == m1[n := m1[n].(prevFree := true)];
    assert Apart(m, at.base, b) || b == at.base;
    forall c | c in m' && c != at.end && Next(m', c) in m' ensures m'[Next(m', c)].prevFree == m'[c].free {
      if c != b && c != r {
        assert Next(m', c) == Next(m, c) && Next(m, c) in m;
        assert Apart(m, c, b);
      }
    }
  }

  /** Allocating from a free block keeps the physical invariant. */
  lemma AllocCoherent(m: Tiling, at: Pool, b: int, size: nat)
    requires Coherent(m, at) && b in m && m[b].free
    requires size % 8 == 0 && BLOCK_SIZE_MIN <= size <= m[b].size
    ensures Next(m, b) in m && Coherent(AllocAt(m, b, size), at)
  {
    var n := Next(m, b);
    assert n in m;
    if m[b].size >= 32 + size { SplitKeeps(m, at, b, size); }
    MarkKeeps(TrimFree(m, b, size), at, b, false);
  }

  // ---- freeing ----

  /** Coalescing a free block with the block before it. */
  ghost function MergePrev(m: Tiling, at: Pool, b: int): (Tiling, int)
    requires Tiles(m, at) && PrevBits(m, at) && b in m
  {
    if m[b].prevFree then (Absorb(m, PrevOf(m, at, b), b), PrevOf(m, at, b)) else (m, b)
  }

  /** Coalescing a free block with the block after it. */
  function MergeNext(m: Tiling, b: int): Tiling
    requires b in m && m[b].size > 0
  {
    var n := Next(m, b);
    if n in m && m[n].free then Absorb(m, b, n) else m
  }

  lemma MergePrevKeeps(m: Tiling, at: Pool, b: int)
    requires Tiles(m, at) && PrevBits(m, at) && b in m && b != at.end && m[b].free
    ensures var (m', p) := MergePrev(m, at, b);
      && Tiles(m', at) && PrevBits(m', at) && p in m' && p != at.end && m'[p].free && Next(m', p) == Next(m, b)
      && (m[b].prevFree ==> p in m && m[p].free && Next(m, p) == b)
  {
    if m[b].prevFree {
      var p := PrevOf(m, at, b);
      assert Next(m, p) == b;
      AbsorbKeeps(m, at, p, b);
    }
  }

  /** What `tlsf_free` does to the blocks. */
  ghost function FreeAt(m: Tiling, at: Pool, b: int): Tiling
    requires Tiles(m, at) && PrevBits(m, at) && b in m && b != at.end
  {
    MarkKeeps(m, at, b, true);
    var m1 := Mark(m, b, true);
    MergePrevKeeps(m1, at, b);
    var (m2, b2) := MergePrev(m1, at, b);
    MergeNext(m2, b2)
  }

  /** Freeing a used block keeps the physical invariant. */
  lemma FreeCoherent(m: Tiling, at: Pool, b: int)
    requires Coherent(m, at) && b in m && b != at.end && !m[b].free
    ensures Coherent(FreeAt(m, at, b), at)
  {
    MarkKeeps(m, at, b, true);
    var m1 := Mark(m, b, true);
    MergePrevKeeps(m1, at, b);
    var (m2, b2) := MergePrev(m1, at, b);
    var n := Next(m1, b);
    assert n == Next(m, b) == Next(m2, b2);
    assert forall c :: c in m2 && c != n ==> !(m2[c].free && m2[c].prevFree) by {
      if m1[b].prevFree { assert Apart(m, b2, b); }
    }
    assert n in m2 && m2[n].prevFree;
    if m2[n].free { AbsorbKeeps(m2, at, b2, n); }
    var m3 := MergeNext(m2, b2);
    if m2[n].free {
      var e := Next(m2, n);
      assert e in m2 && Apart(m2, n, e) && !m2[e].free;
    }
  }

  // ---- aligned allocation ----

  /** What `tlsf_memalign` does to the free block it found, skipping `gap` bytes. */
  function AllocAligned(m: Tiling, b: int, gap: nat, size: nat): Tiling
    requires b in m && size > 0 && m[b].size >= size + gap && Next(m, b) in m
    requires gap > 0 ==> gap >= 32 && m[b].size >= gap + 24
  {
    if gap == 0 then AllocAt(m, b, size) else AllocAt(Split(m, b, gap - 8, true), b + gap, size)
  }

  lemma AlignedCoherent(m: Tiling, at: Pool, b: int, gap: nat, size: nat)
    requires Coherent(m, at) && b in m && m[b].free
    requires size % 8 == 0 && size >= BLOCK_SIZE_MIN && m[b].size >= size + gap
    requires gap % 8 == 0 && (gap > 0 ==> gap >= 32)
    ensures Next(m, b) in m && Coherent(AllocAligned(m, b, gap, size), at)
  {
    assert Next(m, b) in m;
    if gap == 0 {
      AllocCoherent(m, at, b, size);
    } else {
      GapKeeps(m, at, b, gap, size);
      assert m[Next(m, b)].prevFree;
      GapCoalesced(m, b, gap, size);
    }
  }

  /** Free block `b` after `size` bytes, `gap` bytes into it, were handed out: the gap is a free block, and so is what
      is left behind them if that makes a block, exactly as large as they are; otherwise it is handed out as well.
      Nothing else changes but the mark of the block behind. */
  ghost predicate Carved(m: Tiling, m': Tiling, b: int, gap: nat, size: nat)
    requires b in m
  {
    var p, n, rest: int := b + gap, b + 8 + m[b].size, m[b].size - gap - size;
    && p in m' && !m'[p].free && m'[p].size == (if rest >= 32 then size else m[b].size - gap)
    && (gap > 0 ==> b in m' && m'[b].free && m'[b].size == gap - 8)
    && (rest >= 32 ==> p + 8 + size in m' && m'[p + 8 + size].free && m'[p + 8 + size].size == rest - 8)
    && n in m && n in m' && m'[n] == m[n].(prevFree := rest >= 32)
    && (forall c :: c in m && c != b && c != n ==> c in m' && m'[c] == m[c])
    && (forall c :: c in m' && c !in m ==> c == p || (rest >= 32 && c == p + 8 + size))
  }

  lemma AlignedCarved(m: Tiling, at: Pool, b: int, gap: nat, size: nat)
    requires Tiles(m, at) && PrevBits(m, at) && b in m && m[b].free && b != at.end
    requires size % 8 == 0 && size >= BLOCK_SIZE_MIN && m[b].size >= size + gap
    requires gap % 8 == 0 && (gap > 0 ==> gap >= 32)
    ensures Next(m, b) in m && Carved(m, AllocAligned(m, b, gap, size), b, gap, size)
  {
    assert Next(m, b) in m && Apart(m, b, Next(m, b));
    if gap == 0 {
      AllocCarved(m, at, b, size);
    } else {
      var lead, r := gap - 8, b + gap;
      WordLess(gap);
      SplitKeeps(m, at, b, lead);
      var m1 := Split(m, b, lead, true);
      assert r == b + 8 + lead && Next(m1, r) == Next(m, b);
      AllocCarved(m1, at, r, size);
      GapCarved(m, AllocAt(m1, r, size), b, gap, size);
    }
  }

  lemma GapCarved(m: Tiling, m': Tiling, b: int, gap: nat, size: nat)
    requires b in m && m[b].free && gap >= 32 && m[b].size >= size + gap && size >= BLOCK_SIZE_MIN && Next(m, b) in m
    requires b + gap !in m && Carved(Split(m, b, gap - 8, true), m', b + gap, 0, size)
    ensures Carved(m, m', b, gap, size)
  {
    var m1, n := Split(m, b, gap - 8, true), Next(m, b);
    assert m1[b + gap].size == m[b].size - gap && m1[n] == m[n].(prevFree := true);
    assert m'[b] == m1[b];
    forall c | c in m && c != b && c != n ensures c in m' && m'[c] == m[c] {
      assert m1[c] == m[c];
    }
  }

  lemma AllocCarved(m: Tiling, at: Pool, b: int, size: nat)
    requires Tiles(m, at) && PrevBits(m, at) && b in m && m[b].free && b != at.end
    requires size % 8 == 0 && BLOCK_SIZE_MIN <= size <= m[b].size
    ensures Next(m, b) in m && Carved(m, AllocAt(m, b, size), b, 0, size)
  {
    var n := Next(m, b);
    assert n in m && Apart(m, b, n);
    if m[b].size >= 32 + size {
      SplitKeeps(m, at, b, size);
      var m1, r := Split(m, b, size, true), b + 8 + size;
      assert Next(m1, b) == r && r != n;
    }
  }

  lemma GapKeeps(m: Tiling, at: Pool, b: int, gap: nat, size: nat)
    requires Tiles(m, at) && PrevBits(m, at) && b in m && m[b].free && b != at.end
    requires size % 8 == 0 && size >= BLOCK_SIZE_MIN && m[b].size >= size + gap && gap % 8 == 0 && gap >= 32
    ensures Next(m, b) in m && Tiles(AllocAligned(m, b, gap, size), at) && PrevBits(AllocAligned(m, b, gap, size), at)
  {
    var lead, r := gap - 8, b + gap;
    WordLess(gap);
    SplitKeeps(m, at, b, lead);
    var m1 := Split(m, b, lead, true);
    assert r == b + 8 + lead && Next(m1, r) == Next(m, b);
    AllocKeeps(m1, at, r, size);
  }

  lemma AllocKeeps(m: Tiling, at: Pool, b: int, size: nat)
    requires Tiles(m, at) && PrevBits(m, at) && b in m && m[b].free && b != at.end && Next(m, b) in m
    requires size % 8 == 0 && BLOCK_SIZE_MIN <= size <= m[b].size
    ensures Tiles(AllocAt(m, b, size), at) && PrevBits(AllocAt(m, b, size), at)
  {
    if m[b].size >= 32 + size { SplitKeeps(m, at, b, size); }
    MarkKeeps(TrimFree(m, b, size), at, b, false);
  }

  lemma WordLess(n: int)
    requires n % 8 == 0
    ensures (n - 8) % 8 == 0
  {
  }

  lemma GapCoalesced(m: Tiling, b: int, gap: nat, size: nat)
    requires Coalesced(m) && b in m && m[b].free && Next(m, b) in m && m[Next(m, b)].prevFree
    requires size >= BLOCK_SIZE_MIN && gap >= 32 && m[b].size >= size + gap && m[b].size >= gap + 24
    ensures Coalesced(AllocAligned(m, b, gap, size))
  {
    var m2 := AllocAligned(m, b, gap, size);
    var r, t, n := b + gap, b + gap + 8 + size, Next(m, b);
    assert Next(Split(m, b, gap - 8, true), r) == n;
    forall c | c in m2 ensures !(m2[c].free && m2[c].prevFree) {
      if c != r && c != t && c != n { assert c in m; }
    }
  }

  // ---- freeing undoes allocating ----

  lemma MarkBack(m: Tiling, b: int)
    requires b in m && m[b].size > 0 && Next(m, b) in m && m[b].free && m[Next(m, b)].prevFree
    ensures Next(Mark(m, b, false), b) == Next(m, b)
    ensures Mark(Mark(m, b, false), b, true) == m
  {
  }

  lemma AbsorbBack(m: Tiling, b: int, size: nat)
    requires b in m && m[b].size >= size + 32 && Next(m, b) in m && m[Next(m, b)].prevFree
    requires b + 8 + size !in m
    ensures Absorb(Split(m, b, size, true), b, b + 8 + size) == m
  {
    var m' := Absorb(Split(m, b, size, true), b, b + 8 + size);
    assert m'.Keys == m.Keys;
  }

  /** Marking the allocated block free and merging it forward restores the block it was cut from. */
  lemma TrimBack(m: Tiling, at: Pool, b: int, size: nat)
    requires Tiles(m, at) && PrevBits(m, at) && b in m && m[b].free
    requires Next(m, b) in m && !m[Next(m, b)].free
    requires size % 8 == 0 && BLOCK_SIZE_MIN <= size <= m[b].size
    ensures var m' := AllocAt(m, b, size);
      Next(m', b) in m' && Mark(m', b, true) == TrimFree(m, b, size) && MergeNext(TrimFree(m, b, size), b) == m
  {
    if m[b].size >= 32 + size {
      SplitKeeps(m, at, b, size);
      AbsorbBack(m, b, size);
    }
    MarkBack(TrimFree(m, b, size), b);
  }

  lemma FreeUndoesAlloc(m: Tiling, at: Pool, b: int, size: nat)
    requires Coherent(m, at) && b in m && m[b].free
    requires size % 8 == 0 && BLOCK_SIZE_MIN <= size <= m[b].size
    ensures Next(m, b) in m && Coherent(AllocAt(m, b, size), at)
    ensures FreeAt(AllocAt(m, b, size), at, b) == m
  {
    AllocCoherent(m, at, b, size);
    TrimBack(m, at, b, size);
  }

  lemma FreeUndoesAligned(m: Tiling, at: Pool, b: int, gap: nat, size: nat)
    requires Coherent(m, at) && b in m && m[b].free
    requires size % 8 == 0 && size >= BLOCK_SIZE_MIN && m[b].size >= size + gap
    requires gap % 8 == 0 && (gap > 0 ==> gap >= 32)
    ensures Next(m, b) in m && Coherent(AllocAligned(m, b, gap, size), at)
    ensures FreeAt(AllocAligned(m, b, gap, size), at, b + gap) == m
  {
    AlignedCoherent(m, at, b, gap, size);
    if gap == 0 {
      FreeUndoesAlloc(m, at, b, size);
    } else {
      var r := b + gap;
      SplitKeeps(m, at, b, gap - 8);
      var m1 := Split(m, b, gap - 8, true);
      assert Next(m1, r) == Next(m, b);
      TrimBack(m1, at, r, size);
      AlignedFree(m, at, b, gap, size);
    }
  }

  lemma LeadBack(m: Tiling, b: int, gap: nat, size: nat)
    requires b in m && gap >= 32 && m[b].size >= gap + size + 32 && Next(m, b) in m
    requires b + gap !in m && b + gap + 8 + size !in m
    ensures var m1 := Split(m, b, gap - 8, true);
      && Next(m1, b + gap) == Next(m, b)
      && Absorb(Split(m1, b + gap, size, true), b, b + gap) == Split(m, b, gap + size, true)
  {
    var m2 := Absorb(Split(Split(m, b, gap - 8, true), b + gap, size, true), b, b + gap);
    assert m2.Keys == m.Keys + {b + gap + 8 + size};
  }

  /** The leading block is merged back first, then the trimmed tail: the same blocks
      come back in either order. */
  lemma AlignedFree(m: Tiling, at: Pool, b: int, gap: nat, size: nat)
    requires Coherent(m, at) && b in m && m[b].free && gap >= 32 && gap % 8 == 0
    requires size % 8 == 0 && size >= BLOCK_SIZE_MIN && m[b].size >= size + gap && Next(m, b) in m
    requires Coherent(AllocAligned(m, b, gap, size), at)
    requires var m1 := Split(m, b, gap - 8, true);
      Mark(AllocAligned(m, b, gap, size), b + gap, true) == TrimFree(m1, b + gap, size)
    ensures FreeAt(AllocAligned(m, b, gap, size), at, b + gap) == m
  {
    var r, n := b + gap, Next(m, b);
    var m' := AllocAligned(m, b, gap, size);
    MarkKeeps(m', at, r, true);
    var m1 := Mark(m', r, true);
    assert Next(m1, b) == r;
    PrevUnique(m1, at, b, PrevOf(m1, at, r));
    assert !m[n].free && m[n].prevFree;
    var lead := gap - 8;
    WordLess(gap);
    SplitKeeps(m, at, b, lead);
    var m0 := Split(m, b, lead, true);
    assert r == b + 8 + lead && r !in m;
    if m[b].size - gap >= 32 + size {
      assert r in m0 && m0[r].size == m[b].size - gap;
      SplitKeeps(m0, at, r, size);
    }
    MergedBack(m, b, gap, size);
  }

  /** The blocks of an aligned allocation, merged. */
  lemma MergedBack(m: Tiling, b: int, gap: nat, size: nat)
    requires b in m && gap >= 32 && m[b].size >= gap + 24 && Next(m, b) in m && b + gap !in m
    requires !m[Next(m, b)].free && m[Next(m, b)].prevFree
    requires m[b].size - gap >= 32 + size ==> b + gap + 8 + size !in m
    ensures var m1 := Split(m, b, gap - 8, true); var r := b + gap;
      r in m1 && Next(m1, r) in m1 && MergeNext(Absorb(TrimFree(m1, r, size), b, r), b) == m
  {
    var m1, r := Split(m, b, gap - 8, true), b + gap;
    assert Next(m1, r) == Next(m, b);
    if m[b].size - gap >= 32 + size {
      LeadBack(m, b, gap, size);
      AbsorbBack(m, b, gap + size);
    } else {
      AbsorbBack(m, b, gap - 8);
    }
  }
}
