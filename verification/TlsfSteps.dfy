/** Each group of header stores of the TLSF allocator, as a change of the tiling
    it describes: the stores hit no client memory and keep the layout. */
module TlsfSteps {
  import opened Bits
  import opened TlsfMapping
  import opened TlsfTiling
  import opened TlsfLayout

  // ---- the size word ----

  function BlockSize(w: int): int { w - w % 4 }
  predicate IsFree(w: int) { w % 2 == 1 }
  predicate IsPrevFree(w: int) { w / 2 % 2 == 1 }
  function SetSize(w: int, size: int): int { size + w % 4 }
  function SetFree(w: int): int { if IsFree(w) then w else w + 1 }
  function SetUsed(w: int): int { if IsFree(w) then w - 1 else w }
  function SetPrevFree(w: int): int { if IsPrevFree(w) then w else w + 2 }
  function SetPrevUsed(w: int): int { if IsPrevFree(w) then w - 2 else w }

  lemma {:induction false} LowBits(n: nat, c: nat)
    requires c < 4
    ensures (8 * n + c) % 4 == c && (8 * n + c) % 2 == c % 2 && (8 * n + c) / 2 % 2 == c / 2
  {
    ModUnique(8 * n + c, 4, 2 * n, c);
    ModUnique(8 * n + c, 2, 4 * n + c / 2, c % 2);
    ModUnique(4 * n + c / 2, 2, 2 * n, c / 2);
  }

  lemma {:induction false} WordBits(b: Block)
    requires b.size % 8 == 0
    ensures var w := Word(b); w % 4 == w - b.size && IsFree(w) == b.free && IsPrevFree(w) == b.prevFree
  {
    LowBits(b.size / 8, Word(b) - b.size);
  }

  /** The accessors read and write the fields of the header. */
  lemma {:induction false} HeaderWord(b: Block)
    requires b.size % 8 == 0
    ensures var w := Word(b);
      && BlockSize(w) == b.size && IsFree(w) == b.free && IsPrevFree(w) == b.prevFree
      && SetFree(w) == Word(b.(free := true)) && SetUsed(w) == Word(b.(free := false))
      && SetPrevFree(w) == Word(b.(prevFree := true)) && SetPrevUsed(w) == Word(b.(prevFree := false))
  {
    WordBits(b);
  }

  lemma {:induction false} HeaderSize(b: Block, size: nat)
    requires b.size % 8 == 0
    ensures SetSize(Word(b), size) == Word(b.(size := size))
  {
    WordBits(b);
  }

  /** A header built on the two low bits of a word that held something else. */
  lemma {:induction false} GarbageWord(w: int, size: nat)
    ensures SetSize(w, size) == Word(Block(size, IsFree(w), IsPrevFree(w)))
  {
  }

  /** What the allocator reads from, and computes on, the header of a block. */
  lemma Header(mem: Memory, m: Tiling, at: Pool, b: int)
    requires Tiles(m, at) && Words(mem, m) && b in m
    ensures b + 8 in mem
    ensures var w := mem[b + 8];
      && BlockSize(w) == m[b].size && IsFree(w) == m[b].free && IsPrevFree(w) == m[b].prevFree
      && SetFree(w) == Word(m[b].(free := true)) && SetUsed(w) == Word(m[b].(free := false))
      && SetPrevFree(w) == Word(m[b].(prevFree := true)) && SetPrevUsed(w) == Word(m[b].(prevFree := false))
  {
    assert Aligned(m, b);
    HeaderWord(m[b]);
  }

  // ---- changing one header ----

  lemma HeaderClear(m: Tiling, client: map<int, nat>, at: Pool, b: int)
    requires Tiles(m, at) && Owned(client, m, at) && b in m
    ensures Clear(client, b + 8)
  {
    forall p | p in client ensures b + 16 <= p || p + client[p] <= b + 8 {
      assert p - 16 != b ==> Apart(m, p - 16, b);
    }
  }

  /** The status bits of block `b` change. */
  lemma SetHeader(mem: Memory, m: Tiling, ls: seq<seq<int>>, client: map<int, nat>, at: Pool,
                  x: set<int>, out: set<int>, b: int, r: Block, x': set<int>, out': set<int>)
    requires Shape(mem, m, ls, client, at, x, out)
    requires b in m && r.size == m[b].size && (b == at.end ==> !r.free)
    requires x <= x' && (r.free && b !in x' ==> Next(m, b) in mem && mem[Next(m, b)] == b)
    requires r.free ==> b + 16 !in client
    requires if r.free == m[b].free then out' == out
             else if r.free then b !in out && out' == out + {b}
             else b in out && out' == out - {b}
    ensures b + 8 in mem && Clear(client, b + 8)
    ensures Shape(mem[b + 8 := Word(r)], m[b := r], ls, client, at, x', out')
  {
    var m', mem' := m[b := r], mem[b + 8 := Word(r)];
    TiesIff(mem, m, ls, client, at, x, out);
    TilesSetHeader(m, at, b, r);
    HeaderClear(m, client, at, b);
    forall c | c in m' ensures c + 8 in mem' && mem'[c + 8] == Word(m'[c]) {
      assert c in m;
    }
    forall c | c in m' && m'[c].free && c !in x' ensures Next(m', c) in mem' && mem'[Next(m', c)] == c {
      assert c in m && Next(m, c) == Next(m', c);
      assert c != b ==> Apart(m, c, b);
    }
    HeaderLists(mem, m, ls, at, out, b, r, out');
    TiesIff(mem', m', ls, client, at, x', out');
  }

  lemma HeaderLists(mem: Memory, m: Tiling, ls: seq<seq<int>>, at: Pool, out: set<int>, b: int, r: Block,
                    out': set<int>)
    requires Tiles(m, at) && Members(m, ls, out) && Links(mem, ls, at.nil)
    requires b in m && r.size == m[b].size
    requires if r.free == m[b].free then out' == out
             else if r.free then b !in out && out' == out + {b}
             else b in out && out' == out - {b}
    ensures Members(m[b := r], ls, out') && Links(mem[b + 8 := Word(r)], ls, at.nil)
  {
    var m', mem' := m[b := r], mem[b + 8 := Word(r)];
    forall c | 0 <= c < CLASSES ensures ListOk(m', ls[c], c, out') {
      assert ListOk(m, ls[c], c, out);
    }
    forall c | c in m' && m'[c].free && c !in out'
      ensures ClassOf(m'[c].size) < CLASSES && c in ls[ClassOf(m'[c].size)]
    {
      assert m'[c].size == m[c].size;
    }
    forall c, k | 0 <= c < |ls| && 0 <= k < |ls[c]| ensures LinkAt(mem', ls[c], k, at.nil) {
      assert LinkAt(mem, ls[c], k, at.nil) && ListOk(m, ls[c], c, out);
      assert ls[c][k] != b ==> Apart(m, ls[c][k], b);
    }
  }

  /** The last payload word of a block is a word of the pool. */
  lemma BackWord(m: Tiling, at: Pool, b: int)
    requires Tiles(m, at) && b in m && b != at.end
    ensures Next(m, b) in m && InPool(at, Next(m, b))
  {
    assert Next(m, b) in m && Aligned(m, b) && Apart(m, b, at.end);
  }

  /** The back pointer of block `b` is stored into the last word of its payload. */
  lemma SetBack(mem: Memory, m: Tiling, ls: seq<seq<int>>, client: map<int, nat>, at: Pool, x: set<int>,
                out: set<int>, b: int)
    requires Shape(mem, m, ls, client, at, x, out) && b in m && b != at.end
    requires b + 16 in client ==> client[b + 16] + 8 <= m[b].size
    ensures Next(m, b) in m && Next(m, b) in mem && Clear(client, Next(m, b))
    ensures Shape(mem[Next(m, b) := b], m, ls, client, at, x - {b}, out)
  {
    var a := Next(m, b);
    var mem' := mem[a := b];
    TiesIff(mem, m, ls, client, at, x, out);
    BackWord(m, at, b);
    forall p | p in client ensures a + 8 <= p || p + client[p] <= a {
      assert p - 16 != b ==> Apart(m, p - 16, b);
    }
    forall c | c in m ensures c + 8 in mem' && mem'[c + 8] == Word(m[c]) {
      assert c != b ==> Apart(m, c, b);
    }
    forall c | c in m && m[c].free && c !in x - {b} ensures Next(m, c) in mem' && mem'[Next(m, c)] == c {
      assert c != b ==> Apart(m, c, b);
    }
    forall c, k | 0 <= c < |ls| && 0 <= k < |ls[c]| ensures LinkAt(mem', ls[c], k, at.nil) {
      assert LinkAt(mem, ls[c], k, at.nil) && ListOk(m, ls[c], c, out);
      assert ls[c][k] != b ==> Apart(m, ls[c][k], b);
    }
    TiesIff(mem', m, ls, client, at, x - {b}, out);
  }

  // ---- splitting and coalescing ----

  /** Both size words of a split: the second header gets whatever status bits its word happened to hold. */
  lemma CutHeaders(mem: Memory, m: Tiling, ls: seq<seq<int>>, client: map<int, nat>, at: Pool,
                   x: set<int>, out: set<int>, b: int, size: nat, f: bool, g: bool)
    requires Shape(mem, m, ls, client, at, x, out) && b in m && b != at.end
    requires size % 8 == 0 && size >= BLOCK_SIZE_MIN && m[b].size >= 32 + size
    requires m[b].free ==> b in out
    requires b + 16 in client ==> client[b + 16] <= size
    ensures var r, rest := b + 8 + size, m[b].size - size - 8;
      && r + 8 in mem && Clear(client, r + 8) && Clear(client, b + 8)
      && Shape(mem[r + 8 := Word(Block(rest, f, g))][b + 8 := Word(m[b].(size := size))],
               Cut(m, b, size, f, g), ls, client, at, x + {b, r},
               if f then out + {r} else out)
  {
    TiesIff(mem, m, ls, client, at, x, out);
    TilesCut(m, at, b, size, f, g);
    CutWord(m, at, b, size);
    CutMemory(mem, m, client, at, x, b, size, f, g);
    CutLists(mem, m, ls, at, out, b, size, f, g);
    var r, rest := b + 8 + size, m[b].size - size - 8;
    TiesIff(mem[r + 8 := Word(Block(rest, f, g))][b + 8 := Word(m[b].(size := size))],
            Cut(m, b, size, f, g), ls, client, at, x + {b, r}, if f then out + {r} else out);
  }

  lemma CutClear(m: Tiling, client: map<int, nat>, at: Pool, b: int, size: nat)
    requires Tiles(m, at) && Owned(client, m, at) && b in m && m[b].size >= 32 + size
    requires b + 16 in client ==> client[b + 16] <= size
    ensures Clear(client, b + 8) && Clear(client, b + 8 + size + 8)
  {
    HeaderClear(m, client, at, b);
    forall p | p in client ensures b + 8 + size + 16 <= p || p + client[p] <= b + 8 + size + 8 {
      assert p - 16 != b ==> Apart(m, p - 16, b);
    }
  }

  lemma CutMemory(mem: Memory, m: Tiling, client: map<int, nat>, at: Pool, x: set<int>, b: int, size: nat, f: bool,
                  g: bool)
    requires Tiles(m, at) && Words(mem, m) && BackLinks(mem, m, x) && Owned(client, m, at)
    requires b in m && b != at.end && size >= BLOCK_SIZE_MIN && m[b].size >= 32 + size
    requires b + 8 + size !in m && b + 8 + size + 8 in mem
    requires b + 16 in client ==> client[b + 16] <= size
    ensures var r, rest := b + 8 + size, m[b].size - size - 8;
      var m' := Cut(m, b, size, f, g);
      var mem' := mem[r + 8 := Word(Block(rest, f, g))][b + 8 := Word(m[b].(size := size))];
      && Clear(client, r + 8) && Clear(client, b + 8)
      && Words(mem', m') && BackLinks(mem', m', x + {b, r}) && Owned(client, m', at)
  {
    var r, rest := b + 8 + size, m[b].size - size - 8;
    var m' := Cut(m, b, size, f, g);
    var mem' := mem[r + 8 := Word(Block(rest, f, g))][b + 8 := Word(m[b].(size := size))];
    CutClear(m, client, at, b, size);
    forall c | c in m' ensures c + 8 in mem' && mem'[c + 8] == Word(m'[c]) {
      assert c != b && c != r ==> Apart(m, c, b);
    }
    forall c | c in m' && m'[c].free && c !in x + {b, r} ensures Next(m', c) in mem' && mem'[Next(m', c)] == c {
      assert Next(m', c) == Next(m, c) && Apart(m, c, b);
    }
  }

  lemma CutWord(m: Tiling, at: Pool, b: int, size: nat)
    requires Tiles(m, at) && b in m && b != at.end
    requires size % 8 == 0 && m[b].size >= 32 + size
    ensures InPool(at, b + 8 + size + 8)
  {
    assert Aligned(m, b) && Apart(m, b, at.end);
  }

  lemma CutLists(mem: Memory, m: Tiling, ls: seq<seq<int>>, at: Pool, out: set<int>, b: int, size: nat, f: bool,
                 g: bool)
    requires Tiles(m, at) && Members(m, ls, out) && Links(mem, ls, at.nil)
    requires b in m && b != at.end && m[b].size >= 32 + size && b + 8 + size !in m
    requires m[b].free ==> b in out
    ensures var r, rest := b + 8 + size, m[b].size - size - 8;
      && Members(Cut(m, b, size, f, g), ls, if f then out + {r} else out)
      && Links(mem[r + 8 := Word(Block(rest, f, g))][b + 8 := Word(m[b].(size := size))], ls, at.nil)
  {
    var r, rest := b + 8 + size, m[b].size - size - 8;
    var m' := Cut(m, b, size, f, g);
    var mem' := mem[r + 8 := Word(Block(rest, f, g))][b + 8 := Word(m[b].(size := size))];
    var out' := if f then out + {r} else out;
    forall c | 0 <= c < CLASSES ensures ListOk(m', ls[c], c, out') {
      assert ListOk(m, ls[c], c, out);
    }
    forall c | c in m' && m'[c].free && c !in out'
      ensures ClassOf(m'[c].size) < CLASSES && c in ls[ClassOf(m'[c].size)]
    {
      assert m'[c].size == m[c].size;
    }
    forall c, k | 0 <= c < |ls| && 0 <= k < |ls[c]| ensures LinkAt(mem', ls[c], k, at.nil) {
      assert LinkAt(mem, ls[c], k, at.nil) && ListOk(m, ls[c], c, out);
      assert Apart(m, ls[c][k], b);
    }
  }

  /** The size word of a block that swallows the free block after it. */
  lemma AbsorbHeader(mem: Memory, m: Tiling, ls: seq<seq<int>>, client: map<int, nat>, at: Pool,
                     x: set<int>, out: set<int>, p: int, b: int)
    requires Shape(mem, m, ls, client, at, x, out)
    requires p in m && p != at.end && Next(m, p) == b && b in m && m[b].free && b in out
    requires m[p].free ==> p in out
    ensures p + 8 in mem && Clear(client, p + 8)
    ensures var m' := Absorb(m, p, b);
      Shape(mem[p + 8 := Word(m'[p])], m', ls, client, at, x + {p}, out - {b})
  {
    var m' := Absorb(m, p, b);
    var mem' := mem[p + 8 := Word(m'[p])];
    TiesIff(mem, m, ls, client, at, x, out);
    TilesAbsorb(m, at, p, b);
    HeaderClear(m, client, at, p);
    AbsorbWords(mem, m, at, x, p, b);
    forall q | q in client ensures q - 16 in m' && !m'[q - 16].free && client[q] <= m'[q - 16].size {
      assert q - 16 in m;
    }
    AbsorbLists(mem, m, ls, at, out, p, b);
    TiesIff(mem', m', ls, client, at, x + {p}, out - {b});
  }

  lemma AbsorbWords(mem: Memory, m: Tiling, at: Pool, x: set<int>, p: int, b: int)
    requires p in m && p != at.end && Next(m, p) == b && b in m && b != p
    requires Tiles(m, at) && Words(mem, m) && BackLinks(mem, m, x) && Tiles(Absorb(m, p, b), at)
    ensures var m' := Absorb(m, p, b);
      var mem' := mem[p + 8 := Word(m'[p])];
      Words(mem', m') && BackLinks(mem', m', x + {p})
  {
    var m' := Absorb(m, p, b);
    var mem' := mem[p + 8 := Word(m'[p])];
    forall c | c in m' ensures c + 8 in mem' && mem'[c + 8] == Word(m'[c]) {
      assert c in m;
    }
    forall c | c in m' && m'[c].free && c !in x + {p} ensures Next(m', c) in mem' && mem'[Next(m', c)] == c {
      assert Next(m', c) == Next(m, c) && Apart(m, c, p);
    }
  }

  lemma AbsorbLists(mem: Memory, m: Tiling, ls: seq<seq<int>>, at: Pool, out: set<int>, p: int, b: int)
    requires Tiles(m, at) && Members(m, ls, out) && Links(mem, ls, at.nil)
    requires p in m && p != b && b in m && b in out
    requires m[p].free ==> p in out
    ensures var m' := Absorb(m, p, b);
      Members(m', ls, out - {b}) && Links(mem[p + 8 := Word(m'[p])], ls, at.nil)
  {
    var m' := Absorb(m, p, b);
    var mem' := mem[p + 8 := Word(m'[p])];
    forall c | 0 <= c < CLASSES ensures ListOk(m', ls[c], c, out - {b}) {
      assert ListOk(m, ls[c], c, out);
    }
    forall c | c in m' && m'[c].free && c !in out - {b}
      ensures ClassOf(m'[c].size) < CLASSES && c in ls[ClassOf(m'[c].size)]
    {
      assert m'[c].size == m[c].size;
    }
    forall c, k | 0 <= c < |ls| && 0 <= k < |ls[c]| ensures LinkAt(mem', ls[c], k, at.nil) {
      assert LinkAt(mem, ls[c], k, at.nil) && ListOk(m, ls[c], c, out);
      assert Apart(m, ls[c][k], p);
    }
  }

  // ---- marking ----

  /** Linking `b` to its neighbour and marking it free. */
  lemma MarkFreeStep(mem: Memory, m: Tiling, ls: seq<seq<int>>, client: map<int, nat>, at: Pool,
                     x: set<int>, out: set<int>, b: int)
    requires Shape(mem, m, ls, client, at, x, out)
    requires b in m && b != at.end && b + 16 !in client && (m[b].free ==> b in out)
    requires !m[b].free ==> b !in out
    ensures var next := Next(m, b);
      && next in m && next in mem && next + 8 in mem && b + 8 in mem
      && Clear(client, next) && Clear(client, next + 8) && Clear(client, b + 8)
      && Shape(mem[next := b][next + 8 := SetPrevFree(mem[next + 8])][b + 8 := SetFree(mem[b + 8])],
               Mark(m, b, true), ls, client, at, x - {b}, out + {b})
  {
    var next := Next(m, b);
    assert next in m;
    Header(mem, m, at, next);
    Header(mem, m, at, b);
    SetBack(mem, m, ls, client, at, x, out, b);
    var mem1 := mem[next := b];
    ShapeAt(mem1, m, ls, client, at, x - {b}, out, next);
    var mem2 := mem1[next + 8 := Word(m[next].(prevFree := true))];
    var m2 := m[next := m[next].(prevFree := true)];
    SetHeader(mem1, m, ls, client, at, x - {b}, out, next, m[next].(prevFree := true), x - {b}, out);
    assert m2[b] == m[b] && Next(m2, b) == next;
    SetHeader(mem2, m2, ls, client, at, x - {b}, out, b, m2[b].(free := true), x - {b}, out + {b});
  }

  /** Marking a free block that is in no list as used. */
  lemma MarkUsedStep(mem: Memory, m: Tiling, ls: seq<seq<int>>, client: map<int, nat>, at: Pool,
                     x: set<int>, out: set<int>, b: int)
    requires Shape(mem, m, ls, client, at, x, out)
    requires b in m && b != at.end && m[b].free && b in out
    ensures var next := Next(m, b);
      && next in m && next + 8 in mem && b + 8 in mem
      && Clear(client, next + 8) && Clear(client, b + 8)
      && Shape(mem[next + 8 := SetPrevUsed(mem[next + 8])][b + 8 := SetUsed(mem[b + 8])],
               Mark(m, b, false), ls, client, at, x, out - {b})
  {
    var next := Next(m, b);
    assert next in m;
    Header(mem, m, at, next);
    Header(mem, m, at, b);
    ShapeAt(mem, m, ls, client, at, x, out, next);
    var mem1 := mem[next + 8 := Word(m[next].(prevFree := false))];
    var m1 := m[next := m[next].(prevFree := false)];
    SetHeader(mem, m, ls, client, at, x, out, next, m[next].(prevFree := false), x, out);
    assert m1[b] == m[b] && Next(m1, b) == next;
    SetHeader(mem1, m1, ls, client, at, x, out, b, m1[b].(free := false), x, out - {b});
  }

  /** Every store of a split, ending with the second part marked free. */
  lemma SplitStep(mem: Memory, m: Tiling, ls: seq<seq<int>>, client: map<int, nat>, at: Pool,
                  x: set<int>, out: set<int>, b: int, size: nat)
    requires Shape(mem, m, ls, client, at, x, out) && b in m && b != at.end
    requires size % 8 == 0 && size >= BLOCK_SIZE_MIN && m[b].size >= 32 + size
    requires m[b].free ==> b in out
    requires b + 16 in client ==> client[b + 16] <= size
    ensures var r, rest := b + 8 + size, m[b].size - size - 8;
      && r + 8 in mem && b + 8 in mem && Clear(client, r + 8) && Clear(client, b + 8)
      && r !in m && r + 16 !in client
      && var mem' := mem[r + 8 := SetSize(mem[r + 8], rest)][b + 8 := SetSize(mem[b + 8], size)];
         var f := IsFree(mem[r + 8]);
         Shape(mem', Cut(m, b, size, f, IsPrevFree(mem[r + 8])), ls, client, at, x + {b, r},
               if f then out + {r} else out)
  {
    var r, rest := b + 8 + size, m[b].size - size - 8;
    CutWord(m, at, b, size);
    var w := mem[r + 8];
    GarbageWord(w, rest);
    assert Aligned(m, b);
    HeaderSize(m[b], size);
    TilesCut(m, at, b, size, IsFree(w), IsPrevFree(w));
    TiesIff(mem, m, ls, client, at, x, out);
    CutHeaders(mem, m, ls, client, at, x, out, b, size, IsFree(w), IsPrevFree(w));
  }

  /** A client writes a word of its own range: the allocator relies on none of them, not
      even on the last, where the next header keeps its back pointer. */
  lemma ClientWrite(mem: Memory, m: Tiling, ls: seq<seq<int>>, client: map<int, nat>, at: Pool, p: int, a: int, v: int)
    requires Shape(mem, m, ls, client, at, {}, {})
    requires p in client && p <= a && a + 8 <= p + client[p] && a in mem
    ensures Shape(mem[a := v], m, ls, client, at, {}, {})
  {
    var b, mem' := p - 16, mem[a := v];
    TiesIff(mem, m, ls, client, at, {}, {});
    forall c | c in m ensures c + 8 in mem' && mem'[c + 8] == Word(m[c]) {
      assert c != b ==> Apart(m, c, b);
    }
    forall c | c in m && m[c].free && c !in {} ensures Next(m, c) in mem' && mem'[Next(m, c)] == c {
      assert Apart(m, c, b);
    }
    forall c, k | 0 <= c < |ls| && 0 <= k < |ls[c]| ensures LinkAt(mem', ls[c], k, at.nil) {
      assert LinkAt(mem, ls[c], k, at.nil) && ListOk(m, ls[c], c, {});
      assert Apart(m, ls[c][k], b);
    }
    TiesIff(mem', m, ls, client, at, {}, {});
  }
}
