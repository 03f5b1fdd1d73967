/** The TLSF allocator of the kernel heap, running on the words of its pool. */
module TlsfHeap {
  import opened Bits
  import opened TlsfMapping
  import opened TlsfTiling
  import opened TlsfLayout
  import opened TlsfControl
  import opened TlsfSteps

  /** Address `a` is in the client range at `p`. */
  ghost predicate Held(client: map<int, nat>, p: int, a: int) {
    p in client && p <= a < p + client[p]
  }

  /** No word of a client range changed. */
  ghost predicate Untouched(mem: Memory, mem': Memory, client: map<int, nat>) {
    forall p, a {:trigger Held(client, p, a)} :: Held(client, p, a) && a in mem ==> a in mem' && mem'[a] == mem[a]
  }

  /** The only boundaries between the payload at `ptr` and `a` leave a gap too small for a block. */
  ghost predicate FirstSpot(ptr: int, k: nat, a: int) {
    forall c: nat {:trigger Multiple(c, k)} :: Multiple(c, k) && ptr <= c < a ==> 0 < c - ptr < 32
  }

  /** `sizeof(control_t)`: the null block, the bitmaps of both levels, the list heads. */
  const CONTROL_SIZE: nat := 32 + 4 * 26 + 8 * 800

  /** Payload of the first block of a pool of `bytes` bytes; `bytes - 16` wraps. */
  function PoolBytes(bytes: nat): (r: nat)
    ensures r % 8 == 0 && (bytes >= 16 ==> r + 16 <= bytes < r + 24) && (bytes < 16 ==> r > BLOCK_SIZE_MAX)
  {
    var left: int := bytes - 16;
    if left >= 0 then left - left % 8 else left + SIZE_T - (left + SIZE_T) % 8
  }

  /** An accepted pool fits the memory it was made from. */
  lemma {:induction false} PoolFits(memory: Memory, addr: int, bytes: nat, at: Pool)
    requires addr % 8 == 0 && bytes >= CONTROL_SIZE
    requires forall a :: addr <= a && a + 8 <= addr + bytes && a % 8 == 0 ==> a in memory
    requires BLOCK_SIZE_MIN <= PoolBytes(bytes - CONTROL_SIZE) < BLOCK_SIZE_MAX
    requires at == Pool(addr + CONTROL_SIZE - 8, addr + CONTROL_SIZE + PoolBytes(bytes - CONTROL_SIZE), addr)
    ensures PoolBytes(bytes - CONTROL_SIZE) % 8 == 0
    ensures Domain(memory, at) && at.base % 8 == 0
    ensures at.base + 8 in memory && at.base + 16 in memory && at.base + 24 in memory
    ensures at.end in memory && at.end + 8 in memory
  {
    var size := PoolBytes(bytes - CONTROL_SIZE);
    assert bytes - CONTROL_SIZE >= 16 && size + 16 <= bytes - CONTROL_SIZE && size % 8 == 0;
    assert at.base % 8 == 0 && at.end % 8 == 0;
  }

  lemma {:induction false} SizeBits(size: nat)
    requires size < BLOCK_SIZE_MAX
    ensures size < Pow2(64) && ClassOf(size) < CLASSES
  {
    ClassInRange(size);
    Pow2Values();
    Pow2Monotone(32, 64);
  }

  lemma {:induction false} FirstHeader(w: int, size: nat)
    requires size % 8 == 0
    ensures SetPrevUsed(SetFree(SetSize(w, size))) == size + 1
  {
    GarbageWord(w, size);
    var b := Block(size, IsFree(w), IsPrevFree(w));
    HeaderWord(b);
    HeaderWord(b.(free := true));
  }

  lemma {:induction false} LastHeader(w: int)
    ensures SetPrevFree(SetUsed(SetSize(w, 0))) == 2
  {
    GarbageWord(w, 0);
    var b := Block(0, IsFree(w), IsPrevFree(w));
    HeaderWord(b);
    HeaderWord(b.(free := false));
  }

  class Heap {
    /** Words by address. A load or store outside the domain is an error. */
    var mem: Memory

    const ctl: Control

    // What the words mean.
    ghost const at: Pool
    ghost var m: Tiling

    /** Ranges handed out and not yet freed: payload address to size. */
    ghost var client: map<int, nat>

    ghost predicate Shaped(x: set<int>, out: set<int>)
      reads this, ctl, ctl.slBitmap, ctl.heads
    {
      ctl.Ok() && ctl.nil == at.nil && Shape(mem, m, ctl.ls, client, at, x, out)
    }

    /** `tlsf_create_with_pool` on aligned memory: the control structure at `addr`, then a pool of
        one free block and the sentinel, unless what is left is too small or too large.
        The pool lies behind the null block, the bitmaps and the list heads.
        Exactly the maximum is accepted by the size test and has no list (`ClassInRange`). */
    constructor (memory: Memory, addr: int, bytes: nat)
      requires 0 < addr && addr % 8 == 0 && bytes >= CONTROL_SIZE
      requires forall a :: addr <= a && a + 8 <= addr + bytes && a % 8 == 0 ==> a in memory
      requires PoolBytes(bytes - CONTROL_SIZE) != BLOCK_SIZE_MAX
      ensures Valid() && client == map[] && fresh(ctl) && fresh(ctl.slBitmap) && fresh(ctl.heads)
      ensures at.base + 8 == addr + 32 + 4 + FL_INDEX_COUNT * 4 + CLASSES * 8
      ensures var size := PoolBytes(bytes - CONTROL_SIZE);
        m == if BLOCK_SIZE_MIN <= size <= BLOCK_SIZE_MAX then NewTiling(addr + CONTROL_SIZE - 8, size) else map[]
    {
      var size := PoolBytes(bytes - CONTROL_SIZE);
      var block := addr + CONTROL_SIZE - 8;
      ctl := new Control(addr);
      mem := memory;
      at := Pool(block, block + 8 + size, addr);
      m := map[];
      client := map[];
      new;
      if size < BLOCK_SIZE_MIN || size > BLOCK_SIZE_MAX {
        return;
      }
      PoolFits(memory, addr, bytes, at);
      AddPool(block, size);
    }

    /** `tlsf_add_pool` on a size it accepts: the first block, its list, and the sentinel. */
    method AddPool(block: int, size: nat)
      requires client == map[] && m == map[] && ctl.Ok() && ctl.nil == at.nil
      requires forall c :: 0 <= c < CLASSES ==> ctl.ls[c] == []
      requires 0 < at.nil && at.nil + 32 <= at.base + 8 && at.base % 8 == 0 && Domain(mem, at)
      requires size % 8 == 0 && BLOCK_SIZE_MIN <= size < BLOCK_SIZE_MAX && block == at.base
      requires at.end == block + 8 + size
      requires block + 8 in mem && block + 16 in mem && block + 24 in mem && at.end in mem && at.end + 8 in mem
      modifies this, ctl, ctl.slBitmap, ctl.heads
      ensures Valid() && client == map[] && m == NewTiling(block, size)
    {
      ghost var before := mem;
      AddFirst(block, size);
      AddFree(block, size);
      AddSentinel(block, block + 16 + size - 8);
      m := NewTiling(block, size);
      NewPool(before, mem, ctl.ls, at, size);
    }

    /** The first block goes into its list. */
    method AddFree(block: int, size: nat)
      requires client == map[] && ctl.Ok() && ctl.nil == at.nil && at.nil + 24 in mem && at.nil + 32 <= block + 8
      requires forall c :: 0 <= c < CLASSES ==> ctl.ls[c] == []
      requires size % 8 == 0 && BLOCK_SIZE_MIN <= size < BLOCK_SIZE_MAX
      requires block + 16 in mem && block + 24 in mem
      modifies this`mem, ctl, ctl.slBitmap, ctl.heads
      ensures ctl.Ok() && ClassOf(size) < CLASSES && |ctl.ls| == CLASSES
      ensures forall c :: 0 <= c < CLASSES ==> ctl.ls[c] == if c == ClassOf(size) then [block] else []
      ensures mem == old(mem)[block + 16 := at.nil][block + 24 := at.nil][at.nil + 24 := block]
    {
      SizeBits(size);
      var fl, sl := MappingInsert(size);
      InsertFreeBlock(block, fl, sl, at.nil);
    }

    method AddFirst(block: int, size: nat)
      requires client == map[] && block + 8 in mem && size % 8 == 0
      modifies this`mem
      ensures mem == old(mem)[block + 8 := size + 1]
    {
      FirstHeader(mem[block + 8], size);
      Store(block + 8, SetPrevUsed(SetFree(SetSize(mem[block + 8], size))));
    }

    method AddSentinel(block: int, next: int)
      requires client == map[] && next in mem && next + 8 in mem
      modifies this`mem
      ensures mem == old(mem)[next := block][next + 8 := 2]
    {
      Store(next, block);
      LastHeader(mem[next + 8]);
      Store(next + 8, SetPrevFree(SetUsed(SetSize(mem[next + 8], 0))));
    }

    /** A store into the pool: never into memory a client holds. */
    method Store(a: int, v: int)
      requires a in mem && Clear(client, a)
      modifies this`mem
      ensures mem == old(mem)[a := v]
      ensures Untouched(old(mem), mem, client)
    {
      mem := mem[a := v];
    }

    /** Unlinks `block`, the `k`th of list `[fl][sl]`. */
    method RemoveFreeBlock(block: int, fl: nat, sl: nat, ghost k: nat, ghost after: int, ghost before: int)
      requires ctl.Ok() && fl < FL_INDEX_COUNT && sl < SL_INDEX_COUNT && k < |ctl.ls[32 * fl + sl]|
      requires var l := ctl.ls[32 * fl + sl];
        && l[k] == block && ctl.nil !in l && LinkAt(mem, l, k, ctl.nil)
        && (forall i :: 0 < i < |l| ==> l[i] != l[0])
        && after == NextIn(l, k, ctl.nil) && before == PrevIn(l, k, ctl.nil)
      requires after + 24 in mem && Clear(client, after + 24) && before + 16 in mem && Clear(client, before + 16)
      modifies this`mem, ctl, ctl.slBitmap, ctl.heads
      ensures ctl.Ok() && Untouched(old(mem), mem, client)
      ensures var c := 32 * fl + sl; var l := old(ctl.ls)[c];
        && ctl.ls == old(ctl.ls)[c := Without(l, k)]
        && mem == Unlinked(old(mem), l, k, ctl.nil)
    {
      ghost var l := ctl.ls[32 * fl + sl];
      var prev := mem[block + 24];
      var next := mem[block + 16];
      Store(next + 24, prev);
      Store(prev + 16, next);

      if ctl.heads[32 * fl + sl] == block {
        assert l[1..] == Without(l, 0);
        ctl.DropHead(fl, sl, next);
      } else {
        ctl.Forget(32 * fl + sl, k);
      }
    }

    /** Links `block` in front of list `[fl][sl]`. */
    method InsertFreeBlock(block: int, fl: nat, sl: nat, ghost first: int)
      requires ctl.Ok() && fl < FL_INDEX_COUNT && sl < SL_INDEX_COUNT && first == First(ctl.ls[32 * fl + sl], ctl.nil)
      requires block + 16 in mem && block + 24 in mem && first + 24 in mem
      requires Clear(client, block + 16) && Clear(client, block + 24) && Clear(client, first + 24)
      modifies this`mem, ctl, ctl.slBitmap, ctl.heads
      ensures ctl.Ok() && Untouched(old(mem), mem, client)
      ensures var c := 32 * fl + sl; var l := old(ctl.ls)[c];
        && ctl.ls == old(ctl.ls)[c := [block] + l]
        && mem == Linked(old(mem), l, block, ctl.nil)
    {
      var current := ctl.heads[32 * fl + sl];
      Store(block + 16, current);
      Store(block + 24, ctl.nil);
      Store(current + 24, block);
      ctl.PushHead(fl, sl, block);
    }

    /** The size of a block, read from its header. */
    function SizeAt(block: int): (size: nat)
      requires Tiles(m, at) && Words(mem, m) && block in m
      reads this
      ensures size == m[block].size
    {
      Header(mem, m, at, block);
      BlockSize(mem[block + 8])
    }

    /** The list a free block belongs to exists. */
    lemma InRange(block: int)
      requires Tiles(m, at) && block in m
      ensures ClassOf(m[block].size) < CLASSES && m[block].size < Pow2(64)
    {
      SizeBits(m[block].size);
    }

    /** Takes a free block out of its list. */
    method BlockRemove(block: int, ghost x: set<int>, ghost out: set<int>)
      requires Shaped(x, out) && block in m && m[block].free && block !in out
      modifies this`mem, ctl, ctl.slBitmap, ctl.heads
      ensures Shaped(x, out + {block}) && Untouched(old(mem), mem, client)
    {
      InRange(block);
      var fl, sl := MappingInsert(SizeAt(block));
      ghost var c, ls, mem0 := 32 * fl + sl, ctl.ls, mem;
      ghost var k, after, before := TakeOut(mem, m, ls, client, at, x, out, block, c);
      RemoveFreeBlock(block, fl, sl, k, after, before);
      assert ctl.ls == ls[c := Without(ls[c], k)] && mem == Unlinked(mem0, ls[c], k, at.nil);
    }

    /** Puts a free block into its list. */
    method BlockInsert(block: int, ghost x: set<int>, ghost out: set<int>)
      requires Shaped(x, out) && block in m && m[block].free && block in out
      modifies this`mem, ctl, ctl.slBitmap, ctl.heads
      ensures Shaped(x, out - {block}) && Untouched(old(mem), mem, client)
    {
      InRange(block);
      var fl, sl := MappingInsert(SizeAt(block));
      assert fl < FL_INDEX_COUNT;
      ghost var c, nil := 32 * fl + sl, ctl.nil;
      ghost var first := Link(mem, m, ctl.ls, client, at, x, out, block, c, nil);
      InsertFreeBlock(block, fl, sl, first);
    }

    method MarkAsFree(block: int, ghost x: set<int>, ghost out: set<int>)
      requires Shaped(x, out) && block in m && block != at.end && block + 16 !in client
      requires if m[block].free then block in out else block !in out
      modifies this`mem, this`m
      ensures Shaped(x - {block}, out + {block}) && Untouched(old(mem), mem, client)
      ensures Next(old(m), block) in old(m) && m == Mark(old(m), block, true)
    {
      MarkFreeStep(mem, m, ctl.ls, client, at, x, out, block);
      var next := block + 16 + SizeAt(block) - 8;
      MarkStores(next, block, SetPrevFree(mem[next + 8]), SetFree(mem[block + 8]));
      m := Mark(m, block, true);
    }

    /** The back pointer and both headers. */
    method MarkStores(next: int, block: int, w: int, v: int)
      requires next in mem && next + 8 in mem && block + 8 in mem
      requires Clear(client, next) && Clear(client, next + 8) && Clear(client, block + 8)
      modifies this`mem
      ensures mem == old(mem)[next := block][next + 8 := w][block + 8 := v] && Untouched(old(mem), mem, client)
    {
      Store(next, block);
      Store(next + 8, w);
      Store(block + 8, v);
    }

    method MarkAsUsed(block: int, ghost x: set<int>, ghost out: set<int>)
      requires Shaped(x, out) && block in m && block != at.end && m[block].free && block in out
      modifies this`mem, this`m
      ensures Shaped(x, out - {block}) && Untouched(old(mem), mem, client)
      ensures Next(old(m), block) in old(m) && m == Mark(old(m), block, false)
    {
      MarkUsedStep(mem, m, ctl.ls, client, at, x, out, block);
      var next := block + 16 + SizeAt(block) - 8;
      var w, v := SetPrevUsed(mem[next + 8]), SetUsed(mem[block + 8]);
      Store(next + 8, w);
      Store(block + 8, v);
      m := Mark(m, block, false);
    }

    /** The two size words of a split. */
    method SplitHeaders(block: int, remaining: int, size: nat, ghost x: set<int>, ghost out: set<int>)
      returns (ghost f: bool, ghost g: bool)
      requires Shaped(x, out) && block in m && block != at.end && remaining == block + 8 + size
      requires size % 8 == 0 && size >= BLOCK_SIZE_MIN && m[block].size >= 32 + size
      requires m[block].free ==> block in out
      requires block + 16 in client ==> client[block + 16] <= size
      modifies this`mem, this`m
      ensures Shaped(x + {block, remaining}, if f then out + {remaining} else out)
      ensures Untouched(old(mem), mem, client)
      ensures m == Cut(old(m), block, size, f, g) && remaining !in old(m) && remaining + 16 !in client
    {
      SplitStep(mem, m, ctl.ls, client, at, x, out, block, size);
      var remainSize := SizeAt(block) - (size + 8);
      f, g := IsFree(mem[remaining + 8]), IsPrevFree(mem[remaining + 8]);
      Store(remaining + 8, SetSize(mem[remaining + 8], remainSize));
      Store(block + 8, SetSize(mem[block + 8], size));
      m := Cut(m, block, size, f, g);
    }

    /** Splits off the end of a block that is in no list; the rest is free and in no
        list either, its prev-free bit still to be set. */
    method BlockSplit(block: int, size: nat, ghost x: set<int>, ghost out: set<int>)
      returns (remaining: int, ghost g: bool)
      requires Shaped(x, out) && block in m && block != at.end && x <= m.Keys && out <= m.Keys
      requires size % 8 == 0 && size >= BLOCK_SIZE_MIN && m[block].size >= 32 + size
      requires m[block].free ==> block in out
      requires block + 16 in client ==> client[block + 16] <= size
      modifies this`mem, this`m
      ensures remaining == block + 8 + size && remaining !in old(m)
      ensures Shaped(x + {block}, out + {remaining}) && Untouched(old(mem), mem, client)
      ensures Next(old(m), block) in old(m) && m == Split(old(m), block, size, g)
    {
      remaining := block + 16 + size - 8;
      assert Next(m, block) in m;
      ghost var f;
      f, g := SplitHeaders(block, remaining, size, x, out);
      SplitIsCut(old(m), block, size, f, g);
      ghost var out' := if f then out + {remaining} else out;
      MarkAsFree(remaining, x + {block, remaining}, out');
      assert out' + {remaining} == out + {remaining};
      assert x + {block, remaining} - {remaining} == x + {block};
    }

    /** Stores the back pointer of a block into its neighbour. */
    method LinkNext(block: int, ghost x: set<int>, ghost out: set<int>) returns (next: int)
      requires Shaped(x, out) && block in m && block != at.end
      requires block + 16 in client ==> client[block + 16] + 8 <= m[block].size
      modifies this`mem
      ensures Shaped(x - {block}, out) && Untouched(old(mem), mem, client)
      ensures next == Next(m, block) && next in m
    {
      SetBack(mem, m, ctl.ls, client, at, x, out, block);
      next := block + 16 + SizeAt(block) - 8;
      Store(next, block);
    }

    /** `prev` takes over the free block after it. */
    method BlockAbsorb(prev: int, block: int, ghost x: set<int>, ghost out: set<int>)
      requires Shaped(x, out) && prev in m && prev != at.end && Next(m, prev) == block
      requires block in m && m[block].free && block in out && (m[prev].free ==> prev in out)
      requires prev + 16 in client ==> client[prev + 16] <= m[prev].size
      modifies this`mem, this`m
      ensures Shaped(x - {prev}, out - {block}) && Untouched(old(mem), mem, client)
      ensures m == Absorb(old(m), prev, block)
    {
      AbsorbHeader(mem, m, ctl.ls, client, at, x, out, prev, block);
      var word := mem[prev + 8] + (SizeAt(block) + 8);
      assert word == Word(Absorb(m, prev, block)[prev]);
      Store(prev + 8, word);
      m := Absorb(m, prev, block);
      var _ := LinkNext(prev, x + {prev}, out - {block});
      assert x + {prev} - {prev} == x - {prev};
    }

    /** Coalesces a free block that is in no list with the free block before it. */
    method BlockMergePrev(block: int) returns (result: int)
      requires Shaped({}, {block}) && PrevBits(m, at) && block in m && m[block].free
      modifies this`mem, this`m, ctl, ctl.slBitmap, ctl.heads
      ensures (m, result) == MergePrev(old(m), at, block)
      ensures Shaped({}, {result}) && Untouched(old(mem), mem, client)
    {
      result := block;
      Header(mem, m, at, block);
      if IsPrevFree(mem[block + 8]) {
        ghost var p := PrevOf(m, at, block);
        assert Next(m, p) == block;
        ShapeAt(mem, m, ctl.ls, client, at, {}, {block}, p);
        var prev := mem[block];
        BlockRemove(prev, {}, {block});
        BlockAbsorb(prev, block, {}, {block, prev});
        result := prev;
      }
    }

    /** Coalesces a block that is in no list with the free block after it. */
    method BlockMergeNext(block: int, ghost out: set<int>)
      requires Shaped({}, out) && block in m && block != at.end && out <= {block}
      requires m[block].free ==> block in out
      requires block + 16 in client ==> client[block + 16] <= m[block].size
      modifies this`mem, this`m, ctl, ctl.slBitmap, ctl.heads
      ensures m == MergeNext(old(m), block)
      ensures Shaped({}, out) && Untouched(old(mem), mem, client)
    {
      var next := block + 16 + SizeAt(block) - 8;
      assert next == Next(m, block) && next in m;
      Header(mem, m, at, next);
      if IsFree(mem[next + 8]) {
        BlockRemove(next, {}, out);
        BlockAbsorb(block, next, {}, out + {next});
        assert out + {next} - {next} == out;
      }
    }

    /** Sets the prev-free bit of a header. */
    method SetPrevBit(block: int, free: bool, ghost x: set<int>, ghost out: set<int>)
      requires Shaped(x, out) && block in m
      modifies this`mem, this`m
      ensures Shaped(x, out) && Untouched(old(mem), mem, client)
      ensures m == old(m)[block := old(m)[block].(prevFree := free)]
    {
      ghost var r := m[block].(prevFree := free);
      ShapeAt(mem, m, ctl.ls, client, at, x, out, block);
      SetHeader(mem, m, ctl.ls, client, at, x, out, block, r, x, out);
      Header(mem, m, at, block);
      Store(block + 8, if free then SetPrevFree(mem[block + 8]) else SetPrevUsed(mem[block + 8]));
      m := m[block := r];
    }

    /** Splits a free block that is in no list into two such blocks, both headers complete. */
    method SplitFree(block: int, size: nat) returns (remaining: int)
      requires Shaped({}, {block}) && block in m && m[block].free
      requires size % 8 == 0 && size >= BLOCK_SIZE_MIN && m[block].size >= 32 + size
      modifies this`mem, this`m
      ensures Next(old(m), block) in old(m) && remaining == block + 8 + size && remaining !in old(m)
      ensures m == Split(old(m), block, size, true)
      ensures Shaped({}, {block, remaining}) && Untouched(old(mem), mem, client)
    {
      ghost var g;
      ShapeAt(mem, m, ctl.ls, client, at, {}, {block}, block);
      remaining, g := BlockSplit(block, size, {}, {block});
      assert {} + {block} == {block} && {block} + {remaining} == {block, remaining};
      var _ := LinkNext(block, {block}, {block, remaining});
      assert {block} - {block} == {};
      SetPrevBit(remaining, true, {}, {block, remaining});
      SplitBit(old(m), block, size, g);
    }

    /** Trims a free block that is in no list down to `size` bytes. */
    method BlockTrimFree(block: int, size: nat)
      requires Shaped({}, {block}) && block in m && m[block].free
      requires size % 8 == 0 && size >= BLOCK_SIZE_MIN
      modifies this`mem, this`m, ctl, ctl.slBitmap, ctl.heads
      ensures Next(old(m), block) in old(m) && m == TrimFree(old(m), block, size)
      ensures Shaped({}, {block}) && Untouched(old(mem), mem, client)
    {
      assert Next(m, block) in m;
      if SizeAt(block) >= 32 + size {
        var remaining := SplitFree(block, size);
        BlockInsert(remaining, {}, {block, remaining});
        assert {block, remaining} - {remaining} == {block};
      }
    }

    /** Splits `gap` bytes off the front of a free block that is in no list, as a free block. */
    method BlockTrimFreeLeading(block: int, gap: nat) returns (remaining: int)
      requires Shaped({}, {block}) && block in m && m[block].free
      requires gap % 8 == 0 && gap >= 32
      modifies this`mem, this`m, ctl, ctl.slBitmap, ctl.heads
      ensures Shaped({}, {remaining}) && Untouched(old(mem), mem, client)
      ensures Next(old(m), block) in old(m)
      ensures if old(m)[block].size >= 32 + gap
              then remaining == block + gap && m == Split(old(m), block, gap - 8, true)
              else remaining == block && m == old(m)
    {
      assert Next(m, block) in m;
      remaining := block;
      if SizeAt(block) >= 32 + gap {
        remaining := SplitFree(block, gap - 8);
        BlockInsert(block, {}, {block, remaining});
        assert {block, remaining} - {block} == {remaining};
      }
    }

    // ---- the allocator ----

    /** The heap invariant between calls: a tiling of the pool whose prev-free bits,
        back pointers, lists and bitmaps are right and whose neighbours are coalesced,
        and clients that hold exactly the used payloads. Without a pool there is nothing. */
    ghost predicate Valid()
      reads this, ctl, ctl.slBitmap, ctl.heads
    {
      if m == map[] then
        client == map[] && ctl.Ok() && forall c :: 0 <= c < CLASSES ==> ctl.ls[c] == []
      else
        Shaped({}, {}) && Coherent(m, at) && Exact(client, m, at)
    }

    /** Unlinks the first block of a list. */
    method TakeFirst(block: int, fl: nat, sl: nat)
      requires Shaped({}, {}) && block in m && m[block].free
      requires fl < FL_INDEX_COUNT && sl < SL_INDEX_COUNT && ClassOf(m[block].size) == 32 * fl + sl
      requires ctl.ls[32 * fl + sl] != [] && ctl.ls[32 * fl + sl][0] == block
      modifies this`mem, ctl, ctl.slBitmap, ctl.heads
      ensures Shaped({}, {block}) && Untouched(old(mem), mem, client)
    {
      ghost var k, after, before := TakeOut(mem, m, ctl.ls, client, at, {}, {}, block, 32 * fl + sl);
      RemoveFreeBlock(block, fl, sl, k, after, before);
      assert {} + {block} == {block};
    }

    /** Good fit: takes the first block of the smallest non-empty list whose every block
        holds the request; gives up only when no free block reaches the round-up. */
    method BlockLocateFree(size: nat) returns (block: int)
      requires Valid() && size % 8 == 0 && size < BLOCK_SIZE_MAX
      modifies this`mem, ctl, ctl.slBitmap, ctl.heads
      ensures Untouched(old(mem), mem, client)
      ensures block == 0 ==> Valid() && (size == 0 || NoFit(m, size))
      ensures block != 0 ==>
        && size != 0 && block in m && m[block].free && Shaped({}, {block})
        && size <= RoundUp(size) <= m[block].size
        && forall b :: b in m && m[b].free && m[b].size >= RoundUp(size) ==>
          ClassOf(m[block].size) <= ClassOf(m[b].size)
    {
      block := 0;
      if size != 0 {
        var fl, sl := MappingSearch(size);
        GoodFit(size, SearchClass(size));
        if fl < FL_INDEX_COUNT {
          NoZeros();
          fl, sl, block := ctl.SearchSuitableBlock(fl, sl);
          Located(size, fl, sl, block);
          if block != 0 {
            TakeFirst(block, fl, sl);
          }
        } else {
          TooLarge(size);
        }
      }
    }

    lemma NoZeros()
      requires Valid()
      ensures ctl.Ok() && forall c :: 0 <= c < CLASSES ==> 0 !in ctl.ls[c]
    {
      if m != map[] {
        TiesIff(mem, m, ctl.ls, client, at, {}, {});
        forall c | 0 <= c < CLASSES ensures 0 !in ctl.ls[c] {
          assert ListOk(m, ctl.ls[c], c, {});
        }
      }
    }

    lemma TooLarge(size: nat)
      requires Valid() && SearchClass(size) >= CLASSES
      ensures NoFit(m, size)
    {
      if m != map[] {
        forall b | b in m && m[b].free ensures m[b].size < RoundUp(size) {
          ClassInRange(m[b].size);
          SearchReaches(size, m[b].size);
        }
      }
    }

    lemma Located(size: nat, fl: nat, sl: nat, block: int)
      requires Valid()
      requires block == 0 ==> forall d :: SearchClass(size) <= d < CLASSES ==> ctl.ls[d] == []
      requires block != 0 ==>
        && fl < FL_INDEX_COUNT && sl < SL_INDEX_COUNT && SearchClass(size) <= 32 * fl + sl
        && ctl.ls[32 * fl + sl] != [] && block == ctl.ls[32 * fl + sl][0]
        && forall d :: SearchClass(size) <= d < 32 * fl + sl ==> ctl.ls[d] == []
      ensures block == 0 ==> NoFit(m, size)
      ensures block != 0 ==>
        && m != map[] && block in m && m[block].free && ClassOf(m[block].size) == 32 * fl + sl
        && RoundUp(size) <= m[block].size
        && forall b :: b in m && m[b].free && m[b].size >= RoundUp(size) ==>
          ClassOf(m[block].size) <= ClassOf(m[b].size)
    {
      if m != map[] { TiesIff(mem, m, ctl.ls, client, at, {}, {}); }
      if block != 0 {
        assert ListOk(m, ctl.ls[32 * fl + sl], 32 * fl + sl, {});
        SearchReaches(size, m[block].size);
      }
      if m != map[] {
        forall b | b in m && m[b].free && m[b].size >= RoundUp(size)
          ensures block != 0 && ClassOf(m[block].size) <= ClassOf(m[b].size)
        {
          SearchReaches(size, m[b].size);
          assert b in ctl.ls[ClassOf(m[b].size)];
        }
      }
    }

    /** Trims a located block and marks it used. */
    method BlockPrepareUsed(block: int, size: nat) returns (p: int)
      requires Shaped({}, {block}) && block in m && m[block].free
      requires size % 8 == 0 && BLOCK_SIZE_MIN <= size <= m[block].size
      modifies this`mem, this`m, ctl, ctl.slBitmap, ctl.heads
      ensures p == block + 16 && Next(old(m), block) in old(m) && m == AllocAt(old(m), block, size)
      ensures Shaped({}, {}) && Untouched(old(mem), mem, client)
    {
      BlockTrimFree(block, size);
      MarkAsUsed(block, {}, {block});
      assert {block} - {block} == {};
      p := block + 16;
    }

    /** Hands out a located block. */
    method Finish(block: int, size: nat) returns (p: int)
      requires Shaped({}, {block}) && block in m && m[block].free && Next(m, block) in m
      requires size % 8 == 0 && BLOCK_SIZE_MIN <= size <= m[block].size
      requires var m' := AllocAt(m, block, size);
        Coherent(m', at) && Exact(client[block + 16 := m'[block].size], m', at)
      modifies this, ctl, ctl.slBitmap, ctl.heads
      ensures Valid() && Untouched(old(mem), mem, old(client))
      ensures m == AllocAt(old(m), block, size) && p == block + 16
      ensures client == old(client)[p := m[block].size]
    {
      p := BlockPrepareUsed(block, size);
      client := client[p := m[block].size];
    }

    /** `tlsf_malloc`: null exactly when the request is empty or too large or no free
        block reaches its round-up; otherwise a fresh range that holds the request. */
    method Malloc(size: nat) returns (p: int, ghost block: int)
      requires Valid() && size < SIZE_T
      modifies this, ctl, ctl.slBitmap, ctl.heads
      ensures Valid() && Untouched(old(mem), mem, old(client))
      ensures var adjust := AdjustRequestSize(size, ALIGN_SIZE);
        if p == 0 then m == old(m) && client == old(client) && (adjust == 0 || NoFit(m, adjust))
        else !NoFit(old(m), adjust) && AllocStep(old(m), old(client), m, client, block, 0, adjust, p)
      ensures p != 0 && size + 7 < SIZE_T ==> size <= client[p]
      ensures p != 0 ==> client[p] < AdjustRequestSize(size, ALIGN_SIZE) + 32
    {
      AdjustWord(size);
      var adjust := AdjustRequestSize(size, ALIGN_SIZE);
      var b := BlockLocateFree(adjust);
      block := b;
      p := 0;
      if b != 0 {
        p := PlaceAt(b, adjust);
      }
    }

    /** `tlsf_memalign`: like `Malloc`, with a payload at a multiple of `align`. Whenever a gap
        is needed the leading split succeeds. */
    method Memalign(align: nat, size: nat, ghost k: nat) returns (p: int, ghost block: int, ghost gap: nat)
      requires Valid() && size < SIZE_T && k <= 62 && align == Pow2(k)
      modifies this, ctl, ctl.slBitmap, ctl.heads
      ensures Valid() && Untouched(old(mem), mem, old(client))
      ensures var adjust := AdjustRequestSize(size, ALIGN_SIZE);
        var search := AlignedRequest(adjust, align);
        if p == 0 then m == old(m) && client == old(client) && (search == 0 || NoFit(m, search))
        else !NoFit(old(m), search) && AllocStep(old(m), old(client), m, client, block, gap, adjust, p)
      ensures p != 0 ==> p % align == 0
      ensures p != 0 && k > 3 ==> FirstSpot(block + 16, k, p)
      ensures p != 0 && size + 7 < SIZE_T ==> size <= client[p]
      ensures p != 0 ==> client[p] < AdjustRequestSize(size, ALIGN_SIZE) + 32
    {
      AdjustWord(size);
      var adjust := AdjustRequestSize(size, ALIGN_SIZE);
      SearchSizes(adjust, k);
      var b := BlockLocateFree(AlignedRequest(adjust, align));
      block, gap, p := b, 0, 0;
      if b != 0 {
        var aligned, g := Spot(b, align, k);
        gap := g;
        if g != 0 {
          p := PlaceAfter(b, g, adjust);
        } else {
          p := PlaceAt(b, adjust);
        }
        MultipleMod(aligned, k);
        assert p == aligned;
      }
    }

    /** The aligned payload address inside a located block, and the gap before it. */
    method Spot(block: int, align: nat, ghost k: nat) returns (aligned: nat, gap: nat)
      requires Tiles(m, at) && block in m && align == Pow2(k)
      ensures Multiple(aligned, k) && aligned == block + 16 + gap
      ensures gap == 0 || (k > 3 && 32 <= gap <= align + 24 && gap % 8 == 0)
      ensures k > 3 ==> FirstSpot(block + 16, k, aligned)
    {
      PayloadAligned(m, at, block);
      forall c: nat | k > 3 && Multiple(c, k) && block + 16 <= c < AlignedSpot(block + 16, align)
        ensures 0 < c - (block + 16) < 32
      {
        SpotFirst(block + 16, k, c);
      }
      SpotOk(block + 16, k);
      aligned := AlignedSpot(block + 16, align);
      gap := aligned - (block + 16);
      if gap > 0 { WordSum(block + 16, aligned); }
    }

    /** Hands out a located block from its start. */
    method PlaceAt(block: int, size: nat) returns (p: int)
      requires Shaped({}, {block}) && Coherent(m, at) && Exact(client, m, at) && block in m && m[block].free
      requires size % 8 == 0 && BLOCK_SIZE_MIN <= size <= m[block].size
      modifies this, ctl, ctl.slBitmap, ctl.heads
      ensures Valid() && Untouched(old(mem), mem, old(client))
      ensures AllocStep(old(m), old(client), m, client, block, 0, size, p)
    {
      AllocStepOk(m, client, at, block, size);
      p := Finish(block, size);
    }

    /** Hands out a located block from `gap` bytes on; the gap goes back as a block. */
    method PlaceAfter(block: int, gap: nat, size: nat) returns (p: int)
      requires Shaped({}, {block}) && Coherent(m, at) && Exact(client, m, at) && block in m && m[block].free
      requires size % 8 == 0 && size >= BLOCK_SIZE_MIN && gap >= 32 && gap % 8 == 0
      requires m[block].size >= size + gap && m[block].size >= 32 + gap
      modifies this, ctl, ctl.slBitmap, ctl.heads
      ensures Valid() && Untouched(old(mem), mem, old(client))
      ensures AllocStep(old(m), old(client), m, client, block, gap, size, p)
    {
      ghost var m1, m' := GapStepOk(m, client, at, block, gap, size);
      ghost var client' := client[block + gap + 16 := m'[block + gap].size];
      var b := BlockTrimFreeLeading(block, gap);
      assert m == m1 && b == block + gap;
      p := Finish(b, size);
      assert m == m' && client == client';
    }

    /** `tlsf_free`: the range goes back, coalesced with its free neighbours. */
    method Free(p: int)
      requires Valid() && (p == 0 || p in client)
      modifies this, ctl, ctl.slBitmap, ctl.heads
      ensures Valid() && Untouched(old(mem), mem, client)
      ensures if p == 0 then m == old(m) && client == old(client)
              else FreeStep(old(m), old(client), m, client, at, p)
    {
      if p != 0 {
        var block := p - 16;
        FreeCoherent(m, at, block);
        FreeExact(client, m, at, block);
        client := client - {p};
        Release(block);
      }
    }

    /** Frees a used block no client holds. */
    method Release(block: int)
      requires Shaped({}, {}) && PrevBits(m, at) && block in m && block != at.end && !m[block].free
      requires block + 16 !in client
      modifies this`mem, this`m, ctl, ctl.slBitmap, ctl.heads
      ensures Shaped({}, {}) && Untouched(old(mem), mem, client)
      ensures PrevBits(old(m), at) && m == FreeAt(old(m), at, block)
    {
      MarkKeeps(m, at, block, true);
      MarkAsFree(block, {}, {});
      assert {} + {block} == {block};
      MergePrevKeeps(m, at, block);
      var b := BlockMergePrev(block);
      ShapeAt(mem, m, ctl.ls, client, at, {}, {b}, b);
      BlockMergeNext(b, {b});
      BlockInsert(b, {}, {b});
      assert {b} - {b} == {};
    }

    /** A client stores a word into a range it holds. */
    method ClientStore(p: int, a: int, v: int)
      requires Valid() && p in client && p <= a && a + 8 <= p + client[p] && a in mem
      modifies this`mem
      ensures Valid() && mem == old(mem)[a := v]
    {
      ClientWrite(mem, m, ctl.ls, client, at, p, a, v);
      mem := mem[a := v];
    }
  }
}
