/** Reading and writing a file, merging logical blocks that lie one after the other on the device. */
module Ext4 {
  import opened Common
  import opened Ext4Blocks
  import opened Ext4Holes
  import opened Ext4Device

  const EMPTY_SIZE: nat := 4096

  function Min(a: nat, b: nat): nat { if a < b then a else b }

  class Inode {
    const bs: nat
    const policy: Policy
    var size: nat

    /** The device block of each logical block, 0 for a hole, and the device. */
    var m: seq<nat>
    var disk: Disk

    /** What holes are taken to show while a write goes on. */
    ghost var view: Holes

    /** An inode as it is found on the device. */
    constructor (bs: nat, policy: Policy, size: nat, m: seq<nat>, disk: Disk)
      requires Inv(bs, m, disk) && bs <= EMPTY_SIZE && SizedFor(bs, m, size)
      ensures Valid() && this.bs == bs && this.policy == policy && this.size == size && this.m == m && this.disk == disk
    {
      FullLength(bs, m, disk, map[]);
      this.bs, this.policy, this.size, this.m, this.disk, view := bs, policy, size, m, disk, map[];
    }

    ghost predicate Sized(n: nat)
      reads this
    {
      SizedFor(bs, m, n)
    }

    ghost predicate Valid()
      reads this
    {
      && Inv(bs, m, disk) && bs <= EMPTY_SIZE && Sized(size) && view == map[]
      && |Full(bs, m, disk, view)| == Off(bs, |m|)
    }

    /** The bytes of the file. */
    ghost function Contents(): (s: seq<byte>)
      requires Valid()
      reads this
      ensures |s| == size
    {
      Full(bs, m, disk, map[])[..size]
    }

    // ---- the block map and the device ----

    method GetInodeFblock(block: nat) returns (fblock: nat)
      requires block < |m|
      ensures fblock == m[block]
    {
      fblock := m[block];
    }

    /** Bytes of one device block. */
    method ReadBytes(fblock: nat, offset: nat, len: nat) returns (bytes: seq<byte>)
      requires fblock in disk && offset + len <= |disk[fblock]|
      ensures bytes == disk[fblock][offset..offset + len]
    {
      bytes := disk[fblock][offset..offset + len];
    }

    /** `ext4_blocks_get_direct`: whole consecutive device blocks. */
    method BlocksGetDirect(start: nat, count: nat) returns (bytes: seq<byte>)
      ensures bytes == Run(disk, start, count)
    {
      bytes := Run(disk, start, count);
    }

    /** The block of a position, and the place in the block. */
    method Place(pos: nat) returns (block: nat, offset: nat)
      requires bs > 0
      ensures Off(bs, block) + offset == pos && offset < bs
    {
      OffDiv(bs, pos);
      block, offset := pos / bs, pos % bs;
    }

    /** `div_ceil`: the number of blocks of a size. */
    method BlockCount(n: nat) returns (count: nat)
      requires Inv(bs, m, disk) && Sized(n)
      ensures count == |m|
    {
      var q, r := Place(n);
      count := if r > 0 then q + 1 else q;
      OffOrder(bs, q, |m|);
      OffOrder(bs, q + 1, |m|);
      if |m| > 0 {
        OffOrder(bs, |m| - 1, q);
        OffOrder(bs, |m| - 1, q + 1);
      }
    }

    // ---- reading ----

    /** Part of logical block `block`, a hole as zeros. */
    method ReadPart(block: nat, offset: nat, len: nat) returns (bytes: seq<byte>)
      requires Valid() && block < |m| && offset + len <= bs
      ensures Slice(Full(bs, m, disk, map[]), Off(bs, block) + offset, Off(bs, block) + offset + len, bytes)
    {
      assert BlockOk(m, disk, block);
      var fblock := GetInodeFblock(block);
      if fblock != 0 {
        bytes := ReadBytes(fblock, offset, len);
      } else {
        bytes := Zeros(len);
        assert Zeros(bs)[offset..offset + len] == Zeros(len);
      }
      PartSlice(bs, m, disk, map[], block, offset, len, bytes);
    }

    /** Reads the pending run, blocks `block - count` to `block`, behind what is read already. */
    method FlushRead(start: nat, count: nat, read: seq<byte>, ghost block: nat, ghost lo: nat) returns (out: seq<byte>)
      requires Valid() && count <= block && Consecutive(m, block - count, count, start)
      requires Slice(Full(bs, m, disk, map[]), lo, Off(bs, block - count), read)
      ensures Slice(Full(bs, m, disk, map[]), lo, Off(bs, block), out)
    {
      RunSlice(bs, m, disk, map[], block - count, count, start);
      var run := [];
      if count != 0 { run := BlocksGetDirect(start, count); }
      SliceJoin(Full(bs, m, disk, map[]), lo, Off(bs, block - count), Off(bs, block), read, run);
      out := read + run;
    }

    /** The loop of `read_at` over whole blocks, taking `rest` bytes of buffer or fewer. */
    method ReadBlocks(blockStart: nat, blockEnd: nat, rest: nat) returns (out: seq<byte>)
      requires Valid() && blockStart <= blockEnd <= |m| && Off(bs, blockEnd) - Off(bs, blockStart) <= rest
      ensures Slice(Full(bs, m, disk, map[]), Off(bs, blockStart), Off(bs, blockEnd), out)
    {
      ghost var lo := Off(bs, blockStart);
      out := [];
      var fblockStart: nat, fblockCount: nat := 0, 0;
      OffOrder(bs, blockStart, |m|);
      SliceNone(Full(bs, m, disk, map[]), lo);
      for block := blockStart to blockEnd
        invariant fblockCount <= block - blockStart && Consecutive(m, block - fblockCount, fblockCount, fblockStart)
        invariant Slice(Full(bs, m, disk, map[]), lo, Off(bs, block - fblockCount), out)
      {
        var fblock := GetInodeFblock(block);
        if fblock != fblockStart + fblockCount {
          out := FlushRead(fblockStart, fblockCount, out, block, lo);
          OffOrder(bs, block, blockEnd);
          assert |out| <= rest;
          fblockStart, fblockCount := fblock, 0;
        }
        if fblock == 0 {
          out := ReadHole(block, out, lo);
        } else {
          fblockCount := fblockCount + 1;
        }
      }
      out := FlushRead(fblockStart, fblockCount, out, blockEnd, lo);
    }

    /** A hole reads as a block of zeros. */
    method ReadHole(block: nat, read: seq<byte>, ghost lo: nat) returns (out: seq<byte>)
      requires Valid() && block < |m| && m[block] == 0 && Slice(Full(bs, m, disk, map[]), lo, Off(bs, block), read)
      ensures Slice(Full(bs, m, disk, map[]), lo, Off(bs, block + 1), out)
    {
      BlockSlice(bs, m, disk, map[], block);
      SliceJoin(Full(bs, m, disk, map[]), lo, Off(bs, block), Off(bs, block + 1), read, Zeros(bs));
      out := read + Zeros(bs);
    }

    /** The first partial block; afterwards the position is at a block, or everything is read. */
    method ReadHead(pos: nat, n: nat) returns (out: seq<byte>, blockStart: nat)
      requires Valid() && n > 0 && pos + n <= size
      ensures |out| <= n && Slice(Full(bs, m, disk, map[]), pos, pos + |out|, out)
      ensures pos + |out| == Off(bs, blockStart) || (|out| == n && pos + n < Off(bs, blockStart))
    {
      var offset;
      blockStart, offset := Place(pos);
      out := [];
      SliceNone(Full(bs, m, disk, map[]), pos);
      if offset > 0 {
        OffOrder(bs, blockStart, |m|);
        out := ReadPart(blockStart, offset, Min(bs - offset, n));
        blockStart := blockStart + 1;
      }
    }

    /** Whole blocks up to `blockEnd`, and its first `last` bytes. */
    method ReadRest(blockStart: nat, blockEnd: nat, last: nat, rest: nat) returns (out: seq<byte>)
      requires Valid() && blockStart <= blockEnd && last < bs
      requires Off(bs, blockStart) + rest == Off(bs, blockEnd) + last <= size
      ensures Slice(Full(bs, m, disk, map[]), Off(bs, blockStart), Off(bs, blockEnd) + last, out)
    {
      OffOrder(bs, blockStart, blockEnd);
      EndPlaces(bs, blockStart, blockEnd, last, |m|);
      out := ReadBlocks(blockStart, blockEnd, rest);
      var left := rest - |out|;
      assert left < bs;
      if left > 0 {
        var tail := ReadPart(blockEnd, 0, left);
        ghost var lo, mid := Off(bs, blockStart), Off(bs, blockEnd);
        SliceJoin(Full(bs, m, disk, map[]), lo, mid, mid + last, out, tail);
        out := out + tail;
      }
    }

    method ReadRange(pos: nat, n: nat) returns (out: seq<byte>)
      requires Valid() && n > 0 && pos + n <= size
      ensures Slice(Full(bs, m, disk, map[]), pos, pos + n, out)
    {
      var blockStart;
      out, blockStart := ReadHead(pos, n);
      var blockEnd, last := Place(pos + n);
      OffOrder(bs, blockStart, blockEnd);
      OffOrder(bs, blockEnd + 1, blockStart);
      if blockStart <= blockEnd {
        var rest := ReadRest(blockStart, blockEnd, last, n - |out|);
        SliceJoin(Full(bs, m, disk, map[]), pos, Off(bs, blockStart), pos + n, out, rest);
        out := out + rest;
      }
    }

    /** `read_at`: exactly the file's bytes, holes as zeros. */
    method ReadAt(len: nat, pos: nat) returns (out: seq<byte>)
      requires Valid()
      ensures pos >= size ==> out == []
      ensures pos < size ==> out == Contents()[pos..pos + Min(len, size - pos)]
    {
      if pos >= size || len == 0 { return []; }
      var toBeRead := Min(len, size - pos);
      out := ReadRange(pos, toBeRead);
      SliceTake(Full(bs, m, disk, map[]), size, pos, pos + toBeRead, out);
    }

    // ---- allocation ----

    /** The block allocator: any device block the file does not use. */
    method FreshBlock() returns (f: nat)
      ensures f > 1 && f !in m
    {
      Unused(m);
      f :| f > 1 && f !in m;
    }

    ghost predicate Going(w: Work, done: nat)
      reads this
    {
      Inv(bs, m, disk) && Underway(bs, policy, m, view, w, done)
    }

    /** The device, once the bytes for the first `k` blocks are written. */
    ghost predicate Wrote(w: Work, k: nat)
      reads this
    {
      Device(bs, policy, m, disk, w, k)
    }

    /** `ext4_fs_init_inode_dblk_idx`: the device block of a logical block. A hole of an inode with
        extents gets a new one, cleared only where the extent was unwritten; without extents the answer is 0. */
    method InitInodeFblock(block: nat, ghost w: Work, ghost done: nat, ghost k: nat) returns (fblock: nat)
      requires Going(w, done) && Wrote(w, k) && block < |m| && Touched(bs, w.pos, w.n, block)
      modifies this`m, this`disk
      ensures Going(w, done) && Wrote(w, k) && Full(bs, m, disk, view) == Full(bs, old(m), old(disk), view)
      ensures |m| == |old(m)| && m[block] == fblock && Grown(policy, old(m), m)
      ensures fblock == 0 <==> !policy.extents && old(m)[block] == 0
    {
      if m[block] != 0 || !policy.extents { return m[block]; }
      fblock := FreshBlock();
      InitKeeps(bs, policy, m, disk, view, w, done, block, fblock);
      DeviceInit(bs, policy, m, disk, w, k, block, fblock, NewData(bs, policy, block));
      m, disk := m[block := fblock], disk[fblock := NewData(bs, policy, block)];
    }

    /** `ext4_fs_append_inode_dblk`: one more logical block, its contents whatever the device held. */
    method AppendInodeFblock(ghost w: Work, ghost done: nat, ghost k: nat) returns (fblock: nat, block: nat)
      requires Going(w, done) && Wrote(w, k)
      modifies this`m, this`disk
      ensures Going(w, done) && Wrote(w, k) && block == |old(m)| && m == old(m) + [fblock] && fblock > 1
      ensures exists x: seq<byte> :: |x| == bs && Full(bs, m, disk, view) == Full(bs, old(m), old(disk), view) + x
    {
      fblock := FreshBlock();
      assert |Zeros(bs)| == bs;
      var stale: seq<byte> :| |stale| == bs;
      AppendBlock(bs, m, disk, view, fblock, stale);
      AppendKeeps(bs, policy, m, view, w, done, fblock);
      DeviceAppend(bs, policy, m, disk, w, k, fblock, stale);
      block := |m|;
      m, disk := m + [fblock], disk[fblock := stale];
    }

    method WriteBytes(fblock: nat, offset: nat, bytes: seq<byte>)
      requires fblock in disk && offset + |bytes| <= |disk[fblock]|
      modifies this`disk
      ensures disk == old(disk)[fblock := Put(old(disk)[fblock], offset, bytes)]
    {
      disk := disk[fblock := Put(disk[fblock], offset, bytes)];
    }

    method BlocksSetDirect(start: nat, count: nat, bytes: seq<byte>)
      requires |bytes| == Off(bs, count)
      modifies this`disk
      ensures disk == PutRun(bs, old(disk), start, count, bytes)
    {
      disk := PutRun(bs, disk, start, count, bytes);
    }

    // ---- writing ----

    /** A block to write to: below `blockCount` the file has it, at the end it is appended. */
    method GetFblock(block: nat, blockCount: nat, ghost w: Work, ghost cur: nat, ghost k: nat) returns (fblock: nat)
      requires Going(w, block) && Wrote(w, k) && Touched(bs, w.pos, w.n, block)
      requires Progress(Full(bs, m, disk, view), w.was, w.want, cur)
      requires if block < blockCount then block < |m| else block == |m|
      modifies this`m, this`disk
      ensures Going(w, block + 1) && Wrote(w, k) && Progress(Full(bs, m, disk, view), w.was, w.want, cur)
      ensures |m| == (if block < blockCount then |old(m)| else block + 1)
      ensures block < |m| && m[block] == fblock && (fblock == 0 ==> !policy.extents) && Grown(policy, old(m), m)
    {
      if block < blockCount {
        fblock := InitInodeFblock(block, w, block, k);
      } else {
        var newBlock;
        fblock, newBlock := AppendInodeFblock(w, block, k);
        assert block == newBlock;
        ghost var x: seq<byte> :| |x| == bs && Full(bs, m, disk, view) == Full(bs, old(m), old(disk), view) + x;
        ProgressAppend(Full(bs, old(m), old(disk), view), w.was, w.want, cur, x);
      }
      DoneNext(bs, policy, m, view, w, block);
    }

    /** Writes part of a block. What an inode without extents has no block for goes to device block 0. */
    method PutBytes(block: nat, fblock: nat, offset: nat, bytes: seq<byte>, ghost w: Work, ghost done: nat,
                    ghost cur: nat, ghost end: nat)
      requires Going(w, done) && block < |m| && m[block] == fblock && offset + |bytes| <= bs && bytes != []
      requires fblock == 0 ==> !policy.extents && Touched(bs, w.pos, w.n, block)
      requires Wrote(w, block) && Part(bs, Off(bs, block), w.pos, w.n, offset, |bytes|) && w.pos + w.n <= |w.want|
      requires cur == Off(bs, block) + offset && end == cur + |bytes| && Slice(w.want, cur, end, bytes)
      modifies this`disk, this`view
      ensures Going(w, done) && Wrote(w, block + 1) && end <= |Full(bs, m, old(disk), old(view))|
      ensures Full(bs, m, disk, view) == Put(Full(bs, m, old(disk), old(view)), cur, bytes)
    {
      if fblock == 0 {
        PutLost(bs, m, disk, view, block, offset, bytes);
        assert IsHole(w.m, block);
        DeviceLost(bs, policy, m, disk, w, block, offset, bytes);
        view := view[block := Put(HoleData(bs, view, block), offset, bytes)];
      } else {
        PutPart(bs, m, disk, view, block, offset, bytes);
        OneDone(bs, policy, m, disk, w, block, Put(disk[fblock], offset, bytes));
      }
      WriteBytes(fblock, offset, bytes);
    }

    /** The same as the next bytes of the write, in a block that is there. */
    method PutNext(block: nat, fblock: nat, offset: nat, bytes: seq<byte>, ghost w: Work, ghost done: nat,
                   ghost cur: nat)
      requires Going(w, done) && block < |m| && m[block] == fblock && offset + |bytes| <= bs && bytes != []
      requires fblock == 0 ==> !policy.extents && Touched(bs, w.pos, w.n, block)
      requires Wrote(w, block) && Part(bs, Off(bs, block), w.pos, w.n, offset, |bytes|) && w.pos + w.n <= |w.want|
      requires cur == Off(bs, block) + offset && Slice(w.want, cur, cur + |bytes|, bytes)
      requires Progress(Full(bs, m, disk, view), w.was, w.want, cur)
      modifies this`disk, this`view
      ensures Going(w, done) && Wrote(w, block + 1)
      ensures Progress(Full(bs, m, disk, view), w.was, w.want, cur + |bytes|)
    {
      ghost var full, end := Full(bs, m, disk, view), cur + |bytes|;
      PutBytes(block, fblock, offset, bytes, w, done, cur, end);
      ProgressPut(full, w.was, w.want, cur, end, bytes);
    }

    /** Writes part of a block, as the next bytes of the write. */
    method WritePart(block: nat, blockCount: nat, offset: nat, bytes: seq<byte>, ghost w: Work)
      requires Going(w, block) && Wrote(w, block) && offset + |bytes| <= bs && bytes != []
      requires Touched(bs, w.pos, w.n, block) && Part(bs, Off(bs, block), w.pos, w.n, offset, |bytes|)
      requires w.pos + w.n <= |w.want|
      requires Progress(Full(bs, m, disk, view), w.was, w.want, Off(bs, block) + offset)
      requires Slice(w.want, Off(bs, block) + offset, Off(bs, block) + offset + |bytes|, bytes)
      requires if block < blockCount then block < |m| else block == |m|
      modifies this`m, this`disk, this`view
      ensures Going(w, block + 1) && Wrote(w, block + 1)
      ensures Progress(Full(bs, m, disk, view), w.was, w.want, Off(bs, block) + offset + |bytes|)
      ensures |m| == (if block < blockCount then |old(m)| else block + 1)
    {
      ghost var cur, done := Off(bs, block) + offset, block + 1;
      var fblock := GetFblock(block, blockCount, w, cur, block);
      PutNext(block, fblock, offset, bytes, w, done, cur);
    }

    /** Writes the pending run, whole device blocks. */
    method PutBlocks(start: nat, count: nat, bytes: seq<byte>, ghost first: nat, ghost block: nat, ghost w: Work,
                     ghost done: nat)
      requires Going(w, done) && 0 < count && first + count == block && Pending(m, first, count, start)
      requires |bytes| == Off(bs, count)
      requires start == 0 ==> !policy.extents && Touched(bs, w.pos, w.n, block - 1)
      requires Wrote(w, first) && w.pos <= Off(bs, first) && Off(bs, block) <= w.pos + w.n <= |w.want|
      requires Slice(w.want, Off(bs, first), Off(bs, block), bytes)
      modifies this`disk, this`view
      ensures Going(w, done) && Wrote(w, block) && Off(bs, first) + |bytes| <= |Full(bs, m, old(disk), old(view))|
      ensures Full(bs, m, disk, view) == Put(Full(bs, m, old(disk), old(view)), Off(bs, first), bytes)
    {
      PendingCases(bs, m, disk, first, count, start);
      if start == 0 {
        PutLostRun(bs, m, disk, view, first, bytes);
        LostRunDone(bs, policy, m, disk, w, first, count, block, start, bytes);
        view := view[first := bytes];
      } else {
        PutRunFull(bs, m, disk, view, first, count, start, bytes);
        RunDone(bs, policy, m, disk, w, first, count, block, start, bytes);
      }
      BlocksSetDirect(start, count, bytes);
    }

    /** Takes the bytes of the pending run off the buffer and writes them. */
    method FlushWrite(start: nat, count: nat, buf: seq<byte>, ghost first: nat, ghost block: nat, ghost end: nat,
                      ghost w: Work, ghost done: nat)
      returns (rest: seq<byte>)
      requires Going(w, done) && first + count == block && Pending(m, first, count, start)
      requires count > 0 && start == 0 ==> !policy.extents && Touched(bs, w.pos, w.n, block - 1)
      requires Progress(Full(bs, m, disk, view), w.was, w.want, Off(bs, first))
      requires Off(bs, block) <= end == w.pos + w.n && Slice(w.want, Off(bs, first), end, buf)
      requires Wrote(w, first) && w.pos <= Off(bs, first)
      modifies this`disk, this`view
      ensures Going(w, done) && Wrote(w, block) && Progress(Full(bs, m, disk, view), w.was, w.want, Off(bs, block))
      ensures Slice(w.want, Off(bs, block), end, rest)
    {
      rest := buf;
      if count == 0 { return; }
      OffSum(bs, first, count);
      var n := Off(bs, count);
      SliceCut(w.want, Off(bs, first), Off(bs, block), end, buf);
      ghost var full := Full(bs, m, disk, view);
      PutBlocks(start, count, buf[..n], first, block, w, done);
      ProgressPut(full, w.was, w.want, Off(bs, first), Off(bs, block), buf[..n]);
      rest := buf[n..];
    }

    /** What is pending before block `block`: the run of `count` blocks from `first` on, and the bytes from it on. */
    ghost predicate Queued(first: nat, block: nat, start: nat, count: nat, rest: seq<byte>, w: Work)
      reads this
    {
      && first + count == block && Pending(m, first, count, start)
      && (count > 0 && start == 0 ==> !policy.extents && Touched(bs, w.pos, w.n, block - 1))
      && Progress(Full(bs, m, disk, view), w.was, w.want, Off(bs, first))
      && Slice(w.want, Off(bs, first), w.pos + w.n, rest)
      && Wrote(w, first) && w.pos <= Off(bs, first)
    }

    /** One round of the loop: the block joins the pending run, or that is written and a new one begins. */
    method WriteBlock(block: nat, blockCount: nat, start: nat, count: nat, buf: seq<byte>, ghost first: nat,
                      ghost w: Work)
      returns (start': nat, count': nat, rest: seq<byte>, ghost first': nat)
      requires Going(w, block) && |m| == Max(blockCount, block) && Queued(first, block, start, count, buf, w)
      requires Touched(bs, w.pos, w.n, block) && Off(bs, block) <= w.pos + w.n
      modifies this`m, this`disk, this`view
      ensures Going(w, block + 1) && |m| == Max(blockCount, block + 1) && 0 < count' <= count + 1
      ensures Queued(first', block + 1, start', count', rest, w)
    {
      ghost var before := m;
      var fblock := GetFblock(block, blockCount, w, Off(bs, first), first);
      GrownRun(policy, before, m, first, count, start);
      start', count', rest, first' := start, count, buf, first;
      if fblock != start + count {
        rest := FlushWrite(start, count, buf, first, block, w.pos + w.n, w, block + 1);
        OffMonotone(bs, first, block);
        start', count', first' := fblock, 0, block;
      } else {
        PendingNext(bs, m, disk, block, count, start);
      }
      count' := count' + 1;
    }

    /** The loop of `write_at` over whole blocks. */
    method WriteBlocks(blockStart: nat, blockEnd: nat, blockCount: nat, buf: seq<byte>, ghost w: Work)
      returns (rest: seq<byte>)
      requires Going(w, blockStart) && blockStart <= blockEnd && |m| == Max(blockCount, blockStart)
      requires w.pos <= Off(bs, blockStart) && Off(bs, blockEnd) <= w.pos + w.n && w.n > 0 && Wrote(w, blockStart)
      requires Progress(Full(bs, m, disk, view), w.was, w.want, Off(bs, blockStart))
      requires Slice(w.want, Off(bs, blockStart), w.pos + w.n, buf)
      modifies this`m, this`disk, this`view
      ensures Going(w, blockEnd) && Wrote(w, blockEnd) && |m| == Max(blockCount, blockEnd)
      ensures Progress(Full(bs, m, disk, view), w.was, w.want, Off(bs, blockEnd))
      ensures Slice(w.want, Off(bs, blockEnd), w.pos + w.n, rest)
    {
      rest := buf;
      var fblockStart: nat, fblockCount: nat := 0, 0;
      ghost var first := blockStart;
      for block := blockStart to blockEnd
        invariant Going(w, block) && |m| == Max(blockCount, block) && fblockCount <= block - blockStart
        invariant Queued(first, block, fblockStart, fblockCount, rest, w)
      {
        TouchedBetween(bs, w.pos, w.n, blockStart, block, blockEnd);
        fblockStart, fblockCount, rest, first :=
          WriteBlock(block, blockCount, fblockStart, fblockCount, rest, first, w);
      }
      rest := FlushWrite(fblockStart, fblockCount, rest, first, blockEnd, w.pos + w.n, w, blockEnd);
    }

    /** The first partial block; afterwards the position is at a block, or everything is written. */
    method WriteHead(pos: nat, blockCount: nat, buf: seq<byte>, ghost w: Work)
      returns (rest: seq<byte>, blockStart: nat)
      requires Going(w, 0) && blockCount == |m| && w.pos == pos <= Off(bs, |m|) && |buf| == w.n > 0 && Wrote(w, 0)
      requires Progress(Full(bs, m, disk, view), w.was, w.want, pos) && Slice(w.want, pos, pos + |buf|, buf)
      modifies this`m, this`disk, this`view
      ensures Going(w, blockStart) && Wrote(w, blockStart) && |m| == blockCount && |rest| <= |buf| && blockStart <= |m|
      ensures var cur, end := pos + |buf| - |rest|, pos + |buf|;
        && Progress(Full(bs, m, disk, view), w.was, w.want, cur) && Slice(w.want, cur, end, rest)
        && (cur == Off(bs, blockStart) || (rest == [] && end < Off(bs, blockStart)))
    {
      var offset;
      blockStart, offset := Place(pos);
      rest := buf;
      EndPlaces(bs, 0, blockStart, offset, |m|);
      NoneBefore(bs, policy, m, view, w, blockStart);
      SkipBefore(bs, policy, m, disk, w, blockStart);
      if offset > 0 {
        var n := Min(bs - offset, |buf|);
        SliceCut(w.want, pos, pos + n, pos + |buf|, buf);
        WritePart(blockStart, blockCount, offset, buf[..n], w);
        rest := buf[n..];
        blockStart := blockStart + 1;
      }
    }

    /** Whole blocks up to `blockEnd`, and its first `last` bytes. */
    method WriteRest(blockStart: nat, blockEnd: nat, last: nat, blockCount: nat, buf: seq<byte>, ghost w: Work)
      requires Going(w, blockStart) && blockCount == |m| && blockStart <= blockEnd && blockStart <= |m| && last < bs
      requires w.pos <= Off(bs, blockStart) && w.pos + w.n == Off(bs, blockEnd) + last && w.n > 0
      requires Wrote(w, blockStart)
      requires Progress(Full(bs, m, disk, view), w.was, w.want, Off(bs, blockStart))
      requires Slice(w.want, Off(bs, blockStart), Off(bs, blockEnd) + last, buf)
      modifies this`m, this`disk, this`view
      ensures Going(w, if last > 0 then blockEnd + 1 else blockEnd)
      ensures Wrote(w, if last > 0 then blockEnd + 1 else blockEnd)
      ensures |m| == Max(blockCount, if last > 0 then blockEnd + 1 else blockEnd)
      ensures Progress(Full(bs, m, disk, view), w.was, w.want, Off(bs, blockEnd) + last)
    {
      var rest := WriteBlocks(blockStart, blockEnd, blockCount, buf, w);
      assert |rest| < bs;
      OffOrder(bs, blockStart, blockEnd);
      if rest != [] { WriteTail(blockEnd, blockCount, rest, w); }
    }

    /** The last bytes, fewer than a block of them. */
    method WriteTail(block: nat, blockCount: nat, rest: seq<byte>, ghost w: Work)
      requires Going(w, block) && Wrote(w, block) && 0 < |rest| < bs && w.n > 0 && w.pos <= Off(bs, block)
      requires Progress(Full(bs, m, disk, view), w.was, w.want, Off(bs, block))
      requires Slice(w.want, Off(bs, block), w.pos + w.n, rest)
      requires if block < blockCount then block < |m| else block == |m|
      modifies this`m, this`disk, this`view
      ensures Going(w, block + 1) && Wrote(w, block + 1)
      ensures Progress(Full(bs, m, disk, view), w.was, w.want, w.pos + w.n)
      ensures |m| == (if block < blockCount then |old(m)| else block + 1)
    {
      ghost var off, end := Off(bs, block), w.pos + w.n;
      assert off + 0 == off && off + |rest| == end;
      WritePart(block, blockCount, 0, rest, w);
    }

    /** From a position to the first `last` bytes of block `blockEnd`. */
    method WriteBetween(pos: nat, blockEnd: nat, last: nat, blockCount: nat, buf: seq<byte>, ghost w: Work)
      requires Going(w, 0) && blockCount == |m| && w.pos == pos <= Off(bs, |m|) && last < bs && |buf| == w.n > 0
      requires pos + |buf| == Off(bs, blockEnd) + last && Wrote(w, 0)
      requires Progress(Full(bs, m, disk, view), w.was, w.want, pos) && Slice(w.want, pos, pos + |buf|, buf)
      modifies this`m, this`disk, this`view
      ensures Going(w, if last > 0 then blockEnd + 1 else blockEnd)
      ensures exists k :: k >= (if last > 0 then blockEnd + 1 else blockEnd) && Wrote(w, k)
      ensures Progress(Full(bs, m, disk, view), w.was, w.want, pos + |buf|)
      ensures (|m| == blockCount && blockEnd < blockCount)
        || |m| == Max(blockCount, if last > 0 then blockEnd + 1 else blockEnd)
    {
      var rest, blockStart := WriteHead(pos, blockCount, buf, w);
      OffOrder(bs, blockStart, blockEnd);
      OffOrder(bs, blockEnd + 1, blockStart);
      if blockStart <= blockEnd {
        WriteRest(blockStart, blockEnd, last, blockCount, rest, w);
      } else {
        LessDone(bs, policy, m, view, w, blockEnd + 1, blockStart);
      }
    }

    /** The pieces of `write_at`: a first partial block, whole blocks, a last partial block. */
    method WritePieces(pos: nat, buf: seq<byte>, ghost w: Work)
      requires Going(w, 0) && Wrote(w, 0) && Sized(size) && w.pos == pos <= size && |buf| == w.n > 0
      requires Progress(Full(bs, m, disk, view), w.was, w.want, pos) && Slice(w.want, pos, pos + |buf|, buf)
      modifies this`m, this`disk, this`view
      ensures Inv(bs, m, disk) && Written(bs, policy, w.m, m, view, pos, |buf|) && Wrote(w, |w.m|)
      ensures Progress(Full(bs, m, disk, view), w.was, w.want, pos + |buf|)
      ensures Sized(Max(size, pos + |buf|))
    {
      var blockCount := BlockCount(size);
      var blockEnd, last := Place(pos + |buf|);
      WriteBetween(pos, blockEnd, last, blockCount, buf, w);
      AllDone(bs, policy, m, view, w, blockEnd, last);
      ghost var k :| k >= (if last > 0 then blockEnd + 1 else blockEnd) && Wrote(w, k);
      SkipBehind(bs, policy, m, disk, w, blockEnd, last, k);
      NewSize(bs, blockCount, size, blockEnd, last, |m|);
    }

    /** Everything `write_at` does once the write starts inside the file. */
    method WriteRange(pos: nat, buf: seq<byte>)
      requires Valid() && pos <= size && buf != []
      modifies this`m, this`disk, this`size, this`view
      ensures Valid() && Contents() == Outcome(bs, policy, old(m), old(Contents()), pos, buf)
      ensures size == Max(old(size), pos + |buf|)
      ensures Spared(old(disk), m, disk) && Grown(policy, old(m), m)
      ensures 0 in old(disk) && 0 in disk && (policy.extents ==> disk[0] == old(disk)[0])
      ensures !policy.extents ==> disk[0] == Lost(bs, old(m), old(disk)[0], pos, buf, |old(m)|)
    {
      var length := Max(size, pos + |buf|);
      ghost var h := Exposed(bs, policy, |m|, pos, |buf|);
      FullLength(bs, m, disk, h);
      ghost var base := Full(bs, m, disk, h)[..size];
      ghost var w := Work(m, disk, pos, |buf|, base, Overlay(base, pos, buf));
      ghost var m0, disk0 := m, disk;
      Begin(bs, policy, m, w);
      DeviceStart(bs, policy, m, disk, w);
      view := h;
      ProgressStart(Full(bs, m, disk, h), base, pos, buf);
      WritePieces(pos, buf, w);
      DeviceEnd(bs, policy, m, disk, w, buf);
      ProgressEnd(Full(bs, m, disk, view), base, pos, buf);
      OverlayLength(base, pos, buf);
      OutcomeIs(bs, policy, m0, disk0, m, disk, view, size, pos, buf);
      FullLength(bs, m, disk, map[]);
      view := map[];
      if pos + |buf| > size { size := pos + |buf|; }
    }

    // ---- changing the size ----

    /** Appends a block and clears it. */
    method AppendZeroed(block: nat, ghost w: Work)
      requires Going(w, 0) && Wrote(w, 0) && block == |m| && bs <= EMPTY_SIZE
      modifies this`m, this`disk
      ensures Going(w, 0) && Wrote(w, 0) && |m| == |old(m)| + 1
      ensures Full(bs, m, disk, view) == Full(bs, old(m), old(disk), view) + Zeros(bs)
    {
      var fblock, newBlock := AppendInodeFblock(w, 0, 0);
      assert block == newBlock;
      ghost var before := Full(bs, old(m), old(disk), view);
      ghost var x: seq<byte> :| |x| == bs && Full(bs, m, disk, view) == before + x;
      FullLength(bs, old(m), old(disk), view);
      TakeZeros(EMPTY_SIZE, bs);
      ClearAppended(bs, m, disk, view, block, before, x);
      DeviceOwn(bs, policy, m, disk, w, 0, block, Put(disk[fblock], 0, Zeros(EMPTY_SIZE)[..bs]));
      WriteBytes(fblock, 0, Zeros(EMPTY_SIZE)[..bs]);
    }

    /** Appends cleared blocks up to a count. */
    method AppendBlocks(oldBlocks: nat, newBlocks: nat, ghost w: Work) returns (ghost tail: nat)
      requires Going(w, 0) && Wrote(w, 0) && bs <= EMPTY_SIZE && oldBlocks == |m| <= newBlocks
      modifies this`m, this`disk
      ensures Going(w, 0) && Wrote(w, 0) && |m| == newBlocks
      ensures Full(bs, m, disk, view) == Full(bs, old(m), old(disk), view) + Zeros(tail)
    {
      ghost var full := Full(bs, m, disk, view);
      tail := 0;
      assert full + Zeros(0) == full;
      for block := oldBlocks to newBlocks
        invariant Going(w, 0) && Wrote(w, 0) && |m| == block && Full(bs, m, disk, view) == full + Zeros(tail)
      {
        AppendZeroed(block, w);
        MoreZeros(full, tail, bs);
        tail := tail + bs;
      }
    }

    /** Clears block `q` from its byte `r` on; panics when the block is still a hole. */
    method ClearLast(q: nat, r: nat, ghost w: Work) returns (panicked: bool)
      requires Going(w, q) && Wrote(w, 0) && bs <= EMPTY_SIZE && q < |m| && r < bs && Touched(bs, w.pos, w.n, q)
      requires Off(bs, q) + bs <= |Full(bs, m, disk, view)|
      modifies this`m, this`disk
      ensures panicked <==> !policy.extents && old(m)[q] == 0
      ensures Wrote(w, 0)
      ensures !panicked ==> Going(w, q + 1) && |m| == |old(m)|
      ensures !panicked ==>
        Full(bs, m, disk, view) == Put(Full(bs, old(m), old(disk), view), Off(bs, q) + r, Zeros(bs - r))
    {
      var fblock := InitInodeFblock(q, w, q, 0);
      panicked := fblock == 0;
      if panicked { return; }
      DoneNext(bs, policy, m, view, w, q);
      PutPart(bs, m, disk, view, q, r, Zeros(bs - r));
      TakeZeros(EMPTY_SIZE, bs - r);
      DeviceOwn(bs, policy, m, disk, w, 0, q, Put(disk[fblock], r, Zeros(EMPTY_SIZE)[..bs - r]));
      WriteBytes(fblock, r, Zeros(EMPTY_SIZE)[..bs - r]);
    }

    /** The block counts of the old and a larger new size, and the place of the old end. */
    method Plan(len: nat) returns (oldBlocks: nat, newBlocks: nat, oldLast: nat, oldStart: nat)
      requires Inv(bs, m, disk) && Sized(size) && len > size
      ensures oldBlocks == |m| <= newBlocks && oldLast < newBlocks && oldStart < bs
      ensures Off(bs, oldLast) + oldStart == size && Off(bs, oldBlocks) <= size + (bs - oldStart) <= Off(bs, newBlocks)
      ensures newBlocks > 0 && Off(bs, newBlocks - 1) < len <= Off(bs, newBlocks)
    {
      oldBlocks := BlockCount(size);
      var q, r := Place(len);
      newBlocks := if r > 0 then q + 1 else q;
      oldLast, oldStart := Place(size);
      CeilPlaces(bs, oldBlocks, size, q, r, newBlocks, oldLast, oldStart);
      OffOrder(bs, oldLast + 1, newBlocks);
    }

    /** The blocks for a larger size, everything behind the old size cleared. */
    method Grow(len: nat, ghost w: Work) returns (panicked: bool)
      requires Going(w, 0) && w.m == m && bs <= EMPTY_SIZE && Sized(size) && len > size == w.pos && w.n == len - size
      requires size <= |Full(bs, m, disk, view)| && Wrote(w, 0)
      modifies this`m, this`disk
      ensures panicked <==> !policy.extents && EndsInHole(bs, old(m), size)
      ensures Wrote(w, 0)
      ensures !panicked ==> Inv(bs, m, disk) && Written(bs, policy, w.m, m, view, w.pos, w.n) && Sized(len)
      ensures !panicked ==> size <= |Full(bs, old(m), old(disk), view)| && len <= |Full(bs, m, disk, view)|
      ensures !panicked ==>
        Full(bs, m, disk, view)[..len] == Full(bs, old(m), old(disk), view)[..size] + Zeros(len - size)
    {
      ghost var full := Full(bs, m, disk, view);
      FullLength(bs, m, disk, view);
      var oldBlocks, newBlocks, oldLast, oldStart := Plan(len);
      ghost var tail := AppendBlocks(oldBlocks, newBlocks, w);
      FullLength(bs, m, disk, view);
      OldEnd(bs, policy, w.m, m, size, oldLast, oldStart);
      panicked := ClearEnd(oldLast, oldStart, full + Zeros(tail), w);
      if !panicked {
        assert |m| == newBlocks;
        Extended(full, size, bs - oldStart, tail, len);
        FullLength(bs, m, disk, view);
      }
    }

    /** Clears the block of the old end behind it. */
    method ClearEnd(q: nat, r: nat, ghost longer: seq<byte>, ghost w: Work) returns (panicked: bool)
      requires Going(w, 0) && bs <= EMPTY_SIZE && q < |m| && r < bs && Off(bs, q) + r == size == w.pos && w.n > 0
      requires |w.m| <= q + 1 && Full(bs, m, disk, view) == longer && Off(bs, q) + bs <= |longer| && Wrote(w, 0)
      modifies this`m, this`disk
      ensures panicked <==> !policy.extents && old(m)[q] == 0
      ensures Wrote(w, 0)
      ensures !panicked ==> Inv(bs, m, disk) && Written(bs, policy, w.m, m, view, w.pos, w.n) && |m| == |old(m)|
      ensures !panicked ==> Full(bs, m, disk, view) == Put(longer, size, Zeros(bs - r))
    {
      NoneBefore(bs, policy, m, view, w, q);
      panicked := ClearLast(q, r, w);
      if !panicked { OnlyLast(bs, policy, m, view, w, q); }
    }

    /** `ext4_fs_truncate_inode`: the blocks past the new size are dropped. */
    method Truncate(len: nat)
      requires Valid() && len < size
      modifies this`m, this`size
      ensures Valid() && size == len && Contents() == old(Contents())[..len]
    {
      var q, r := Place(len);
      var count := if r > 0 then q + 1 else q;
      OffOrder(bs, q, |m|);
      OffOrder(bs, q + 1, |m|);
      if q > 0 { OffOrder(bs, q - 1, q); }
      Shorter(bs, m, disk, map[], count);
      ghost var full := Full(bs, m, disk, map[]);
      m, size := m[..count], len;
      assert full[..Off(bs, count)][..len] == full[..len];
    }

    /** `set_len` for a larger size. */
    method Extend(len: nat) returns (panicked: bool)
      requires Valid() && len > size
      modifies this`m, this`disk, this`size, this`view
      ensures panicked <==> !policy.extents && EndsInHole(bs, old(m), old(size))
      ensures !panicked ==> Valid() && size == len
      ensures !panicked ==>
        Contents() == Outcome(bs, policy, old(m), old(Contents()), old(size), Zeros(len - old(size)))
      ensures !panicked ==> Grown(policy, old(m), m) && TailMapped(bs, m, old(size))
      ensures Spared(old(disk), m, disk) && 0 in old(disk) && 0 in disk && disk[0] == old(disk)[0]
    {
      ghost var x := Zeros(len - size);
      ghost var h := Exposed(bs, policy, |m|, size, |x|);
      FullLength(bs, m, disk, h);
      ghost var base := Full(bs, m, disk, h)[..size];
      ghost var w := Work(m, disk, size, |x|, base, Overlay(base, size, x));
      ghost var m0, disk0 := m, disk;
      Begin(bs, policy, m, w);
      DeviceStart(bs, policy, m, disk, w);
      view := h;
      panicked := Grow(len, w);
      DeviceIff(bs, policy, m, disk, w, 0);
      if panicked { return; }
      OverlayEnd(base, x);
      OutcomeIs(bs, policy, m0, disk0, m, disk, view, size, size, x);
      EndMapped(bs, policy, m0, m, view, size, |x|);
      FullLength(bs, m, disk, map[]);
      view := map[];
      size := len;
    }

    /** `set_len`. */
    method SetLen(len: nat) returns (panicked: bool)
      requires Valid()
      modifies this`m, this`disk, this`size, this`view
      ensures panicked <==> len > old(size) && !policy.extents && EndsInHole(bs, old(m), old(size))
      ensures !panicked ==> Valid() && size == len
      ensures len <= old(size) ==> Contents() == old(Contents())[..len]
      ensures !panicked && len > old(size) ==>
        Contents() == Outcome(bs, policy, old(m), old(Contents()), old(size), Zeros(len - old(size)))
      ensures len > old(size) && Clean(bs, policy, old(m), old(size), old(size), len - old(size)) ==>
        !panicked && Contents() == old(Contents()) + Zeros(len - old(size))
      ensures !panicked && len > old(size) ==> Grown(policy, old(m), m) && TailMapped(bs, m, old(size))
      ensures Spared(old(disk), m, disk) && 0 in old(disk) && 0 in disk && disk[0] == old(disk)[0]
      ensures len <= old(size) ==> disk == old(disk)
    {
      panicked := false;
      if len < size {
        Truncate(len);
      } else if len > size {
        ZeroHoles(bs, m, disk, size);
        panicked := Extend(len);
        CleanGrows(bs, policy, old(m), old(Contents()), len);
      }
    }

    /** The write itself; an empty one does nothing. */
    method WriteSome(pos: nat, buf: seq<byte>) returns (n: nat)
      requires Valid() && pos <= size
      modifies this`m, this`disk, this`size, this`view
      ensures Valid() && n == |buf| && Spared(old(disk), m, disk) && Grown(policy, old(m), m)
      ensures Contents() ==
        if buf == [] then old(Contents()) else Outcome(bs, policy, old(m), old(Contents()), pos, buf)
      ensures 0 in old(disk) && 0 in disk && (policy.extents ==> disk[0] == old(disk)[0])
      ensures !policy.extents ==> disk[0] == Lost(bs, old(m), old(disk)[0], pos, buf, |old(m)|)
    {
      n := |buf|;
      if buf == [] {
        ZeroHoles(bs, m, disk, size);
        LostAll(bs, m, disk[0], pos, buf, 0, |m|);
        return;
      }
      WriteRange(pos, buf);
    }

    /** `write_at`. The contents become those of `Outcome`; when the write is clean, these are the old ones,
        zero-padded up to the position and overlaid with the buffer. */
    method WriteAt(buf: seq<byte>, pos: nat) returns (n: nat, panicked: bool)
      requires Valid()
      modifies this`m, this`disk, this`size, this`view
      ensures panicked <==> pos > old(size) && !policy.extents && EndsInHole(bs, old(m), old(size))
      ensures !panicked ==> Valid() && n == |buf|
      ensures var from := Min(pos, old(size));
        !panicked ==> Contents() == Outcome(bs, policy, old(m), old(Contents()), from, Zeros(pos - from) + buf)
      ensures var from := Min(pos, old(size));
        Clean(bs, policy, old(m), old(size), from, pos - from + |buf|) ==>
          !panicked && Contents() == Overlay(Padded(old(Contents()), pos), pos, buf)
      ensures Spared(old(disk), m, disk) && 0 in old(disk) && 0 in disk
      ensures policy.extents ==> disk[0] == old(disk)[0]
      ensures !panicked && !policy.extents ==> disk[0] == Lost(bs, old(m), old(disk)[0], pos, buf, |old(m)|)
    {
      n, panicked := 0, false;
      ZeroHoles(bs, m, disk, size);
      ghost var was, from := Contents(), Min(pos, size);
      CleanWrites(bs, policy, m, was, pos, buf);
      if pos > size {
        panicked := SetLen(pos);
        if panicked { return; }
      }
      ghost var m1, was1, disk1 := m, Contents(), disk;
      n := WriteSome(pos, buf);
      TwoWrites(bs, policy, old(m), m1, was, was1, pos, buf);
      SparedOn(policy, old(disk), m1, disk1, m, disk);
      if !policy.extents { TwoLost(bs, policy, old(m), m1, old(disk)[0], old(size), pos, buf); }
    }
  }

  /** The file has just the blocks its size needs. */
  ghost predicate SizedFor(bs: nat, m: seq<nat>, n: nat) {
    n <= Off(bs, |m|) && (|m| > 0 ==> Off(bs, |m| - 1) < n)
  }

  /** The size lies inside the last block, and that is a hole. */
  predicate EndsInHole(bs: nat, m: seq<nat>, size: nat) {
    |m| > 0 && m[|m| - 1] == 0 && size < Off(bs, |m|)
  }

  /** No hole reaches past `pos`. */
  ghost predicate TailMapped(bs: nat, m: seq<nat>, pos: nat) {
    forall b: nat {:trigger IsHole(m, b)} :: IsHole(m, b) ==> Off(bs, b) + bs <= pos
  }

  /** Contents extended with zeros to hold at least `n` bytes. */
  function Padded(s: seq<byte>, n: nat): (r: seq<byte>)
    ensures |r| >= n
  {
    if n <= |s| then s else s + Zeros(n - |s|)
  }

  // ---- a write that goes on ----

  /** The block map has grown from that of the write. Touched holes show in `h` what they are going to
      hold, and of the blocks before `done` the touched ones are mapped. */
  ghost predicate Underway(bs: nat, y: Policy, m: seq<nat>, h: Holes, w: Work, done: nat) {
    && Grown(y, w.m, m) && (forall b :: b in h ==> Touched(bs, w.pos, w.n, b))
    && (y.extents ==> forall b: nat {:trigger IsHole(w.m, b)} :: IsHole(w.m, b) && Touched(bs, w.pos, w.n, b) ==>
          HoleData(bs, h, b) == NewData(bs, y, b))
    && (y.extents ==> forall b: nat {:trigger IsHole(m, b)} :: b < done && Touched(bs, w.pos, w.n, b) ==> !IsHole(m, b))
  }

  lemma {:induction false} Begin(bs: nat, y: Policy, m: seq<nat>, w: Work)
    requires w.m == m
    ensures Underway(bs, y, m, Exposed(bs, y, |m|, w.pos, w.n), w, 0)
  {
  }

  lemma {:induction false} InitKeeps(bs: nat, y: Policy, m: seq<nat>, disk: Disk, h: Holes, w: Work, done: nat,
                                     b: nat, f: nat)
    requires Inv(bs, m, disk) && Underway(bs, y, m, h, w, done) && y.extents
    requires IsHole(m, b) && Touched(bs, w.pos, w.n, b) && f > 1 && f !in m
    ensures var m', disk' := m[b := f], disk[f := NewData(bs, y, b)];
      Inv(bs, m', disk') && Underway(bs, y, m', h, w, done) && Full(bs, m', disk', h) == Full(bs, m, disk, h)
  {
    assert IsHole(w.m, b);
    FillHole(bs, m, disk, h, b, f);
    var m' := m[b := f];
    forall c: nat | c < done && Touched(bs, w.pos, w.n, c) ensures !IsHole(m', c) {
      assert !IsHole(m, c);
    }
  }

  lemma {:induction false} AppendKeeps(bs: nat, y: Policy, m: seq<nat>, h: Holes, w: Work, done: nat, f: nat)
    requires Underway(bs, y, m, h, w, done) && f > 1
    ensures Underway(bs, y, m + [f], h, w, done)
  {
    var m' := m + [f];
    if y.extents {
      forall c: nat | c < done && Touched(bs, w.pos, w.n, c) ensures !IsHole(m', c) {
        assert !IsHole(m, c);
      }
    }
  }

  lemma {:induction false} DoneNext(bs: nat, y: Policy, m: seq<nat>, h: Holes, w: Work, b: nat)
    requires Underway(bs, y, m, h, w, b) && b < |m| && (m[b] == 0 ==> !y.extents)
    ensures Underway(bs, y, m, h, w, b + 1)
  {
  }

  lemma {:induction false} LessDone(bs: nat, y: Policy, m: seq<nat>, h: Holes, w: Work, a: nat, b: nat)
    requires Underway(bs, y, m, h, w, b) && a <= b
    ensures Underway(bs, y, m, h, w, a)
  {
  }

  /** Blocks before the position are not touched. */
  lemma {:induction false} NoneBefore(bs: nat, y: Policy, m: seq<nat>, h: Holes, w: Work, b: nat)
    requires bs > 0 && Underway(bs, y, m, h, w, 0) && Off(bs, b) <= w.pos
    ensures Underway(bs, y, m, h, w, b)
  {
    forall c: nat | c < b ensures !Touched(bs, w.pos, w.n, c) {
      OffMonotone(bs, c, b);
    }
  }

  /** Blocks behind the end are not touched. */
  lemma {:induction false} AllDone(bs: nat, y: Policy, m: seq<nat>, h: Holes, w: Work, q: nat, r: nat)
    requires bs > 0 && r < bs && w.pos + w.n == Off(bs, q) + r
    requires Underway(bs, y, m, h, w, if r > 0 then q + 1 else q)
    ensures Written(bs, y, w.m, m, h, w.pos, w.n)
  {
    var done := if r > 0 then q + 1 else q;
    if y.extents {
      forall c: nat | Touched(bs, w.pos, w.n, c) ensures !IsHole(m, c) {
        OffOrder(bs, q + 1, c);
        OffOrder(bs, q, c);
        assert c < done;
      }
    }
  }

  lemma {:induction false} TouchedBetween(bs: nat, pos: nat, n: nat, a: nat, b: nat, c: nat)
    requires bs > 0 && a <= b < c && pos <= Off(bs, a) && Off(bs, c) <= pos + n && n > 0
    ensures Touched(bs, pos, n, b) && Off(bs, b) <= pos + n
  {
    OffMonotone(bs, a, b);
    OffMonotone(bs, b, c);
  }

  // ---- what reaches the device ----

  /** Blocks that are mapped now were no touched holes of an inode without extents. */
  lemma {:induction false} NoHoles(bs: nat, y: Policy, m: seq<nat>, w: Work, j: nat, k: nat)
    requires Grown(y, w.m, m) && j <= k <= |m| && forall b :: j <= b < k ==> m[b] != 0
    ensures y.extents || forall b: nat {:trigger IsHole(w.m, b)} ::
      j <= b < k ==> !(IsHole(w.m, b) && Touched(bs, w.pos, w.n, b))
  {
  }

  lemma {:induction false} SkipBefore(bs: nat, y: Policy, m: seq<nat>, disk: Disk, w: Work, b: nat)
    requires bs > 0 && Device(bs, y, m, disk, w, 0) && Off(bs, b) <= w.pos && w.pos + w.n <= |w.want|
    ensures Device(bs, y, m, disk, w, b)
  {
    forall c: nat | c < b ensures !Touched(bs, w.pos, w.n, c) {
      OffMonotone(bs, c, b);
    }
    DeviceSkip(bs, y, m, disk, w, 0, b);
  }

  /** Neither the blocks behind the end nor those behind the last one count. */
  lemma {:induction false} SkipBehind(bs: nat, y: Policy, m: seq<nat>, disk: Disk, w: Work, q: nat, r: nat, k: nat)
    requires bs > 0 && r < bs && w.pos + w.n == Off(bs, q) + r && w.pos + w.n <= |w.want|
    requires k >= (if r > 0 then q + 1 else q) && Device(bs, y, m, disk, w, k)
    ensures Device(bs, y, m, disk, w, |w.m|)
  {
    forall c: nat | c >= k ensures !Touched(bs, w.pos, w.n, c) {
      OffOrder(bs, q + 1, c);
      OffOrder(bs, q, c);
    }
    if k <= |w.m| {
      DeviceSkip(bs, y, m, disk, w, k, |w.m|);
    } else {
      DeviceIff(bs, y, m, disk, w, k);
      DeviceIff(bs, y, m, disk, w, |w.m|);
      if !y.extents { LostAll(bs, w.m, w.disk[0], w.pos, Bytes(w), |w.m|, k); }
    }
  }

  lemma {:induction false} DeviceEnd(bs: nat, y: Policy, m: seq<nat>, disk: Disk, w: Work, x: seq<byte>)
    requires Device(bs, y, m, disk, w, |w.m|) && |x| == w.n && w.pos <= |w.was| && w.want == Overlay(w.was, w.pos, x)
    ensures Spared(w.disk, m, disk) && 0 in w.disk && 0 in disk
    ensures disk[0] == if y.extents then w.disk[0] else Lost(bs, w.m, w.disk[0], w.pos, x, |w.m|)
  {
    DeviceIff(bs, y, m, disk, w, |w.m|);
    assert Bytes(w) == x;
  }

  lemma {:induction false} SparedOn(y: Policy, d: Disk, m: seq<nat>, d1: Disk, m': seq<nat>, d': Disk)
    requires Spared(d, m, d1) && Spared(d1, m', d') && Grown(y, m, m')
    ensures Spared(d, m', d')
  {
    forall f | f in m && f != 0 ensures f in m' {
      var k :| 0 <= k < |m| && m[k] == f;
      assert m'[k] == f;
    }
  }

  /** Extending first makes no difference to block 0. */
  lemma {:induction false} TwoLost(bs: nat, y: Policy, m: seq<nat>, m1: seq<nat>, z: seq<byte>, size: nat, pos: nat,
                                   x: seq<byte>)
    requires |z| == bs && Grown(y, m, m1) && !y.extents
    requires (pos <= size ==> m1 == m) && (pos > size ==> TailMapped(bs, m1, size))
    ensures Lost(bs, m1, z, pos, x, |m1|) == Lost(bs, m, z, pos, x, |m|)
  {
    if pos > size {
      forall b: nat ensures !(IsHole(m1, b) && Touched(bs, pos, |x|, b)) && (IsHole(m, b) ==> IsHole(m1, b)) {
      }
      LostAll(bs, m1, z, pos, x, 0, |m1|);
      LostAll(bs, m, z, pos, x, 0, |m|);
    }
  }

  // ---- runs to be written ----

  /** Blocks `b` to `b + c` have device blocks that count up from `start`. */
  ghost predicate Pending(m: seq<nat>, b: nat, c: nat, start: nat) {
    b + c <= |m| && forall k :: b <= k < b + c ==> m[k] == start + (k - b)
  }

  /** A run is one of device blocks of the file, or a single hole. */
  lemma {:induction false} PendingCases(bs: nat, m: seq<nat>, disk: Disk, b: nat, c: nat, start: nat)
    requires Inv(bs, m, disk) && Pending(m, b, c, start)
    ensures c > 0 ==> if start == 0 then c == 1 && m[b] == 0 else Consecutive(m, b, c, start)
  {
    if c > 0 {
      assert BlockOk(m, disk, b) && m[b] == start;
      if c > 1 { assert BlockOk(m, disk, b + 1) && m[b + 1] == start + 1; }
    }
  }

  /** A block that goes on from a run is no hole. */
  lemma {:induction false} PendingNext(bs: nat, m: seq<nat>, disk: Disk, b: nat, c: nat, start: nat)
    requires Inv(bs, m, disk) && c <= b < |m| && Pending(m, b - c, c, start) && m[b] == start + c
    ensures Pending(m, b - c, c + 1, start) && (start == 0 ==> c == 0)
  {
    PendingCases(bs, m, disk, b - c, c, start);
    assert BlockOk(m, disk, b);
  }

  lemma {:induction false} GrownRun(y: Policy, m: seq<nat>, m': seq<nat>, b: nat, c: nat, start: nat)
    requires Grown(y, m, m') && Pending(m, b, c, start) && (c > 0 && start == 0 ==> !y.extents)
    ensures Pending(m', b, c, start)
  {
  }

  lemma {:induction false} PutLostRun(bs: nat, m: seq<nat>, disk: Disk, h: Holes, b: nat, x: seq<byte>)
    requires Inv(bs, m, disk) && b < |m| && m[b] == 0 && |x| == Off(bs, 1)
    ensures var disk', h' := PutRun(bs, disk, 0, 1, x), h[b := x];
      && Off(bs, b) + |x| <= |Full(bs, m, disk, h)| && Inv(bs, m, disk')
      && Full(bs, m, disk', h') == Put(Full(bs, m, disk, h), Off(bs, b), x)
  {
    assert Off(bs, 1) == bs && Off(bs, 0) == 0;
    PutLost(bs, m, disk, h, b, 0, x);
    PutWhole(disk[0], x);
    PutWhole(HoleData(bs, h, b), x);
    assert x[0..] == x && x[..0] == [];
    assert PutRun(bs, disk, 0, 0, x[..0]) == disk;
    assert PutRun(bs, disk, 0, 1, x) == disk[0 := x];
  }

  lemma {:induction false} RunDone(bs: nat, y: Policy, m: seq<nat>, disk: Disk, w: Work, b: nat, c: nat, b': nat,
                                   start: nat, x: seq<byte>)
    requires Device(bs, y, m, disk, w, b) && Consecutive(m, b, c, start) && |x| == Off(bs, c)
    requires Grown(y, w.m, m) && w.pos + w.n <= |w.want| && b' == b + c
    ensures Device(bs, y, m, PutRun(bs, disk, start, c, x), w, b')
  {
    DeviceRun(bs, y, m, disk, w, b, b, c, start, x);
    NoHoles(bs, y, m, w, b, b + c);
    DeviceSkip(bs, y, m, PutRun(bs, disk, start, c, x), w, b, b + c);
  }

  /** A mapped block is written. */
  lemma {:induction false} OneDone(bs: nat, y: Policy, m: seq<nat>, disk: Disk, w: Work, b: nat, x: seq<byte>)
    requires Device(bs, y, m, disk, w, b) && b < |m| && m[b] != 0 && Grown(y, w.m, m) && w.pos + w.n <= |w.want|
    ensures Device(bs, y, m, disk[m[b] := x], w, b + 1)
  {
    DeviceOwn(bs, y, m, disk, w, b, b, x);
    NoHoles(bs, y, m, w, b, b + 1);
    DeviceSkip(bs, y, m, disk[m[b] := x], w, b, b + 1);
  }

  lemma {:induction false} DeviceLostRun(bs: nat, y: Policy, m: seq<nat>, disk: Disk, w: Work, b: nat, x: seq<byte>)
    requires Device(bs, y, m, disk, w, b) && !y.extents && Grown(y, w.m, m) && IsHole(m, b) && |x| == Off(bs, 1)
    requires Touched(bs, w.pos, w.n, b) && w.pos <= Off(bs, b) && Off(bs, b + 1) <= w.pos + w.n <= |w.want|
    requires bs > 0 && Slice(w.want, Off(bs, b), Off(bs, b + 1), x)
    ensures Device(bs, y, m, PutRun(bs, disk, 0, 1, x), w, b + 1)
  {
    assert Off(bs, 1) == bs && Off(bs, 0) == 0;
    assert IsHole(w.m, b);
    DeviceLost(bs, y, m, disk, w, b, 0, x);
    DeviceIff(bs, y, m, disk, w, b);
    PutWhole(disk[0], x);
    assert x[0..] == x && x[..0] == [];
    assert PutRun(bs, disk, 0, 0, x[..0]) == disk;
    assert PutRun(bs, disk, 0, 1, x) == disk[0 := x];
  }

  lemma {:induction false} LostRunDone(bs: nat, y: Policy, m: seq<nat>, disk: Disk, w: Work, b: nat, c: nat, b': nat,
                                       start: nat, x: seq<byte>)
    requires Device(bs, y, m, disk, w, b) && !y.extents && Grown(y, w.m, m) && IsHole(m, b) && |x| == Off(bs, c)
    requires Touched(bs, w.pos, w.n, b) && w.pos <= Off(bs, b) && Off(bs, b') <= w.pos + w.n <= |w.want|
    requires bs > 0 && Slice(w.want, Off(bs, b), Off(bs, b'), x) && start == 0 && c == 1 && b' == b + 1
    ensures Device(bs, y, m, PutRun(bs, disk, start, c, x), w, b')
  {
    DeviceLostRun(bs, y, m, disk, w, b, x);
  }

  // ---- growing ----

  /** The block of the old end: a hole exactly when the file ends in one. */
  lemma {:induction false} OldEnd(bs: nat, y: Policy, m: seq<nat>, m': seq<nat>, size: nat, q: nat, r: nat)
    requires bs > 0 && SizedFor(bs, m, size) && Grown(y, m, m') && q < |m'| && r < bs && Off(bs, q) + r == size
    ensures |m| <= q + 1 && (!y.extents && m'[q] == 0 <==> !y.extents && EndsInHole(bs, m, size))
  {
    OffOrder(bs, q, |m|);
    OffOrder(bs, |m|, q);
    OffOrder(bs, q + 1, |m|);
    if |m| > 0 {
      OffOrder(bs, |m| - 1, q);
      OffOrder(bs, |m| - 1, q + 1);
    }
  }

  /** Growing touches no hole behind the block of the old end. */
  lemma {:induction false} OnlyLast(bs: nat, y: Policy, m: seq<nat>, h: Holes, w: Work, q: nat)
    requires Underway(bs, y, m, h, w, q + 1) && |w.m| <= q + 1
    ensures Written(bs, y, w.m, m, h, w.pos, w.n)
  {
  }

  lemma {:induction false} EndMapped(bs: nat, y: Policy, m: seq<nat>, m': seq<nat>, h: Holes, size: nat, n: nat)
    requires bs > 0 && SizedFor(bs, m, size) && Written(bs, y, m, m', h, size, n) && n > 0
    requires y.extents || !EndsInHole(bs, m, size)
    ensures TailMapped(bs, m', size)
  {
    forall b: nat | IsHole(m', b) ensures Off(bs, b) + bs <= size {
      assert b < |m|;
      OffMonotone(bs, b, |m| - 1);
      OffOrder(bs, |m| - 1, b + 1);
      assert size < Off(bs, b) + bs ==> Touched(bs, size, n, b) && b == |m| - 1;
    }
  }

  lemma {:induction false} OverlayLength(was: seq<byte>, pos: nat, x: seq<byte>)
    requires pos <= |was|
    ensures |Overlay(was, pos, x)| == Max(|was|, pos + |x|)
  {
  }

  lemma {:induction false} OverlayEnd(was: seq<byte>, x: seq<byte>)
    ensures Overlay(was, |was|, x) == was + x
  {
    assert was[..|was|] == was;
  }

  /** A clean extension does not panic and adds zeros. */
  lemma {:induction false} CleanGrows(bs: nat, y: Policy, m: seq<nat>, was: seq<byte>, len: nat)
    requires bs > 0 && SizedFor(bs, m, |was|) && HolesAreZero(bs, m, was) && len > |was|
    ensures Clean(bs, y, m, |was|, |was|, len - |was|) ==>
      && (y.extents || !EndsInHole(bs, m, |was|))
      && Outcome(bs, y, m, was, |was|, Zeros(len - |was|)) == was + Zeros(len - |was|)
  {
    var n := len - |was|;
    if Clean(bs, y, m, |was|, |was|, n) {
      CleanOverlays(bs, y, m, was, |was|, Zeros(n));
      OverlayEnd(was, Zeros(n));
      if EndsInHole(bs, m, |was|) {
        assert IsHole(m, |m| - 1) && Touched(bs, |was|, n, |m| - 1);
      }
    }
  }

  /** The same for a write. */
  lemma {:induction false} CleanWrites(bs: nat, y: Policy, m: seq<nat>, was: seq<byte>, pos: nat, buf: seq<byte>)
    requires bs > 0 && SizedFor(bs, m, |was|) && HolesAreZero(bs, m, was)
    ensures var from := Min(pos, |was|); Clean(bs, y, m, |was|, from, pos - from + |buf|) ==>
      && !(pos > |was| && !y.extents && EndsInHole(bs, m, |was|))
      && Outcome(bs, y, m, was, from, Zeros(pos - from) + buf) == Overlay(Padded(was, pos), pos, buf)
  {
    var from := Min(pos, |was|);
    if Clean(bs, y, m, |was|, from, pos - from + |buf|) {
      var x := Zeros(pos - from) + buf;
      CleanOverlays(bs, y, m, was, from, x);
      if pos > |was| {
        OverlayEnd(was, x);
        OverlayEnd(Padded(was, pos), buf);
        assert was + x == Padded(was, pos) + buf;
        if EndsInHole(bs, m, |was|) {
          assert IsHole(m, |m| - 1) && Touched(bs, |was|, |x|, |m| - 1);
        }
      } else {
        assert x == buf;
      }
    }
  }

  /** Growing and writing are one write with zeros in front. */
  lemma {:induction false} TwoWrites(bs: nat, y: Policy, m: seq<nat>, m1: seq<nat>, was: seq<byte>, was1: seq<byte>,
                                     pos: nat, buf: seq<byte>)
    requires bs > 0 && (pos <= |was| ==> m1 == m && was1 == was)
    requires pos > |was| ==> was1 == Outcome(bs, y, m, was, |was|, Zeros(pos - |was|))
    requires pos > |was| ==> Grown(y, m, m1) && TailMapped(bs, m1, |was|)
    ensures var from := Min(pos, |was|);
      (if buf == [] then was1 else Outcome(bs, y, m1, was1, pos, buf))
      == Outcome(bs, y, m, was, from, Zeros(pos - from) + buf)
  {
    var from := Min(pos, |was|);
    var x := Zeros(pos - from) + buf;
    var r, want := if buf == [] then was1 else Outcome(bs, y, m1, was1, pos, buf), Outcome(bs, y, m, was, from, x);
    if pos <= |was| {
      assert x == buf;
      if buf == [] { assert r == want; }
    } else {
      forall i: nat | i < |want| ensures r[i] == want[i] {
        BehindEnd(bs, y, m, m1, was, was1, pos, buf, i);
      }
    }
  }

  lemma {:induction false} BehindEnd(bs: nat, y: Policy, m: seq<nat>, m1: seq<nat>, was: seq<byte>, was1: seq<byte>,
                                     pos: nat, buf: seq<byte>, i: nat)
    requires bs > 0 && pos > |was| && was1 == Outcome(bs, y, m, was, |was|, Zeros(pos - |was|)) && i < pos + |buf|
    requires Grown(y, m, m1) && TailMapped(bs, m1, |was|)
    ensures (if buf == [] then was1[i] else Outcome(bs, y, m1, was1, pos, buf)[i])
      == Outcome(bs, y, m, was, |was|, Zeros(pos - |was|) + buf)[i]
  {
    var b := i / bs;
    OffDiv(bs, i);
    assert IsHole(m1, b) ==> Off(bs, b) + bs <= |was|;
    assert IsHole(m, b) && !y.extents ==> IsHole(m1, b);
  }

  /** The blocks after a write are just those the larger of the two sizes needs. */
  lemma {:induction false} NewSize(bs: nat, count: nat, size: nat, q: nat, r: nat, n: nat)
    requires bs > 0 && r < bs && Off(bs, q) + r > 0 && size <= Off(bs, count)
    requires (count > 0 ==> Off(bs, count - 1) < size)
    requires (n == count && q < count) || n == Max(count, if r > 0 then q + 1 else q)
    ensures var end := Max(size, Off(bs, q) + r); end <= Off(bs, n) && n > 0 && Off(bs, n - 1) < end
  {
    OffOrder(bs, q, count);
    OffOrder(bs, q + 1, count);
    if q > 0 { OffOrder(bs, q - 1, q); }
    OffOrder(bs, count, q);
  }

  lemma {:induction false} PutBehind(s: seq<byte>, x: seq<byte>, y: seq<byte>)
    requires |x| == |y|
    ensures Put(s + x, |s|, y) == s + y
  {
  }

  lemma {:induction false} TakeZeros(n: nat, k: nat)
    requires k <= n
    ensures Zeros(n)[..k] == Zeros(k)
  {
  }

  lemma {:induction false} ClearAppended(bs: nat, m: seq<nat>, disk: Disk, h: Holes, b: nat, before: seq<byte>,
                                         x: seq<byte>)
    requires Inv(bs, m, disk) && b < |m| && m[b] != 0 && |x| == bs && |before| == Off(bs, b)
    requires Full(bs, m, disk, h) == before + x
    ensures m[b] in disk && |disk[m[b]]| == bs
    ensures var disk' := disk[m[b] := Put(disk[m[b]], 0, Zeros(bs))];
      Inv(bs, m, disk') && Full(bs, m, disk', h) == before + Zeros(bs)
  {
    PutPart(bs, m, disk, h, b, 0, Zeros(bs));
    PutBehind(before, x, Zeros(bs));
  }

  lemma {:induction false} MoreZeros(s: seq<byte>, a: nat, b: nat)
    ensures s + Zeros(a) + Zeros(b) == s + Zeros(a + b)
  {
  }

  /** Everything behind the old end reads as zeros. */
  lemma {:induction false} Extended(full: seq<byte>, cur: nat, n: nat, tail: nat, len: nat)
    requires cur <= |full| <= cur + n <= |full| + tail && cur <= len <= |full| + tail
    ensures Put(full + Zeros(tail), cur, Zeros(n))[..len] == full[..cur] + Zeros(len - cur)
  {
    var s := full + Zeros(tail);
    var r, x := Put(s, cur, Zeros(n))[..len], full[..cur] + Zeros(len - cur);
    forall i | 0 <= i < len ensures r[i] == x[i] {
      if i >= cur + n { assert r[i] == s[i] == 0; }
    }
  }

  /** Block counts of an old and a larger new size. */
  lemma {:induction false} CeilPlaces(bs: nat, count: nat, size: nat, q: nat, r: nat, count': nat, q0: nat, r0: nat)
    requires bs > 0 && r < bs && r0 < bs && Off(bs, q0) + r0 == size < Off(bs, q) + r
    requires size <= Off(bs, count) && (count > 0 ==> Off(bs, count - 1) < size) && count' == if r > 0 then q + 1 else q
    ensures count <= count' && Off(bs, q) + r <= Off(bs, count') && Off(bs, count' - 1) < Off(bs, q) + r
    ensures q0 < count' && Off(bs, count) <= Off(bs, q0) + bs
  {
    OffOrder(bs, q0, q);
    OffOrder(bs, q0, count');
    if count > 0 {
      OffOrder(bs, count - 1, q0);
      OffOrder(bs, count - 1, q0 + 1);
    }
    if q > 0 { OffOrder(bs, q - 1, q); }
  }

  lemma {:induction false} Shorter(bs: nat, m: seq<nat>, disk: Disk, h: Holes, n: nat)
    requires Inv(bs, m, disk) && n <= |m|
    ensures Inv(bs, m[..n], disk) && Off(bs, n) <= |Full(bs, m, disk, h)|
    ensures Full(bs, m[..n], disk, h) == Full(bs, m, disk, h)[..Off(bs, n)] && |Full(bs, m[..n], disk, h)| == Off(bs, n)
  {
    var m' := m[..n];
    forall k: nat | k < n ensures BlockOk(m', disk, k) { assert BlockOk(m, disk, k); }
    forall a: nat, b: nat ensures Apart(m', a, b) { assert Apart(m, a, b); }
    SegAt(bs, m, disk, h, n, 0);
    SegSame(bs, m, disk, h, m', disk, h, 0, n);
  }

  lemma {:induction false} FullLength(bs: nat, m: seq<nat>, disk: Disk, h: Holes)
    requires Inv(bs, m, disk)
    ensures |Full(bs, m, disk, h)| == Off(bs, |m|)
  {
    SegLength(bs, m, disk, h, 0, |m|);
  }

  lemma {:induction false} Unused(m: seq<nat>)
    ensures exists f: nat :: f > 1 && f !in m
  {
    var top := 2;
    for i := 0 to |m|
      invariant top > 1 && forall k :: 0 <= k < i ==> m[k] < top
    {
      if m[i] >= top { top := m[i] + 1; }
    }
    assert top > 1 && top !in m;
  }
}
