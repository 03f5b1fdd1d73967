/** Which device blocks a write leaves alone, and what it does to block 0. */
module Ext4Device {
  import opened Common
  import opened Ext4Blocks
  import opened Ext4Holes

  /** A write of `n` bytes at `pos` to a file with block map `m` on a device: the old bytes, with the touched
      holes as they are going to show, and the wanted ones. */
  datatype Work = Work(m: seq<nat>, disk: Disk, pos: nat, n: nat, was: seq<byte>, want: seq<byte>)

  /** Blocks other than those of the file and block 0 are as they were. */
  ghost predicate Spared(d: Disk, m: seq<nat>, d': Disk) {
    forall f :: f in d && f !in m && f != 0 ==> f in d' && d'[f] == d[f]
  }

  // ---- block 0 ----

  /** The part of a write of `n` bytes at `pos` that falls into a block at `off`: `len` bytes from byte `o` of it on. */
  predicate Part(bs: nat, off: nat, pos: nat, n: nat, o: nat, len: nat) {
    off + o == Max(off, pos) && off + o + len == if off + bs < pos + n then off + bs else pos + n
  }

  /** Block 0, `r`, after what is for a hole at `off` was written to it, each byte at its place in the block. */
  function Onto(off: nat, pos: nat, x: seq<byte>, r: seq<byte>): (r': seq<byte>)
    ensures |r'| == |r|
    ensures forall i :: 0 <= i < |r| ==> r'[i] == if pos <= off + i < pos + |x| then x[off + i - pos] else r[i]
  {
    seq(|r|, i requires 0 <= i < |r| => if pos <= off + i < pos + |x| then x[off + i - pos] else r[i])
  }

  lemma {:induction false} OntoIs(bs: nat, off: nat, pos: nat, x: seq<byte>, r: seq<byte>, o: nat, y: seq<byte>)
    requires |r| == bs && Part(bs, off, pos, |x|, o, |y|) && |y| > 0 && y == x[off + o - pos..off + o + |y| - pos]
    ensures o + |y| <= bs && Onto(off, pos, x, r) == Put(r, o, y)
  {
    forall i | 0 <= i < bs ensures Onto(off, pos, x, r)[i] == Put(r, o, y)[i] {
      PutAt(r, o, y, i);
      if o <= i < o + |y| { assert y[i - o] == x[off + i - pos]; }
    }
  }

  lemma {:induction false} PutAt(s: seq<byte>, at: nat, x: seq<byte>, i: nat)
    requires at + |x| <= |s| && i < |s|
    ensures Put(s, at, x)[i] == if at <= i < at + |x| then x[i - at] else s[i]
  {
  }

  /** Block 0 after what is for the first `k` blocks of the file was written: the bytes for holes, later ones over
      earlier ones. */
  ghost function Lost(bs: nat, m: seq<nat>, z: seq<byte>, pos: nat, x: seq<byte>, k: nat): (r: seq<byte>)
    ensures |r| == |z|
  {
    if k == 0 then z
    else
      var r := Lost(bs, m, z, pos, x, k - 1);
      if IsHole(m, k - 1) then Onto(Off(bs, k - 1), pos, x, r) else r
  }

  /** Block `b` is a hole that gets byte `i` of block 0. */
  predicate Gives(bs: nat, m: seq<nat>, pos: nat, n: nat, b: nat, i: nat) {
    IsHole(m, b) && pos <= Off(bs, b) + i < pos + n
  }

  lemma {:induction false} LostStep(bs: nat, m: seq<nat>, z: seq<byte>, pos: nat, x: seq<byte>, k: nat, i: nat)
    requires i < |z| == bs
    ensures Lost(bs, m, z, pos, x, k + 1)[i] ==
      if Gives(bs, m, pos, |x|, k, i) then x[Off(bs, k) + i - pos] else Lost(bs, m, z, pos, x, k)[i]
  {
    var off, r := Off(bs, k), Lost(bs, m, z, pos, x, k);
    assert IsHole(m, k) ==> Lost(bs, m, z, pos, x, k + 1) == Onto(off, pos, x, r);
  }

  lemma {:induction false} LostOther(bs: nat, m: seq<nat>, z: seq<byte>, pos: nat, x: seq<byte>, k: nat)
    requires |z| == bs && !(IsHole(m, k) && Touched(bs, pos, |x|, k))
    ensures Lost(bs, m, z, pos, x, k + 1) == Lost(bs, m, z, pos, x, k)
  {
    var off, r := Off(bs, k), Lost(bs, m, z, pos, x, k);
    if IsHole(m, k) { assert Onto(off, pos, x, r) == r; }
  }

  /** Byte by byte: the last hole that gets a byte decides. */
  lemma {:induction false} LostAt(bs: nat, m: seq<nat>, z: seq<byte>, pos: nat, x: seq<byte>, k: nat, i: nat, b: nat)
    requires i < |z| == bs && b < k && Gives(bs, m, pos, |x|, b, i)
    requires forall c: nat {:trigger Gives(bs, m, pos, |x|, c, i)} :: b < c < k ==> !Gives(bs, m, pos, |x|, c, i)
    ensures Lost(bs, m, z, pos, x, k)[i] == x[Off(bs, b) + i - pos]
  {
    LostStep(bs, m, z, pos, x, k - 1, i);
    if b < k - 1 {
      assert !Gives(bs, m, pos, |x|, k - 1, i);
      LostAt(bs, m, z, pos, x, k - 1, i, b);
    }
  }

  /** What no hole gets stays. */
  lemma {:induction false} LostElse(bs: nat, m: seq<nat>, z: seq<byte>, pos: nat, x: seq<byte>, k: nat, i: nat)
    requires i < |z| == bs
    requires forall c: nat {:trigger Gives(bs, m, pos, |x|, c, i)} :: c < k ==> !Gives(bs, m, pos, |x|, c, i)
    ensures Lost(bs, m, z, pos, x, k)[i] == z[i]
  {
    if k > 0 {
      LostStep(bs, m, z, pos, x, k - 1, i);
      assert !Gives(bs, m, pos, |x|, k - 1, i);
      LostElse(bs, m, z, pos, x, k - 1, i);
    }
  }

  /** Blocks that are no touched holes leave block 0 as it was. */
  lemma {:induction false} LostAll(bs: nat, m: seq<nat>, z: seq<byte>, pos: nat, x: seq<byte>, j: nat, k: nat)
    requires j <= k && |z| == bs
    requires forall b: nat {:trigger IsHole(m, b)} :: j <= b < k ==> !(IsHole(m, b) && Touched(bs, pos, |x|, b))
    ensures Lost(bs, m, z, pos, x, k) == Lost(bs, m, z, pos, x, j)
  {
    if j < k {
      LostAll(bs, m, z, pos, x, j, k - 1);
      assert !(IsHole(m, k - 1) && Touched(bs, pos, |x|, k - 1));
      LostOther(bs, m, z, pos, x, k - 1);
    }
  }

  // ---- while a write goes on ----

  ghost function Bytes(w: Work): seq<byte> {
    if w.pos + w.n <= |w.want| then w.want[w.pos..w.pos + w.n] else []
  }

  /** Block 0 once the first `k` blocks are written. */
  ghost function Zeroth(bs: nat, y: Policy, w: Work, k: nat): seq<byte> {
    if 0 !in w.disk then [] else if y.extents then w.disk[0] else Lost(bs, w.m, w.disk[0], w.pos, Bytes(w), k)
  }

  ghost predicate DeviceNow(bs: nat, y: Policy, m: seq<nat>, disk: Disk, w: Work, k: nat) {
    Spared(w.disk, m, disk) && 0 in w.disk && |w.disk[0]| == bs && 0 in disk && disk[0] == Zeroth(bs, y, w, k)
  }

  /** The same, folded. */
  ghost predicate Device(bs: nat, y: Policy, m: seq<nat>, disk: Disk, w: Work, k: nat) {
    forall i: nat {:trigger Unfold(i)} :: Unfold(i) ==> DeviceNow(bs, y, m, disk, w, k)
  }

  lemma DeviceIff(bs: nat, y: Policy, m: seq<nat>, disk: Disk, w: Work, k: nat)
    ensures Device(bs, y, m, disk, w, k) <==> DeviceNow(bs, y, m, disk, w, k)
  {
    assert Unfold(0);
  }

  lemma {:induction false} DeviceStart(bs: nat, y: Policy, m: seq<nat>, disk: Disk, w: Work)
    requires w.m == m && w.disk == disk && Inv(bs, m, disk)
    ensures Device(bs, y, m, disk, w, 0)
  {
    DeviceIff(bs, y, m, disk, w, 0);
  }

  /** A new block of the file. */
  lemma {:induction false} DeviceNew(bs: nat, y: Policy, m: seq<nat>, disk: Disk, w: Work, k: nat, m': seq<nat>, f: nat,
                                     data: seq<byte>)
    requires Device(bs, y, m, disk, w, k) && f > 0 && f in m' && forall g :: g in m ==> g in m' || g == 0
    ensures Device(bs, y, m', disk[f := data], w, k)
  {
    DeviceIff(bs, y, m, disk, w, k);
    DeviceIff(bs, y, m', disk[f := data], w, k);
  }

  /** A block is filled or added. */
  lemma {:induction false} DeviceInit(bs: nat, y: Policy, m: seq<nat>, disk: Disk, w: Work, k: nat, b: nat, f: nat,
                                      data: seq<byte>)
    requires Device(bs, y, m, disk, w, k) && f > 0 && IsHole(m, b)
    ensures Device(bs, y, m[b := f], disk[f := data], w, k)
  {
    var m' := m[b := f];
    assert m'[b] == f;
    forall g | g in m ensures g in m' || g == 0 {
      var i :| 0 <= i < |m| && m[i] == g;
      if i != b { assert m'[i] == g; }
    }
    DeviceNew(bs, y, m, disk, w, k, m', f, data);
  }

  lemma {:induction false} DeviceAppend(bs: nat, y: Policy, m: seq<nat>, disk: Disk, w: Work, k: nat, f: nat,
                                        data: seq<byte>)
    requires Device(bs, y, m, disk, w, k) && f > 0
    ensures Device(bs, y, m + [f], disk[f := data], w, k)
  {
    DeviceNew(bs, y, m, disk, w, k, m + [f], f, data);
  }

  /** A block of the file is written. */
  lemma {:induction false} DeviceOwn(bs: nat, y: Policy, m: seq<nat>, disk: Disk, w: Work, k: nat, b: nat,
                                     data: seq<byte>)
    requires Device(bs, y, m, disk, w, k) && b < |m| && m[b] != 0
    ensures Device(bs, y, m, disk[m[b] := data], w, k)
  {
    DeviceIff(bs, y, m, disk, w, k);
    DeviceIff(bs, y, m, disk[m[b] := data], w, k);
  }

  lemma {:induction false} DeviceRun(bs: nat, y: Policy, m: seq<nat>, disk: Disk, w: Work, k: nat, b: nat, c: nat,
                                     start: nat, x: seq<byte>)
    requires Device(bs, y, m, disk, w, k) && Consecutive(m, b, c, start) && |x| == Off(bs, c)
    ensures Device(bs, y, m, PutRun(bs, disk, start, c, x), w, k)
  {
    if c > 0 {
      var d, last := c - 1, b + (c - 1);
      var n := Off(bs, d);
      var disk1 := PutRun(bs, disk, start, d, x[..n]);
      DeviceRun(bs, y, m, disk, w, k, b, d, start, x[..n]);
      assert m[last] == start + d;
      DeviceOwn(bs, y, m, disk1, w, k, last, x[n..]);
      assert PutRun(bs, disk, start, c, x) == disk1[start + d := x[n..]];
    }
  }

  /** Blocks that are no touched holes of an inode without extents change nothing of block 0. */
  lemma {:induction false} DeviceSkip(bs: nat, y: Policy, m: seq<nat>, disk: Disk, w: Work, j: nat, k: nat)
    requires Device(bs, y, m, disk, w, j) && j <= k && |Bytes(w)| == w.n
    requires y.extents || forall b: nat {:trigger IsHole(w.m, b)} ::
      j <= b < k ==> !(IsHole(w.m, b) && Touched(bs, w.pos, w.n, b))
    ensures Device(bs, y, m, disk, w, k)
  {
    DeviceIff(bs, y, m, disk, w, j);
    DeviceIff(bs, y, m, disk, w, k);
    if !y.extents { LostAll(bs, w.m, w.disk[0], w.pos, Bytes(w), j, k); }
  }

  /** Bytes for a hole that has no block. */
  lemma {:induction false} DeviceLost(bs: nat, y: Policy, m: seq<nat>, disk: Disk, w: Work, b: nat, o: nat,
                                      x: seq<byte>)
    requires Device(bs, y, m, disk, w, b) && !y.extents && IsHole(w.m, b) && Touched(bs, w.pos, w.n, b)
    requires Part(bs, Off(bs, b), w.pos, w.n, o, |x|) && x != [] && w.pos + w.n <= |w.want|
    requires Slice(w.want, Off(bs, b) + o, Off(bs, b) + o + |x|, x)
    ensures 0 in disk && o + |x| <= |disk[0]| && Device(bs, y, m, disk[0 := Put(disk[0], o, x)], w, b + 1)
  {
    DeviceIff(bs, y, m, disk, w, b);
    var off := Off(bs, b);
    SliceIff(w.want, off + o, off + o + |x|, x);
    BytesAre(w, off + o, x);
    OntoIs(bs, off, w.pos, Bytes(w), disk[0], o, x);
    DeviceIff(bs, y, m, disk[0 := Put(disk[0], o, x)], w, b + 1);
  }

  lemma {:induction false} BytesAre(w: Work, from: nat, x: seq<byte>)
    requires w.pos <= from && from + |x| <= w.pos + w.n <= |w.want| && x == w.want[from..from + |x|]
    ensures |Bytes(w)| == w.n && Bytes(w)[from - w.pos..from + |x| - w.pos] == x
  {
  }
}
