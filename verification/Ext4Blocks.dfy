/** File contents as a sequence of logical blocks, each a hole or a block of the device. */
module Ext4Blocks {
  import opened Common

  type Disk = map<nat, seq<byte>>

  /** What holes show, by logical block. */
  type Holes = map<nat, seq<byte>>

  function Zeros(n: nat): (r: seq<byte>)
    ensures |r| == n && forall i :: 0 <= i < n ==> r[i] == 0
  {
    seq(n, _ => 0)
  }

  // ---- invariant ----

  /** A logical block is a hole or has a device block; the first two hold the superblock and what follows it. */
  ghost predicate BlockOk(m: seq<nat>, disk: Disk, b: nat)
    requires b < |m|
  {
    m[b] == 0 || (m[b] in disk && m[b] > 1)
  }

  /** No device block belongs to two logical blocks. */
  ghost predicate Apart(m: seq<nat>, a: nat, b: nat) {
    a < |m| && b < |m| && m[a] == m[b] != 0 ==> a == b
  }

  ghost predicate Inv(bs: nat, m: seq<nat>, disk: Disk) {
    && bs > 0 && 0 in disk && (forall f :: f in disk ==> |disk[f]| == bs)
    && (forall b: nat {:trigger BlockOk(m, disk, b)} :: b < |m| ==> BlockOk(m, disk, b))
    && (forall a: nat, b: nat {:trigger Apart(m, a, b)} :: Apart(m, a, b))
  }

  // ---- positions ----

  /** Where block `b` starts: `b * bs`. */
  function Off(bs: nat, b: nat): nat {
    if b == 0 then 0 else Off(bs, b - 1) + bs
  }

  lemma {:induction false} OffSum(bs: nat, a: nat, b: nat)
    ensures Off(bs, a + b) == Off(bs, a) + Off(bs, b)
  {
    if b > 0 { OffSum(bs, a, b - 1); }
  }

  lemma {:induction false} OffMonotone(bs: nat, a: nat, b: nat)
    requires a <= b
    ensures Off(bs, a) <= Off(bs, b) && (a < b ==> Off(bs, a) + bs <= Off(bs, b))
  {
    if a < b { OffMonotone(bs, a, b - 1); }
  }

  lemma {:induction false} OffOrder(bs: nat, a: nat, b: nat)
    requires bs > 0
    ensures (Off(bs, a) <= Off(bs, b) <==> a <= b) && (Off(bs, a) < Off(bs, b) <==> a < b)
  {
    if a <= b { OffMonotone(bs, a, b); } else { OffMonotone(bs, b, a); }
  }

  /** The block of an end position, seen from an earlier block of a file of `n` blocks. */
  lemma {:induction false} EndPlaces(bs: nat, b: nat, q: nat, r: nat, n: nat)
    requires bs > 0 && r < bs && Off(bs, b) <= Off(bs, q) + r <= Off(bs, n)
    ensures b <= q <= n && Off(bs, b) <= Off(bs, q) && (r > 0 ==> q < n)
  {
    OffOrder(bs, q, n);
    OffOrder(bs, b, q);
    OffOrder(bs, q + 1, b);
  }

  lemma {:induction false} OffMul(bs: nat, b: nat)
    ensures Off(bs, b) == b * bs
  {
    if b > 0 { OffMul(bs, b - 1); }
  }

  /** A position is in its block. */
  lemma {:induction false} OffDiv(bs: nat, pos: nat)
    requires bs > 0
    ensures Off(bs, pos / bs) + pos % bs == pos && pos % bs < bs
  {
    OffMul(bs, pos / bs);
  }

  // ---- contents ----

  /** The bytes of a hole: zeros unless `h` says otherwise. */
  function HoleData(bs: nat, h: Holes, b: nat): (r: seq<byte>)
    ensures |r| == bs
  {
    if b in h && |h[b]| == bs then h[b] else Zeros(bs)
  }

  /** Logical block `b`. */
  function Data(bs: nat, m: seq<nat>, disk: Disk, h: Holes, b: nat): (r: seq<byte>)
    requires b < |m|
  {
    if m[b] in disk && m[b] != 0 then disk[m[b]] else HoleData(bs, h, b)
  }

  /** Logical blocks `b` to `b + c`, one after the other. */
  function Seg(bs: nat, m: seq<nat>, disk: Disk, h: Holes, b: nat, c: nat, seal: nat := 3): seq<byte>
    requires b + c <= |m|
    decreases c, seal
  {
    if seal > 0 then Seg(bs, m, disk, h, b, c, seal - 1)
    else if c == 0 then []
    else Seg(bs, m, disk, h, b, c - 1) + Data(bs, m, disk, h, b + c - 1)
  }

  /** The definition of `Seg`; elsewhere the count `seal` keeps it folded. */
  lemma {:induction false} SegIs(bs: nat, m: seq<nat>, disk: Disk, h: Holes, b: nat, c: nat)
    requires b + c <= |m|
    ensures c == 0 ==> Seg(bs, m, disk, h, b, c) == []
    ensures c > 0 ==> Seg(bs, m, disk, h, b, c) == Seg(bs, m, disk, h, b, c - 1) + Data(bs, m, disk, h, b + c - 1)
  {
    assert Seg(bs, m, disk, h, b, c, 2) == Seg(bs, m, disk, h, b, c, 1);
    assert Seg(bs, m, disk, h, b, c, 1) == Seg(bs, m, disk, h, b, c, 0);
  }

  /** Everything the file's blocks hold. */
  function Full(bs: nat, m: seq<nat>, disk: Disk, h: Holes): seq<byte> {
    Seg(bs, m, disk, h, 0, |m|)
  }

  lemma {:induction false} SegLength(bs: nat, m: seq<nat>, disk: Disk, h: Holes, b: nat, c: nat)
    requires Inv(bs, m, disk) && b + c <= |m|
    ensures |Seg(bs, m, disk, h, b, c)| == Off(bs, c)
  {
    SegIs(bs, m, disk, h, b, c);
    if c > 0 {
      SegLength(bs, m, disk, h, b, c - 1);
      assert BlockOk(m, disk, b + c - 1);
    }
  }

  lemma {:induction false} SegSplit(bs: nat, m: seq<nat>, disk: Disk, h: Holes, b: nat, c: nat, d: nat)
    requires b + c + d <= |m|
    ensures Seg(bs, m, disk, h, b, c + d) == Seg(bs, m, disk, h, b, c) + Seg(bs, m, disk, h, b + c, d)
  {
    SegIs(bs, m, disk, h, b + c, d);
    if d > 0 {
      SegIs(bs, m, disk, h, b, c + d);
      SegSplit(bs, m, disk, h, b, c, d - 1);
      var last := Data(bs, m, disk, h, b + c + d - 1);
      Assoc(Seg(bs, m, disk, h, b, c), Seg(bs, m, disk, h, b + c, d - 1), last);
    }
  }

  lemma {:induction false} Assoc(x: seq<byte>, y: seq<byte>, z: seq<byte>)
    ensures (x + y) + z == x + (y + z)
  {
  }

  lemma {:induction false} Middle(x: seq<byte>, y: seq<byte>, z: seq<byte>, lo: nat, hi: nat)
    requires lo == |x| && hi == |x| + |y|
    ensures var s := x + y + z; s[..lo] == x && s[lo..hi] == y && s[hi..] == z
  {
  }

  /** Where a run of logical blocks is in the file. */
  lemma {:induction false} SegAt(bs: nat, m: seq<nat>, disk: Disk, h: Holes, b: nat, c: nat)
    requires Inv(bs, m, disk) && b + c <= |m|
    ensures var full := Full(bs, m, disk, h); var lo, hi := Off(bs, b), Off(bs, b + c);
      && |full| == Off(bs, |m|) && lo + Off(bs, c) == hi <= |full|
      && full[lo..hi] == Seg(bs, m, disk, h, b, c)
      && full[..lo] == Seg(bs, m, disk, h, 0, b) && full[hi..] == Seg(bs, m, disk, h, b + c, |m| - b - c)
  {
    var d := |m| - b - c;
    var x, y, z := Seg(bs, m, disk, h, 0, b), Seg(bs, m, disk, h, b, c), Seg(bs, m, disk, h, b + c, d);
    SegSplit(bs, m, disk, h, 0, b, c);
    SegSplit(bs, m, disk, h, 0, b + c, d);
    SegLength(bs, m, disk, h, 0, b);
    SegLength(bs, m, disk, h, b, c);
    SegLength(bs, m, disk, h, b + c, d);
    OffSum(bs, b, c);
    OffSum(bs, b + c, d);
    Middle(x, y, z, Off(bs, b), Off(bs, b + c));
  }

  lemma {:induction false} SubSlice(full: seq<byte>, lo: nat, hi: nat, o: nat, n: nat)
    requires lo <= hi <= |full| && lo + o + n <= hi
    ensures full[lo + o..lo + o + n] == full[lo..hi][o..o + n]
  {
    var mid := full[lo..hi];
    var a, c := mid[o..o + n], full[lo + o..lo + o + n];
    forall i | 0 <= i < n ensures a[i] == c[i] {
      assert a[i] == mid[o + i] == full[lo + (o + i)];
    }
  }

  /** One block. */
  lemma {:induction false} BlockAt(bs: nat, m: seq<nat>, disk: Disk, h: Holes, b: nat)
    requires Inv(bs, m, disk) && b < |m|
    ensures var full := Full(bs, m, disk, h); var lo, hi := Off(bs, b), Off(bs, b + 1);
      && |Data(bs, m, disk, h, b)| == bs && hi == lo + bs <= |full| == Off(bs, |m|)
      && full[lo..hi] == Data(bs, m, disk, h, b)
  {
    assert BlockOk(m, disk, b);
    SegAt(bs, m, disk, h, b, 1);
    SegIs(bs, m, disk, h, b, 0);
    SegIs(bs, m, disk, h, b, 1);
    assert [] + Data(bs, m, disk, h, b) == Data(bs, m, disk, h, b);
  }

  /** Part of one block. */
  lemma {:induction false} DataAt(bs: nat, m: seq<nat>, disk: Disk, h: Holes, b: nat, o: nat, n: nat)
    requires Inv(bs, m, disk) && b < |m| && o + n <= bs
    ensures var full := Full(bs, m, disk, h); var lo := Off(bs, b);
      && |Data(bs, m, disk, h, b)| == bs && lo + bs <= |full| == Off(bs, |m|)
      && full[lo + o..lo + o + n] == Data(bs, m, disk, h, b)[o..o + n]
  {
    BlockAt(bs, m, disk, h, b);
    SubSlice(Full(bs, m, disk, h), Off(bs, b), Off(bs, b + 1), o, n);
  }

  // ---- slices, kept folded ----

  /** `x` is what `s` holds from `lo` to `hi`. */
  ghost predicate Slice(s: seq<byte>, lo: nat, hi: nat, x: seq<byte>) {
    && lo <= hi <= |s| && |x| == hi - lo
    && forall k: nat {:trigger Unfold(k)} :: Unfold(k) ==> x == s[lo..hi]
  }

  lemma {:induction false} SliceIff(s: seq<byte>, lo: nat, hi: nat, x: seq<byte>)
    requires lo <= hi <= |s|
    ensures Slice(s, lo, hi, x) <==> x == s[lo..hi]
  {
    assert Unfold(0);
  }

  lemma {:induction false} SliceJoin(s: seq<byte>, a: nat, b: nat, c: nat, x: seq<byte>, y: seq<byte>)
    requires Slice(s, a, b, x) && Slice(s, b, c, y)
    ensures Slice(s, a, c, x + y)
  {
    SliceIff(s, a, b, x);
    SliceIff(s, b, c, y);
    assert s[a..b] + s[b..c] == s[a..c];
    SliceIff(s, a, c, x + y);
  }

  lemma {:induction false} SliceTake(s: seq<byte>, n: nat, lo: nat, hi: nat, x: seq<byte>)
    requires Slice(s, lo, hi, x) && hi <= n <= |s|
    ensures x == s[..n][lo..hi]
  {
    SliceIff(s, lo, hi, x);
    assert s[..n][lo..hi] == s[lo..hi];
  }

  lemma {:induction false} SliceNone(s: seq<byte>, a: nat)
    requires a <= |s|
    ensures Slice(s, a, a, [])
  {
    SliceIff(s, a, a, []);
  }

  lemma {:induction false} PartSlice(bs: nat, m: seq<nat>, disk: Disk, h: Holes, b: nat, o: nat, n: nat, x: seq<byte>)
    requires Inv(bs, m, disk) && b < |m| && o + n <= bs
    requires |Data(bs, m, disk, h, b)| == bs && x == Data(bs, m, disk, h, b)[o..o + n]
    ensures Slice(Full(bs, m, disk, h), Off(bs, b) + o, Off(bs, b) + o + n, x)
  {
    DataAt(bs, m, disk, h, b, o, n);
    SliceIff(Full(bs, m, disk, h), Off(bs, b) + o, Off(bs, b) + o + n, x);
  }

  lemma {:induction false} BlockSlice(bs: nat, m: seq<nat>, disk: Disk, h: Holes, b: nat)
    requires Inv(bs, m, disk) && b < |m|
    ensures Slice(Full(bs, m, disk, h), Off(bs, b), Off(bs, b + 1), Data(bs, m, disk, h, b))
  {
    BlockAt(bs, m, disk, h, b);
    SliceIff(Full(bs, m, disk, h), Off(bs, b), Off(bs, b + 1), Data(bs, m, disk, h, b));
  }

  // ---- runs of device blocks ----

  /** `count` consecutive device blocks. */
  function Run(disk: Disk, start: nat, count: nat): seq<byte> {
    if count == 0 then []
    else Run(disk, start, count - 1) + (if start + count - 1 in disk then disk[start + count - 1] else [])
  }

  /** Logical blocks `b` to `b + c` lie one after the other on the device. */
  ghost predicate Consecutive(m: seq<nat>, b: nat, c: nat, start: nat) {
    b + c <= |m| && (c > 0 ==> start > 0) && forall k :: b <= k < b + c ==> m[k] == start + (k - b)
  }

  lemma {:induction false} RunIsSeg(bs: nat, m: seq<nat>, disk: Disk, h: Holes, b: nat, c: nat, start: nat)
    requires Inv(bs, m, disk) && Consecutive(m, b, c, start)
    ensures Run(disk, start, c) == Seg(bs, m, disk, h, b, c)
  {
    SegIs(bs, m, disk, h, b, c);
    if c > 0 {
      RunIsSeg(bs, m, disk, h, b, c - 1, start);
      assert m[b + c - 1] == start + (c - 1) && BlockOk(m, disk, b + c - 1);
    }
  }

  lemma {:induction false} RunSlice(bs: nat, m: seq<nat>, disk: Disk, h: Holes, b: nat, c: nat, start: nat)
    requires Inv(bs, m, disk) && Consecutive(m, b, c, start)
    ensures Slice(Full(bs, m, disk, h), Off(bs, b), Off(bs, b + c), Run(disk, start, c))
  {
    SegAt(bs, m, disk, h, b, c);
    RunIsSeg(bs, m, disk, h, b, c, start);
    SliceIff(Full(bs, m, disk, h), Off(bs, b), Off(bs, b + c), Run(disk, start, c));
  }

  // ---- writing ----

  /** `x` written into `s` at `at`. */
  function Put(s: seq<byte>, at: nat, x: seq<byte>): (r: seq<byte>)
    requires at + |x| <= |s|
    ensures |r| == |s|
  {
    s[..at] + x + s[at + |x|..]
  }

  /** The same blocks hold the same bytes. */
  lemma {:induction false} SegSame(bs: nat, m: seq<nat>, disk: Disk, h: Holes, m': seq<nat>, disk': Disk, h': Holes,
                                   b: nat, c: nat)
    requires b + c <= |m| && b + c <= |m'|
    requires forall k: nat :: b <= k < b + c ==> Data(bs, m', disk', h', k) == Data(bs, m, disk, h, k)
    ensures Seg(bs, m', disk', h', b, c) == Seg(bs, m, disk, h, b, c)
  {
    SegIs(bs, m, disk, h, b, c);
    SegIs(bs, m', disk', h', b, c);
    if c > 0 { SegSame(bs, m, disk, h, m', disk', h', b, c - 1); }
  }

  /** A change of one block is that change of the file. */
  lemma {:induction false} PutData(bs: nat, m: seq<nat>, disk: Disk, h: Holes, disk': Disk, h': Holes, b: nat, o: nat,
                                   x: seq<byte>)
    requires Inv(bs, m, disk) && Inv(bs, m, disk') && b < |m| && o + |x| <= bs
    requires forall k: nat :: k < |m| && k != b ==> Data(bs, m, disk', h', k) == Data(bs, m, disk, h, k)
    requires |Data(bs, m, disk, h, b)| == bs && Data(bs, m, disk', h', b) == Put(Data(bs, m, disk, h, b), o, x)
    ensures Off(bs, b) + bs <= |Full(bs, m, disk, h)|
    ensures Full(bs, m, disk', h') == Put(Full(bs, m, disk, h), Off(bs, b) + o, x)
  {
    BlockAt(bs, m, disk, h, b);
    BlockAt(bs, m, disk', h', b);
    SegAt(bs, m, disk, h, b, 1);
    SegAt(bs, m, disk', h', b, 1);
    SegSame(bs, m, disk, h, m, disk', h', 0, b);
    SegSame(bs, m, disk, h, m, disk', h', b + 1, |m| - b - 1);
    PutInside(Full(bs, m, disk, h), Full(bs, m, disk', h'), Off(bs, b), Off(bs, b + 1), o, x);
  }

  /** Writing part of a block writes that part of the file. */
  lemma {:induction false} PutPart(bs: nat, m: seq<nat>, disk: Disk, h: Holes, b: nat, o: nat, x: seq<byte>)
    requires Inv(bs, m, disk) && b < |m| && m[b] != 0 && o + |x| <= bs
    ensures m[b] in disk && |disk[m[b]]| == bs && Off(bs, b) + bs <= |Full(bs, m, disk, h)|
    ensures var disk' := disk[m[b] := Put(disk[m[b]], o, x)];
      Inv(bs, m, disk') && Full(bs, m, disk', h) == Put(Full(bs, m, disk, h), Off(bs, b) + o, x)
  {
    assert BlockOk(m, disk, b);
    var disk' := disk[m[b] := Put(disk[m[b]], o, x)];
    forall k: nat | k < |m|
      ensures BlockOk(m, disk', k) && (k != b ==> Data(bs, m, disk', h, k) == Data(bs, m, disk, h, k))
    {
      assert BlockOk(m, disk, k) && Apart(m, k, b);
    }
    PutData(bs, m, disk, h, disk', h, b, o, x);
  }

  /** Bytes for a hole that has no device block go to device block 0; what the hole should show
      is kept in `h`. */
  lemma {:induction false} PutLost(bs: nat, m: seq<nat>, disk: Disk, h: Holes, b: nat, o: nat, x: seq<byte>)
    requires Inv(bs, m, disk) && b < |m| && m[b] == 0 && o + |x| <= bs
    ensures Off(bs, b) + bs <= |Full(bs, m, disk, h)|
    ensures var disk', h' := disk[0 := Put(disk[0], o, x)], h[b := Put(HoleData(bs, h, b), o, x)];
      Inv(bs, m, disk') && Full(bs, m, disk', h') == Put(Full(bs, m, disk, h), Off(bs, b) + o, x)
  {
    var disk', h' := disk[0 := Put(disk[0], o, x)], h[b := Put(HoleData(bs, h, b), o, x)];
    forall k: nat | k < |m|
      ensures BlockOk(m, disk', k) && (k != b ==> Data(bs, m, disk', h', k) == Data(bs, m, disk, h, k))
    {
      assert BlockOk(m, disk, k);
    }
    PutData(bs, m, disk, h, disk', h', b, o, x);
  }

  lemma {:induction false} PutInside(s: seq<byte>, s': seq<byte>, lo: nat, hi: nat, o: nat, x: seq<byte>)
    requires lo <= hi <= |s| == |s'| && lo + o + |x| <= hi
    requires s'[..lo] == s[..lo] && s'[hi..] == s[hi..] && s'[lo..hi] == Put(s[lo..hi], o, x)
    ensures s' == Put(s, lo + o, x)
  {
    assert s' == s'[..lo] + s'[lo..hi] + s'[hi..];
    assert s[..lo] + s[lo..hi][..o] == s[..lo + o];
    assert s[lo..hi][o + |x|..] + s[hi..] == s[lo + o + |x|..];
  }

  /** `ext4_blocks_set_direct`: whole consecutive device blocks. */
  function PutRun(bs: nat, disk: Disk, start: nat, count: nat, x: seq<byte>): Disk
    requires |x| == Off(bs, count)
  {
    if count == 0 then disk
    else PutRun(bs, disk, start, count - 1, x[..Off(bs, count - 1)])[start + count - 1 := x[Off(bs, count - 1)..]]
  }

  lemma {:induction false} PutWhole(s: seq<byte>, x: seq<byte>)
    requires |s| == |x|
    ensures Put(s, 0, x) == x
  {
  }

  lemma {:induction false} PutTwice(s: seq<byte>, at: nat, mid: nat, x: seq<byte>, y: seq<byte>)
    requires at + |x| == mid && mid + |y| <= |s|
    ensures Put(Put(s, at, x), mid, y) == Put(s, at, x + y)
  {
  }

  /** One block more of a run. */
  lemma {:induction false} PutNext(bs: nat, m: seq<nat>, disk: Disk, h: Holes, full: seq<byte>, lo: nat, last: nat,
                                   y: seq<byte>, z: seq<byte>)
    requires Inv(bs, m, disk) && last < |m| && m[last] != 0 && |z| == bs
    requires lo + |y| == Off(bs, last) && lo + |y| <= |full| && Full(bs, m, disk, h) == Put(full, lo, y)
    ensures lo + |y + z| <= |full| && Inv(bs, m, disk[m[last] := z])
    ensures Full(bs, m, disk[m[last] := z], h) == Put(full, lo, y + z)
  {
    PutPart(bs, m, disk, h, last, 0, z);
    PutWhole(disk[m[last]], z);
    PutTwice(full, lo, lo + |y|, y, z);
  }

  /** Writing a run of device blocks writes the logical blocks that lie there. */
  lemma {:induction false} PutRunFull(bs: nat, m: seq<nat>, disk: Disk, h: Holes, b: nat, c: nat, start: nat,
                                      x: seq<byte>)
    requires Inv(bs, m, disk) && Consecutive(m, b, c, start) && |x| == Off(bs, c)
    ensures Off(bs, b) + |x| <= |Full(bs, m, disk, h)| && Inv(bs, m, PutRun(bs, disk, start, c, x))
    ensures Full(bs, m, PutRun(bs, disk, start, c, x), h) == Put(Full(bs, m, disk, h), Off(bs, b), x)
  {
    var full, lo := Full(bs, m, disk, h), Off(bs, b);
    if c == 0 {
      SegAt(bs, m, disk, h, b, 0);
      PutNone(full, lo, x);
    } else {
      var n, last := Off(bs, c - 1), b + (c - 1);
      var y, z := x[..n], x[n..];
      var disk1 := PutRun(bs, disk, start, c - 1, y);
      assert lo + |y| <= |full| && Inv(bs, m, disk1) && Full(bs, m, disk1, h) == Put(full, lo, y) by {
        PutRunFull(bs, m, disk, h, b, c - 1, start, y);
      }
      assert lo + |y| == Off(bs, last) by { OffSum(bs, b, c - 1); }
      assert m[last] == start + (c - 1);
      PutNext(bs, m, disk1, h, full, lo, last, y, z);
      Rejoin(x, n);
    }
  }

  lemma {:induction false} PutNone(s: seq<byte>, at: nat, x: seq<byte>)
    requires at <= |s| && x == []
    ensures Put(s, at, x) == s
  {
  }

  lemma {:induction false} Rejoin(x: seq<byte>, n: nat)
    requires n <= |x|
    ensures x[..n] + x[n..] == x
  {
  }

  // ---- more blocks ----

  /** One more block at the end. */
  lemma {:induction false} AppendBlock(bs: nat, m: seq<nat>, disk: Disk, h: Holes, f: nat, x: seq<byte>)
    requires Inv(bs, m, disk) && f > 1 && f !in m && |x| == bs
    ensures Inv(bs, m + [f], disk[f := x]) && Full(bs, m + [f], disk[f := x], h) == Full(bs, m, disk, h) + x
  {
    var m', disk' := m + [f], disk[f := x];
    forall k: nat | k < |m'| ensures BlockOk(m', disk', k) {
      if k < |m| { assert BlockOk(m, disk, k); }
    }
    forall a: nat, b: nat ensures Apart(m', a, b) {
      assert Apart(m, a, b);
      if a < |m| { assert m[a] in m; }
      if b < |m| { assert m[b] in m; }
    }
    SegSame(bs, m, disk, h, m', disk', h, 0, |m|);
    SegIs(bs, m', disk', h, 0, |m'|);
    assert Data(bs, m', disk', h, |m|) == x;
  }

  /** A new block in place of a hole that shows what the block holds. */
  lemma {:induction false} FillHole(bs: nat, m: seq<nat>, disk: Disk, h: Holes, b: nat, f: nat)
    requires Inv(bs, m, disk) && b < |m| && m[b] == 0 && f > 1 && f !in m
    ensures var m', disk' := m[b := f], disk[f := HoleData(bs, h, b)];
      Inv(bs, m', disk') && Full(bs, m', disk', h) == Full(bs, m, disk, h)
  {
    var m', disk' := m[b := f], disk[f := HoleData(bs, h, b)];
    forall k: nat | k < |m| ensures BlockOk(m', disk', k) && Data(bs, m', disk', h, k) == Data(bs, m, disk, h, k) {
      assert BlockOk(m, disk, k) && m[k] in m;
    }
    forall a: nat, c: nat ensures Apart(m', a, c) {
      assert Apart(m, a, c);
      if a < |m| { assert m[a] in m; }
      if c < |m| { assert m[c] in m; }
    }
    SegSame(bs, m, disk, h, m', disk', h, 0, |m|);
  }

  // ---- progress of a write ----

  ghost predicate ProgressTo(full: seq<byte>, was: seq<byte>, want: seq<byte>, cur: nat) {
    && |was| <= |full| && cur <= |full| && cur <= |want|
    && full[..cur] == want[..cur] && (cur <= |was| ==> full[cur..|was|] == was[cur..])
  }

  /** Up to `cur` the blocks hold the wanted bytes, from there on the old ones. */
  ghost predicate Progress(full: seq<byte>, was: seq<byte>, want: seq<byte>, cur: nat) {
    && |was| <= |full| && cur <= |full| && cur <= |want|
    && forall k: nat {:trigger Unfold(k)} :: Unfold(k) ==> ProgressTo(full, was, want, cur)
  }

  lemma {:induction false} ProgressIff(full: seq<byte>, was: seq<byte>, want: seq<byte>, cur: nat)
    ensures Progress(full, was, want, cur) <==> ProgressTo(full, was, want, cur)
  {
    assert Unfold(0);
  }

  lemma {:induction false} ProgressPut(full: seq<byte>, was: seq<byte>, want: seq<byte>, cur: nat, end: nat,
                                       x: seq<byte>)
    requires Progress(full, was, want, cur) && cur + |x| == end <= |full| && Slice(want, cur, end, x)
    ensures Progress(Put(full, cur, x), was, want, end)
  {
    ProgressIff(full, was, want, cur);
    SliceIff(want, cur, end, x);
    var full' := Put(full, cur, x);
    assert full'[..end] == full[..cur] + x;
    assert want[..end] == want[..cur] + want[cur..end];
    if end <= |was| {
      assert full'[end..|was|] == full[end..|was|];
      assert full[end..|was|] == full[cur..|was|][end - cur..];
      assert was[end..] == was[cur..][end - cur..];
    }
    ProgressIff(full', was, want, end);
  }

  lemma {:induction false} ProgressAppend(full: seq<byte>, was: seq<byte>, want: seq<byte>, cur: nat, x: seq<byte>)
    requires Progress(full, was, want, cur)
    ensures Progress(full + x, was, want, cur)
  {
    ProgressIff(full, was, want, cur);
    assert (full + x)[..cur] == full[..cur];
    if cur <= |was| { assert (full + x)[cur..|was|] == full[cur..|was|]; }
    ProgressIff(full + x, was, want, cur);
  }

  /** The old bytes overlaid with `x` at `pos`. */
  function Overlay(was: seq<byte>, pos: nat, x: seq<byte>): (r: seq<byte>)
    requires pos <= |was|
  {
    was[..pos] + x + (if pos + |x| <= |was| then was[pos + |x|..] else [])
  }

  lemma {:induction false} ProgressStart(full: seq<byte>, was: seq<byte>, pos: nat, x: seq<byte>)
    requires pos <= |was| <= |full| && full[..|was|] == was
    ensures Progress(full, was, Overlay(was, pos, x), pos)
    ensures Slice(Overlay(was, pos, x), pos, pos + |x|, x)
  {
    var want := Overlay(was, pos, x);
    assert want[..pos] == was[..pos] == full[..|was|][..pos] == full[..pos];
    assert full[pos..|was|] == full[..|was|][pos..];
    ProgressIff(full, was, want, pos);
    SliceIff(want, pos, pos + |x|, x);
  }

  lemma {:induction false} ProgressEnd(full: seq<byte>, was: seq<byte>, pos: nat, x: seq<byte>)
    requires pos <= |was| && Progress(full, was, Overlay(was, pos, x), pos + |x|)
    ensures |Overlay(was, pos, x)| <= |full| && full[..|Overlay(was, pos, x)|] == Overlay(was, pos, x)
  {
    var want, end := Overlay(was, pos, x), pos + |x|;
    ProgressIff(full, was, want, end);
    if end <= |was| {
      assert |want| == |was| && want[end..] == was[end..];
      assert full[..|was|] == full[..end] + full[end..|was|];
      assert want == want[..end] + want[end..];
    } else {
      assert want[..end] == want;
    }
  }

  /** Taking the next bytes of what is to be written. */
  lemma {:induction false} SliceCut(s: seq<byte>, lo: nat, mid: nat, hi: nat, x: seq<byte>)
    requires Slice(s, lo, hi, x) && lo <= mid <= hi
    ensures Slice(s, lo, mid, x[..mid - lo]) && Slice(s, mid, hi, x[mid - lo..])
  {
    SliceIff(s, lo, hi, x);
    assert x[..mid - lo] == s[lo..mid] && x[mid - lo..] == s[mid..hi];
    SliceIff(s, lo, mid, x[..mid - lo]);
    SliceIff(s, mid, hi, x[mid - lo..]);
  }
}
