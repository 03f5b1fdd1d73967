/** What a write does to a file with holes. A hole that is written to gets a device block, and what
    the write does not cover shows the bytes that block happened to hold. */
module Ext4Holes {
  import opened Common
  import opened Ext4Blocks

  /** How the C library treats a hole: an inode with extents maps it, an unwritten block of an extent
      is cleared, and any other hole gets a block that holds `stale`. Without extents it stays a hole. */
  datatype Policy = Policy(extents: bool, unwritten: set<nat>, stale: Holes)

  function Max(a: nat, b: nat): nat { if a < b then b else a }

  /** Block `b` holds some of the `n` bytes from `pos` on. */
  predicate Touched(bs: nat, pos: nat, n: nat, b: nat) {
    n > 0 && Off(bs, b) < pos + n && pos < Off(bs, b) + bs
  }

  /** The bytes of the block that hole `b` gets. */
  function NewData(bs: nat, y: Policy, b: nat): (r: seq<byte>)
    ensures |r| == bs
  {
    if b in y.unwritten then Zeros(bs) else HoleData(bs, y.stale, b)
  }

  /** What the touched holes of a file of `count` blocks are going to show. */
  function Exposed(bs: nat, y: Policy, count: nat, pos: nat, n: nat): Holes {
    map b: nat | 0 <= b < count && y.extents && Touched(bs, pos, n, b) :: NewData(bs, y, b)
  }

  predicate IsHole(m: seq<nat>, b: nat) {
    b < |m| && m[b] == 0
  }

  /** One byte after a write of `x` at `pos`. */
  function ByteAfter(bs: nat, y: Policy, m: seq<nat>, was: seq<byte>, pos: nat, x: seq<byte>, i: nat): byte
    requires bs > 0 && pos <= |was| && i < Max(|was|, pos + |x|)
  {
    var b, written := i / bs, pos <= i < pos + |x|;
    if IsHole(m, b) && Touched(bs, pos, |x|, b) && !y.extents then 0
    else if written then x[i - pos]
    else if IsHole(m, b) && Touched(bs, pos, |x|, b) then NewData(bs, y, b)[i % bs]
    else was[i]
  }

  /** The contents after a write, byte by byte. */
  function Outcome(bs: nat, y: Policy, m: seq<nat>, was: seq<byte>, pos: nat, x: seq<byte>): (r: seq<byte>)
    requires bs > 0 && pos <= |was|
    ensures |r| == Max(|was|, pos + |x|)
  {
    seq(Max(|was|, pos + |x|), i requires 0 <= i < Max(|was|, pos + |x|) => ByteAfter(bs, y, m, was, pos, x, i))
  }

  // ---- bytes and blocks ----

  /** A byte of the file is a byte of its block. */
  lemma {:induction false} ByteAt(bs: nat, m: seq<nat>, disk: Disk, h: Holes, i: nat)
    requires Inv(bs, m, disk) && i < Off(bs, |m|)
    ensures var b, o := i / bs, i % bs;
      && b < |m| && o < bs && Off(bs, b) + o == i && |Data(bs, m, disk, h, b)| == bs
      && |Full(bs, m, disk, h)| == Off(bs, |m|) && Full(bs, m, disk, h)[i] == Data(bs, m, disk, h, b)[o]
  {
    var b, o := i / bs, i % bs;
    OffDiv(bs, i);
    OffOrder(bs, b, |m|);
    DataAt(bs, m, disk, h, b, o, 1);
    var full := Full(bs, m, disk, h);
    assert full[i..i + 1][0] == full[i];
    assert Data(bs, m, disk, h, b)[o..o + 1][0] == Data(bs, m, disk, h, b)[o];
  }

  /** How the block map changes: mapped blocks stay, new ones are mapped, and holes are filled only in
      extents. */
  ghost predicate Grown(y: Policy, m: seq<nat>, m': seq<nat>) {
    && |m| <= |m'| && (forall k :: 0 <= k < |m| && (m[k] != 0 || !y.extents) ==> m'[k] == m[k])
    && forall k :: |m| <= k < |m'| ==> m'[k] != 0
  }

  /** The blocks after the write, with the bytes that found no block shown in `h`. */
  ghost predicate Written(bs: nat, y: Policy, m: seq<nat>, m': seq<nat>, h: Holes, pos: nat, n: nat) {
    && Grown(y, m, m')
    && (forall b :: b in h ==> Touched(bs, pos, n, b))
    && (y.extents ==> forall b: nat {:trigger IsHole(m', b)} :: Touched(bs, pos, n, b) ==> !IsHole(m', b))
  }

  lemma {:induction false} OutcomeAt(bs: nat, y: Policy, m: seq<nat>, disk: Disk, m': seq<nat>, disk': Disk, h: Holes,
                                     size: nat, pos: nat, x: seq<byte>, i: nat)
    requires Inv(bs, m, disk) && Inv(bs, m', disk') && Written(bs, y, m, m', h, pos, |x|)
    requires pos <= size <= |Full(bs, m, disk, map[])| == Off(bs, |m|) && i < Max(size, pos + |x|) <= Off(bs, |m'|)
    requires |Full(bs, m, disk, Exposed(bs, y, |m|, pos, |x|))| == Off(bs, |m|)
    requires |Full(bs, m', disk', h)| == |Full(bs, m', disk', map[])| == Off(bs, |m'|)
    requires var base := Full(bs, m, disk, Exposed(bs, y, |m|, pos, |x|));
      Full(bs, m', disk', h)[i] == if pos <= i < pos + |x| then x[i - pos] else base[i]
    ensures Full(bs, m', disk', map[])[i] == ByteAfter(bs, y, m, Full(bs, m, disk, map[])[..size], pos, x, i)
  {
    var e := Exposed(bs, y, |m|, pos, |x|);
    var b, o := i / bs, i % bs;
    ByteAt(bs, m', disk', h, i);
    ByteAt(bs, m', disk', map[], i);
    assert BlockOk(m', disk', b);
    if i < Off(bs, |m|) {
      ByteAt(bs, m, disk, e, i);
      ByteAt(bs, m, disk, map[], i);
      assert BlockOk(m, disk, b);
      assert IsHole(m', b) <==> m'[b] == 0;
      if b in h { assert Touched(bs, pos, |x|, b); }
    } else {
      OffOrder(bs, |m|, b);
      OffOrder(bs, b + 1, |m|);
      assert m'[b] != 0;
    }
  }

  /** The contents after a write, from the blocks as the write left them. */
  lemma {:induction false} OutcomeIs(bs: nat, y: Policy, m: seq<nat>, disk: Disk, m': seq<nat>, disk': Disk, h: Holes,
                                     size: nat, pos: nat, x: seq<byte>)
    requires Inv(bs, m, disk) && Inv(bs, m', disk') && Written(bs, y, m, m', h, pos, |x|)
    requires pos <= size <= |Full(bs, m, disk, map[])| && Max(size, pos + |x|) <= |Full(bs, m', disk', h)|
    requires size <= |Full(bs, m, disk, Exposed(bs, y, |m|, pos, |x|))|
    requires var base := Full(bs, m, disk, Exposed(bs, y, |m|, pos, |x|))[..size];
      Full(bs, m', disk', h)[..Max(size, pos + |x|)] == Overlay(base, pos, x)
    ensures |Full(bs, m', disk', map[])| == |Full(bs, m', disk', h)|
    ensures Full(bs, m', disk', map[])[..Max(size, pos + |x|)]
      == Outcome(bs, y, m, Full(bs, m, disk, map[])[..size], pos, x)
  {
    var e := Exposed(bs, y, |m|, pos, |x|);
    SegLength(bs, m, disk, map[], 0, |m|);
    SegLength(bs, m, disk, e, 0, |m|);
    SegLength(bs, m', disk', h, 0, |m'|);
    SegLength(bs, m', disk', map[], 0, |m'|);
    var len, full, base := Max(size, pos + |x|), Full(bs, m', disk', h), Full(bs, m, disk, e);
    var r, want := Full(bs, m', disk', map[])[..len], Outcome(bs, y, m, Full(bs, m, disk, map[])[..size], pos, x);
    forall i: nat | i < len ensures r[i] == want[i] {
      assert full[i] == full[..len][i];
      OverlayAt(base[..size], pos, x, i);
      OutcomeAt(bs, y, m, disk, m', disk', h, size, pos, x, i);
    }
    assert r == want;
  }

  lemma {:induction false} OverlayAt(was: seq<byte>, pos: nat, x: seq<byte>, i: nat)
    requires pos <= |was| && i < Max(|was|, pos + |x|)
    ensures |Overlay(was, pos, x)| == Max(|was|, pos + |x|)
    ensures Overlay(was, pos, x)[i] == if pos <= i < pos + |x| then x[i - pos] else was[i]
  {
  }

  // ---- when the outcome is the overlay ----

  /** Within the file, the `n` bytes from `pos` on cover block `b`. */
  predicate Covered(bs: nat, size: nat, pos: nat, n: nat, b: nat) {
    pos <= Off(bs, b) && (Off(bs, b) + bs <= pos + n || size <= pos + n)
  }

  /** Every hole the write touches is unwritten or wholly covered; without extents it touches none. */
  ghost predicate Clean(bs: nat, y: Policy, m: seq<nat>, size: nat, pos: nat, n: nat) {
    forall b: nat {:trigger IsHole(m, b)} :: IsHole(m, b) && Touched(bs, pos, n, b) ==>
      y.extents && (b in y.unwritten || Covered(bs, size, pos, n, b))
  }

  ghost predicate HolesAreZero(bs: nat, m: seq<nat>, was: seq<byte>)
    requires bs > 0
  {
    forall i: nat {:trigger was[i]} :: i < |was| && IsHole(m, i / bs) ==> was[i] == 0
  }

  lemma {:induction false} ZeroHoles(bs: nat, m: seq<nat>, disk: Disk, size: nat)
    requires Inv(bs, m, disk) && size <= |Full(bs, m, disk, map[])|
    ensures HolesAreZero(bs, m, Full(bs, m, disk, map[])[..size])
  {
    SegLength(bs, m, disk, map[], 0, |m|);
    var was := Full(bs, m, disk, map[])[..size];
    forall i: nat | i < |was| && IsHole(m, i / bs) ensures was[i] == 0 {
      ByteAt(bs, m, disk, map[], i);
    }
  }

  /** A clean write overlays the old contents. */
  lemma {:induction false} CleanOverlays(bs: nat, y: Policy, m: seq<nat>, was: seq<byte>, pos: nat, x: seq<byte>)
    requires bs > 0 && pos <= |was| && HolesAreZero(bs, m, was) && Clean(bs, y, m, |was|, pos, |x|)
    ensures Outcome(bs, y, m, was, pos, x) == Overlay(was, pos, x)
  {
    var r, want := Outcome(bs, y, m, was, pos, x), Overlay(was, pos, x);
    forall i: nat | i < |r| ensures |want| == |r| && r[i] == want[i] {
      OverlayAt(was, pos, x, i);
      OffDiv(bs, i);
      assert IsHole(m, i / bs) ==> i >= |was| || was[i] == 0;
    }
    if |r| == 0 { assert want == []; }
  }

  function Ones(n: nat): (r: seq<byte>)
    ensures |r| == n && forall i :: 0 <= i < n ==> r[i] == 1
  {
    seq(n, _ => 1)
  }

  /** A byte of block `b` inside the file that the write does not cover. */
  lemma {:induction false} Uncovered(bs: nat, size: nat, pos: nat, n: nat, b: nat) returns (i: nat)
    requires bs > 0 && pos <= size && Off(bs, b) < size && Touched(bs, pos, n, b) && !Covered(bs, size, pos, n, b)
    ensures i < size && !(pos <= i < pos + n) && i / bs == b
  {
    i := if Off(bs, b) < pos then Off(bs, b) else pos + n;
    InBlock(bs, b, i);
  }

  lemma {:induction false} InBlock(bs: nat, b: nat, i: nat)
    requires bs > 0 && Off(bs, b) <= i < Off(bs, b) + bs
    ensures i / bs == b
  {
    OffDiv(bs, i);
    OffOrder(bs, b, i / bs + 1);
    OffOrder(bs, i / bs, b + 1);
  }

  /** With extents, a write that is not clean shows stale bytes on some device, whatever is written. */
  lemma {:induction false} StaleShown(bs: nat, y: Policy, m: seq<nat>, was: seq<byte>, pos: nat, x: seq<byte>)
    returns (stale: Holes)
    requires bs > 0 && pos <= |was| && HolesAreZero(bs, m, was) && y.extents
    requires (forall b: nat :: b < |m| ==> Off(bs, b) < |was|) && !Clean(bs, y, m, |was|, pos, |x|)
    ensures Outcome(bs, y.(stale := stale), m, was, pos, x) != Overlay(was, pos, x)
  {
    var b: nat :| IsHole(m, b) && Touched(bs, pos, |x|, b) && b !in y.unwritten && !Covered(bs, |was|, pos, |x|, b);
    var i := Uncovered(bs, |was|, pos, |x|, b);
    stale := map[b := Ones(bs)];
    OffDiv(bs, i);
    OverlayAt(was, pos, x, i);
    assert was[i] == 0;
    assert Outcome(bs, y.(stale := stale), m, was, pos, x)[i] == 1;
  }

  /** Without extents, a write that is not clean loses bytes. */
  lemma {:induction false} BytesLost(bs: nat, y: Policy, m: seq<nat>, was: seq<byte>, pos: nat, n: nat)
    returns (x: seq<byte>)
    requires bs > 0 && pos <= |was| && !y.extents && !Clean(bs, y, m, |was|, pos, n)
    ensures |x| == n && Outcome(bs, y, m, was, pos, x) != Overlay(was, pos, x)
  {
    var b: nat :| IsHole(m, b) && Touched(bs, pos, n, b);
    x := Ones(n);
    var i := Max(pos, Off(bs, b));
    InBlock(bs, b, i);
    OverlayAt(was, pos, x, i);
    assert Outcome(bs, y, m, was, pos, x)[i] == 0;
  }

  /** A write overlays the old contents, whatever the device holds and whatever is written, exactly
      when it is clean. */
  lemma {:induction false} OverlayExactly(bs: nat, y: Policy, m: seq<nat>, was: seq<byte>, pos: nat, n: nat)
    requires bs > 0 && pos <= |was| && HolesAreZero(bs, m, was) && forall b: nat :: b < |m| ==> Off(bs, b) < |was|
    ensures Clean(bs, y, m, |was|, pos, n) <==>
      forall stale: Holes, x: seq<byte> :: |x| == n ==>
        Outcome(bs, y.(stale := stale), m, was, pos, x) == Overlay(was, pos, x)
  {
    if Clean(bs, y, m, |was|, pos, n) {
      forall stale: Holes, x: seq<byte> | |x| == n
        ensures Outcome(bs, y.(stale := stale), m, was, pos, x) == Overlay(was, pos, x)
      {
        CleanOverlays(bs, y.(stale := stale), m, was, pos, x);
      }
    } else if y.extents {
      var x := Zeros(n);
      var stale := StaleShown(bs, y, m, was, pos, x);
      assert |x| == n;
    } else {
      var x := BytesLost(bs, y, m, was, pos, n);
      assert y.(stale := y.stale) == y;
    }
  }

  /** The smallest case: one byte written into a file of one block that is an unmapped hole shows the
      rest of the block as the device held it. */
  lemma StaleExample(bs: nat)
    requires bs > 1
    ensures var y := Policy(true, {}, map[0 := Ones(bs)]);
      && Outcome(bs, y, [0], Zeros(bs), 0, [7]) == [7] + Ones(bs - 1)
      && Overlay(Zeros(bs), 0, [7]) == [7] + Zeros(bs - 1)
      && Outcome(bs, y, [0], Zeros(bs), 0, [7]) != Overlay(Zeros(bs), 0, [7])
  {
    var y := Policy(true, {}, map[0 := Ones(bs)]);
    var r := Outcome(bs, y, [0], Zeros(bs), 0, [7]);
    assert Off(bs, 0) == 0;
    forall i: nat | i < bs ensures r[i] == ([7] + Ones(bs - 1))[i] {
      InBlock(bs, 0, i);
    }
    assert r == [7] + Ones(bs - 1);
    assert r[1] == 1 && ([7] + Zeros(bs - 1))[1] == 0;
  }
}
