/** The TLSF control structure: the heads of the free lists and the two bitmaps. */
module TlsfControl {
  import opened Bits
  import opened TlsfMapping
  import opened TlsfTiling
  import opened TlsfLayout

  lemma Masked(w: nat, s: nat)
    requires w < Pow2(32) && s <= 32
    ensures var x := And(w, HighMask(32, s));
      && x < Pow2(32)
      && (forall j: nat :: j < 32 ==> (Bit(x, j) <==> Bit(w, j) && j >= s))
      && (x == 0 ==> forall j: nat :: s <= j < 32 ==> !Bit(w, j))
  {
    var x := And(w, HighMask(32, s));
    AndBound(w, HighMask(32, s));
    forall j: nat | j < 32 ensures Bit(x, j) <==> Bit(w, j) && j >= s {
      AndBit(w, HighMask(32, s), j);
      HighMaskBit(32, s, j);
    }
    ZeroIffNoBits(32, x);
  }

  class Control {
    /** Address of `block_null`, which ends every list. */
    const nil: int
    var flBitmap: nat
    const slBitmap: array<nat>
    const heads: array<int>

    /** The free lists, as block addresses. */
    ghost var ls: seq<seq<int>>

    /** Heads and bitmaps describe exactly the lists. */
    ghost predicate Ok()
      reads this, slBitmap, heads
    {
      && slBitmap.Length == FL_INDEX_COUNT && heads.Length == CLASSES
      && Heads(heads[..], ls, nil) && Bitmaps(flBitmap, slBitmap[..], ls)
    }

    /** All lists empty: `control_construct`. */
    constructor (nil: int)
      ensures Ok() && this.nil == nil && ls == seq(CLASSES, _ => [])
      ensures fresh(slBitmap) && fresh(heads)
    {
      this.nil := nil;
      flBitmap := 0;
      slBitmap := new nat[FL_INDEX_COUNT];
      heads := new int[CLASSES];
      ls := seq(CLASSES, _ => []);
      new;
      var i := 0;
      while i < FL_INDEX_COUNT
        modifies slBitmap, heads
        invariant i <= FL_INDEX_COUNT
        invariant forall k :: 0 <= k < i ==> slBitmap[k] == 0
        invariant forall k :: 0 <= k < 32 * i ==> heads[k] == nil
      {
        slBitmap[i] := 0;
        var j := 0;
        while j < SL_INDEX_COUNT
          modifies slBitmap, heads
          invariant j <= SL_INDEX_COUNT
          invariant forall k :: 0 <= k <= i ==> slBitmap[k] == 0
          invariant forall k :: 0 <= k < 32 * i + j ==> heads[k] == nil
        {
          heads[32 * i + j] := nil;
          j := j + 1;
        }
        i := i + 1;
      }
      forall j: nat ensures !Bit(0, j) { ZeroBit(j); }
    }

    /** The head of list `[fl][sl]` is gone; `next` takes its place. */
    method DropHead(fl: nat, sl: nat, next: int)
      requires Ok() && fl < FL_INDEX_COUNT && sl < SL_INDEX_COUNT
      requires var l := ls[32 * fl + sl]; |l| > 0 && nil !in l && next == NextIn(l, 0, nil)
      modifies this`flBitmap, this`ls, slBitmap, heads
      ensures Ok() && var c := 32 * fl + sl; ls == old(ls)[c := old(ls)[c][1..]]
    {
      ghost var c := 32 * fl + sl;
      ghost var rest := ls[c][1..];
      heads[32 * fl + sl] := next;
      if next == nil {
        BitmapsClear(flBitmap, slBitmap[..], ls, fl, sl);
        slBitmap[fl] := ClearBit(slBitmap[fl], sl);
        if slBitmap[fl] == 0 {
          flBitmap := ClearBit(flBitmap, fl);
        }
        assert slBitmap[..] == old(slBitmap[..])[fl := ClearBit(old(slBitmap[fl]), sl)];
      } else {
        BitmapsKeep(flBitmap, slBitmap[..], ls, fl, sl, rest);
      }
      assert heads[..] == old(heads[..])[c := next];
      ls := ls[c := rest];
    }

    /** `block` becomes the head of list `[fl][sl]`. */
    method PushHead(fl: nat, sl: nat, block: int)
      requires Ok() && fl < FL_INDEX_COUNT && sl < SL_INDEX_COUNT
      modifies this`flBitmap, this`ls, slBitmap, heads
      ensures Ok() && var c := 32 * fl + sl; ls == old(ls)[c := [block] + old(ls)[c]]
    {
      ghost var c := 32 * fl + sl;
      BitmapsInsert(flBitmap, slBitmap[..], ls, fl, sl, [block] + ls[c]);
      heads[32 * fl + sl] := block;
      flBitmap := SetBit(flBitmap, fl);
      slBitmap[fl] := SetBit(slBitmap[fl], sl);
      assert slBitmap[..] == old(slBitmap[..])[fl := SetBit(old(slBitmap[fl]), sl)];
      assert heads[..] == old(heads[..])[c := block];
      ls := ls[c := [block] + ls[c]];
    }

    /** A block that is not the head of its list leaves it: heads and bitmaps stay. */
    ghost method Forget(c: nat, k: nat)
      requires Ok() && c < CLASSES && 0 < k < |ls[c]|
      modifies this`ls
      ensures Ok() && ls == old(ls)[c := Without(old(ls)[c], k)]
    {
      BitmapsKeep(flBitmap, slBitmap[..], ls, c / 32, c % 32, Without(ls[c], k));
      ls := ls[c := Without(ls[c], k)];
    }

    /** The first non-empty list of a higher first level. */
    method SearchAbove(fl0: nat, sl0: nat) returns (fl: nat, sl: nat, found: bool)
      requires Ok() && fl0 < FL_INDEX_COUNT && sl0 < SL_INDEX_COUNT
      requires forall j: nat :: sl0 <= j < 32 ==> !Bit(slBitmap[fl0], j)
      ensures !found ==> forall d :: 32 * fl0 + sl0 <= d < CLASSES ==> ls[d] == []
      ensures found ==>
        && fl0 < fl < FL_INDEX_COUNT && sl < SL_INDEX_COUNT && ls[32 * fl + sl] != []
        && forall d :: 32 * fl0 + sl0 <= d < 32 * fl + sl ==> ls[d] == []
    {
      fl, sl, found := fl0, sl0, false;
      Masked(flBitmap, fl0 + 1);
      var flMap := And(flBitmap, HighMask(32, fl0 + 1));
      if flMap == 0 {
        NoneFrom(flBitmap, slBitmap[..], ls, fl0, sl0, 32);
        return;
      }
      var f := Ffs(flMap);
      fl := f;
      NoneFrom(flBitmap, slBitmap[..], ls, fl0, sl0, fl);
      var s := Ffs(slBitmap[fl]);
      sl := s;
      NoneBetween(flBitmap, slBitmap[..], ls, fl, 0, sl);
      found := true;
    }

    /** The first block of the first non-empty list from `[fl0][sl0]` on; 0 exactly when all are empty. */
    method SearchSuitableBlock(fl0: nat, sl0: nat) returns (fl: nat, sl: nat, block: int)
      requires Ok() && fl0 < FL_INDEX_COUNT && sl0 < SL_INDEX_COUNT
      requires forall c :: 0 <= c < CLASSES ==> 0 !in ls[c]
      ensures block == 0 ==> forall d :: 32 * fl0 + sl0 <= d < CLASSES ==> ls[d] == []
      ensures block != 0 ==>
        && fl < FL_INDEX_COUNT && sl < SL_INDEX_COUNT
        && 32 * fl0 + sl0 <= 32 * fl + sl
        && ls[32 * fl + sl] != [] && block == ls[32 * fl + sl][0]
        && forall d :: 32 * fl0 + sl0 <= d < 32 * fl + sl ==> ls[d] == []
    {
      fl, sl := fl0, sl0;
      Masked(slBitmap[fl], sl);
      var slMap := And(slBitmap[fl], HighMask(32, sl));
      if slMap == 0 {
        var found;
        fl, sl, found := SearchAbove(fl0, sl0);
        if !found { return fl, sl, 0; }
      } else {
        var s := Ffs(slMap);
        sl := s;
        NoneBetween(flBitmap, slBitmap[..], ls, fl, sl0, sl);
      }
      block := heads[32 * fl + sl];
      ghost var l := ls[32 * fl + sl];
      assert block == l[0] && l[0] in l;
    }
  }

  lemma NoneBetween(fl: nat, sl: seq<nat>, ls: seq<seq<int>>, i: nat, from: nat, stop: nat)
    requires Bitmaps(fl, sl, ls) && i < FL_INDEX_COUNT && stop < 32 && Bit(sl[i], stop)
    requires forall j: nat :: from <= j < stop ==> !Bit(sl[i], j)
    ensures ls[32 * i + stop] != []
    ensures forall d :: 32 * i + from <= d < 32 * i + stop ==> ls[d] == []
  {
    forall d | 32 * i + from <= d < 32 * i + stop ensures ls[d] == [] {
      assert !Bit(sl[i], d - 32 * i);
      assert ls[32 * i + (d - 32 * i)] == [];
    }
  }

  /** No bits from `[fl0][sl0]` up to first level `stop` means no blocks there. */
  lemma NoneFrom(fl: nat, sl: seq<nat>, ls: seq<seq<int>>, fl0: nat, sl0: nat, stop: nat)
    requires Bitmaps(fl, sl, ls) && fl0 < FL_INDEX_COUNT && sl0 < SL_INDEX_COUNT
    requires forall j: nat :: sl0 <= j < 32 ==> !Bit(sl[fl0], j)
    requires fl0 < stop <= 32 && forall i: nat :: fl0 < i < stop ==> !Bit(fl, i)
    ensures forall d :: 32 * fl0 + sl0 <= d < 32 * stop && d < CLASSES ==> ls[d] == []
  {
    forall d | 32 * fl0 + sl0 <= d < 32 * stop && d < CLASSES ensures ls[d] == [] {
      var i, j := d / 32, d % 32;
      if i > fl0 {
        assert !Bit(fl, i) && sl[i] == 0;
        ZeroBit(j);
      }
      assert !Bit(sl[i], j);
      assert ls[32 * i + j] == [];
    }
  }
}
