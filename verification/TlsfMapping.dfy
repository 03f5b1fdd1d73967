/** The two-level size classes of the TLSF heap. The first level is the power of
    two of a size, the second splits that range in 32 equal parts. List `[fl][sl]`
    has index `32 * fl + sl`; indices below 32 are the 8-byte steps under 256. */
module TlsfMapping {
  import opened Bits

  const ALIGN_SIZE: nat := 8
  const SL_INDEX_COUNT: nat := 32
  const FL_INDEX_COUNT: nat := 25
  const CLASSES: nat := 800
  const SMALL_BLOCK_SIZE: nat := 256
  const BLOCK_SIZE_MIN: nat := 24
  const BLOCK_SIZE_MAX: nat := 0x1_0000_0000

  /** Smallest size of list `c`. */
  ghost function Floor(c: nat): nat {
    if c < 32 then 8 * c else Pow2(c / 32 + 2) * (32 + c % 32)
  }

  /** Number of sizes in list `c`. */
  ghost function Width(c: nat): (w: nat)
    ensures w > 0
  {
    if c < 32 then 8 else Pow2(c / 32 + 2)
  }

  lemma {:induction false} FloorStep(c: nat)
    ensures Floor(c + 1) == Floor(c) + Width(c)
    ensures Width(c) <= Width(c + 1)
    ensures c >= 32 ==> Floor(c) >= 32 * Width(c)
  {
    Pow2Values();
    if c >= 32 {
      if c % 32 < 31 { FloorSame(c); } else { FloorUp(c); }
    }
  }

  /** Inside a first level. */
  lemma {:induction false} FloorSame(c: nat)
    requires c >= 32 && c % 32 < 31
    ensures Floor(c + 1) == Floor(c) + Width(c) && Width(c) <= Width(c + 1) && Floor(c) >= 32 * Width(c)
  {
    var p, r := Pow2(c / 32 + 2), c % 32;
    assert (c + 1) / 32 == c / 32 && (c + 1) % 32 == r + 1;
    assert p * (32 + r + 1) == p * (32 + r) + p;
    LessByFactor(32, 32 + r, p);
  }

  /** At the end of one. */
  lemma {:induction false} FloorUp(c: nat)
    requires c >= 32 && c % 32 == 31
    ensures Floor(c + 1) == Floor(c) + Width(c) && Width(c) <= Width(c + 1) && Floor(c) >= 32 * Width(c)
  {
    var p := Pow2(c / 32 + 2);
    assert (c + 1) / 32 == c / 32 + 1 && (c + 1) % 32 == 0;
    assert Floor(c + 1) == 2 * p * 32;
    assert Floor(c) == p * 63;
  }

  lemma {:induction false} FloorMonotone(c: nat, d: nat)
    requires c < d
    ensures Floor(c) < Floor(d)
  {
    FloorStep(d - 1);
    if c < d - 1 { FloorMonotone(c, d - 1); }
  }

  /** The list a free block of `size` bytes belongs to: the one whose range holds it. */
  ghost function ClassOf(size: nat): nat {
    ClassFrom(size, 0)
  }

  ghost function ClassFrom(size: nat, c: nat): nat
    requires Floor(c) <= size
    decreases size - Floor(c)
  {
    FloorStep(c);
    if size < Floor(c + 1) then c else ClassFrom(size, c + 1)
  }

  lemma {:induction false} ClassFromBounds(size: nat, c: nat)
    requires Floor(c) <= size
    ensures var k := ClassFrom(size, c); Floor(k) <= size < Floor(k + 1)
    decreases size - Floor(c)
  {
    FloorStep(c);
    if size >= Floor(c + 1) { ClassFromBounds(size, c + 1); }
  }

  lemma {:induction false} ClassBounds(size: nat)
    ensures Floor(ClassOf(size)) <= size < Floor(ClassOf(size) + 1)
  {
    ClassFromBounds(size, 0);
  }

  /** Lists partition the sizes, in order: a size is in list `c` or a later one
      exactly when it reaches the floor of `c`. */
  lemma {:induction false} ClassThreshold(size: nat, c: nat)
    ensures ClassOf(size) >= c <==> size >= Floor(c)
    ensures ClassOf(size) == c <==> Floor(c) <= size < Floor(c + 1)
  {
    ClassBounds(size);
    var k := ClassOf(size);
    if k < c {
      if k + 1 < c { FloorMonotone(k + 1, c); }
    } else if c < k {
      FloorMonotone(c, k);
      if c + 1 < k { FloorMonotone(c + 1, k); }
    }
  }

  /** The list index is inside the control structure exactly for sizes below the
      maximum; a pool of exactly the maximum passes the size test of
      `tlsf_add_pool` and maps one past the last list. */
  lemma {:induction false} ClassInRange(size: nat)
    ensures ClassOf(size) < CLASSES <==> size < BLOCK_SIZE_MAX
    ensures ClassOf(BLOCK_SIZE_MAX) == CLASSES
  {
    Pow2Values();
    Pow2Add(27, 5);
    assert Floor(CLASSES) == Pow2(27) * 32 == BLOCK_SIZE_MAX;
    ClassThreshold(size, CLASSES);
    FloorStep(CLASSES);
    ClassThreshold(BLOCK_SIZE_MAX, CLASSES);
  }

  // ---- good fit ----

  /** First list whose every block holds `size` bytes. */
  ghost function SearchClass(size: nat): nat {
    if Floor(ClassOf(size)) == size then ClassOf(size) else ClassOf(size) + 1
  }

  /** The list boundary a request is rounded up to. */
  ghost function RoundUp(size: nat): nat {
    Floor(SearchClass(size))
  }

  /** The round-up is the smallest boundary not below the request; it costs
      nothing under 256 bytes and less than 1/32 above. */
  lemma {:induction false} GoodFit(size: nat, c: nat)
    requires size % 8 == 0
    ensures size <= RoundUp(size)
    ensures Floor(c) >= size ==> c >= SearchClass(size) && Floor(c) >= RoundUp(size)
    ensures size < SMALL_BLOCK_SIZE ==> RoundUp(size) == size
    ensures size >= SMALL_BLOCK_SIZE ==> 32 * (RoundUp(size) - size) < size
  {
    var k := ClassOf(size);
    ClassBounds(size);
    FloorStep(k);
    if size < SMALL_BLOCK_SIZE {
      ClassThreshold(size, size / 8);
      FloorStep(size / 8);
    } else {
      Pow2Values();
      assert Floor(32) == SMALL_BLOCK_SIZE;
      ClassThreshold(size, 32);
    }
    var s := SearchClass(size);
    if c < s && Floor(c) >= size {
      ClassThreshold(size, c);
      if c < k { FloorMonotone(c, k); }
    } else if s < c {
      FloorMonotone(s, c);
    }
  }

  /** A free block of `s` bytes is in a searched list exactly when it reaches the round-up. */
  lemma {:induction false} SearchReaches(size: nat, s: nat)
    ensures ClassOf(s) >= SearchClass(size) <==> s >= RoundUp(size)
  {
    ClassThreshold(s, SearchClass(size));
  }

  // ---- the mapping functions ----

  lemma {:induction false} XorTop(x: nat)
    requires 32 <= x < 64
    ensures Xor(x, 32) == x - 32
  {
    assert Xor(x / 32, 1) == 0;
    assert Xor(x / 16, 2) == x / 16 - 2;
    assert Xor(x / 8, 4) == x / 8 - 4;
    assert Xor(x / 4, 8) == x / 4 - 8;
    assert Xor(x / 2, 16) == x / 2 - 16;
  }

  lemma {:induction false} DivBounds(n: nat, p: nat)
    requires p > 0
    ensures (n / p) * p <= n < (n / p) * p + p
  {
    assert n == p * (n / p) + n % p;
  }

  lemma {:induction false} TopBits(size: nat, p: nat)
    requires p > 0 && p * 32 <= size < p * 64
    ensures 32 <= size / p < 64
    ensures p * (size / p) <= size < p * (size / p) + p
  {
    var q := size / p;
    DivBounds(size, p);
    LessByFactor(32, q + 1, p);
    LessByFactor(q, 64, p);
  }

  lemma {:induction false} ClassAt(size: nat, f: nat, q: nat)
    requires f >= 8 && 32 <= q < 64
    requires Pow2(f - 5) * q <= size < Pow2(f - 5) * q + Pow2(f - 5)
    ensures ClassOf(size) == 32 * (f - 7) + (q - 32)
    ensures Width(ClassOf(size)) == Pow2(f - 5)
  {
    var c := 32 * (f - 7) + (q - 32);
    assert c / 32 == f - 7 && c % 32 == q - 32;
    FloorStep(c);
    ClassThreshold(size, c);
  }

  /** The top six bits of a size give its list. */
  lemma {:induction false} ClassFromBits(size: nat, f: nat)
    requires f >= 8 && Pow2(f) <= size < Pow2(f + 1)
    ensures 32 <= size / Pow2(f - 5) < 64
    ensures ClassOf(size) == 32 * (f - 7) + (size / Pow2(f - 5) - 32)
    ensures Width(ClassOf(size)) == Pow2(f - 5)
  {
    Pow2Values();
    Pow2Add(f - 5, 5);
    Pow2Add(f - 5, 6);
    TopBits(size, Pow2(f - 5));
    ClassAt(size, f, size / Pow2(f - 5));
  }

  method MappingInsert(size: nat) returns (fl: nat, sl: nat)
    requires size < Pow2(64)
    ensures sl < SL_INDEX_COUNT && 32 * fl + sl == ClassOf(size)
  {
    if size < SMALL_BLOCK_SIZE {
      fl := 0;
      sl := size / (SMALL_BLOCK_SIZE / SL_INDEX_COUNT);
      FloorStep(sl);
      ClassThreshold(size, sl);
    } else {
      var bits := FlsSizet(size);
      BitsAtLeast8(size, bits);
      ClassFromBits(size, bits);
      var high := size / Pow2(bits - 5);
      XorTop(high);
      sl := Xor(high, 32);
      fl := bits - 7;
    }
  }

  lemma {:induction false} BitsAtLeast8(size: nat, bits: nat)
    requires SMALL_BLOCK_SIZE <= size < Pow2(bits + 1)
    ensures bits >= 8
  {
    Pow2Values();
    if bits < 8 { Pow2Monotone(bits + 1, 8); }
  }

  /** Adding the list width less one moves a request to the first list that fits it. */
  lemma {:induction false} SearchFromBits(size: nat, f: nat)
    requires f >= 8 && Pow2(f) <= size < Pow2(f + 1)
    ensures ClassOf(size + Pow2(f - 5) - 1) == SearchClass(size)
  {
    var c, t := ClassOf(size), size + Pow2(f - 5) - 1;
    ClassFromBits(size, f);
    ClassBounds(size);
    FloorStep(c);
    FloorStep(c + 1);
    ClassThreshold(t, c);
    ClassThreshold(t, c + 1);
  }

  method MappingSearch(size: nat) returns (fl: nat, sl: nat)
    requires size < BLOCK_SIZE_MAX && size % 8 == 0
    ensures sl < SL_INDEX_COUNT && 32 * fl + sl == SearchClass(size)
  {
    var size' := size;
    if size >= SMALL_BLOCK_SIZE {
      SizeFits(size);
      var bits := FlsSizet(size);
      BitsAtLeast8(size, bits);
      Pow2Monotone(bits - 5, bits);
      SearchFromBits(size, bits);
      size' := size + (Pow2(bits - 5) - 1);
    } else {
      SizeFits(size);
      GoodFit(size, 0);
      ClassThreshold(size, SearchClass(size));
    }
    fl, sl := MappingInsert(size');
  }

  lemma {:induction false} SizeFits(size: nat)
    requires size < BLOCK_SIZE_MAX
    ensures 2 * size < Pow2(64)
  {
    Pow2Values();
    Pow2Monotone(33, 64);
  }

  // ---- request sizes ----

  const SIZE_T: nat := 0x1_0000_0000_0000_0000

  /** `align_up` on `size_t`: the addition wraps. */
  function AlignUpSize(x: nat, align: nat): nat
    requires align > 0
  {
    if x + (align - 1) < SIZE_T then AlignUp(x, align)
    else AndNot(x + (align - 1) - SIZE_T, align - 1)
  }

  /** A request rounded up to the alignment and to the smallest block; 0 when it is
      empty or too large. */
  function AdjustRequestSize(size: nat, align: nat): nat
    requires align > 0
  {
    AdjustAligned(size, AlignUpSize(size, align))
  }

  function AdjustAligned(size: nat, aligned: nat): nat {
    if size == 0 || aligned >= BLOCK_SIZE_MAX then 0
    else if aligned > BLOCK_SIZE_MIN then aligned else BLOCK_SIZE_MIN
  }

  lemma {:induction false} MultipleOf8(a: nat, k: nat)
    requires k >= 3 && Multiple(a, k)
    ensures a % 8 == 0
  {
    var b := a / 2;
    var c := b / 2;
    assert Multiple(b, k - 1) && Multiple(c, k - 2);
    assert a == 8 * (c / 2);
    ModUnique(a, 8, c / 2, 0);
  }

  /** Distances between words. */
  lemma {:induction false} WordGap(p: nat, a: nat)
    requires p % 8 == 0 && a % 8 == 0 && 0 < a - p < 32
    ensures 8 <= a - p <= 24
  {
    var t := a / 8 - p / 8;
    assert a - p == 8 * t;
  }

  lemma {:induction false} WordSum(p: nat, a: nat)
    requires p % 8 == 0 && a % 8 == 0 && p <= a
    ensures (a - p) % 8 == 0
  {
    ModUnique(a - p, 8, a / 8 - p / 8, 0);
  }

  lemma {:induction false} Pow2Multiple(n: nat, k: nat)
    requires k <= n
    ensures Multiple(Pow2(n), k)
  {
    if k > 0 {
      Pow2Multiple(n - 1, k - 1);
      assert Pow2(n) == 2 * Pow2(n - 1);
    }
  }

  /** No multiple of the alignment lies within one alignment below the maximum. */
  lemma {:induction false} BelowMax(a: nat, k: nat)
    requires Multiple(a, k) && 0 < a < BLOCK_SIZE_MAX
    ensures a + Pow2(k) <= BLOCK_SIZE_MAX
  {
    Pow2Values();
    if k <= 32 {
      Pow2Multiple(32, k);
      if BLOCK_SIZE_MAX < a + Pow2(k) { MultipleGap(BLOCK_SIZE_MAX, a, k); }
    } else {
      Pow2Monotone(32, k);
      var q := MultipleQuotient(a, k);
    }
  }

  /** An adjusted request holds the request, is a block size, and wastes less than the
      alignment; it is 0 exactly for the empty request and for one that rounds up to the maximum. */
  lemma {:induction false} AdjustOk(size: nat, k: nat)
    requires k >= 3 && size + (Pow2(k) - 1) < SIZE_T
    ensures var a := AdjustRequestSize(size, Pow2(k));
      && (a != 0 ==> size <= a && BLOCK_SIZE_MIN <= a < BLOCK_SIZE_MAX && a % 8 == 0)
      && (a > BLOCK_SIZE_MIN ==> a < size + Pow2(k))
      && (a == 0 <==> size == 0 || size + Pow2(k) > BLOCK_SIZE_MAX)
  {
    AlignUpOk(size, k);
    var aligned := AlignUp(size, Pow2(k));
    if 0 < aligned < BLOCK_SIZE_MAX { BelowMax(aligned, k); }
    MultipleOf8(AlignUp(size, Pow2(k)), k);
  }

  /** The word-aligned adjustment of any `size_t` is 0 or a block size. It is too small for
      the request exactly in the last seven values, where the rounding wraps to 0 and
      the smallest block is handed out. */
  lemma {:induction false} AdjustWord(size: nat)
    requires size < SIZE_T
    ensures var a := AdjustRequestSize(size, ALIGN_SIZE);
      && (a != 0 ==> BLOCK_SIZE_MIN <= a < BLOCK_SIZE_MAX && a % 8 == 0)
      && (a == 0 || size <= a <==> size + 7 < SIZE_T)
      && (size + 7 >= SIZE_T ==> a == BLOCK_SIZE_MIN)
  {
    Pow2Values();
    if size + 7 < SIZE_T {
      AdjustOk(size, 3);
    } else {
      var y := size + 7 - SIZE_T;
      MaskDown(y, 3);
    }
  }

  // ---- alignment gaps ----

  /** Where `tlsf_memalign` puts the payload of a block whose own payload is at `ptr`: the next
      boundary, or the one after when the gap before it is too small to be a block. */
  function AlignedSpot(ptr: nat, align: nat): nat
    requires align > 0
  {
    var aligned := AlignUp(ptr, align);
    var gap := aligned - ptr;
    if 0 < gap < 32 then AlignUp(aligned + GapOffset(gap, align), align) else aligned
  }

  function GapOffset(gap: int, align: nat): nat {
    if 32 - gap > align then 32 - gap else align
  }

  /** Address `a` is aligned, and the gap from `ptr` is nothing or a whole block that leaves room. */
  ghost predicate GoodSpot(ptr: nat, k: nat, a: nat) {
    && Multiple(a, k)
    && (a == ptr || (k > 3 && a % 8 == 0 && ptr + 32 <= a <= ptr + Pow2(k) + 24))
  }

  lemma {:induction false} SpotSmall(ptr: nat, k: nat)
    requires ptr % 8 == 0 && k <= 3
    ensures GoodSpot(ptr, k, AlignedSpot(ptr, Pow2(k)))
  {
    assert Multiple(ptr, k) by {
      if k == 1 { assert Multiple(ptr / 2, 0); }
      else if k == 2 { assert Multiple(ptr / 2, 1) && Multiple(ptr / 4, 0); }
      else if k == 3 { assert Multiple(ptr / 4, 1) && Multiple(ptr / 2, 2); }
    }
    AlignUpOk(ptr, k);
  }

  lemma {:induction false} SpotLarge(ptr: nat, k: nat)
    requires ptr % 8 == 0 && k > 3
    ensures GoodSpot(ptr, k, AlignedSpot(ptr, Pow2(k)))
  {
    var align := Pow2(k);
    var a1 := AlignUp(ptr, align);
    AlignUpOk(ptr, k);
    MultipleOf8(a1, k);
    var gap := a1 - ptr;
    if !(0 < gap < 32) {
      assert AlignedSpot(ptr, align) == a1;
    } else if k == 4 {
      assert align == 16;
      SpotMoved16(ptr, a1);
    } else {
      SpotMoved(ptr, a1, k);
    }
  }

  lemma {:induction false} SpotMoved(ptr: nat, a1: nat, k: nat)
    requires k >= 5 && Multiple(a1, k) && ptr % 8 == 0 && a1 % 8 == 0 && 0 < a1 - ptr < 32
    ensures GapOffset(a1 - ptr, Pow2(k)) == Pow2(k)
    ensures GoodSpot(ptr, k, AlignUp(a1 + Pow2(k), Pow2(k)))
  {
    Pow2Values();
    Pow2Monotone(5, k);
    WordGap(ptr, a1);
    MultipleNext(a1, k);
    AlignUpOk(a1 + Pow2(k), k);
    MultipleOf8(a1 + Pow2(k), k);
  }

  lemma {:induction false} SpotMoved16(ptr: nat, a1: nat)
    requires Multiple(a1, 4) && ptr % 8 == 0 && 0 < a1 - ptr < 16
    ensures a1 - ptr == 8 && GapOffset(a1 - ptr, Pow2(4)) == 24
    ensures GoodSpot(ptr, 4, AlignUp(a1 + 24, Pow2(4)))
  {
    Pow2Values();
    var a2 := AlignUp(a1 + 24, Pow2(4));
    AlignUp24(a1);
    MultipleOf8(a1, 4);
    WordGap(ptr, a1);
    MultipleOf8(a2, 4);
  }

  lemma {:induction false} AlignUp24(a1: nat)
    requires Multiple(a1, 4)
    ensures AlignUp(a1 + 24, Pow2(4)) == a1 + 32 && Multiple(a1 + 32, 4)
  {
    assert Pow2(4) == 16;
    var a2 := AlignUp(a1 + 24, Pow2(4));
    AlignUpOk(a1 + 24, 4);
    MultipleNext(a1, 4);
    MultipleNext(a1 + 16, 4);
    if a2 < a1 + 32 { MultipleGap(a2, a1 + 16, 4); } else { MultipleGap(a2, a1 + 32, 4); }
  }

  /** The payload is aligned, and the gap before it is nothing or a whole block that leaves room. */
  lemma {:induction false} SpotOk(ptr: nat, k: nat)
    requires ptr % 8 == 0
    ensures GoodSpot(ptr, k, AlignedSpot(ptr, Pow2(k)))
  {
    if k <= 3 { SpotSmall(ptr, k); } else { SpotLarge(ptr, k); }
  }

  lemma {:induction false} NextMultiple(a: nat, c: nat, k: nat)
    requires Multiple(a, k) && Multiple(c, k) && a < c
    ensures a + Pow2(k) <= c
  {
    if c < a + Pow2(k) { MultipleGap(c, a, k); }
  }

  /** The spot, from the first boundary `a` on. */
  lemma {:induction false} SpotIs(ptr: nat, k: nat, a: nat)
    requires ptr % 8 == 0 && k > 3 && a == AlignUp(ptr, Pow2(k)) >= ptr
    ensures var spot := AlignedSpot(ptr, Pow2(k));
      && (!(0 < a - ptr < 32) ==> spot == a)
      && (k == 4 && 0 < a - ptr < 32 ==> spot == a + 32 && a - ptr == 8)
      && (k > 4 && 0 < a - ptr < 32 ==> spot == a + Pow2(k))
  {
    Pow2Values();
    AlignUpOk(ptr, k);
    MultipleOf8(a, k);
    if 0 < a - ptr < 32 {
      if k == 4 {
        SpotMoved16(ptr, a);
        AlignUp24(a);
      } else {
        SpotMoved(ptr, a, k);
        MultipleNext(a, k);
        AlignUpOk(a + Pow2(k), k);
      }
    }
  }

  /** No earlier boundary would do: the spot is the first one that leaves no gap or room for a block. */
  lemma {:induction false} SpotFirst(ptr: nat, k: nat, c: nat)
    requires ptr % 8 == 0 && k > 3 && Multiple(c, k) && ptr <= c < AlignedSpot(ptr, Pow2(k))
    ensures 0 < c - ptr < 32
  {
    var a := AlignUp(ptr, Pow2(k));
    AlignUpOk(ptr, k);
    SpotIs(ptr, k, a);
    if c < a { NextMultiple(c, a, k); }
    if a < c { NextMultiple(a, c, k); }
    if k == 4 {
      Pow2Values();
      MultipleNext(a, 4);
      if a + 16 < c { NextMultiple(a + 16, c, 4); }
    }
  }

  /** The size `tlsf_memalign` searches with: room for the alignment and for a leading block. */
  function AlignedRequest(adjust: nat, align: nat): nat
    requires align > 0
  {
    if adjust != 0 && align > ALIGN_SIZE then AdjustRequestSize(adjust + align + 32, align) else adjust
  }

  /** The size an aligned request is searched with leaves room for any gap. */
  lemma {:induction false} SearchSizes(adjust: nat, k: nat)
    requires adjust % 8 == 0 && adjust < BLOCK_SIZE_MAX && k <= 62
    ensures var s := AlignedRequest(adjust, Pow2(k));
      && s % 8 == 0 && s < BLOCK_SIZE_MAX
      && (s != 0 ==> s >= adjust && (k > 3 ==> s >= adjust + Pow2(k) + 32))
      && (k <= 3 ==> s == adjust)
      && (k > 3 && adjust > 0 ==>
            (s == 0 <==> adjust + 2 * Pow2(k) + 32 > BLOCK_SIZE_MAX) && s < adjust + 2 * Pow2(k) + 32)
  {
    Pow2Values();
    if k > 3 {
      Pow2Monotone(4, k);
      Pow2Monotone(k, 62);
      Pow2Below62();
      AdjustOk(adjust + Pow2(k) + 32, k);
    } else {
      Pow2Monotone(k, 3);
    }
  }

  lemma {:induction false} Pow2Below62()
    ensures Pow2(62) == SIZE_T / 4
  {
    Pow2Values();
    var n := 31;
    Pow2Add(n, 31);
  }

  lemma {:induction false} ZeroMultiple(k: nat)
    ensures Multiple(0, k)
  {
    if k > 0 { ZeroMultiple(k - 1); }
  }

  /** Below the alignment rounding down gives 0. */
  lemma {:induction false} MaskedAway(y: nat, k: nat)
    requires y < Pow2(k)
    ensures AndNot(y, Pow2(k) - 1) == 0
  {
    MaskDown(y, k);
    ZeroMultiple(k);
    MultipleGap(AndNot(y, Pow2(k) - 1), 0, k);
  }

  lemma {:induction false} HalfOfSizeT()
    ensures 2 * Pow2(63) == SIZE_T
  {
    Pow2Below62();
    assert Pow2(63) == 2 * Pow2(62);
  }

  /** An alignment of half the address space wraps the rounding to 0. */
  lemma {:induction false} WrapsAway(adjust: nat, align: nat)
    requires 0 < adjust < BLOCK_SIZE_MAX && align == Pow2(63)
    ensures AdjustRequestSize(adjust + align + 32, align) == BLOCK_SIZE_MIN
  {
    HalfOfSizeT();
    var x := adjust + align + 32;
    assert x + (align - 1) - SIZE_T == adjust + 31;
    MaskedAway(adjust + 31, 63);
    assert AlignUpSize(x, align) == 0;
  }

  /** The size leaves room for the request and a gap exactly for alignments up to 2^62. For 2^63 the
      smallest block is searched for. */
  lemma {:induction false} SearchExactly(adjust: nat, k: nat)
    requires adjust % 8 == 0 && 0 < adjust < BLOCK_SIZE_MAX && 3 < k <= 63
    ensures var s := AlignedRequest(adjust, Pow2(k));
      && (s == 0 || s >= adjust + Pow2(k) + 32 <==> k <= 62)
      && (k == 63 ==> s == BLOCK_SIZE_MIN)
  {
    if k <= 62 {
      SearchSizes(adjust, k);
    } else {
      var align := Pow2(63);
      WrapsAway(adjust, align);
      HalfOfSizeT();
    }
  }
}
