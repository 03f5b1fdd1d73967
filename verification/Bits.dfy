/** Unsigned machine words as naturals, with C's bitwise operators defined on
    their binary expansions. A 32-bit word is a natural below `Pow2(32)`. */
module Bits {

  function Pow2(n: nat): (r: nat)
    ensures r > 0
  {
    if n == 0 then 1 else 2 * Pow2(n - 1)
  }

  /** Bit `j` of `w`. */
  predicate Bit(w: nat, j: nat) {
    if j == 0 then w % 2 == 1 else Bit(w / 2, j - 1)
  }

  function And(x: nat, y: nat): nat {
    if x == 0 then 0
    else (if x % 2 == 1 && y % 2 == 1 then 1 else 0) + 2 * And(x / 2, y / 2)
  }

  /** `x & ~y`. */
  function AndNot(x: nat, y: nat): nat {
    if x == 0 then 0
    else (if x % 2 == 1 && y % 2 == 0 then 1 else 0) + 2 * AndNot(x / 2, y / 2)
  }

  function Or(x: nat, y: nat): nat {
    if x == 0 then y
    else (if x % 2 == 1 || y % 2 == 1 then 1 else 0) + 2 * Or(x / 2, y / 2)
  }

  function Xor(x: nat, y: nat): nat {
    if x == 0 then y
    else (if x % 2 != y % 2 then 1 else 0) + 2 * Xor(x / 2, y / 2)
  }

  const WORD := Pow2(32)

  /** `~w` on `n` bits. */
  function Not(n: nat, w: nat): nat
    requires w < Pow2(n)
  {
    Pow2(n) - 1 - w
  }

  /** `~0U << s` on `n` bits: the bits from `s` upwards. */
  function HighMask(n: nat, s: nat): nat
    requires s <= n
  {
    Pow2Monotone(s, n);
    Pow2(n) - Pow2(s)
  }

  lemma {:induction false} Pow2Monotone(m: nat, n: nat)
    requires m <= n
    ensures Pow2(m) <= Pow2(n)
    ensures m < n ==> 2 * Pow2(m) <= Pow2(n)
    decreases n
  {
    if m < n { Pow2Monotone(m, n - 1); }
  }

  lemma {:induction false} Pow2Add(m: nat, n: nat)
    ensures Pow2(m + n) == Pow2(m) * Pow2(n)
    decreases n
  {
    if n > 0 {
      Pow2Add(m, n - 1);
      assert m + n - 1 == m + (n - 1);
    }
  }

  lemma {:induction false} Pow2Values()
    ensures Pow2(2) == 4 && Pow2(3) == 8 && Pow2(4) == 16 && Pow2(5) == 32 && Pow2(8) == 256
    ensures Pow2(16) == 0x1_0000 && Pow2(31) == 0x8000_0000 && Pow2(32) == 0x1_0000_0000
  {
    assert Pow2(15) == 0x8000;
    var n := 16;
    Pow2Add(n, 15);
    assert Pow2(n + 15) == 0x8000_0000;
  }

  // ---- characterising the operators bit by bit ----

  lemma {:induction false} AndBit(x: nat, y: nat, j: nat)
    ensures Bit(And(x, y), j) <==> Bit(x, j) && Bit(y, j)
    decreases x, j
  {
    if x == 0 {
      ZeroBit(j);
    } else if j > 0 {
      AndBit(x / 2, y / 2, j - 1);
      assert And(x, y) / 2 == And(x / 2, y / 2);
    }
  }

  lemma {:induction false} AndNotBit(x: nat, y: nat, j: nat)
    ensures Bit(AndNot(x, y), j) <==> Bit(x, j) && !Bit(y, j)
    decreases x, j
  {
    if x == 0 {
      ZeroBit(j);
    } else if j > 0 {
      AndNotBit(x / 2, y / 2, j - 1);
      assert AndNot(x, y) / 2 == AndNot(x / 2, y / 2);
    }
  }

  lemma {:induction false} OrBit(x: nat, y: nat, j: nat)
    ensures Bit(Or(x, y), j) <==> Bit(x, j) || Bit(y, j)
    decreases x, j
  {
    if x == 0 {
      ZeroBit(j);
    } else if j > 0 {
      OrBit(x / 2, y / 2, j - 1);
      assert Or(x, y) / 2 == Or(x / 2, y / 2);
    }
  }

  lemma {:induction false} ZeroBit(j: nat)
    ensures !Bit(0, j)
  {
    if j > 0 { ZeroBit(j - 1); }
  }

  lemma {:induction false} Pow2Bit(s: nat, j: nat)
    ensures Bit(Pow2(s), j) <==> j == s
  {
    if s == 0 {
      if j > 0 { ZeroBit(j - 1); }
    } else if j > 0 {
      Pow2Bit(s - 1, j - 1);
      assert Pow2(s) / 2 == Pow2(s - 1);
    }
  }

  lemma {:induction false} NotBit(n: nat, w: nat, j: nat)
    requires w < Pow2(n)
    ensures Bit(Not(n, w), j) <==> j < n && !Bit(w, j)
  {
    if n == 0 {
      ZeroBit(j);
    } else if j > 0 {
      assert Not(n, w) / 2 == Not(n - 1, w / 2);
      NotBit(n - 1, w / 2, j - 1);
    } else {
      assert Not(n, w) % 2 == 1 - w % 2;
    }
  }

  lemma {:induction false} HighMaskBit(n: nat, s: nat, j: nat)
    requires s <= n
    ensures Bit(HighMask(n, s), j) <==> s <= j < n
  {
    Pow2Monotone(s, n);
    if s == 0 {
      NotBit(n, 0, j);
      ZeroBit(j);
    } else if j > 0 {
      assert HighMask(n, s) / 2 == HighMask(n - 1, s - 1);
      HighMaskBit(n - 1, s - 1, j - 1);
    } else {
      assert HighMask(n, s) == 2 * HighMask(n - 1, s - 1);
    }
  }

  /** A word below `2^n` is zero exactly when it has no bit set. */
  lemma {:induction false} ZeroIffNoBits(n: nat, w: nat)
    requires w < Pow2(n)
    ensures w == 0 ==> forall j: nat :: j < n ==> !Bit(w, j)
    ensures w != 0 ==> exists j: nat :: j < n && Bit(w, j)
  {
    if w == 0 {
      forall j: nat | j < n ensures !Bit(w, j) { ZeroBit(j); }
    } else if w % 2 == 1 {
      var j: nat := 0;
      assert j < n && Bit(w, j);
    } else {
      ZeroIffNoBits(n - 1, w / 2);
      var j: nat :| j < n - 1 && Bit(w / 2, j);
      assert Bit(w, j + 1);
    }
  }

  lemma {:induction false} AndBound(x: nat, y: nat)
    ensures And(x, y) <= x
  {
    if x > 0 { AndBound(x / 2, y / 2); }
  }

  lemma {:induction false} AndNotBound(x: nat, y: nat)
    ensures AndNot(x, y) <= x
  {
    if x > 0 { AndNotBound(x / 2, y / 2); }
  }

  lemma {:induction false} OrBound(n: nat, x: nat, y: nat)
    requires x < Pow2(n) && y < Pow2(n)
    ensures Or(x, y) < Pow2(n)
  {
    if x > 0 { OrBound(n - 1, x / 2, y / 2); }
  }

  lemma {:induction false} BitBound(n: nat, w: nat, j: nat)
    requires w < Pow2(n) && Bit(w, j)
    ensures j < n
  {
    if n == 0 { ZeroBit(j); }
    else if j > 0 { BitBound(n - 1, w / 2, j - 1); }
  }

  /** Testing one bit with a mask. */
  lemma {:induction false} AndPow2(w: nat, j: nat)
    ensures And(w, Pow2(j)) != 0 <==> Bit(w, j)
    decreases w, j
  {
    if w == 0 {
      ZeroBit(j);
    } else if j == 0 {
      AndZero(w / 2);
    } else {
      assert Pow2(j) / 2 == Pow2(j - 1);
      AndPow2(w / 2, j - 1);
    }
  }

  lemma {:induction false} AndZero(x: nat)
    ensures And(x, 0) == 0
  {
    if x > 0 { AndZero(x / 2); }
  }

  // ---- rounding to a power of two ----

  /** `(x + (align - 1)) & ~(align - 1)`. */
  function AlignUp(x: nat, align: nat): nat
    requires align > 0
  {
    AndNot(x + (align - 1), align - 1)
  }

  lemma {:induction false} AndNotZero(y: nat)
    ensures AndNot(y, 0) == y
  {
    if y > 0 { AndNotZero(y / 2); }
  }

  /** `a` is a multiple of `2^k`. */
  predicate Multiple(a: nat, k: nat) {
    k == 0 || (a % 2 == 0 && Multiple(a / 2, k - 1))
  }

  lemma {:induction false} MultipleMod(a: nat, k: nat)
    requires Multiple(a, k)
    ensures a % Pow2(k) == 0
  {
    var q := MultipleQuotient(a, k);
    ModUnique(a, Pow2(k), q, 0);
  }

  lemma {:induction false} MultipleQuotient(a: nat, k: nat) returns (q: nat)
    requires Multiple(a, k)
    ensures a == Pow2(k) * q
  {
    if k == 0 {
      q := a;
    } else {
      q := MultipleQuotient(a / 2, k - 1);
      assert Pow2(k) * q == 2 * (Pow2(k - 1) * q);
    }
  }

  lemma {:induction false} ModUnique(y: nat, d: nat, q: nat, r: nat)
    requires r < d && y == d * q + r
    ensures y % d == r && y / d == q
  {
    var q', r' := y / d, y % d;
    assert y == d * q' + r';
    MulGap(d, q, q');
    MulGap(d, q', q);
  }

  lemma {:induction false} MulGap(d: nat, q: nat, q': nat)
    ensures q < q' ==> d * q' >= d * q + d
  {
    if q < q' {
      var t := q' - q - 1;
      assert d * (t + q + 1) == d * t + d * q + d;
    }
  }

  /** Masking off the low bits rounds down to a multiple. */
  lemma {:induction false} MaskDown(y: nat, k: nat)
    ensures var a := AndNot(y, Pow2(k) - 1); Multiple(a, k) && a <= y < a + Pow2(k)
    decreases k
  {
    if k == 0 {
      AndNotZero(y);
    } else {
      assert (Pow2(k) - 1) / 2 == Pow2(k - 1) - 1 && (Pow2(k) - 1) % 2 == 1;
      MaskDown(y / 2, k - 1);
      assert AndNot(y, Pow2(k) - 1) == 2 * AndNot(y / 2, Pow2(k - 1) - 1);
    }
  }

  /** Two multiples less than `2^k` apart are equal. */
  lemma {:induction false} MultipleGap(a: nat, x: nat, k: nat)
    requires Multiple(a, k) && Multiple(x, k) && x <= a < x + Pow2(k)
    ensures a == x
  {
    if k > 0 { MultipleGap(a / 2, x / 2, k - 1); }
  }

  lemma {:induction false} MultipleNext(a: nat, k: nat)
    requires Multiple(a, k)
    ensures Multiple(a + Pow2(k), k)
  {
    if k > 0 {
      MultipleNext(a / 2, k - 1);
      assert (a + Pow2(k)) / 2 == a / 2 + Pow2(k - 1);
    }
  }

  /** Rounding up to a multiple of a power of two; a multiple stays. */
  lemma {:induction false} AlignUpOk(x: nat, k: nat)
    ensures var a := AlignUp(x, Pow2(k)); Multiple(a, k) && x <= a < x + Pow2(k)
    ensures Multiple(x, k) ==> AlignUp(x, Pow2(k)) == x
  {
    MaskDown(x + (Pow2(k) - 1), k);
    if Multiple(x, k) { MultipleGap(AlignUp(x, Pow2(k)), x, k); }
  }

  // ---- the bit scans ----

  /** `x & -x` isolates the lowest set bit. */
  lemma {:induction false} LowestBit(n: nat, x: nat) returns (k: nat)
    requires 0 < x < Pow2(n)
    ensures k < n && Bit(x, k) && And(x, Pow2(n) - x) == Pow2(k)
    ensures forall j: nat :: j < k ==> !Bit(x, j)
  {
    if x % 2 == 1 {
      k := 0;
      assert (Pow2(n) - x) / 2 == Not(n - 1, x / 2);
      NoCommonBits(n - 1, x / 2);
    } else {
      k := LowestBit(n - 1, x / 2);
      assert (Pow2(n) - x) / 2 == Pow2(n - 1) - x / 2;
      k := k + 1;
      forall j: nat | j < k ensures !Bit(x, j) {
        if j > 0 { assert !Bit(x / 2, j - 1); }
      }
    }
  }

  lemma {:induction false} NoCommonBits(n: nat, w: nat)
    requires w < Pow2(n)
    ensures And(w, Not(n, w)) == 0
  {
    if w > 0 {
      assert Not(n, w) / 2 == Not(n - 1, w / 2);
      assert Not(n, w) % 2 == 1 - w % 2;
      NoCommonBits(n - 1, w / 2);
    }
  }

  /** One halving step of the scans: a power of two compared with `2^m`. */
  lemma {:induction false} Pow2Step(k: nat, m: nat, c: nat)
    requires c == Pow2(m)
    ensures Pow2(k) > c - 1 <==> k >= m
    ensures k >= m ==> Pow2(k) == Pow2(k - m) * c
  {
    if k >= m {
      Pow2Monotone(m, k);
      Pow2Add(k - m, m);
    } else {
      Pow2Monotone(k, m);
    }
  }

  /** Index of the lowest set bit of a 32-bit word, or -1. */
  method Ffs(word: nat) returns (bit: int)
    requires word < WORD
    ensures word == 0 ==> bit == -1
    ensures word != 0 ==> 0 <= bit < 32 && Bit(word, bit) && forall j: nat :: j < bit ==> !Bit(word, j)
  {
    Pow2Values();
    if word == 0 { return -1; }
    ghost var k := LowestBit(32, word);
    var x := And(word, 0x1_0000_0000 - word);
    var n := 0;
    Pow2Step(k, 16, 0x1_0000);
    if x > 0xFFFF { n := n + 16; x := x / 0x1_0000; }
    Pow2Step(k - n, 8, 0x100);
    if x > 0xFF { n := n + 8; x := x / 0x100; }
    bit := LowFfs(x, n, k - n);
  }

  /** The last three steps of `Ffs`, on a byte with one bit. */
  method LowFfs(byte: nat, start: nat, ghost k: nat) returns (n: nat)
    requires k < 8 && byte == Pow2(k)
    ensures n == start + k
  {
    var x := byte;
    n := start;
    Pow2Step(k, 4, 0x10);
    if x > 0xF { n := n + 4; x := x / 0x10; }
    Pow2Step(k - (n - start), 2, 4);
    if x > 0x3 { n := n + 2; x := x / 4; }
    Pow2Step(k - (n - start), 1, 2);
    if x > 0x1 { n := n + 1; }
  }

  /** Leading zeros of a 32-bit word. */
  method Clz(word: nat) returns (n: nat)
    requires word < WORD
    ensures word == 0 ==> n == 32
    ensures word != 0 ==> n < 32 && Pow2(31 - n) <= word < Pow2(32 - n)
  {
    Pow2Values();
    if word == 0 { return 32; }
    var x := word;
    n := 0;
    if x <= 0x0000FFFF { Shifted(word, x, n, 16); n := n + 16; x := x * 0x1_0000; }
    if x <= 0x00FFFFFF { Shifted(word, x, n, 8); n := n + 8; x := x * 0x100; }
    n := LowClz(x, n, word);
  }

  /** The last three steps of `Clz`. */
  method LowClz(start: nat, from: nat, ghost word: nat) returns (n: nat)
    requires from <= 24 && start == word * Pow2(from) && 0x100_0000 <= start < WORD
    ensures n < 32 && Pow2(31 - n) <= word < Pow2(32 - n)
  {
    Pow2Values();
    var x := start;
    n := from;
    if x <= 0x0FFFFFFF { Shifted(word, x, n, 4); n := n + 4; x := x * 0x10; }
    if x <= 0x3FFFFFFF { Shifted(word, x, n, 2); n := n + 2; x := x * 4; }
    if x <= 0x7FFFFFFF { Shifted(word, x, n, 1); n := n + 1; x := x * 2; }
    Normalized(word, x, n);
  }

  lemma {:induction false} Shifted(word: nat, x: nat, n: nat, m: nat)
    requires x == word * Pow2(n)
    ensures x * Pow2(m) == word * Pow2(n + m)
  {
    Pow2Add(n, m);
  }

  lemma {:induction false} Normalized(word: nat, x: nat, n: nat)
    requires n < 32 && x == word * Pow2(n) && Pow2(31) <= x < Pow2(32)
    ensures Pow2(31 - n) <= word < Pow2(32 - n)
  {
    Pow2Add(31 - n, n);
    Pow2Add(32 - n, n);
    LessByFactor(Pow2(31 - n), word, Pow2(n));
    LessByFactor(word, Pow2(32 - n), Pow2(n));
  }

  lemma {:induction false} LessByFactor(a: nat, b: nat, f: nat)
    requires f > 0
    ensures a * f <= b * f ==> a <= b
    ensures a * f < b * f ==> a < b
  {
    if a > b { assert a * f > b * f; }
    if a >= b { assert a * f >= b * f; }
  }

  /** Index of the highest set bit of a 32-bit word, or -1. */
  method Fls(word: nat) returns (bit: int)
    requires word < WORD
    ensures word == 0 ==> bit == -1
    ensures word != 0 ==> 0 <= bit < 32 && Pow2(bit) <= word < Pow2(bit + 1)
  {
    var n := Clz(word);
    var bits: int := if word != 0 then 32 - n else 0;
    bit := bits - 1;
  }

  /** `Fls` on a 64-bit word, by halves. */
  method FlsSizet(size: nat) returns (bits: int)
    requires size < Pow2(64)
    ensures size == 0 ==> bits == -1
    ensures size != 0 ==> 0 <= bits < 64 && Pow2(bits) <= size < Pow2(bits + 1)
  {
    Pow2Values();
    Pow2Add(32, 32);
    var high := size / 0x1_0000_0000;
    if high != 0 {
      var h := Fls(high);
      bits := 32 + h;
      Pow2Add(h, 32);
      Pow2Add(h + 1, 32);
      assert Pow2(bits) == Pow2(h) * 0x1_0000_0000 && Pow2(bits + 1) == Pow2(h + 1) * 0x1_0000_0000;
    } else {
      bits := Fls(size % 0x1_0000_0000);
    }
  }
}
