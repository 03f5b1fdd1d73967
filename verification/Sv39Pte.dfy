/** Sv39 page-table entries and virtual page numbers (section 4.4 of the RISC-V Privileged
    Architecture, version 20211203). */
module Sv39Pte {
  import opened Common

  type Word = bv64

  const V: Word := 1
  const R: Word := 2
  const W: Word := 4
  const X: Word := 8
  const U: Word := 16
  const A: Word := 64
  const D: Word := 128

  const FLAG_MASK: Word := 0x1ff
  const PPN_MASK: Word := 0xfff_ffff_ffff

  datatype Perm = Perm(r: bool, w: bool, x: bool, u: bool)

  // ---- flags ----

  function Flags(pte: Word): Word {
    pte & FLAG_MASK & 0xff
  }

  function SetFlags(pte: Word, flags: Word): Word {
    (pte & !FLAG_MASK) | flags
  }

  predicate IsValid(pte: Word) {
    Flags(pte) & V == V
  }

  function FromPerm(p: Perm): Word {
    V | (if p.r then R else 0) | (if p.w then W else 0) | (if p.x then X else 0) | (if p.u then U else 0)
  }

  function ToPerm(flags: Word): Perm {
    Perm(flags & R == R, flags & W == W, flags & X == X, flags & U == U)
  }

  // ---- page numbers ----

  /** A physical page number. */
  datatype PageNo = PageNo(value: Word)

  function Ppn(pte: Word): PageNo {
    PageNo((pte >> 10) & PPN_MASK)
  }

  function SetPpn(pte: Word, ppn: PageNo): Word {
    (pte & !(PPN_MASK << 10)) | (ppn.value << 10)
  }

  /** Page numbers an entry can hold. */
  predicate IsPpn(ppn: PageNo) {
    ppn.value & PPN_MASK == ppn.value
  }

  // ---- the fields are independent ----

  lemma {:induction false} FlagsFields(pte: Word, flags: Word)
    requires flags & 0xff == flags
    ensures Flags(SetFlags(pte, flags)) == flags && Ppn(SetFlags(pte, flags)) == Ppn(pte)
  {
  }

  lemma {:induction false} PpnFields(pte: Word, ppn: PageNo)
    requires IsPpn(ppn)
    ensures Ppn(SetPpn(pte, ppn)) == ppn && Flags(SetPpn(pte, ppn)) == Flags(pte)
  {
  }

  /** Permissions survive the trip through an entry, with or without the accessed and dirty bits. */
  lemma {:induction false} PermRoundTrip(p: Perm)
    ensures ToPerm(FromPerm(p)) == p && ToPerm(FromPerm(p) | A | D) == p
    ensures FromPerm(p) & 0xff == FromPerm(p) && (FromPerm(p) | A | D) & 0xff == FromPerm(p) | A | D
    ensures FromPerm(p) & V == V && (FromPerm(p) | A | D) & V == V
  {
  }

  /** The bits of an entry as the architecture gives them: valid, readable, writable, executable, user, and, set aside
      bit 5, accessed and dirty. */
  lemma {:induction false} FlagBits(pte: Word, p: Perm)
    ensures IsValid(pte) <==> pte & 1 == 1
    ensures Flags(pte) == pte & 0xff
    ensures var f := FromPerm(p);
      && f & 1 == 1 && (f & 2 == 2 <==> p.r) && (f & 4 == 4 <==> p.w) && (f & 8 == 8 <==> p.x)
      && (f & 16 == 16 <==> p.u)
      && f & !31 == 0
    ensures A == 64 && D == 128
  {
  }

  /** The page number is in bits 10 to 53. */
  lemma {:induction false} PpnBits(pte: Word, ppn: PageNo)
    requires IsPpn(ppn)
    ensures Ppn(pte).value << 10 == pte & 0x3f_ffff_ffff_fc00
    ensures SetPpn(pte, ppn) & 0x3f_ffff_ffff_fc00 == ppn.value << 10
    ensures SetPpn(pte, ppn) & !0x3f_ffff_ffff_fc00 == pte & !0x3f_ffff_ffff_fc00
    ensures SetFlags(pte, 0) & 0x3f_ffff_ffff_fc00 == pte & 0x3f_ffff_ffff_fc00
  {
  }

  // ---- virtual addresses ----

  /** `Addr::vpn`: the three table indices of an address. */
  function Vpn(vaddr: nat): (v: seq<nat>)
    ensures |v| == 3 && forall k :: 0 <= k < 3 ==> v[k] < 512
  {
    [vaddr / 0x4000_0000 % 512, vaddr / 0x20_0000 % 512, vaddr / 0x1000 % 512]
  }

  /** The 27-bit page number that the hardware translates. */
  function PageNumber(vaddr: nat): nat {
    vaddr / 0x1000 % 0x800_0000
  }

  lemma {:induction false} VpnDigits(vaddr: nat)
    ensures PageNumber(vaddr) == Vpn(vaddr)[0] * 0x4_0000 + Vpn(vaddr)[1] * 512 + Vpn(vaddr)[2]
  {
    var p := vaddr / 0x1000;
    var q := p / 512;
    var r := q / 512;
    assert vaddr / 0x20_0000 == q;
    assert vaddr / 0x4000_0000 == r;
    assert p == 512 * q + p % 512 && q == 512 * r + q % 512 && r == 512 * (r / 512) + r % 512;
    assert p == 0x800_0000 * (r / 512) + (r % 512 * 0x4_0000 + q % 512 * 512 + p % 512);
    ModIs(p, 0x800_0000, r / 512, r % 512 * 0x4_0000 + q % 512 * 512 + p % 512);
  }

  lemma {:induction false} ModIs(a: nat, m: nat, q: nat, r: nat)
    requires m == 0x800_0000 && a == m * q + r && r < m
    ensures a % m == r
  {
  }

  /** Two addresses use the same entry exactly when they have the same page number. */
  lemma {:induction false} SameEntry(a: nat, b: nat)
    ensures Vpn(a) == Vpn(b) <==> PageNumber(a) == PageNumber(b)
  {
    VpnDigits(a);
    VpnDigits(b);
    var u, v := Vpn(a), Vpn(b);
    assert u == [u[0], u[1], u[2]] && v == [v[0], v[1], v[2]];
    Digits(u[0], u[1], u[2], v[0], v[1], v[2]);
  }

  lemma {:induction false} Digits(a: nat, b: nat, c: nat, d: nat, e: nat, f: nat)
    requires a < 512 && b < 512 && c < 512 && d < 512 && e < 512 && f < 512
    ensures a * 0x4_0000 + b * 512 + c == d * 0x4_0000 + e * 512 + f <==> a == d && b == e && c == f
  {
  }
}
