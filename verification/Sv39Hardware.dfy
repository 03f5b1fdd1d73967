/** Address translation as the hardware does it (section 4.3.2 of the RISC-V Privileged Architecture, version 20211203),
    and that it finds in the tables what the kernel put there. */
module Sv39Hardware {
  import opened Common
  import opened Sv39Pte
  import opened Sv39Table

  /** A fault, or a leaf entry: its level, 0 for a page, the page number and the flags. */
  datatype Found = Fault | Found(level: nat, ppn: Word, flags: Word)

  /** The walk from a table on, with the 9-bit indices that are left, the most significant first. */
  function HardwareWalk(mem: Memory, a: Word, indices: seq<nat>): Found
    requires forall i :: 0 <= i < |indices| ==> indices[i] < 512
    decreases |indices|
  {
    if indices == [] || PageNo(a) !in mem || |mem[PageNo(a)]| != 512 then Fault
    else
      var pte := mem[PageNo(a)][indices[0]];
      if pte & 1 == 0 || (pte & 2 == 0 && pte & 4 == 4) then Fault
      else if pte & 2 == 2 || pte & 8 == 8 then Found(|indices| - 1, (pte >> 10) & 0xfff_ffff_ffff, pte & 0xff)
      else HardwareWalk(mem, (pte >> 10) & 0xfff_ffff_ffff, indices[1..])
  }

  /** The flags of a leaf: readable or executable, and not writable only. */
  predicate IsLeaf(flags: Word) {
    (flags & 2 == 2 || flags & 8 == 8) && (flags & 4 == 4 ==> flags & 2 == 2)
  }

  /** What the kernel means by a translation. */
  function Meant(t: Option<(PageNo, Word)>): Found {
    if t.Some? && IsLeaf(t.value.1) then Found(0, t.value.0.value, t.value.1) else Fault
  }

  /** An entry of flags 1 is a pointer to the next table. */
  lemma {:induction false} Pointer(mem: Memory, p: PageNo, indices: seq<nat>)
    requires indices != [] && (forall i :: 0 <= i < |indices| ==> indices[i] < 512) && p in mem && |mem[p]| == 512
    requires Flags(mem[p][indices[0]]) == 1
    ensures HardwareWalk(mem, p.value, indices) == HardwareWalk(mem, Ppn(mem[p][indices[0]]).value, indices[1..])
  {
    var pte := mem[p][indices[0]];
    assert pte & 1 == 1 && pte & 2 == 0 && pte & 4 == 0 && pte & 8 == 0;
  }

  lemma {:induction false} NoPointer(mem: Memory, p: PageNo, indices: seq<nat>)
    requires indices != [] && (forall i :: 0 <= i < |indices| ==> indices[i] < 512) && p in mem && |mem[p]| == 512
    requires !IsValid(mem[p][indices[0]])
    ensures HardwareWalk(mem, p.value, indices) == Fault
  {
    var pte := mem[p][indices[0]];
    assert pte & 1 == 0;
  }

  /** What an entry of the last table means by its bits. */
  function ByBits(pte: Word): Found {
    if pte & 1 == 0 || (pte & 2 == 0 && pte & 4 == 4) then Fault
    else if pte & 2 == 2 || pte & 8 == 8 then Found(0, (pte >> 10) & 0xfff_ffff_ffff, pte & 0xff)
    else Fault
  }

  lemma {:induction false} LeafBits(pte: Word)
    requires pte & 1 == 1
    ensures Flags(pte) & 2 == pte & 2 && Flags(pte) & 4 == pte & 4 && Flags(pte) & 8 == pte & 8
    ensures Flags(pte) == pte & 0xff
    ensures pte & 2 == 0 || pte & 2 == 2
  {
  }

  lemma {:induction false} LeafMeans(pte: Word)
    requires pte & 1 == 1
    ensures ByBits(pte) == Meant(Some((Ppn(pte), Flags(pte))))
  {
    LeafBits(pte);
    var r, w, x := pte & 2, pte & 4, pte & 8;
    assert IsLeaf(Flags(pte)) <==> (r == 2 || x == 8) && (w == 4 ==> r == 2);
  }

  lemma {:induction false} LastByBits(mem: Memory, p: PageNo, i: nat)
    requires i < 512 && p in mem && |mem[p]| == 512
    ensures HardwareWalk(mem, p.value, [i]) == ByBits(mem[p][i])
  {
    assert [i][1..] == [];
    assert PageNo(p.value) == p;
  }

  lemma {:induction false} ValidBit(pte: Word)
    ensures IsValid(pte) <==> pte & 1 == 1
  {
  }

  /** A last entry is a leaf by its flags, or a fault. */
  lemma {:induction false} LastEntry(mem: Memory, p: PageNo, i: nat)
    requires i < 512 && p in mem && |mem[p]| == 512 && IsValid(mem[p][i])
    ensures HardwareWalk(mem, p.value, [i]) == Meant(Some((Ppn(mem[p][i]), Flags(mem[p][i]))))
  {
    LastByBits(mem, p, i);
    ValidBit(mem[p][i]);
    LeafMeans(mem[p][i]);
  }

  /** The last table of the walk. */
  lemma {:induction false} WalkLeaf(mem: Memory, tree: Tree, v: seq<nat>)
    requires Inv(mem, tree) && IsVpn(v) && v[..2] in tree
    ensures HardwareWalk(mem, tree[v[..2]].value, [v[2]]) == Meant(Translate(mem, tree, v))
  {
    var p := tree[v[..2]];
    assert IsTable(mem, p);
    if IsValid(mem[p][v[2]]) { LastEntry(mem, p, v[2]); } else { NoPointer(mem, p, [v[2]]); }
  }

  /** A table that is not the last: its entry leads on, or there is nothing. */
  lemma {:induction false} WalkTable(mem: Memory, tree: Tree, path: seq<nat>, indices: seq<nat>)
    requires Inv(mem, tree) && path in tree && |path| < 2 && indices != []
    requires forall i :: 0 <= i < |indices| ==> indices[i] < 512
    ensures var next := path + [indices[0]];
      HardwareWalk(mem, tree[path].value, indices) ==
        if next in tree then HardwareWalk(mem, tree[next].value, indices[1..]) else Fault
  {
    var p := tree[path];
    assert IsTable(mem, p) && EntryOk(mem, tree, path, indices[0]);
    if path + [indices[0]] in tree { Pointer(mem, p, indices); } else { NoPointer(mem, p, indices); }
  }

  /** The hardware translates every page as the kernel's tables mean it: to a page and its flags where one is mapped for
      reading or execution, and to a fault everywhere else. */
  lemma {:induction false} HardwareAgrees(mem: Memory, tree: Tree, v: seq<nat>)
    requires Inv(mem, tree) && IsVpn(v)
    ensures HardwareWalk(mem, tree[[]].value, v) == Meant(Translate(mem, tree, v))
  {
    WalkTable(mem, tree, [], v);
    assert [] + [v[0]] == v[..1] && v[1..][1..] == [v[2]] && v[..1] + [v[1]] == v[..2];
    if v[..1] in tree {
      WalkTable(mem, tree, v[..1], v[1..]);
      if v[..2] in tree { WalkLeaf(mem, tree, v); }
    } else {
      assert v[..2] in tree ==> Parented(tree, v[..2]);
    }
  }
}
