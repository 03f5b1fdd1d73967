/** Looking up a property of a node by name. */
module FdtProps {
  import opened Common
  import opened FdtTokens
  import opened FdtParse
  import opened FdtBlob
  import opened FdtCursor

  /** A property with this name. */
  predicate Named(t: Token, strings: seq<byte>, name: seq<byte>) {
    t.Prop? && StringAt(strings, t.nameoff) == Some(name)
  }

  /** Only properties and fillers between token `i` and the place before token `j`. */
  predicate Run(ts: seq<Token>, i: nat, j: nat) {
    i < j <= |ts| && forall k :: i < k < j ==> ts[k].Prop? || ts[k].Nop?
  }

  /** A run of properties, none of them so named. */
  predicate NoneNamed(ts: seq<Token>, i: nat, j: nat, strings: seq<byte>, name: seq<byte>) {
    Run(ts, i, j) && forall k :: i < k < j ==> !Named(ts[k], strings, name)
  }

  /** Token `j` is the first property of node `i` with this name. */
  predicate FirstNamed(ts: seq<Token>, i: nat, j: nat, strings: seq<byte>, name: seq<byte>) {
    NoneNamed(ts, i, j, strings, name) && j < |ts| && Named(ts[j], strings, name)
  }

  /** `nextprop_`: the next property, past fillers. */
  method NextProp(s: seq<byte>, offset: nat, ghost ts: seq<Token>, ghost i: nat) returns (prop: int, ghost j: nat)
    requires |s| < INT_MAX && At(s, offset, ts, i)
    ensures i <= j <= |ts| && forall k :: i <= k < j ==> ts[k].Nop?
    ensures prop >= 0 ==> j < |ts| && ts[j].Prop? && At(s, prop, ts, j)
    ensures prop < 0 ==> (prop == ERR_NOTFOUND || prop == ERR_BADSTRUCTURE)
    ensures prop == ERR_NOTFOUND ==> j < |ts| && !ts[j].Prop? && !ts[j].Nop?
    ensures prop == ERR_BADSTRUCTURE ==> j == |ts|
  {
    prop, j := offset, i;
    while true
      invariant prop >= 0 && i <= j <= |ts| && At(s, prop, ts, j)
      invariant forall k :: i <= k < j ==> ts[k].Nop?
      decreases |ts| - j
    {
      AtTag(s, prop, ts, j);
      var tag, nextoffset := NextTag(s, prop);
      if tag == END { return ERR_BADSTRUCTURE, j; }
      if tag == PROP { return; }
      if tag != NOP { return ERR_NOTFOUND, j; }
      prop := nextoffset;
      j := j + 1;
    }
  }

  /** `fdt_string_eq_` on the name of the property at an offset. */
  method PropNameEq(b: Blob, s: seq<byte>, offset: nat, name: seq<byte>, ghost ts: seq<Token>, ghost i: nat)
    returns (eq: bool)
    requires Fits(b) && b.hdr.totalsize < INT_MAX && At(s, offset, ts, i) && i < |ts| && ts[i].Prop?
    ensures eq <==> Named(ts[i], Strings(b), name)
  {
    AtTag(s, offset, ts, i);
    FirstProp(s[offset..]);
    var err, found := GetString(b, Load32(s[offset..][8..]));
    eq := err == 0 && found == name;
  }

  /** `fdt_get_property`: the offset of the first property of a node with the given name. */
  method GetProperty(b: Blob, s: seq<byte>, nodeoffset: nat, name: seq<byte>, ghost ts: seq<Token>, ghost i: nat)
    returns (prop: int, ghost j: nat)
    requires Fits(b) && b.hdr.totalsize < INT_MAX && s == Structs(b) && At(s, nodeoffset, ts, i)
    ensures prop >= 0 ==> At(s, prop, ts, j) && FirstNamed(ts, i, j, Strings(b), name)
    ensures prop == ERR_BADOFFSET <==> !IsBegin(ts, i)
    ensures prop < 0 && IsBegin(ts, i) ==> prop == ERR_NOTFOUND || prop == ERR_BADSTRUCTURE
    ensures prop < 0 && IsBegin(ts, i) ==> NoneNamed(ts, i, j, Strings(b), name)
    ensures prop == ERR_NOTFOUND ==> j < |ts| && !ts[j].Prop? && !ts[j].Nop?
    ensures prop == ERR_BADSTRUCTURE ==> j == |ts|
  {
    j := i;
    prop := CheckNodeOffset(s, nodeoffset, ts, i);
    if prop < 0 { return; }
    prop, j := NextProp(s, prop, ts, i + 1);
    while prop >= 0
      invariant i < j <= |ts| && NoneNamed(ts, i, j, Strings(b), name)
      invariant prop >= 0 ==> j < |ts| && ts[j].Prop? && At(s, prop, ts, j)
      invariant prop < 0 ==> prop == ERR_NOTFOUND || prop == ERR_BADSTRUCTURE
      invariant prop == ERR_NOTFOUND ==> j < |ts| && !ts[j].Prop? && !ts[j].Nop?
      invariant prop == ERR_BADSTRUCTURE ==> j == |ts|
      decreases |ts| - j, if prop >= 0 then 1 else 0
    {
      var eq := PropNameEq(b, s, prop, name, ts, j);
      if eq { return; }
      prop, j := SkipProp(s, prop, ts, j);
    }
  }

  /** The property after the one at `prop`. */
  method SkipProp(s: seq<byte>, offset: nat, ghost ts: seq<Token>, ghost i: nat) returns (prop: int, ghost j: nat)
    requires |s| < INT_MAX && At(s, offset, ts, i) && i < |ts| && ts[i].Prop?
    ensures i < j <= |ts| && forall k :: i < k < j ==> ts[k].Nop?
    ensures prop >= 0 ==> j < |ts| && ts[j].Prop? && At(s, prop, ts, j)
    ensures prop < 0 ==> (prop == ERR_NOTFOUND || prop == ERR_BADSTRUCTURE)
    ensures prop == ERR_NOTFOUND ==> j < |ts| && !ts[j].Prop? && !ts[j].Nop?
    ensures prop == ERR_BADSTRUCTURE ==> j == |ts|
  {
    var next := CheckPropOffset(s, offset, ts, i);
    prop, j := NextProp(s, next, ts, i + 1);
  }
}
