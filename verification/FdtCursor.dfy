/** Offsets as places between tokens: finding nodes and their ends. */
module FdtCursor {
  import opened Common
  import opened FdtTokens
  import opened FdtParse

  // ---- places ----

  ghost predicate Between(s: seq<byte>, off: nat, ts: seq<Token>, i: nat) {
    && off <= |s| && i <= |ts|
    && Tokens(s[..off]) == Some(ts[..i]) && ToEnd(s[off..]) == Some(ts[i..])
  }

  /** Offset `off` of the structure block is the place before token `i` of the tree `ts`. */
  ghost predicate At(s: seq<byte>, off: nat, ts: seq<Token>, i: nat) {
    && off <= |s| && off % 4 == 0 && i <= |ts|
    && forall k: nat {:trigger Unfold(k)} :: Unfold(k) ==> Between(s, off, ts, i)
  }

  lemma {:induction false} AtIff(s: seq<byte>, off: nat, ts: seq<Token>, i: nat)
    requires off % 4 == 0
    ensures At(s, off, ts, i) <==> Between(s, off, ts, i)
  {
    assert Unfold(0);
  }

  /** What the parser sees at a place, and the next place. */
  lemma {:induction false} AtTag(s: seq<byte>, off: nat, ts: seq<Token>, i: nat)
    requires At(s, off, ts, i)
    ensures off + 4 <= |s|
    ensures var (tag, next) := NextTagAt(s, off);
      && (i == |ts| ==> tag == END && next >= 0)
      && (i < |ts| ==> tag == ts[i].Tag() && off < next <= |s| && At(s, next, ts, i + 1))
    ensures i < |ts| ==> First(s[off..]).Some? && First(s[off..]).value.tok == ts[i]
  {
    AtIff(s, off, ts, i);
    var u := s[off..];
    FirstIs(u);
    FirstTag(u);
    if i < |ts| {
      assert ts[i..][0] == ts[i];
      var item := First(u).value;
      var n := Align4(item.raw);
      AlignSum(off, item.raw);
      assert u[n..] == s[off + n..] && ts[i..][1..] == ts[i + 1..];
      assert s[..off + n] == s[..off] + u[..n];
      assert u[..n][..item.raw] == u[..item.raw];
      FirstPrefix(u, u[..n]);
      TokensOne(u[..n]);
      TokensConcat(s[..off], u[..n]);
      assert ts[..i] + [ts[i]] == ts[..i + 1];
      AtIff(s, off + n, ts, i + 1);
    } else {
      AlignSum(off, 4);
    }
  }

  /** Replacing the bytes between two places replaces the tokens between them. */
  lemma {:induction false} SpliceTokens(s: seq<byte>, a: nat, b: nat, ts: seq<Token>, i: nat, j: nat,
                                        x: seq<byte>, xs: seq<Token>)
    requires At(s, a, ts, i) && At(s, b, ts, j) && Tokens(x) == Some(xs)
    ensures ToEnd(s[..a] + x + s[b..]) == Some(ts[..i] + xs + ts[j..])
  {
    AtIff(s, a, ts, i);
    AtIff(s, b, ts, j);
    TokensConcat(s[..a], x);
    ToEndConcat(s[..a] + x, s[b..]);
  }

  // ---- nesting ----

  /** How much deeper the place before token `k` is than the place before token `from`. */
  function Nest(ts: seq<Token>, from: nat, k: nat): int
    requires from <= k <= |ts|
  {
    if k == from then 0
    else Nest(ts, from, k - 1) + (if ts[k - 1].Begin? then 1 else if ts[k - 1].EndNode? then -1 else 0)
  }

  /** Every place after `i`, up to `j`, is inside the node that starts at `i`. */
  ghost predicate Inside(ts: seq<Token>, i: nat, j: nat) {
    i <= j <= |ts| && forall k :: i < k <= j ==> Nest(ts, i, k) >= 1
  }

  /** Tokens `i` to `j` are one whole node: its begin, what is inside it, its end. */
  ghost predicate IsNode(ts: seq<Token>, i: nat, j: nat) {
    i < j <= |ts| && ts[i].Begin? && Inside(ts, i, j - 1) && Nest(ts, i, j) == 0
  }

  predicate IsBegin(ts: seq<Token>, i: nat) {
    i < |ts| && ts[i].Begin?
  }

  /** A direct child of the node at `i`. */
  ghost predicate Child(ts: seq<Token>, i: nat, k: nat) {
    i < k < |ts| && ts[i].Begin? && ts[k].Begin? && Inside(ts, i, k) && Nest(ts, i, k) == 1
  }

  /** A node ends in one place only. */
  lemma {:induction false} NodeUnique(ts: seq<Token>, i: nat, j: nat, j': nat)
    requires IsNode(ts, i, j) && IsNode(ts, i, j')
    ensures j == j'
  {
    assert Nest(ts, i, j) == Nest(ts, i, j') == 0;
  }

  // ---- scanning ----

  method CheckNodeOffset(s: seq<byte>, offset: nat, ghost ts: seq<Token>, ghost i: nat) returns (next: int)
    requires |s| < INT_MAX && At(s, offset, ts, i)
    ensures next < 0 <==> !IsBegin(ts, i)
    ensures next < 0 ==> next == ERR_BADOFFSET
    ensures next >= 0 ==> At(s, next, ts, i + 1)
  {
    if offset % 4 != 0 { return ERR_BADOFFSET; }
    AtTag(s, offset, ts, i);
    var tag;
    tag, next := NextTag(s, offset);
    if tag != BEGIN_NODE { return ERR_BADOFFSET; }
  }

  method CheckPropOffset(s: seq<byte>, offset: nat, ghost ts: seq<Token>, ghost i: nat) returns (next: int)
    requires |s| < INT_MAX && At(s, offset, ts, i)
    ensures next < 0 <==> !(i < |ts| && ts[i].Prop?)
    ensures next < 0 ==> next == ERR_BADOFFSET
    ensures next >= 0 ==> At(s, next, ts, i + 1)
  {
    if offset % 4 != 0 { return ERR_BADOFFSET; }
    AtTag(s, offset, ts, i);
    var tag;
    tag, next := NextTag(s, offset);
    if tag != PROP { return ERR_BADOFFSET; }
  }

  /** No node begins between two places. */
  ghost predicate Quiet(ts: seq<Token>, i: nat, j: nat) {
    i <= j <= |ts| && forall k :: i <= k < j ==> !ts[k].Begin?
  }

  /** `fdt_next_node` from the node at `i`, inside the node at `base`: the next node begin; or,
      when the node at `base` ends first, the place after its end and depth -1. */
  method NextNode(s: seq<byte>, offset: nat, depth: nat, ghost ts: seq<Token>, ghost base: nat, ghost i: nat)
    returns (offset': int, depth': int, ghost j: nat)
    requires |s| < INT_MAX && At(s, offset, ts, i) && base <= i && Inside(ts, base, i) && depth == Nest(ts, base, i)
    ensures offset' == ERR_BADOFFSET <==> !IsBegin(ts, i)
    ensures offset' >= 0 ==> i < j && At(s, offset', ts, j) && Quiet(ts, i + 1, j)
    ensures offset' >= 0 && depth' >= 0 ==> IsBegin(ts, j) && Inside(ts, base, j) && depth' == Nest(ts, base, j)
    ensures offset' >= 0 && depth' < 0 ==> Inside(ts, base, j - 1) && Nest(ts, base, j) == 0
    ensures offset' < 0 && offset' != ERR_BADOFFSET ==>
      offset' == ERR_NOTFOUND && depth' >= 0 && Inside(ts, base, |ts|) && Quiet(ts, i + 1, |ts|)
    ensures offset' == ERR_BADOFFSET ==> depth' == depth
  {
    depth' := depth;
    j := i;
    var nextoffset := CheckNodeOffset(s, offset, ts, i);
    if nextoffset < 0 { return nextoffset, depth', j; }
    j := i + 1;
    while true
      invariant nextoffset >= 0 && At(s, nextoffset, ts, j) && depth' >= 0 && Scanning(ts, base, i, j, depth')
      decreases |ts| - j
    {
      offset' := nextoffset;
      AtTag(s, offset', ts, j);
      var tag;
      tag, nextoffset := NextTag(s, offset');
      if tag == BEGIN_NODE {
        depth' := depth' + 1;
        return;
      } else if tag == END {
        return ERR_NOTFOUND, depth', j;
      }
      ScanNext(ts, base, i, j, depth');
      j := j + 1;
      if tag == END_NODE {
        depth' := depth' - 1;
        if depth' < 0 { return nextoffset, depth', j; }
      }
    }
  }

  /** Between the node at `i` and the place before token `j`, all inside the node at `base`, no node begins. */
  ghost predicate Scanning(ts: seq<Token>, base: nat, i: nat, j: nat, depth: int) {
    base <= i < j <= |ts| && Quiet(ts, i + 1, j) && Inside(ts, base, j) && depth == Nest(ts, base, j) - 1
  }

  lemma {:induction false} ScanNext(ts: seq<Token>, base: nat, i: nat, j: nat, depth: nat)
    requires Scanning(ts, base, i, j, depth) && j < |ts| && !ts[j].Begin?
    ensures Quiet(ts, i + 1, j + 1)
    ensures Nest(ts, base, j + 1) == if ts[j].EndNode? then depth else depth + 1
    ensures !ts[j].EndNode? ==> Scanning(ts, base, i, j + 1, depth)
    ensures ts[j].EndNode? && depth > 0 ==> Scanning(ts, base, i, j + 1, depth - 1)
  {
  }

  /** `fdt_node_end_offset_`: the place after the end of the node at `i`. */
  method NodeEndOffset(s: seq<byte>, offset: nat, ghost ts: seq<Token>, ghost i: nat) returns (end: int, ghost j: nat)
    requires |s| < INT_MAX && At(s, offset, ts, i)
    ensures end >= 0 ==> IsNode(ts, i, j) && At(s, end, ts, j)
    ensures end == ERR_BADOFFSET <==> !IsBegin(ts, i)
    ensures end < 0 ==> (end == ERR_BADOFFSET || end == ERR_NOTFOUND) && forall k :: !IsNode(ts, i, k)
  {
    var depth := 0;
    end, j := offset, i;
    while end >= 0 && depth >= 0
      invariant i <= j <= |ts|
      invariant end >= 0 ==> At(s, end, ts, j)
      invariant end >= 0 && depth >= 0 ==> Inside(ts, i, j) && depth == Nest(ts, i, j) && (j == i || IsBegin(ts, j))
      invariant end >= 0 && j > i ==> IsBegin(ts, i)
      invariant end >= 0 && depth < 0 ==> i < j && Inside(ts, i, j - 1) && Nest(ts, i, j) == 0
      invariant end < 0 ==> end == (if IsBegin(ts, i) then ERR_NOTFOUND else ERR_BADOFFSET)
      invariant end == ERR_NOTFOUND ==> Inside(ts, i, |ts|)
      decreases |ts| - j, if end >= 0 && depth >= 0 then 1 else 0
    {
      ghost var k;
      end, depth, k := NextNode(s, end, depth, ts, i, j);
      if end >= 0 { j := k; }
    }
  }

  // ---- names ----

  const AT_SIGN: byte := 64

  /** A node answers to its name, and to its name without the unit address. */
  predicate Answers(node: seq<byte>, name: seq<byte>) {
    && |name| <= |node| && node[..|name|] == name
    && (|name| == |node| || (AT_SIGN !in name && node[|name|] == AT_SIGN))
  }

  /** `fdt_nodename_eq_`: what is no node has no name. */
  method NodenameEq(s: seq<byte>, offset: nat, name: seq<byte>, ghost ts: seq<Token>, ghost i: nat) returns (eq: bool)
    requires |s| < INT_MAX && At(s, offset, ts, i)
    ensures eq <==> IsBegin(ts, i) && Answers(ts[i].name, name)
  {
    var node := CheckNodeOffset(s, offset, ts, i);
    if node < 0 { return false; }
    AtTag(s, offset, ts, i);
    var u := s[offset..];
    FirstIs(u);
    var e := 4;
    while u[e] != 0
      invariant 4 <= e <= NulFrom(u, 4) < |u|
      decreases |u| - e
    {
      e := e + 1;
    }
    var p, len := u[4..e], |name|;
    assert p == ts[i].name;
    if |p| < len { return false; }
    if p[..len] != name { return false; }
    if u[4 + len] == 0 { return true; }
    return AT_SIGN !in name && u[4 + len] == AT_SIGN;
  }

  /** `fdt_subnode_offset_namelen`: the first direct child that answers to a name. */
  method SubnodeOffset(s: seq<byte>, offset: nat, name: seq<byte>, ghost ts: seq<Token>, ghost i: nat)
    returns (child: int, ghost j: nat)
    requires |s| < INT_MAX && At(s, offset, ts, i)
    ensures child >= 0 ==> At(s, child, ts, j) && Child(ts, i, j) && Answers(ts[j].name, name)
    ensures child >= 0 ==> forall k: nat :: Child(ts, i, k) && k < j ==> !Answers(ts[k].name, name)
    ensures child == ERR_BADOFFSET <==> !IsBegin(ts, i)
    ensures child < 0 ==>
      && (child == ERR_BADOFFSET || child == ERR_NOTFOUND)
      && forall k: nat :: Child(ts, i, k) ==> !Answers(ts[k].name, name)
  {
    var depth := 0;
    child, j := offset, i;
    while child >= 0 && depth >= 0
      invariant i <= j <= |ts|
      invariant child >= 0 && depth >= 0 ==>
        At(s, child, ts, j) && Inside(ts, i, j) && depth == Nest(ts, i, j) && (j == i || IsBegin(ts, j))
      invariant child >= 0 && j > i ==> IsBegin(ts, i)
      invariant child < 0 ==> depth >= 0 && child == (if IsBegin(ts, i) then ERR_NOTFOUND else ERR_BADOFFSET)
      invariant child >= 0 && depth < 0 ==> i < j && Nest(ts, i, j) == 0
      invariant child >= 0 ==> forall k: nat :: Child(ts, i, k) && k < j ==> !Answers(ts[k].name, name)
      invariant child < 0 ==> forall k: nat :: Child(ts, i, k) ==> !Answers(ts[k].name, name)
      decreases |ts| - j, if child >= 0 && depth >= 0 then 1 else 0
    {
      if depth == 1 {
        var eq := NodenameEq(s, child, name, ts, j);
        if eq { return; }
      }
      ghost var k;
      child, depth, k := NextNode(s, child, depth, ts, i, j);
      if child >= 0 { j := k; }
    }
    if depth < 0 { return ERR_NOTFOUND, j; }
  }
}
