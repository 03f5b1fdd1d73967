/** The structure block of a flattened devicetree (section 5.4 of the Devicetree
    Specification v0.4): big-endian tags, node names, properties, padded to four bytes. */
module FdtTokens {
  import opened Common

  const BEGIN_NODE: nat := 1
  const END_NODE: nat := 2
  const PROP: nat := 3
  const NOP: nat := 4
  const END: nat := 9

  const ERR_NOTFOUND: int := -1
  const ERR_EXISTS: int := -2
  const ERR_NOSPACE: int := -3
  const ERR_BADOFFSET: int := -4
  const ERR_BADSTATE: int := -7
  const ERR_TRUNCATED: int := -8
  const ERR_BADMAGIC: int := -9
  const ERR_BADVERSION: int := -10
  const ERR_BADSTRUCTURE: int := -11
  const ERR_BADFLAGS: int := -18

  const U32: nat := 0x1_0000_0000

  // ---- words ----

  function BigEndian(n: nat): (b: seq<byte>)
    requires n < U32
    ensures |b| == 4
  {
    [n / 0x100_0000, n / 0x1_0000 % 256, n / 0x100 % 256, n % 256]
  }

  /** The four bytes of a word. (Like `First` below, kept folded by `seal`.) */
  function Be32(n: nat, seal: nat := 3): (b: seq<byte>)
    requires n < U32
    ensures |b| == 4
    decreases n, seal
  {
    if seal > 0 then Be32(n, seal - 1) else BigEndian(n)
  }

  lemma {:induction false} Be32Is(n: nat)
    requires n < U32
    ensures Be32(n) == BigEndian(n)
  {
    assert Be32(n, 2) == Be32(n, 1);
    assert Be32(n, 1) == Be32(n, 0);
  }

  function FromBigEndian(s: seq<byte>): (n: nat)
    requires |s| >= 4
    ensures n < U32
  {
    (s[0] as int) * 0x100_0000 + (s[1] as int) * 0x1_0000 + (s[2] as int) * 0x100 + (s[3] as int)
  }

  function Load32(s: seq<byte>, seal: nat := 3): (n: nat)
    requires |s| >= 4
    ensures n < U32
  {
    if seal > 0 then Load32(s, seal - 1) else FromBigEndian(s)
  }

  lemma {:induction false} Load32Is(s: seq<byte>)
    requires |s| >= 4
    ensures Load32(s) == FromBigEndian(s)
  {
    assert Load32(s, 2) == Load32(s, 1);
    assert Load32(s, 1) == Load32(s, 0);
  }

  /** A word is read from its own four bytes. */
  lemma {:induction false} LoadPrefix(s: seq<byte>, u: seq<byte>)
    requires |s| >= 4 && |u| >= 4 && s[..4] == u[..4]
    ensures Load32(s) == Load32(u)
  {
    Load32Is(s);
    Load32Is(u);
    assert forall i :: 0 <= i < 4 ==> s[i] == s[..4][i] == u[..4][i] == u[i];
  }

  lemma {:induction false} LoadBe32(n: nat, rest: seq<byte>)
    requires n < U32
    ensures Load32(Be32(n) + rest) == n
  {
    var a := n / 0x100;
    var b := a / 0x100;
    assert n == 0x100 * a + n % 256 && a == 0x100 * b + a % 256;
    assert n / 0x1_0000 == b && n / 0x100_0000 == b / 256;
    Be32Is(n);
    Load32Is(Be32(n) + rest);
    assert Be32(n) == [b / 256, b % 256, a % 256, n % 256];
  }

  function Align4(n: nat): (r: nat)
    ensures n <= r < n + 4 && r % 4 == 0
  {
    (n + 3) / 4 * 4
  }

  lemma {:induction false} AlignSum(off: nat, raw: nat)
    requires off % 4 == 0
    ensures Align4(off + raw) == off + Align4(raw)
  {
    var q := off / 4;
    assert off + raw + 3 == 4 * q + (raw + 3);
    assert (4 * q + (raw + 3)) / 4 == q + (raw + 3) / 4;
  }

  // ---- tokens ----

  datatype Token = Begin(name: seq<byte>) | EndNode | Prop(nameoff: nat, val: seq<byte>) | Nop
  {
    function Tag(): nat {
      match this
      case Begin(_) => BEGIN_NODE
      case EndNode => END_NODE
      case Prop(_, _) => PROP
      case Nop => NOP
    }
  }

  /** A token and the bytes it takes, without the padding. */
  datatype Item = Item(tok: Token, raw: nat)

  /** First NUL of `s` from `i` on, or the end of `s`. */
  function NulFrom(s: seq<byte>, i: nat): (e: nat)
    requires i <= |s|
    ensures i <= e <= |s|
    ensures e < |s| ==> s[e] == 0
    ensures forall k :: i <= k < e ==> s[k] != 0
    decreases |s| - i
  {
    if i == |s| || s[i] == 0 then i else NulFrom(s, i + 1)
  }

  /** The token at the front of `s`, if there is a whole one. */
  function Front(s: seq<byte>): (r: Option<Item>)
    ensures r.Some? ==> 4 <= r.value.raw <= |s|
  {
    if |s| < 4 then None
    else
      var tag := Load32(s);
      if tag == BEGIN_NODE then
        var e := NulFrom(s, 4);
        if e == |s| then None else Some(Item(Begin(s[4..e]), e + 1))
      else if tag == PROP then
        if |s| < 12 then None
        else
          var len := Load32(s[4..]);
          if 12 + len > |s| then None else Some(Item(Prop(Load32(s[8..]), s[12..12 + len]), 12 + len))
      else if tag == END_NODE then Some(Item(EndNode, 4))
      else if tag == NOP then Some(Item(Nop, 4))
      else None
  }

  /** `Front`, kept folded by the count `seal` in proofs that do not look inside a token. */
  function First(s: seq<byte>, seal: nat := 3): (r: Option<Item>)
    ensures r.Some? ==> 4 <= r.value.raw <= |s|
  {
    if seal > 0 then First(s, seal - 1) else Front(s)
  }

  lemma {:induction false} FirstIs(s: seq<byte>)
    ensures First(s) == Front(s)
  {
    assert First(s, 2) == First(s, 1);
    assert First(s, 1) == First(s, 0);
  }

  /** The bytes of a token, without the padding. */
  function RawOf(t: Token): nat {
    match t
    case Begin(name) => 5 + |name|
    case Prop(_, val) => 12 + |val|
    case _ => 4
  }

  lemma {:induction false} FirstRaw(s: seq<byte>)
    requires First(s).Some?
    ensures First(s).value.raw == RawOf(First(s).value.tok)
  {
    FirstIs(s);
  }

  /** The first word decides what the token can be. */
  lemma {:induction false} FirstTag(s: seq<byte>)
    requires |s| >= 4
    ensures First(s).Some? ==> First(s).value.tok.Tag() == Load32(s) != END
  {
    FirstIs(s);
  }

  lemma {:induction false} FirstProp(s: seq<byte>)
    requires First(s).Some? && First(s).value.tok.Prop?
    ensures var t := First(s).value;
      && t.raw == 12 + |t.tok.val| <= |s| && t.tok.nameoff == Load32(s[8..]) && t.tok.val == s[12..t.raw]
      && Load32(s) == PROP && Load32(s[4..]) == |t.tok.val|
  {
    FirstIs(s);
  }

  lemma {:induction false} FirstIsProp(s: seq<byte>, len: nat)
    requires 12 + len <= |s| && Load32(s) == PROP && Load32(s[4..]) == len
    ensures First(s) == Some(Item(Prop(Load32(s[8..]), s[12..12 + len]), 12 + len))
  {
    FirstIs(s);
  }

  /** A token is read from its own bytes alone. */
  lemma {:induction false} FirstPrefix(s: seq<byte>, u: seq<byte>)
    requires First(s).Some? && First(s).value.raw <= |u| && u[..First(s).value.raw] == s[..First(s).value.raw]
    ensures First(u) == First(s)
  {
    FirstIs(s);
    FirstIs(u);
    var raw := First(s).value.raw;
    assert forall i :: 0 <= i < raw ==> u[i] == u[..raw][i] == s[..raw][i] == s[i];
    assert u[..4] == s[..4];
    LoadPrefix(u, s);
    match First(s).value.tok
    case Begin(name) =>
      var e := NulFrom(s, 4);
      assert NulFrom(u, 4) == e;
      assert u[4..e] == s[4..e];
    case Prop(nameoff, val) =>
      assert u[12..raw] == s[12..raw] && u[4..][..4] == s[4..][..4] && u[8..][..4] == s[8..][..4];
      LoadPrefix(u[4..], s[4..]);
      LoadPrefix(u[8..], s[8..]);
    case _ =>
  }

  /** The tokens that tile `s` exactly, padding included. */
  function Tokens(s: seq<byte>): Option<seq<Token>>
    decreases |s|
  {
    if s == [] then Some([])
    else
      match First(s)
      case None => None
      case Some(item) =>
        if Align4(item.raw) > |s| then None
        else
          match Tokens(s[Align4(item.raw)..])
          case None => None
          case Some(ts) => Some([item.tok] + ts)
  }

  /** The tokens of `s` up to the end tag. */
  function ToEnd(s: seq<byte>): Option<seq<Token>>
    decreases |s|
  {
    if |s| >= 4 && Load32(s) == END then Some([])
    else
      match First(s)
      case None => None
      case Some(item) =>
        if Align4(item.raw) > |s| then None
        else
          match ToEnd(s[Align4(item.raw)..])
          case None => None
          case Some(ts) => Some([item.tok] + ts)
  }

  function Prepend(x: seq<Token>, r: Option<seq<Token>>): Option<seq<Token>> {
    if r.None? then None else Some(x + r.value)
  }

  lemma {:induction false} PrependCons(t: Token, x: seq<Token>, r: Option<seq<Token>>)
    ensures Prepend([t] + x, r) == Prepend([t], Prepend(x, r))
  {
    if r.Some? { assert [t] + x + r.value == [t] + (x + r.value); }
  }

  /** A first token stays the first token when more bytes follow. */
  lemma {:induction false} FirstConcat(a: seq<byte>, b: seq<byte>)
    requires First(a).Some?
    ensures First(a + b) == First(a) && Load32(a + b) == Load32(a) != END
  {
    var raw := First(a).value.raw;
    assert (a + b)[..raw] == a[..raw];
    FirstPrefix(a, a + b);
    FirstTag(a);
    FirstTag(a + b);
  }

  /** Parsing is local: tokens of a concatenation. */
  lemma {:induction false} TokensConcat(a: seq<byte>, b: seq<byte>)
    requires Tokens(a).Some?
    ensures Tokens(a + b) == Prepend(Tokens(a).value, Tokens(b))
    decreases |a|
  {
    if a == [] {
      assert a + b == b;
      if Tokens(b).Some? { assert [] + Tokens(b).value == Tokens(b).value; }
    } else {
      var n := Align4(First(a).value.raw);
      FirstConcat(a, b);
      TokensConcat(a[n..], b);
      assert (a + b)[n..] == a[n..] + b;
      PrependCons(First(a).value.tok, Tokens(a[n..]).value, Tokens(b));
    }
  }

  lemma {:induction false} ToEndConcat(a: seq<byte>, b: seq<byte>)
    requires Tokens(a).Some?
    ensures ToEnd(a + b) == Prepend(Tokens(a).value, ToEnd(b))
    decreases |a|
  {
    if a == [] {
      assert a + b == b;
      if ToEnd(b).Some? { assert [] + ToEnd(b).value == ToEnd(b).value; }
    } else {
      var n := Align4(First(a).value.raw);
      FirstConcat(a, b);
      ToEndConcat(a[n..], b);
      assert (a + b)[n..] == a[n..] + b;
      PrependCons(First(a).value.tok, Tokens(a[n..]).value, ToEnd(b));
    }
  }

  /** A single token. */
  lemma {:induction false} TokensOne(s: seq<byte>)
    requires First(s).Some? && Align4(First(s).value.raw) == |s|
    ensures Tokens(s) == Some([First(s).value.tok])
  {
    var n := |s|;
    assert s[n..] == [];
    assert Tokens(s[n..]) == Some([]);
    assert [First(s).value.tok] + [] == [First(s).value.tok];
  }
}
