/** The byte images of single tokens, and writing them into a buffer. */
module FdtChunks {
  import opened Common
  import opened FdtTokens

  // ---- buffers ----

  function Overwrite(buf: seq<byte>, off: nat, bytes: seq<byte>): (r: seq<byte>)
    requires off + |bytes| <= |buf|
    ensures |r| == |buf|
  {
    buf[..off] + bytes + buf[off + |bytes|..]
  }

  /** `memcpy(buf + off, bytes, |bytes|)`. (Kept folded by `seal`.) */
  function Put(buf: seq<byte>, off: nat, bytes: seq<byte>, seal: nat := 3): (r: seq<byte>)
    requires off + |bytes| <= |buf|
    ensures |r| == |buf|
  {
    if seal > 0 then Put(buf, off, bytes, seal - 1) else Overwrite(buf, off, bytes)
  }

  lemma {:induction false} PutIs(buf: seq<byte>, off: nat, bytes: seq<byte>)
    requires off + |bytes| <= |buf|
    ensures Put(buf, off, bytes) == Overwrite(buf, off, bytes)
  {
    assert Put(buf, off, bytes, 2) == Put(buf, off, bytes, 1);
    assert Put(buf, off, bytes, 1) == Put(buf, off, bytes, 0);
  }

  lemma {:induction false} PutOutside(buf: seq<byte>, off: nat, bytes: seq<byte>, i: nat, j: nat)
    requires off + |bytes| <= |buf| && i <= j <= |buf| && (j <= off || off + |bytes| <= i)
    ensures Put(buf, off, bytes)[i..j] == buf[i..j]
  {
    PutIs(buf, off, bytes);
  }

  lemma {:induction false} PutInside(buf: seq<byte>, off: nat, bytes: seq<byte>, i: nat, j: nat)
    requires i <= off && off + |bytes| <= j <= |buf|
    ensures Put(buf, off, bytes)[i..j] == buf[i..off] + bytes + buf[off + |bytes|..j]
  {
    PutIs(buf, off, bytes);
    var r, end := Put(buf, off, bytes), off + |bytes|;
    assert r[i..off] == buf[i..off] && r[off..end] == bytes && r[end..j] == buf[end..j];
    assert r[i..j] == r[i..off] + r[off..end] + r[end..j];
  }

  lemma {:induction false} PutPrefix(buf: seq<byte>, off: nat, bytes: seq<byte>, i: nat)
    requires i <= off && off + |bytes| <= |buf|
    ensures Put(buf, off, bytes)[..i] == buf[..i]
  {
    PutIs(buf, off, bytes);
  }

  lemma {:induction false} PutSuffix(buf: seq<byte>, off: nat, bytes: seq<byte>, i: nat)
    requires off + |bytes| <= i <= |buf|
    ensures Put(buf, off, bytes)[i..] == buf[i..]
  {
    PutIs(buf, off, bytes);
  }

  // ---- tokens ----

  lemma {:induction false} Load32Exact(n: nat)
    requires n < U32
    ensures Load32(Be32(n)) == n
  {
    LoadBe32(n, []);
    assert Be32(n) + [] == Be32(n);
  }

  /** Three words in front. */
  lemma {:induction false} ThreeWords(a: seq<byte>, b: seq<byte>, c: seq<byte>, rest: seq<byte>)
    requires |a| == |b| == |c| == 4
    ensures var s := a + b + c + rest;
      Load32(s) == Load32(a) && Load32(s[4..]) == Load32(b) && Load32(s[8..]) == Load32(c) && s[12..] == rest
  {
    var s := a + b + c + rest;
    assert s[..4] == a && s[4..8] == b && s[8..12] == c;
    assert s[4..][..4] == b && s[8..][..4] == c;
    LoadFront(s);
    LoadFront(s[4..]);
    LoadFront(s[8..]);
  }

  lemma {:induction false} LoadFront(s: seq<byte>)
    requires |s| >= 4
    ensures Load32(s) == Load32(s[..4])
  {
    assert s[..4][..4] == s[..4];
    LoadPrefix(s, s[..4]);
  }

  /** Node header: the tag, the name and its NUL, any padding. */
  lemma {:induction false} BeginChunk(name: seq<byte>, pad: seq<byte>)
    requires 0 !in name && 4 + |name| + 1 + |pad| == Align4(4 + |name| + 1)
    ensures Tokens(Be32(BEGIN_NODE) + name + [0] + pad) == Some([Begin(name)])
  {
    var s := Be32(BEGIN_NODE) + name + [0] + pad;
    var n := |name|;
    assert s == Be32(BEGIN_NODE) + (name + [0] + pad);
    LoadBe32(BEGIN_NODE, name + [0] + pad);
    assert forall k :: 0 <= k < n ==> s[4 + k] == name[k];
    assert s[4 + n] == 0;
    assert NulFrom(s, 4) == 4 + n;
    assert s[4..4 + n] == name;
    FirstIs(s);
    assert First(s) == Some(Item(Begin(name), 4 + n + 1));
    TokensOne(s);
  }

  lemma {:induction false} EndChunk()
    ensures Tokens(Be32(END_NODE)) == Some([EndNode])
  {
    LoadBe32(END_NODE, []);
    assert Be32(END_NODE) + [] == Be32(END_NODE);
    FirstIs(Be32(END_NODE));
    TokensOne(Be32(END_NODE));
  }

  /** Property header, value, any padding. */
  function PropHeader(len: nat, nameoff: nat): seq<byte>
    requires len < U32 && nameoff < U32
  {
    Be32(PROP) + Be32(len) + Be32(nameoff)
  }

  lemma {:induction false} PropChunk(nameoff: nat, val: seq<byte>, pad: seq<byte>)
    requires nameoff < U32 && |val| < U32 && 12 + |val| + |pad| == Align4(12 + |val|)
    ensures Tokens(PropHeader(|val|, nameoff) + val + pad) == Some([Prop(nameoff, val)])
  {
    var s := PropHeader(|val|, nameoff) + val + pad;
    assert s == PropHeader(|val|, nameoff) + (val + pad);
    ThreeWords(Be32(PROP), Be32(|val|), Be32(nameoff), val + pad);
    Load32Exact(PROP);
    Load32Exact(|val|);
    Load32Exact(nameoff);
    assert s[12..12 + |val|] == s[12..][..|val|] == (val + pad)[..|val|] == val;
    FirstIsProp(s, |val|);
    assert First(s) == Some(Item(Prop(nameoff, val), 12 + |val|));
    TokensOne(s);
  }

  /** Replacing the name offset of a property changes nothing else. */
  lemma {:induction false} PatchChunk(s: seq<byte>, nameoff: nat)
    requires First(s).Some? && First(s).value.tok.Prop? && nameoff < U32 && |s| >= 12
    ensures var t := Put(s, 8, Be32(nameoff));
      First(t) == Some(Item(Prop(nameoff, First(s).value.tok.val), First(s).value.raw))
  {
    var t := Put(s, 8, Be32(nameoff));
    PutIs(s, 8, Be32(nameoff));
    FirstProp(s);
    var len := |First(s).value.tok.val|;
    var a, b, c, rest := s[..4], s[4..8], s[8..12], s[12..];
    assert s == a + b + c + rest;
    ThreeWords(a, b, c, rest);
    assert t == a + b + Be32(nameoff) + rest;
    ThreeWords(a, b, Be32(nameoff), rest);
    Load32Exact(nameoff);
    FirstIsProp(t, len);
    assert t[12..12 + len] == rest[..len] == s[12..12 + len] == First(s).value.tok.val;
    assert Load32(t[8..]) == nameoff;
  }

  /** `bytes`, padded in any way to `len` bytes, is the token `t`. */
  ghost predicate Image(bytes: seq<byte>, len: nat, t: Token) {
    && |bytes| <= len && RawOf(t) == |bytes|
    && forall pad: seq<byte> {:trigger bytes + pad} :: |bytes| + |pad| == len ==> Tokens(bytes + pad) == Some([t])
  }

  lemma {:induction false} BeginImage(name: seq<byte>)
    requires 0 !in name
    ensures Image(Be32(BEGIN_NODE) + name + [0], 4 + Align4(|name| + 1), Begin(name))
  {
    var bytes, len := Be32(BEGIN_NODE) + name + [0], 4 + Align4(|name| + 1);
    assert Align4(4 + |name| + 1) == len;
    forall pad: seq<byte> | |bytes| + |pad| == len ensures Tokens(bytes + pad) == Some([Begin(name)]) {
      BeginChunk(name, pad);
    }
  }

  lemma {:induction false} EndImage()
    ensures Image(Be32(END_NODE), 4, EndNode)
  {
    EndChunk();
    forall pad: seq<byte> | 4 + |pad| == 4 ensures Tokens(Be32(END_NODE) + pad) == Some([EndNode]) {
      assert Be32(END_NODE) + pad == Be32(END_NODE);
    }
  }

  lemma {:induction false} PropImage(nameoff: nat, val: seq<byte>)
    requires nameoff < U32 && |val| < U32
    ensures Image(PropHeader(|val|, nameoff) + val, 12 + Align4(|val|), Prop(nameoff, val))
  {
    var bytes, len := PropHeader(|val|, nameoff) + val, 12 + Align4(|val|);
    assert Align4(12 + |val|) == len;
    forall pad: seq<byte> | |bytes| + |pad| == len ensures Tokens(bytes + pad) == Some([Prop(nameoff, val)]) {
      PropChunk(nameoff, val, pad);
    }
  }
}
