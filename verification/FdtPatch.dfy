/** Correcting the name offsets of a finished structure block, tag by tag. */
module FdtPatch {
  import opened Common
  import opened FdtTokens
  import opened FdtParse
  import opened FdtChunks

  function Shift(t: Token, n: nat): Token {
    if t.Prop? then Prop((t.nameoff + n) % U32, t.val) else t
  }

  function ShiftAll(ts: seq<Token>, n: nat): (r: seq<Token>)
    ensures |r| == |ts| && forall i :: 0 <= i < |ts| ==> r[i] == Shift(ts[i], n)
  {
    seq(|ts|, i requires 0 <= i < |ts| => Shift(ts[i], n))
  }

  lemma {:induction false} TiledLength(s: seq<byte>)
    requires Tokens(s).Some?
    ensures |s| % 4 == 0
    decreases |s|
  {
    if s != [] {
      var n := Align4(First(s).value.raw);
      TiledLength(s[n..]);
    }
  }

  /** Before token `k` the offsets are corrected, from there on the block is as it was. */
  ghost predicate PatchedTo(s: seq<byte>, toks: seq<Token>, n: nat, offset: nat, k: nat) {
    && k <= |toks| && offset + 4 <= |s|
    && Tokens(s[..offset]) == Some(ShiftAll(toks[..k], n))
    && Tokens(s[offset..|s| - 4]) == Some(toks[k..])
    && Load32(s[|s| - 4..]) == END
  }

  ghost predicate Patched(s: seq<byte>, toks: seq<Token>, n: nat, offset: nat, k: nat) {
    k <= |toks| && offset + 4 <= |s| && forall i: nat {:trigger Unfold(i)} :: Unfold(i) ==>
      PatchedTo(s, toks, n, offset, k)
  }

  lemma {:induction false} PatchedIff(s: seq<byte>, toks: seq<Token>, n: nat, offset: nat, k: nat)
    ensures Patched(s, toks, n, offset, k) <==> PatchedTo(s, toks, n, offset, k)
  {
    assert Unfold(0);
  }

  lemma {:induction false} PatchStart(body: seq<byte>, toks: seq<Token>, n: nat)
    requires Tokens(body) == Some(toks)
    ensures Patched(body + Be32(END), toks, n, 0, 0)
  {
    var s := body + Be32(END);
    assert s[..0] == [] && s[0..|s| - 4] == body && s[|s| - 4..] == Be32(END);
    Load32Exact(END);
    assert ShiftAll(toks[..0], n) == [];
    assert toks[0..] == toks;
    PatchedIff(s, toks, n, 0, 0);
  }

  /** What the parser sees at the boundary. */
  lemma {:induction false} PatchTag(s: seq<byte>, toks: seq<Token>, n: nat, offset: nat, k: nat)
    requires Patched(s, toks, n, offset, k)
    ensures offset % 4 == 0 && k <= |toks|
    ensures k < |toks| ==>
      && First(s[offset..]).Some? && First(s[offset..]).value.tok == toks[k]
      && offset + Align4(First(s[offset..]).value.raw) + 4 <= |s|
      && NextTagAt(s, offset) == (toks[k].Tag(), offset + Align4(First(s[offset..]).value.raw))
    ensures k == |toks| ==> offset == |s| - 4 && NextTagAt(s, offset) == (END, |s|)
  {
    PatchedIff(s, toks, n, offset, k);
    TiledLength(s[..offset]);
    var rest := s[offset..|s| - 4];
    TiledLength(rest);
    assert s[offset..] == rest + s[|s| - 4..];
    if k < |toks| {
      assert rest != [] && First(rest).Some? && toks[k..][0] == toks[k];
      FirstConcat(rest, s[|s| - 4..]);
      AlignSum(offset, First(rest).value.raw);
    } else {
      assert rest == [];
      assert s[offset..] == s[|s| - 4..];
      FirstTag(s[offset..]);
      AlignSum(offset, 4);
    }
  }

  /** The block after one round of the loop. */
  function PatchedAt(s: seq<byte>, n: nat, offset: nat, tag: nat): seq<byte>
  {
    if tag == PROP && offset + 12 <= |s| then Put(s, offset + 8, Be32((Load32(s[offset + 8..]) + n) % U32)) else s
  }

  /** One token, its name offset corrected. */
  lemma {:induction false} PatchToken(chunk: seq<byte>, n: nat)
    requires First(chunk).Some? && Align4(First(chunk).value.raw) == |chunk|
    ensures var t := First(chunk).value.tok;
      && (t.Prop? ==> |chunk| >= 12)
      && Tokens(if t.Prop? then PatchedAt(chunk, n, 0, PROP) else chunk) == Some([Shift(t, n)])
  {
    var t := First(chunk).value.tok;
    if t.Prop? {
      FirstProp(chunk);
      var v := (t.nameoff + n) % U32;
      PatchChunk(chunk, v);
      assert PatchedAt(chunk, n, 0, PROP) == Put(chunk, 8, Be32(v));
      TokensOne(Put(chunk, 8, Be32(v)));
      assert Shift(t, n) == Prop(v, t.val);
    } else {
      TokensOne(chunk);
    }
  }

  lemma {:induction false} PatchSlices(s: seq<byte>, n: nat, offset: nat, next: nat)
    requires offset + 12 <= next <= |s| - 4
    ensures var s' := PatchedAt(s, n, offset, PROP);
      && s'[..next] == s[..offset] + PatchedAt(s[offset..next], n, 0, PROP)
      && s'[next..|s'| - 4] == s[next..|s| - 4] && s'[|s'| - 4..] == s[|s| - 4..]
  {
    var c := s[offset..next];
    assert s[offset + 8..][..4] == c[8..][..4];
    LoadFront(s[offset + 8..]);
    LoadFront(c[8..]);
    var word := Be32((Load32(c[8..]) + n) % U32);
    PutIs(s, offset + 8, word);
    PutIs(c, 8, word);
  }

  /** The tokens up to the next boundary, this one corrected. */
  lemma {:induction false} PatchFront(s: seq<byte>, toks: seq<Token>, n: nat, offset: nat, next: nat, k: nat,
                                      s': seq<byte>)
    requires offset + 4 <= |s| && next + 4 <= |s| && k < |toks|
    requires Tokens(s[..offset]) == Some(ShiftAll(toks[..k], n))
    requires First(s[offset..]).Some? && First(s[offset..]).value.tok == toks[k]
    requires next == offset + Align4(First(s[offset..]).value.raw)
    requires toks[k].Prop? ==> offset + 12 <= next
    requires s' == if toks[k].Prop? then PatchedAt(s, n, offset, PROP) else s
    ensures |s'| == |s| && Tokens(s'[..next]) == Some(ShiftAll(toks[..k + 1], n))
  {
    var raw, chunk := First(s[offset..]).value.raw, s[offset..next];
    assert chunk[..raw] == s[offset..][..raw];
    FirstPrefix(s[offset..], chunk);
    PatchToken(chunk, n);
    var chunk' := if toks[k].Prop? then PatchedAt(chunk, n, 0, PROP) else chunk;
    if toks[k].Prop? { PatchSlices(s, n, offset, next); }
    assert s'[..next] == s[..offset] + chunk';
    TokensConcat(s[..offset], chunk');
    assert ShiftAll(toks[..k], n) + [Shift(toks[k], n)] == ShiftAll(toks[..k + 1], n);
  }

  lemma {:induction false} PatchStep(s: seq<byte>, toks: seq<Token>, n: nat, offset: nat, k: nat)
    requires Patched(s, toks, n, offset, k) && k < |toks| && First(s[offset..]).Some?
    ensures toks[k].Prop? ==> offset + 12 <= |s|
    ensures var s' := if toks[k].Prop? then PatchedAt(s, n, offset, PROP) else s;
      Patched(s', toks, n, offset + Align4(First(s[offset..]).value.raw), k + 1)
  {
    PatchedIff(s, toks, n, offset, k);
    PatchTag(s, toks, n, offset, k);
    var next := offset + Align4(First(s[offset..]).value.raw);
    if toks[k].Prop? { FirstProp(s[offset..]); }
    var s' := if toks[k].Prop? then PatchedAt(s, n, offset, PROP) else s;
    PatchedNext(s, toks, n, offset, next, k, s');
    PatchedIff(s', toks, n, next, k + 1);
  }

  lemma {:induction false} PatchedNext(s: seq<byte>, toks: seq<Token>, n: nat, offset: nat, next: nat, k: nat,
                                       s': seq<byte>)
    requires PatchedTo(s, toks, n, offset, k) && k < |toks| && next + 4 <= |s|
    requires First(s[offset..]).Some? && First(s[offset..]).value.tok == toks[k]
    requires next == offset + Align4(First(s[offset..]).value.raw)
    requires toks[k].Prop? ==> offset + 12 <= next
    requires s' == if toks[k].Prop? then PatchedAt(s, n, offset, PROP) else s
    ensures PatchedTo(s', toks, n, next, k + 1)
  {
    PatchFront(s, toks, n, offset, next, k, s');
    if toks[k].Prop? { PatchSlices(s, n, offset, next); }
    PatchRest(s, toks, offset, k);
  }

  lemma {:induction false} PatchRest(s: seq<byte>, toks: seq<Token>, offset: nat, k: nat)
    requires offset + 4 <= |s| && k < |toks| && Tokens(s[offset..|s| - 4]) == Some(toks[k..])
    requires First(s[offset..]).Some? && offset + Align4(First(s[offset..]).value.raw) + 4 <= |s|
    ensures Tokens(s[offset + Align4(First(s[offset..]).value.raw)..|s| - 4]) == Some(toks[k + 1..])
  {
    var rest := s[offset..|s| - 4];
    assert s[offset..] == rest + s[|s| - 4..];
    FirstConcat(rest, s[|s| - 4..]);
    var len := Align4(First(rest).value.raw);
    assert rest[len..] == s[offset + len..|s| - 4];
    assert toks[k..][1..] == toks[k + 1..];
  }

  /** Every name offset corrected. */
  ghost predicate AllPatched(s: seq<byte>, toks: seq<Token>, n: nat) {
    forall i: nat {:trigger Unfold(i)} :: Unfold(i) ==> ToEnd(s) == Some(ShiftAll(toks, n))
  }

  lemma {:induction false} AllPatchedIff(s: seq<byte>, toks: seq<Token>, n: nat)
    ensures AllPatched(s, toks, n) <==> ToEnd(s) == Some(ShiftAll(toks, n))
  {
    assert Unfold(0);
  }

  lemma {:induction false} PatchDone(s: seq<byte>, toks: seq<Token>, n: nat)
    requires |s| >= 4 && Patched(s, toks, n, |s| - 4, |toks|)
    ensures AllPatched(s, toks, n)
  {
    AllPatchedIff(s, toks, n);
    PatchedIff(s, toks, n, |s| - 4, |toks|);
    var a, b := s[..|s| - 4], s[|s| - 4..];
    assert s == a + b && toks[..|toks|] == toks;
    ToEndConcat(a, b);
    assert ToEnd(b) == Some([]);
    assert ShiftAll(toks, n) + [] == ShiftAll(toks, n);
  }

  /** The patching loop before token `k`, whose tag is `tag` at `offset`; `next` is where the scan goes on. */
  ghost predicate Round(s: seq<byte>, toks: seq<Token>, n: nat, offset: int, k: nat, tag: nat, next: int) {
    && offset >= 0 && k <= |toks| && Patched(s, toks, n, offset, k)
    && tag == NextTagAt(s, offset).0 && next >= 0 && (tag == END <==> k == |toks|) && (k == |toks| ==>
      offset == |s| - 4)
    && (tag == PROP ==> offset + 12 <= |s|)
    && (k < |toks| ==> Patched(PatchedAt(s, n, offset, tag), toks, n, next, k + 1))
  }

  /** One round of the loop. */
  lemma {:induction false} PatchRound(s: seq<byte>, toks: seq<Token>, n: nat, offset: nat, k: nat)
    requires Patched(s, toks, n, offset, k)
    ensures var (tag, next) := NextTagAt(s, offset);
      Round(s, toks, n, offset, k, tag, next)
  {
    PatchTag(s, toks, n, offset, k);
    if k < |toks| { PatchStep(s, toks, n, offset, k); }
  }

  /** Patching inside a larger buffer. */
  lemma {:induction false} PatchInPlace(buf: seq<byte>, lo: nat, hi: nat, n: nat, offset: nat)
    requires lo <= hi <= |buf| && lo + offset + 12 <= hi
    ensures var at := lo + offset + 8;
      var buf' := Put(buf, at, Be32((Load32(buf[at..]) + n) % U32));
      buf'[..lo] == buf[..lo] && buf'[hi..] == buf[hi..] && buf'[lo..hi] == PatchedAt(buf[lo..hi], n, offset, PROP)
  {
    var at, s := lo + offset + 8, buf[lo..hi];
    assert s[offset + 8..][..4] == buf[at..][..4];
    LoadPrefix(s[offset + 8..], buf[at..]);
    var word := Be32((Load32(buf[at..]) + n) % U32);
    PutInside(buf, at, word, lo, hi);
    assert s[..offset + 8] == buf[lo..at] && s[offset + 12..] == buf[at + 4..hi];
    PutPrefix(buf, at, word, lo);
    PutSuffix(buf, at, word, hi);
    PutIs(s, offset + 8, word);
  }
}
