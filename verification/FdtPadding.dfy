/** The padding between tokens: zero bytes, as `fdt_create` leaves them everywhere. */
module FdtPadding {
  import opened Common
  import opened FdtTokens
  import opened FdtParse
  import opened FdtChunks
  import opened FdtPatch
  import opened FdtDraft

  /** Every token is padded with zeros, and nothing is behind the end tag. */
  ghost predicate Pads(s: seq<byte>)
    decreases |s|
  {
    if |s| >= 4 && Load32(s) == END then |s| == 4
    else if First(s).None? || Align4(First(s).value.raw) > |s| then s == []
    else
      var raw := First(s).value.raw;
      (forall k :: raw <= k < Align4(raw) ==> s[k] == 0) && Pads(s[Align4(raw)..])
  }

  lemma {:induction false} PadsEmpty()
    ensures Pads([])
  {
    FirstIs([]);
  }

  lemma {:induction false} PadsIff(a: seq<byte>, b: seq<byte>)
    requires Tokens(a).Some?
    ensures Pads(a + b) <==> Pads(a) && Pads(b)
    decreases |a|
  {
    if a == [] {
      assert a + b == b;
      PadsEmpty();
    } else {
      var raw := First(a).value.raw;
      var n := Align4(raw);
      FirstConcat(a, b);
      PadsIff(a[n..], b);
      assert (a + b)[n..] == a[n..] + b;
      assert forall k :: 0 <= k < n ==> (a + b)[k] == a[k];
    }
  }

  lemma {:induction false} PadsOne(c: seq<byte>, t: Token)
    requires Tokens(c) == Some([t])
    ensures Pads(c) <==> forall k :: RawOf(t) <= k < |c| ==> c[k] == 0
  {
    FirstRaw(c);
    FirstTag(c);
    var n := Align4(First(c).value.raw);
    assert Tokens(c[n..]).Some? && [First(c).value.tok] + Tokens(c[n..]).value == [t];
    assert ([First(c).value.tok] + Tokens(c[n..]).value)[0] == t;
    assert Tokens(c[n..]).value == [];
    OnlyEmpty(c[n..]);
    PadsEmpty();
    assert n == |c|;
  }

  lemma {:induction false} OnlyEmpty(s: seq<byte>)
    requires Tokens(s) == Some([])
    ensures s == []
  {
  }

  /** Correcting a name offset touches no padding. */
  lemma {:induction false} PadsToken(c: seq<byte>, n: nat)
    requires First(c).Some? && First(c).value.tok.Prop? && Align4(First(c).value.raw) == |c| && |c| >= 12
    ensures var c' := PatchedAt(c, n, 0, PROP);
      Tokens(c).Some? && Tokens(c').Some? && (Pads(c) ==> Pads(c'))
  {
    var t, c' := First(c).value.tok, PatchedAt(c, n, 0, PROP);
    PatchToken(c, n);
    TokensOne(c);
    PatchLength(c, n, 0);
    PadsOne(c, t);
    PadsOne(c', Shift(t, n));
    assert RawOf(Shift(t, n)) == RawOf(t) >= 12;
  }

  lemma {:induction false} PadsMiddle(a: seq<byte>, c: seq<byte>, c': seq<byte>, r: seq<byte>)
    requires Tokens(a).Some? && Tokens(c).Some? && Tokens(c').Some? && (Pads(c) ==> Pads(c')) && Pads(a + (c + r))
    ensures Pads(a + (c' + r))
  {
    PadsIff(a, c + r);
    PadsIff(c, r);
    PadsIff(c', r);
    PadsIff(a, c' + r);
  }

  lemma {:induction false} PadsPatched(s: seq<byte>, n: nat, offset: nat, next: nat)
    requires offset + 12 <= next <= |s| - 4 && Tokens(s[..offset]).Some? && Pads(s)
    requires First(s[offset..]).Some? && First(s[offset..]).value.tok.Prop?
    requires next == offset + Align4(First(s[offset..]).value.raw)
    ensures Pads(PatchedAt(s, n, offset, PROP))
  {
    var a, c, r := s[..offset], s[offset..next], s[next..];
    var raw := First(s[offset..]).value.raw;
    assert c[..raw] == s[offset..][..raw];
    FirstPrefix(s[offset..], c);
    PadsToken(c, n);
    PatchJoined(s, n, offset, next);
    assert s == a + (c + r);
    PadsMiddle(a, c, PatchedAt(c, n, 0, PROP), r);
  }

  lemma {:induction false} PatchJoined(s: seq<byte>, n: nat, offset: nat, next: nat)
    requires offset + 12 <= next <= |s| - 4
    ensures PatchedAt(s, n, offset, PROP) == s[..offset] + (PatchedAt(s[offset..next], n, 0, PROP) + s[next..])
  {
    var s' := PatchedAt(s, n, offset, PROP);
    PatchSlices(s, n, offset, next);
    PatchLength(s, n, offset);
    assert s'[next..] == s[next..];
    assert s' == s'[..next] + s'[next..];
  }

  lemma {:induction false} PatchLength(s: seq<byte>, n: nat, offset: nat)
    requires offset + 12 <= |s|
    ensures var s' := PatchedAt(s, n, offset, PROP);
      |s'| == |s| && forall k :: offset + 12 <= k < |s| ==> s'[k] == s[k]
  {
    PutIs(s, offset + 8, Be32((Load32(s[offset + 8..]) + n) % U32));
  }

  /** A round of the patching loop. */
  lemma {:induction false} PadsRound(s: seq<byte>, toks: seq<Token>, n: nat, offset: nat, k: nat)
    requires Patched(s, toks, n, offset, k)
    ensures Pads(s) ==> Pads(PatchedAt(s, n, offset, NextTagAt(s, offset).0))
  {
    PatchTag(s, toks, n, offset, k);
    if k < |toks| && toks[k].Prop? && Pads(s) {
      PatchedIff(s, toks, n, offset, k);
      FirstProp(s[offset..]);
      PadsPatched(s, n, offset, offset + Align4(First(s[offset..]).value.raw));
    }
  }

  // ---- the draft ----

  /** The structure block from `lo` to `top` is padded with zeros, and the space behind it up to `hi` is zero. */
  ghost predicate TidyNow(buf: seq<byte>, lo: nat, top: nat, hi: nat) {
    lo <= top <= hi <= |buf| && Pads(buf[lo..top]) && forall i :: top <= i < hi ==> buf[i] == 0
  }

  /** The same, folded. */
  ghost predicate Tidy(buf: seq<byte>, lo: nat, top: nat, hi: nat) {
    forall k: nat {:trigger Unfold(k)} :: Unfold(k) ==> TidyNow(buf, lo, top, hi)
  }

  lemma TidyIff(buf: seq<byte>, lo: nat, top: nat, hi: nat)
    ensures Tidy(buf, lo, top, hi) <==> TidyNow(buf, lo, top, hi)
  {
    assert Unfold(0);
  }

  lemma {:induction false} TidyStart(buf: seq<byte>, lo: nat, hi: nat)
    requires lo <= hi <= |buf| && forall i :: lo <= i < hi ==> buf[i] == 0
    ensures Tidy(buf, lo, lo, hi)
  {
    TidyIff(buf, lo, lo, hi);
    assert buf[lo..lo] == [];
    PadsEmpty();
  }

  /** An entry of the reserve map in front. */
  lemma {:induction false} TidyMoved(buf: seq<byte>, lo: nat, bytes: seq<byte>, lo': nat, hi: nat)
    requires lo' == lo + |bytes| <= hi <= |buf| && Tidy(buf, lo, lo, hi)
    ensures Tidy(Put(buf, lo, bytes), lo', lo', hi)
  {
    TidyIff(buf, lo, lo, hi);
    PutIs(buf, lo, bytes);
    TidyStart(Put(buf, lo, bytes), lo', hi);
  }

  lemma {:induction false} TidyEmit(buf: seq<byte>, lo: nat, a: nat, end: nat, bytes: seq<byte>, len: nat, hi: nat,
                                    strings: seq<byte>, toks: seq<Token>, events: seq<Event>, t: Token)
    requires lo <= a && end == a + len <= hi <= |buf| && Image(bytes, len, t)
    requires Holds(buf[lo..a], strings, toks, events)
    ensures Tidy(buf, lo, a, hi) ==> Tidy(Put(buf, a, bytes), lo, end, hi)
  {
    if Tidy(buf, lo, a, hi) {
      HoldsIff(buf[lo..a], strings, toks, events);
      TidyIff(buf, lo, a, hi);
      var pad, buf' := buf[a + |bytes|..end], Put(buf, a, bytes);
      PutInside(buf, a, bytes, lo, end);
      assert buf'[lo..end] == buf[lo..a] + (bytes + pad);
      PadsChunk(bytes, pad, t);
      PadsIff(buf[lo..a], bytes + pad);
      PutSuffix(buf, a, bytes, end);
      assert forall i :: end <= i < hi ==> buf'[i] == buf'[end..][i - end] == buf[end..][i - end];
      TidyIff(buf', lo, end, hi);
    }
  }

  /** Writing a token behind the structure block of a draft. */
  lemma {:induction false} EmitDraft(buf: seq<byte>, lo: nat, a: nat, end: nat, bytes: seq<byte>, len: nat, hi: nat,
                                     toks: seq<Token>, events: seq<Event>, t: Token, e: Event)
    requires lo <= a && end == a + len && end <= hi <= |buf| && Image(bytes, len, t)
    requires Holds(buf[lo..a], buf[hi..], toks, events) && Names(t, buf[hi..], e)
    ensures var buf' := Put(buf, a, bytes);
      && |buf'| == |buf| && buf'[..lo] == buf[..lo] && buf'[hi..] == buf[hi..]
      && Holds(buf'[lo..end], buf'[hi..], toks + [t], events + [e])
      && (Tidy(buf, lo, a, hi) ==> Tidy(buf', lo, end, hi))
  {
    EmitHolds(buf, lo, a, end, bytes, len, hi, toks, events, t, e);
    TidyEmit(buf, lo, a, end, bytes, len, hi, buf[hi..], toks, events, t);
    PutPrefix(buf, a, bytes, lo);
  }

  lemma {:induction false} PadsChunk(bytes: seq<byte>, pad: seq<byte>, t: Token)
    requires Tokens(bytes + pad) == Some([t]) && RawOf(t) == |bytes| && forall k :: 0 <= k < |pad| ==> pad[k] == 0
    ensures Pads(bytes + pad)
  {
    PadsOne(bytes + pad, t);
  }

  lemma {:induction false} TidyString(buf: seq<byte>, lo: nat, top: nat, at: nat, bytes: seq<byte>, hi: nat)
    requires lo <= top <= at && at + |bytes| == hi <= |buf|
    ensures Tidy(buf, lo, top, hi) ==> Tidy(Put(buf, at, bytes), lo, top, at)
  {
    if Tidy(buf, lo, top, hi) {
      TidyIff(buf, lo, top, hi);
      PutIs(buf, at, bytes);
      assert Put(buf, at, bytes)[lo..top] == buf[lo..top];
      TidyIff(Put(buf, at, bytes), lo, top, at);
    }
  }

  /** The end tag, and the strings moved down to it. */
  lemma {:induction false} TidyEnd(buf: seq<byte>, lo: nat, a: nat, end: nat, hi: nat,
                                   strings: seq<byte>, toks: seq<Token>, events: seq<Event>)
    requires lo <= a && a + 4 == end <= hi <= |buf| && Holds(buf[lo..a], strings, toks, events)
    ensures var ended := Put(buf, a, Be32(END));
      Tidy(buf, lo, a, hi) ==> Pads(Put(ended, end, ended[hi..])[lo..end])
  {
    if Tidy(buf, lo, a, hi) {
      TidyIff(buf, lo, a, hi);
      HoldsIff(buf[lo..a], strings, toks, events);
      var ended := Put(buf, a, Be32(END));
      PutInside(buf, a, Be32(END), lo, end);
      assert ended[lo..end] == buf[lo..a] + Be32(END);
      PutOutside(ended, end, ended[hi..], lo, end);
      Load32Exact(END);
      PadsIff(buf[lo..a], Be32(END));
    }
  }
}
