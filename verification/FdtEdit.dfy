/** Editing a complete tree in place by moving everything behind the edited bytes. */
module FdtEdit {
  import opened Common
  import opened FdtTokens
  import opened FdtParse
  import opened FdtChunks
  import opened FdtBlob
  import opened FdtCursor
  import opened FdtProps

  const ERR_BADLAYOUT: int := -12

  // ---- moving ----

  /** Moving `mem[q..d]` to `r`: the blocks before `p` stay, those behind `q` arrive whole. */
  lemma {:induction false} Moved(mem: seq<byte>, lo: nat, p: nat, q: nat, r: nat, hi: nat, st: nat, d: nat,
                                 hi': nat, st': nat, d': nat)
    requires lo <= p <= q <= hi <= st <= d <= |mem| && p <= r
    requires hi' - r == hi - q && st' - r == st - q && d' - r == d - q && d' <= |mem|
    ensures var mem' := Put(mem, r, mem[q..d]);
      && mem'[lo..p] == mem[lo..p] && mem'[r..hi'] == mem[q..hi] && mem'[st'..d'] == mem[st..d]
      && mem'[lo..hi'][..p - lo] == mem[lo..hi][..p - lo] && mem'[lo..hi'][r - lo..] == mem[lo..hi][q - lo..]
  {
    PutIs(mem, r, mem[q..d]);
    var mem' := Put(mem, r, mem[q..d]);
    assert mem'[lo..p] == mem[lo..p];
    assert mem'[r..d'] == mem[q..d];
    assert mem'[r..hi'] == mem'[r..d'][..hi' - r] == mem[q..d][..hi - q] == mem[q..hi];
    assert mem'[st'..d'] == mem'[r..d'][st' - r..] == mem[q..d][st - q..] == mem[st..d];
    assert mem'[lo..hi'][..p - lo] == mem'[lo..p] && mem[lo..hi][..p - lo] == mem[lo..p];
    assert mem'[lo..hi'][r - lo..] == mem'[r..hi'] && mem[lo..hi][q - lo..] == mem[q..hi];
  }

  /** Writing inside one block. */
  lemma {:induction false} PutInBlock(mem: seq<byte>, lo: nat, hi: nat, st: nat, d: nat, off: nat, bytes: seq<byte>)
    requires lo <= hi <= st <= d <= |mem| && lo + off + |bytes| <= hi
    ensures var mem' := Put(mem, lo + off, bytes);
      mem'[lo..hi] == Put(mem[lo..hi], off, bytes) && mem'[st..d] == mem[st..d]
  {
    PutInside(mem, lo + off, bytes, lo, hi);
    PutOutside(mem, lo + off, bytes, st, d);
    PutIs(mem[lo..hi], off, bytes);
    assert mem[lo..hi][..off] == mem[lo..lo + off];
    assert mem[lo..hi][off + |bytes|..] == mem[lo + off + |bytes|..hi];
  }

  /** Later tokens are at later offsets. */
  lemma {:induction false} Apart(s: seq<byte>, a: nat, b: nat, ts: seq<Token>, i: nat, j: nat)
    requires At(s, a, ts, i) && At(s, b, ts, j) && i < j
    ensures a < b
  {
    AtIff(s, a, ts, i);
    AtIff(s, b, ts, j);
    assert |Tokens(s[..a]).value| == i && |Tokens(s[..b]).value| == j;
    if b <= a {
      assert s[..a] == s[..b] + s[b..a];
      TokensConcat(s[..b], s[b..a]);
    }
  }

  /** Where the structure and strings blocks lie, and what they hold. */
  ghost predicate Blocks(mem: seq<byte>, h: Header, structs: seq<byte>, strings: seq<byte>) {
    && |structs| == h.sizeStruct && |strings| == h.sizeStrings
    && forall k: nat {:trigger Unfold(k)} :: Unfold(k) ==>
         && h.offStruct + h.sizeStruct <= h.offStrings && h.offStrings + h.sizeStrings <= |mem|
         && structs == mem[h.offStruct..h.offStruct + h.sizeStruct]
         && strings == mem[h.offStrings..h.offStrings + h.sizeStrings]
  }

  lemma {:induction false} BlocksIff(mem: seq<byte>, h: Header, structs: seq<byte>, strings: seq<byte>)
    requires h.offStruct + h.sizeStruct <= h.offStrings && h.offStrings + h.sizeStrings <= |mem|
    ensures Blocks(mem, h, structs, strings) <==>
      && structs == mem[h.offStruct..h.offStruct + h.sizeStruct]
      && strings == mem[h.offStrings..h.offStrings + h.sizeStrings]
  {
    assert Unfold(0);
  }

  /** The blocks after a splice of the structure block, whose header fields have moved along. */
  lemma {:induction false} SpliceBlocks(mem: seq<byte>, h: Header, h': Header, structs: seq<byte>, strings: seq<byte>,
                                        off: nat, oldlen: nat, newlen: nat) returns (structs': seq<byte>)
    requires h.offStruct + h.sizeStruct <= h.offStrings && h.offStrings + h.sizeStrings <= |mem|
    requires Blocks(mem, h, structs, strings) && off + oldlen <= h.sizeStruct
    requires h.offStrings + h.sizeStrings - oldlen + newlen <= |mem|
    requires h'.offStruct == h.offStruct && h'.sizeStrings == h.sizeStrings
    requires h'.sizeStruct == h.sizeStruct + newlen - oldlen && h'.offStrings == h.offStrings + newlen - oldlen
    ensures var p := h.offStruct + off;
      Blocks(Put(mem, p + newlen, mem[p + oldlen..h.offStrings + h.sizeStrings]), h', structs', strings)
    ensures |structs'| == |structs| - oldlen + newlen && structs'[..off] == structs[..off]
    ensures structs'[off + newlen..] == structs[off + oldlen..]
  {
    var lo, st := h.offStruct, h.offStrings;
    var p, hi, d := lo + off, lo + h.sizeStruct, st + h.sizeStrings;
    var hi', st' := lo + h'.sizeStruct, h'.offStrings;
    var d' := st' + h'.sizeStrings;
    BlocksIff(mem, h, structs, strings);
    Moved(mem, lo, p, p + oldlen, p + newlen, hi, st, d, hi', st', d');
    var mem' := Put(mem, p + newlen, mem[p + oldlen..d]);
    structs' := mem'[lo..hi'];
    BlocksIff(mem', h', structs', strings);
  }

  // ---- trees ----

  /** The blocks hold this tree. */
  ghost predicate Holds(structs: seq<byte>, strings: seq<byte>, ts: seq<Token>, es: seq<Event>) {
    && |ts| == |es|
    && forall k: nat {:trigger Unfold(k)} :: Unfold(k) ==> ToEnd(structs) == Some(ts) && Events(ts, strings) == Some(es)
  }

  lemma {:induction false} HoldsIff(structs: seq<byte>, strings: seq<byte>, ts: seq<Token>, es: seq<Event>)
    ensures Holds(structs, strings, ts, es) <==> ToEnd(structs) == Some(ts) && Events(ts, strings) == Some(es)
  {
    assert Unfold(0);
  }

  /** Bytes `a` to `b` replaced by the bytes of tokens `xs`. */
  lemma {:induction false} Edited(s: seq<byte>, s': seq<byte>, strings: seq<byte>, ts: seq<Token>, es: seq<Event>,
                                  a: nat, b: nat, i: nat, j: nat, n: nat, xs: seq<Token>, xe: seq<Event>)
    requires Holds(s, strings, ts, es) && At(s, a, ts, i) && At(s, b, ts, j)
    requires a + n <= |s'| && s'[..a] == s[..a] && s'[a + n..] == s[b..]
    requires Tokens(s'[a..a + n]) == Some(xs) && Events(xs, strings) == Some(xe)
    ensures Holds(s', strings, ts[..i] + xs + ts[j..], es[..i] + xe + es[j..])
  {
    HoldsIff(s, strings, ts, es);
    assert s' == s[..a] + s'[a..a + n] + s[b..];
    SpliceTokens(s, a, b, ts, i, j, s'[a..a + n], xs);
    var ts', es' := ts[..i] + xs + ts[j..], es[..i] + xe + es[j..];
    EventsAre(ts, strings, es);
    EventsAre(xs, strings, xe);
    forall k | 0 <= k < |ts'| ensures EventOf(ts'[k], strings) == Some(es'[k]) {
      if k < i {
        assert ts'[k] == ts[k] && es'[k] == es[k];
      } else if k < i + |xs| {
        assert ts'[k] == xs[k - i] && es'[k] == xe[k - i];
      } else {
        assert ts'[k] == ts[k - i - |xs| + j] && es'[k] == es[k - i - |xs| + j];
      }
    }
    EventsAre(ts', strings, es');
    HoldsIff(s', strings, ts', es');
  }

  // ---- nodes ----

  /** The place behind the properties of node `i`. */
  ghost predicate AfterProps(ts: seq<Token>, i: nat, e: nat) {
    IsBegin(ts, i) && Run(ts, i, e) && (e < |ts| ==> !ts[e].Prop? && !ts[e].Nop?)
  }

  method AfterProperties(s: seq<byte>, parentoffset: nat, ghost ts: seq<Token>, ghost i: nat)
    returns (offset: nat, ghost e: nat)
    requires |s| < INT_MAX && At(s, parentoffset, ts, i) && IsBegin(ts, i)
    ensures AfterProps(ts, i, e) && At(s, offset, ts, e)
  {
    AtTag(s, parentoffset, ts, i);
    var tag, nextoffset := NextTag(s, parentoffset);
    e := i + 1;
    offset := nextoffset;
    AtTag(s, offset, ts, e);
    tag, nextoffset := NextTag(s, offset);
    while tag == PROP || tag == NOP
      invariant i < e <= |ts| && At(s, offset, ts, e) && Run(ts, i, e)
      invariant (tag, nextoffset) == NextTagAt(s, offset)
      invariant e == |ts| ==> tag == END
      invariant e < |ts| ==> tag == ts[e].Tag() && 0 <= nextoffset <= |s| && At(s, nextoffset, ts, e + 1)
      decreases |ts| - e
    {
      offset := nextoffset;
      e := e + 1;
      AtTag(s, offset, ts, e);
      tag, nextoffset := NextTag(s, offset);
    }
  }

  lemma {:induction false} NodeChunk(name: seq<byte>, zeros: seq<byte>)
    requires 0 !in name && |name| + |zeros| == Align4(|name| + 1) && (forall k :: 0 <= k < |zeros| ==> zeros[k] == 0)
    ensures Tokens(Be32(BEGIN_NODE) + name + zeros + Be32(END_NODE)) == Some([Begin(name), EndNode])
  {
    var pad := zeros[1..];
    AlignSum(4, |name| + 1);
    assert zeros == [0] + pad;
    var begin := Be32(BEGIN_NODE) + name + [0] + pad;
    assert Be32(BEGIN_NODE) + name + zeros == begin;
    BeginChunk(name, pad);
    EndChunk();
    TokensConcat(begin, Be32(END_NODE));
    assert [Begin(name)] + [EndNode] == [Begin(name), EndNode];
  }

  lemma {:induction false} NodeEvents(name: seq<byte>, strings: seq<byte>)
    ensures Events([Begin(name), EndNode], strings) == Some([NodeBegin(name), NodeEnd])
  {
    EventsAre([Begin(name), EndNode], strings, [NodeBegin(name), NodeEnd]);
  }

  /** Filling the whole gap of a splice. */
  lemma {:induction false} Written(s: seq<byte>, gap: seq<byte>, s': seq<byte>, a: nat, x: seq<byte>)
    requires a <= |s| && |gap| == |s| + |x| && gap[..a] == s[..a] && gap[a + |x|..] == s[a..]
    requires s' == Put(gap, a, x)
    ensures s'[..a] == s[..a] && s'[a + |x|..] == s[a..] && s'[a..a + |x|] == x
  {
    PutPrefix(gap, a, x, a);
    PutSuffix(gap, a, x, a + |x|);
    PutIs(gap, a, x);
  }

  /** The place of an insertion is the place of what was inserted. */
  lemma {:induction false} Placed(s: seq<byte>, s': seq<byte>, strings: seq<byte>, a: nat, ts: seq<Token>,
                                  ts': seq<Token>, es': seq<Event>, e: nat)
    requires At(s, a, ts, e) && e <= |ts'| && ts'[..e] == ts[..e] && a <= |s'| && s'[..a] == s[..a]
    requires Holds(s', strings, ts', es')
    ensures At(s', a, ts', e)
  {
    HoldsIff(s', strings, ts', es');
    AtIff(s, a, ts, e);
    assert s' == s'[..a] + s'[a..];
    ToEndConcat(s'[..a], s'[a..]);
    assert ts'[..e] + ToEnd(s'[a..]).value == ts';
    assert ToEnd(s'[a..]).value == ts'[e..];
    AtIff(s', a, ts', e);
  }

  // ---- properties ----

  /** A new length and value in place of the old ones. */
  lemma {:induction false} ResizeChunk(s: seq<byte>, gap: seq<byte>, a: nat, was: nat, n: nat, val: seq<byte>)
    requires a + 12 + was <= |s| && |gap| == |s| - was + n && n == Align4(|val|) && |val| < U32
    requires gap[..a + 12] == s[..a + 12] && gap[a + 12 + n..] == s[a + 12 + was..]
    requires First(s[a..]).Some? && First(s[a..]).value.tok.Prop?
    ensures var s' := Put(Put(gap, a + 4, Be32(|val|)), a + 12, val);
      && s'[..a] == s[..a] && s'[a + 12 + n..] == s[a + 12 + was..]
      && Tokens(s'[a..a + 12 + n]) == Some([Prop(First(s[a..]).value.tok.nameoff, val)])
  {
    var len, end := Be32(|val|), a + 12 + n;
    var mid := Put(gap, a + 4, len);
    var s' := Put(mid, a + 12, val);
    PutPrefix(gap, a + 4, len, a);
    PutPrefix(mid, a + 12, val, a);
    assert s'[..a] == gap[..a] == gap[..a + 12][..a] == s[..a];
    PutSuffix(gap, a + 4, len, end);
    PutSuffix(mid, a + 12, val, end);
    var tag, off, pad := s[a..a + 4], s[a + 8..a + 12], gap[a + 12 + |val|..end];
    HeaderSlices(s, gap, a);
    PutInside(gap, a + 4, len, a, a + 12);
    PutOutside(gap, a + 4, len, a + 12 + |val|, end);
    PutInside(mid, a + 12, val, a, end);
    assert mid[a..a + 12] == tag + len + off;
    assert s'[a..end] == tag + len + off + (val + pad);
    PropBytes(s[a..], tag, off, val, pad);
  }

  lemma {:induction false} HeaderSlices(s: seq<byte>, gap: seq<byte>, a: nat)
    requires a + 12 <= |s| && a + 12 <= |gap| && gap[..a + 12] == s[..a + 12]
    ensures gap[a..a + 4] == s[a..a + 4] && gap[a + 8..a + 12] == s[a + 8..a + 12]
  {
    assert gap[a..a + 4] == gap[..a + 12][a..a + 4];
    assert gap[a + 8..a + 12] == gap[..a + 12][a + 8..];
  }

  /** A property token with the tag and name words of another. */
  lemma {:induction false} PropBytes(u: seq<byte>, tag: seq<byte>, off: seq<byte>, val: seq<byte>, pad: seq<byte>)
    requires First(u).Some? && First(u).value.tok.Prop? && |u| >= 12 && tag == u[..4] && off == u[8..12]
    requires |val| < U32 && |val| + |pad| == Align4(|val|)
    ensures Tokens(tag + Be32(|val|) + off + (val + pad)) == Some([Prop(First(u).value.tok.nameoff, val)])
  {
    FirstProp(u);
    var c := tag + Be32(|val|) + off + (val + pad);
    ThreeWords(tag, Be32(|val|), off, val + pad);
    LoadFront(u);
    assert u[8..][..4] == off;
    LoadFront(u[8..]);
    Load32Exact(|val|);
    assert c[12..12 + |val|] == c[12..][..|val|] == (val + pad)[..|val|] == val;
    FirstIsProp(c, |val|);
    AlignSum(12, |val|);
    TokensOne(c);
  }

  /** Where a property's value is and where the next token starts. */
  lemma {:induction false} PropEnd(s: seq<byte>, prop: nat, ts: seq<Token>, j: nat)
    requires At(s, prop, ts, j) && j < |ts| && ts[j].Prop?
    ensures prop + 12 <= |s|
    ensures var end := prop + 12 + Align4(Load32(s[prop + 4..]));
      end <= |s| && At(s, end, ts, j + 1) && First(s[prop..]).Some? && First(s[prop..]).value.tok == ts[j]
    ensures |ts[j].val| == Load32(s[prop + 4..])
  {
    AtTag(s, prop, ts, j);
    FirstProp(s[prop..]);
    assert s[prop..][4..] == s[prop + 4..];
    var oldlen := Load32(s[prop + 4..]);
    AlignSum(prop, 12 + oldlen);
    AlignSum(12, oldlen);
  }

  lemma {:induction false} SetHolds(s: seq<byte>, gap: seq<byte>, strings: seq<byte>, a: nat, was: nat, n: nat,
                                    name: seq<byte>, val: seq<byte>, ts: seq<Token>, es: seq<Event>, j: nat)
    requires a + 12 + was <= |s| && |gap| == |s| - was + n && n == Align4(|val|) && |val| < U32
    requires gap[..a + 12] == s[..a + 12] && gap[a + 12 + n..] == s[a + 12 + was..]
    requires Holds(s, strings, ts, es) && At(s, a, ts, j) && At(s, a + 12 + was, ts, j + 1)
    requires j < |ts| && Named(ts[j], strings, name) && First(s[a..]).Some? && First(s[a..]).value.tok == ts[j]
    ensures var s' := Put(Put(gap, a + 4, Be32(|val|)), a + 12, val);
      Holds(s', strings, ts[..j] + [Prop(ts[j].nameoff, val)] + ts[j + 1..],
            es[..j] + [Event.Property(name, val)] + es[j + 1..])
  {
    ResizeChunk(s, gap, a, was, n, val);
    PropEvents(ts[j].nameoff, name, val, strings);
    var s' := Put(Put(gap, a + 4, Be32(|val|)), a + 12, val);
    Edited(s, s', strings, ts, es, a, a + 12 + was, j, j + 1, 12 + n,
           [Prop(ts[j].nameoff, val)], [Event.Property(name, val)]);
  }

  /** Strings added behind the others change no name. */
  lemma {:induction false} MoreStrings(structs: seq<byte>, strings: seq<byte>, x: seq<byte>,
                                       ts: seq<Token>, es: seq<Event>)
    requires Holds(structs, strings, ts, es)
    ensures Holds(structs, strings + x, ts, es)
  {
    HoldsIff(structs, strings, ts, es);
    EventsAre(ts, strings, es);
    forall i | 0 <= i < |ts| ensures EventOf(ts[i], strings + x) == Some(es[i]) {
      assert EventOf(ts[i], strings) == Some(es[i]);
      if ts[i].Prop? { StillAt(strings, x, ts[i].nameoff); }
    }
    EventsAre(ts, strings + x, es);
    HoldsIff(structs, strings + x, ts, es);
  }

  lemma {:induction false} StillAt(strings: seq<byte>, x: seq<byte>, i: nat)
    requires StringAt(strings, i).Some?
    ensures StringAt(strings + x, i) == StringAt(strings, i)
  {
    var e := NulFrom(strings, i);
    NulIs(strings + x, i, e);
    assert (strings + x)[i..e] == strings[i..e];
  }

  lemma {:induction false} PropEvents(nameoff: nat, name: seq<byte>, val: seq<byte>, strings: seq<byte>)
    requires StringAt(strings, nameoff) == Some(name)
    ensures Events([Prop(nameoff, val)], strings) == Some([Event.Property(name, val)])
  {
    EventsAre([Prop(nameoff, val)], strings, [Event.Property(name, val)]);
  }

  /** A string written behind the strings. */
  lemma {:induction false} AppendString(mem: seq<byte>, lo: nat, hi: nat, st: nat, d: nat, d': nat, bytes: seq<byte>)
    requires lo <= hi <= st <= d <= d' <= |mem| && d' == d + |bytes|
    ensures var mem' := Put(mem, d, bytes); mem'[lo..hi] == mem[lo..hi] && mem'[st..d'] == mem[st..d] + bytes
  {
    PutOutside(mem, d, bytes, lo, hi);
    PutInside(mem, d, bytes, st, d');
  }

  lemma {:induction false} BlocksMore(mem: seq<byte>, h: Header, structs: seq<byte>, strings: seq<byte>,
                                      bytes: seq<byte>)
    requires h.offStruct + h.sizeStruct <= h.offStrings && Blocks(mem, h, structs, strings)
    requires h.offStrings + h.sizeStrings + |bytes| <= |mem| && h.sizeStrings + |bytes| < U32
    ensures Blocks(Put(mem, h.offStrings + h.sizeStrings, bytes), h.(sizeStrings := h.sizeStrings + |bytes|),
                   structs, strings + bytes)
  {
    var d := h.offStrings + h.sizeStrings;
    BlocksIff(mem, h, structs, strings);
    AppendString(mem, h.offStruct, h.offStruct + h.sizeStruct, h.offStrings, d, d + |bytes|, bytes);
    BlocksIff(Put(mem, d, bytes), h.(sizeStrings := h.sizeStrings + |bytes|), structs, strings + bytes);
  }

  lemma {:induction false} NewString(strings: seq<byte>, name: seq<byte>)
    requires 0 !in name
    ensures StringAt(strings + (name + [0]), |strings|) == Some(name)
  {
    var all := strings + (name + [0]);
    assert all[|strings|..|strings| + |name| + 1] == name + [0];
    StringIs(all, |strings|, name);
  }

  /** Making room behind the strings moves nothing. */
  lemma {:induction false} NoMove(mem: seq<byte>, d: nat, n: nat)
    requires d + n <= |mem|
    ensures Put(mem, d + n, mem[d..d]) == mem
  {
    PutIs(mem, d + n, mem[d..d]);
  }

  /** A property filling the gap of a splice, its padding as it was. */
  lemma {:induction false} InsertHolds(s: seq<byte>, gap: seq<byte>, strings: seq<byte>, a: nat, n: nat, nameoff: u32,
                                       name: seq<byte>, val: seq<byte>, ts: seq<Token>, es: seq<Event>, e: nat)
    requires a <= |s| && |gap| == |s| + n && n == 12 + Align4(|val|) && |val| < U32
    requires gap[..a] == s[..a] && gap[a + n..] == s[a..]
    requires Holds(s, strings, ts, es) && At(s, a, ts, e) && StringAt(strings, nameoff) == Some(name)
    ensures var s' := Put(gap, a, PropHeader(|val|, nameoff) + val);
      Holds(s', strings, ts[..e] + [Prop(nameoff, val)] + ts[e..], es[..e] + [Event.Property(name, val)] + es[e..])
  {
    var bytes, end := PropHeader(|val|, nameoff) + val, a + n;
    var s' := Put(gap, a, bytes);
    PutPrefix(gap, a, bytes, a);
    PutSuffix(gap, a, bytes, end);
    PutInside(gap, a, bytes, a, end);
    var pad := gap[a + |bytes|..end];
    assert s'[a..end] == bytes + pad;
    AlignSum(12, |val|);
    PropChunk(nameoff, val, pad);
    PropEvents(nameoff, name, val, strings);
    Edited(s, s', strings, ts, es, a, a, e, e, n, [Prop(nameoff, val)], [Event.Property(name, val)]);
  }

  /** Bytes a name needs in the strings: none when it is there. */
  ghost function NameRoom(strings: seq<byte>, name: seq<byte>): nat {
    if Occurs(strings, name) then 0 else |name| + 1
  }

  class Tree {
    var hdr: Header
    var mem: seq<byte>

    /** What the structure and strings blocks hold. */
    ghost var structs: seq<byte>
    ghost var strings: seq<byte>

    /** The tree the blocks hold, as tokens and as a reader sees it. */
    ghost var toks: seq<Token>
    ghost var events: seq<Event>

    constructor (b: Blob, ghost ts: seq<Token>, ghost es: seq<Event>)
      requires Fits(b) && b.hdr.totalsize < INT_MAX && b.hdr.version == LAST_VERSION
      requires ToEnd(Structs(b)) == Some(ts) && Events(ts, Strings(b)) == Some(es)
      ensures Valid() && hdr == b.hdr && mem == b.mem && toks == ts && events == es
    {
      hdr, mem, toks, events := b.hdr, b.mem, ts, es;
      structs, strings := Structs(b), Strings(b);
      HoldsIff(Structs(b), Strings(b), ts, es);
      if b.hdr.offStruct + b.hdr.sizeStruct <= b.hdr.offStrings {
        BlocksIff(b.mem, b.hdr, Structs(b), Strings(b));
      }
    }

    ghost predicate Ready()
      reads this
    {
      HeaderOk(hdr) && hdr.version == LAST_VERSION && hdr.totalsize <= |mem| && hdr.totalsize < INT_MAX
      && (Ordered() ==> Blocks(mem, hdr, structs, strings))
    }

    /** Reserve map, structure and strings follow each other. */
    predicate Ordered()
      reads this
    {
      && V17_SIZE <= hdr.offRsvmap && hdr.offRsvmap + 16 <= hdr.offStruct
      && hdr.offStruct + hdr.sizeStruct <= hdr.offStrings
      && hdr.offStrings + hdr.sizeStrings <= hdr.totalsize
    }

    ghost predicate Valid()
      reads this
    {
      Ready() && (Ordered() ==> Holds(structs, strings, toks, events))
    }

    /** `fdt_rw_probe_`. */
    method RwProbe() returns (err: int)
      requires Ready()
      ensures err == (if Ordered() then 0 else ERR_BADLAYOUT)
    {
      if hdr.offRsvmap < V17_SIZE || hdr.offStruct < hdr.offRsvmap + 16
         || hdr.offStrings < hdr.offStruct + hdr.sizeStruct || hdr.totalsize < hdr.offStrings + hdr.sizeStrings {
        return ERR_BADLAYOUT;
      }
      err := 0;
    }

    /** There are `n` more bytes behind the strings. */
    ghost predicate Room(n: int)
      reads this
    {
      hdr.offStrings + hdr.sizeStrings + n <= hdr.totalsize
    }

    // ---- splicing ----

    /** `fdt_splice_` at the absolute place `p`. */
    method Splice(p: nat, oldlen: nat, newlen: nat) returns (err: int)
      requires Ready() && Ordered() && newlen <= INT_MAX
      modifies this`mem
      ensures var dsize := hdr.offStrings + hdr.sizeStrings;
        && |mem| == old(|mem|) && (err == 0 <==> p + oldlen <= dsize && dsize - oldlen + newlen <= hdr.totalsize)
        && (p + oldlen <= dsize && err != 0 ==> err == ERR_NOSPACE)
        && (err == 0 ==> mem == Put(old(mem), p + newlen, old(mem)[p + oldlen..dsize]))
        && (err != 0 ==> mem == old(mem))
    {
      var dsize := hdr.offStrings + hdr.sizeStrings;
      if p + oldlen > dsize { return ERR_BADOFFSET; }
      if dsize + newlen < oldlen { return ERR_BADOFFSET; }
      if dsize - oldlen + newlen > hdr.totalsize { return ERR_NOSPACE; }
      mem := Put(mem, p + newlen, mem[p + oldlen..dsize]);
      err := 0;
    }

    method SpliceStruct(off: nat, oldlen: nat, newlen: nat) returns (err: int)
      requires Ready() && Ordered() && off + oldlen <= hdr.sizeStruct && newlen <= INT_MAX
      modifies this`mem, this`hdr, this`structs
      ensures Ready() && Ordered() && (err == 0 || err == ERR_NOSPACE)
      ensures err == 0 <==> old(hdr.offStrings + hdr.sizeStrings) - oldlen + newlen <= old(hdr.totalsize)
      ensures err != 0 ==> unchanged(this)
      ensures err == 0 ==>
        && |structs| == |old(structs)| - oldlen + newlen && structs[..off] == old(structs)[..off]
        && structs[off + newlen..] == old(structs)[off + oldlen..]
    {
      ghost var before := mem;
      BlocksIff(mem, hdr, structs, strings);
      err := Splice(hdr.offStruct + off, oldlen, newlen);
      if err != 0 { return; }
      var h := hdr.(sizeStruct := hdr.sizeStruct + newlen - oldlen, offStrings := hdr.offStrings + newlen - oldlen);
      structs := SpliceBlocks(before, hdr, h, structs, strings, off, oldlen, newlen);
      hdr := h;
    }

    /** Writes into the structure block. */
    method Write(off: nat, bytes: seq<byte>)
      requires Ready() && Ordered() && off + |bytes| <= |structs|
      modifies this`mem, this`structs
      ensures Ready() && Ordered() && structs == Put(old(structs), off, bytes)
    {
      BlocksIff(mem, hdr, structs, strings);
      PutInBlock(mem, hdr.offStruct, hdr.offStruct + hdr.sizeStruct, hdr.offStrings,
                 hdr.offStrings + hdr.sizeStrings, off, bytes);
      mem := Put(mem, hdr.offStruct + off, bytes);
      structs := Put(structs, off, bytes);
      BlocksIff(mem, hdr, structs, strings);
    }

    /** The structure block. */
    method Block() returns (s: seq<byte>)
      requires Ready() && Ordered()
      ensures s == structs && |s| < INT_MAX
    {
      BlocksIff(mem, hdr, structs, strings);
      s := mem[hdr.offStruct..hdr.offStruct + hdr.sizeStruct];
    }

    // ---- nodes ----

    /** `fdt_del_node`: takes out exactly the tokens of the node. */
    method DelNode(nodeoffset: nat, ghost i: nat) returns (err: int, ghost j: nat)
      requires Valid() && (Ordered() ==> At(structs, nodeoffset, toks, i))
      modifies this
      ensures Valid() && (err != 0 ==> unchanged(this))
      ensures old(Ordered()) ==> (err == 0 <==> exists k :: IsNode(old(toks), i, k))
      ensures old(Ordered()) ==> (err == ERR_BADOFFSET <==> !IsBegin(old(toks), i))
      ensures !old(Ordered()) ==> err == ERR_BADLAYOUT
      ensures err == 0 ==> IsNode(old(toks), i, j) && Ordered() && strings == old(strings)
      ensures err == 0 ==> toks == old(toks[..i] + toks[j..]) && events == old(events[..i] + events[j..])
    {
      j := i;
      err := RwProbe();
      if err != 0 { return; }
      var s := Block();
      var end;
      end, j := NodeEndOffset(s, nodeoffset, toks, i);
      if end < 0 { return end, j; }
      Apart(s, nodeoffset, end, toks, i, j);
      err := SpliceStruct(nodeoffset, end - nodeoffset, 0);
      if err != 0 { return; }
      assert structs[nodeoffset..nodeoffset + 0] == [];
      Edited(s, structs, strings, toks, events, nodeoffset, end, i, j, 0, [], []);
      assert toks[..i] + [] == toks[..i] && events[..i] + [] == events[..i];
      toks, events := toks[..i] + toks[j..], events[..i] + events[j..];
    }

    /** Splices an empty node in at a place. */
    method InsertNode(offset: nat, name: seq<byte>, ghost e: nat) returns (err: int)
      requires Valid() && Ordered() && At(structs, offset, toks, e) && 0 !in name && |name| <= INT_MAX / 2
      modifies this
      ensures Valid() && Ordered() && strings == old(strings) && (err == 0 || err == ERR_NOSPACE)
      ensures err == 0 <==>
        old(hdr.offStrings + hdr.sizeStrings) + 8 + Align4(|name| + 1) <= old(hdr.totalsize)
      ensures err != 0 ==> unchanged(this)
      ensures err == 0 ==> At(structs, offset, toks, e)
      ensures err == 0 ==> toks == old(toks)[..e] + [Begin(name), EndNode] + old(toks)[e..]
      ensures err == 0 ==> events == old(events)[..e] + [NodeBegin(name), NodeEnd] + old(events)[e..]
    {
      ghost var s := structs;
      var nodelen := 4 + Align4(|name| + 1) + 4;
      err := SpliceStruct(offset, 0, nodelen);
      if err != 0 { return; }
      ghost var gap := structs;
      var zeros := seq(Align4(|name| + 1) - |name|, _ => 0);
      var node := Be32(BEGIN_NODE) + name + zeros + Be32(END_NODE);
      NodeChunk(name, zeros);
      NodeEvents(name, strings);
      Write(offset, node);
      Written(s, gap, structs, offset, node);
      Edited(s, structs, strings, toks, events, offset, offset, e, e, nodelen,
             [Begin(name), EndNode], [NodeBegin(name), NodeEnd]);
      ghost var ts := toks[..e] + [Begin(name), EndNode] + toks[e..];
      ghost var es := events[..e] + [NodeBegin(name), NodeEnd] + events[e..];
      Placed(s, structs, strings, offset, toks, ts, es, e);
      toks, events := ts, es;
    }

    /** `fdt_add_subnode_namelen`: a new empty node behind the properties of its parent. */
    method AddSubnode(parentoffset: nat, name: seq<byte>, ghost i: nat) returns (offset: int, ghost e: nat)
      requires Valid() && (Ordered() ==> At(structs, parentoffset, toks, i))
      requires 0 !in name && |name| <= INT_MAX / 2
      modifies this
      ensures Valid() && (offset < 0 ==> unchanged(this))
      ensures !old(Ordered()) ==> offset == ERR_BADLAYOUT
      ensures old(Ordered()) ==> (offset == ERR_BADOFFSET <==> !IsBegin(old(toks), i))
      ensures old(Ordered()) ==>
        (offset == ERR_EXISTS <==> exists k: nat :: Child(old(toks), i, k) && Answers(old(toks)[k].name, name))
      ensures old(Ordered()) && offset < 0 ==>
        || offset == ERR_BADOFFSET || offset == ERR_EXISTS
        || (offset == ERR_NOSPACE
            && hdr.offStrings + hdr.sizeStrings + 8 + Align4(|name| + 1) > hdr.totalsize)
      ensures offset >= 0 ==> Ordered() && strings == old(strings)
      ensures offset >= 0 ==> AfterProps(old(toks), i, e) && At(structs, offset, toks, e)
      ensures offset >= 0 ==> toks == old(toks)[..e] + [Begin(name), EndNode] + old(toks)[e..]
      ensures offset >= 0 ==> events == old(events)[..e] + [NodeBegin(name), NodeEnd] + old(events)[e..]
    {
      e := i;
      offset := RwProbe();
      if offset != 0 { return; }
      var s := Block();
      ghost var child;
      offset, child := SubnodeOffset(s, parentoffset, name, toks, i);
      if offset >= 0 { return ERR_EXISTS, e; }
      if offset != ERR_NOTFOUND { return; }
      offset, e := AfterProperties(s, parentoffset, toks, i);
      var err := InsertNode(offset, name, e);
      if err != 0 { return err, e; }
    }

    // ---- properties ----

    /** Room for the new value of a property, its length, its bytes. */
    method SetValue(prop: nat, name: seq<byte>, val: seq<byte>, ghost j: nat) returns (err: int)
      requires Valid() && Ordered() && At(structs, prop, toks, j) && |val| <= INT_MAX / 2
      requires j < |toks| && Named(toks[j], strings, name)
      modifies this
      ensures Valid() && Ordered() && strings == old(strings) && (err != 0 ==> err == ERR_NOSPACE && unchanged(this))
      ensures err == 0 <==> old(Room(Align4(|val|) - Align4(|toks[j].val|)))
      ensures err == 0 ==> events == old(events[..j] + [Event.Property(name, val)] + events[j + 1..])
    {
      ghost var ts, es := toks, events;
      var s := Block();
      PropEnd(s, prop, toks, j);
      var was, n := Align4(Load32(s[prop + 4..])), Align4(|val|);
      err := SpliceStruct(prop + 12, was, n);
      if err != 0 { return; }
      ghost var gap := structs;
      Write(prop + 4, Be32(|val|));
      Write(prop + 12, val);
      ghost var t := Prop(ts[j].nameoff, val);
      SetHolds(s, gap, strings, prop, was, n, name, val, ts, es, j);
      toks, events := ts[..j] + [t] + ts[j + 1..], es[..j] + [Event.Property(name, val)] + es[j + 1..];
    }

    /** The part of `fdt_setprop` for a property the node has. */
    method ResizeProperty(nodeoffset: nat, name: seq<byte>, val: seq<byte>, ghost i: nat)
      returns (err: int, ghost j: nat)
      requires Valid() && Ordered() && At(structs, nodeoffset, toks, i) && |val| <= INT_MAX / 2
      modifies this
      ensures Valid() && Ordered() && strings == old(strings) && (err != 0 ==> unchanged(this))
      ensures err == 0 || err == ERR_NOSPACE ==> FirstNamed(old(toks), i, j, strings, name)
      ensures err == ERR_BADOFFSET <==> !IsBegin(old(toks), i)
      ensures err == ERR_NOTFOUND || err == ERR_BADSTRUCTURE ==> NoneNamed(old(toks), i, j, strings, name)
      ensures err == ERR_NOTFOUND ==> AfterProps(old(toks), i, j) && j < |old(toks)|
      ensures err == ERR_BADSTRUCTURE ==> j == |old(toks)|
      ensures err == 0 || err == ERR_NOSPACE ==>
        (err == 0 <==> old(Room(Align4(|val|) - Align4(|toks[j].val|))))
      ensures err in {0, ERR_NOSPACE, ERR_NOTFOUND, ERR_BADSTRUCTURE, ERR_BADOFFSET}
      ensures err == 0 ==> events == old(events)[..j] + [Event.Property(name, val)] + old(events)[j + 1..]
    {
      var s := Block();
      var prop;
      BlocksIff(mem, hdr, structs, strings);
      prop, j := GetProperty(Blob(hdr, mem), s, nodeoffset, name, toks, i);
      if prop < 0 { return prop, j; }
      err := SetValue(prop, name, val, j);
    }

    /** `fdt_splice_string_` and the copy of a string behind the strings. */
    method AppendName(name: seq<byte>) returns (err: int)
      requires Valid() && Ordered() && |name| <= INT_MAX / 2
      modifies this`mem, this`hdr, this`strings
      ensures Valid() && Ordered() && (err == 0 || err == ERR_NOSPACE)
      ensures err == 0 <==> old(hdr.offStrings + hdr.sizeStrings) + |name| + 1 <= old(hdr.totalsize)
      ensures err != 0 ==> unchanged(this)
      ensures err == 0 ==> strings == old(strings) + (name + [0]) && hdr == old(hdr).(sizeStrings := |strings|)
    {
      var d, bytes := hdr.offStrings + hdr.sizeStrings, name + [0];
      err := Splice(d, 0, |bytes|);
      if err != 0 { return; }
      NoMove(old(mem), d, |bytes|);
      BlocksMore(mem, hdr, structs, strings, bytes);
      mem := Put(mem, d, bytes);
      hdr := hdr.(sizeStrings := hdr.sizeStrings + |bytes|);
      MoreStrings(structs, strings, bytes, toks, events);
      strings := strings + bytes;
    }

    /** `fdt_find_add_string_`: the offset of a name, added behind the strings when it is not there. */
    method FindAddString(name: seq<byte>) returns (off: int, added: bool)
      requires Valid() && Ordered() && 0 !in name && |name| <= INT_MAX / 2
      modifies this`mem, this`hdr, this`strings
      ensures Valid() && Ordered()
      ensures off < 0 ==> off == ERR_NOSPACE && !old(Room(NameRoom(strings, name)))
      ensures off >= 0 ==> old(Room(NameRoom(strings, name))) && (added <==> !Occurs(old(strings), name))
      ensures off < 0 || !added ==> unchanged(this)
      ensures off >= 0 && added ==> strings == old(strings) + (name + [0])
      ensures off >= 0 && added ==> hdr == old(hdr).(sizeStrings := |strings|)
      ensures off >= 0 ==> off < U32 && StringAt(strings, off) == Some(name)
    {
      BlocksIff(mem, hdr, structs, strings);
      added := false;
      var strtab := mem[hdr.offStrings..hdr.offStrings + hdr.sizeStrings];
      off := FindString(strtab, name);
      if off >= 0 {
        StringIs(strings, off, name);
        assert OccursAt(strings, name, off);
        return;
      }
      assert !Occurs(strings, name);
      off := hdr.sizeStrings;
      var err := AppendName(name);
      if err != 0 { return err, false; }
      added := true;
      NewString(old(strings), name);
    }

    /** `fdt_del_last_string_`: takes back the string just added. */
    method DelLastString(name: seq<byte>, ghost before: seq<byte>)
      requires Ready() && Ordered() && strings == before + (name + [0]) && Holds(structs, before, toks, events)
      modifies this`hdr, this`strings
      ensures Valid() && Ordered() && strings == before && hdr == old(hdr).(sizeStrings := |before|)
    {
      BlocksIff(mem, hdr, structs, strings);
      assert strings[..|before|] == before;
      hdr := hdr.(sizeStrings := hdr.sizeStrings - (|name| + 1));
      strings := before;
      BlocksIff(mem, hdr, structs, strings);
    }

    /** Splices a property in at a place. */
    method InsertProperty(offset: nat, nameoff: u32, name: seq<byte>, val: seq<byte>, ghost e: nat) returns (err: int)
      requires Valid() && Ordered() && At(structs, offset, toks, e) && |val| <= INT_MAX / 2
      requires StringAt(strings, nameoff) == Some(name)
      modifies this`mem, this`hdr, this`structs, this`toks, this`events
      ensures Valid() && Ordered() && (err != 0 ==> err == ERR_NOSPACE && unchanged(this))
      ensures err == 0 <==>
        old(hdr.offStrings + hdr.sizeStrings) + 12 + Align4(|val|) <= old(hdr.totalsize)
      ensures err == 0 ==> events == old(events)[..e] + [Event.Property(name, val)] + old(events)[e..]
    {
      ghost var s := structs;
      var n := 12 + Align4(|val|);
      err := SpliceStruct(offset, 0, n);
      if err != 0 { return; }
      ghost var gap := structs;
      var bytes := PropHeader(|val|, nameoff) + val;
      Write(offset, bytes);
      InsertHolds(s, gap, strings, offset, n, nameoff, name, val, toks, events, e);
      toks := toks[..e] + [Prop(nameoff, val)] + toks[e..];
      events := events[..e] + [Event.Property(name, val)] + events[e..];
    }

    /** The part of `fdt_setprop` for a property the node does not have: it becomes its first. */
    method AddProperty(nodeoffset: nat, name: seq<byte>, val: seq<byte>, ghost i: nat) returns (err: int)
      requires Valid() && Ordered() && At(structs, nodeoffset, toks, i) && |val| <= INT_MAX / 2
      requires 0 !in name && |name| <= INT_MAX / 2
      modifies this
      ensures Valid() && Ordered()
      ensures err == ERR_BADOFFSET <==> !IsBegin(old(toks), i)
      ensures err in {0, ERR_NOSPACE, ERR_BADOFFSET}
      ensures err != 0 ==> hdr == old(hdr) && structs == old(structs) && strings == old(strings)
      ensures err != 0 ==> toks == old(toks) && events == old(events)
      ensures err == 0 <==> IsBegin(old(toks), i) && old(Room(NameRoom(strings, name) + 12 + Align4(|val|)))
      ensures old(strings) <= strings
      ensures err == 0 ==> events == old(events)[..i + 1] + [Event.Property(name, val)] + old(events)[i + 1..]
    {
      var s := Block();
      var nextoffset := CheckNodeOffset(s, nodeoffset, toks, i);
      if nextoffset < 0 { return nextoffset; }
      var namestroff, added := FindAddString(name);
      if namestroff < 0 { return namestroff; }
      err := InsertProperty(nextoffset, namestroff, name, val, i + 1);
      if err != 0 && added { DelLastString(name, old(strings)); }
    }

    /** `fdt_setprop`: replaces the value of the first property so named, or adds one. */
    method SetProp(nodeoffset: nat, name: seq<byte>, val: seq<byte>, ghost i: nat) returns (err: int, ghost j: nat)
      requires Valid() && (Ordered() ==> At(structs, nodeoffset, toks, i))
      requires 0 !in name && |name| <= INT_MAX / 2 && |val| <= INT_MAX / 2
      modifies this
      ensures Valid() && (Ordered() <==> old(Ordered()))
      ensures !Ordered() ==> err == ERR_BADLAYOUT
      ensures Ordered() ==> (err == ERR_BADOFFSET <==> !IsBegin(old(toks), i))
      ensures Ordered() && IsBegin(old(toks), i) ==>
        || (FirstNamed(old(toks), i, j, old(strings), name)
            && err == if old(Room(Align4(|val|) - Align4(|toks[j].val|))) then 0 else ERR_NOSPACE)
        || (NoneNamed(old(toks), i, j, old(strings), name) && AfterProps(old(toks), i, j) && j < |old(toks)|
            && err == if old(Room(NameRoom(strings, name) + 12 + Align4(|val|))) then 0 else ERR_NOSPACE)
        || (NoneNamed(old(toks), i, j, old(strings), name) && j == |old(toks)| && err == ERR_BADSTRUCTURE)
      ensures err != 0 ==> hdr == old(hdr) && structs == old(structs) && strings == old(strings)
      ensures err != 0 ==> toks == old(toks) && events == old(events)
      ensures old(strings) <= strings
      ensures err == 0 && FirstNamed(old(toks), i, j, old(strings), name) ==>
        events == old(events)[..j] + [Event.Property(name, val)] + old(events)[j + 1..]
      ensures err == 0 && !FirstNamed(old(toks), i, j, old(strings), name) ==>
        && AfterProps(old(toks), i, j) && NoneNamed(old(toks), i, j, old(strings), name)
        && events == old(events)[..i + 1] + [Event.Property(name, val)] + old(events)[i + 1..]
    {
      j := i;
      err := RwProbe();
      if err != 0 { return; }
      err, j := ResizeProperty(nodeoffset, name, val, i);
      if err == ERR_NOTFOUND { err := AddProperty(nodeoffset, name, val, i); }
    }
  }
}
