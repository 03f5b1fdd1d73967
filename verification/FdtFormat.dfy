/** The bytes of a structure block as section 5.4 of the Devicetree Specification v0.4 gives them, written out: what the
    reader takes for a tree is exactly what the specification says is one. */
module FdtFormat {
  import opened Common
  import opened FdtTokens
  import opened FdtParse
  import opened FdtReserve
  import opened FdtBlob
  import opened FdtPadding

  // ---- words ----

  /** Four bytes, the most significant first. */
  ghost predicate IsWord(s: seq<byte>, n: nat) {
    |s| == 4 && n == 0x100_0000 * s[0] as int + 0x1_0000 * s[1] as int + 0x100 * s[2] as int + s[3] as int
  }

  lemma {:induction false} WordRead(s: seq<byte>, i: nat)
    requires i + 4 <= |s|
    ensures IsWord(s[i..i + 4], Load32(s[i..]))
  {
    Load32Is(s[i..]);
  }

  lemma {:induction false} WordWritten(n: nat)
    requires n < 0x1_0000_0000
    ensures IsWord(Be32(n), n)
  {
    LoadBe32(n, []);
    assert Be32(n) + [] == Be32(n);
    WordRead(Be32(n), 0);
    assert Be32(n)[0..4] == Be32(n) && Be32(n)[0..] == Be32(n);
  }

  lemma {:induction false} Digits(a: nat, b: byte, c: nat, d: byte)
    requires 0x100 * a + b as int == 0x100 * c + d as int
    ensures a == c && b == d
  {
  }

  /** Different bytes are different words. */
  lemma {:induction false} WordUnique(s: seq<byte>, u: seq<byte>, n: nat)
    requires IsWord(s, n) && IsWord(u, n)
    ensures s == u
  {
    var a, b := 0x100 * s[0] as int + s[1] as int, 0x100 * u[0] as int + u[1] as int;
    var c, d := 0x100 * a + s[2] as int, 0x100 * b + u[2] as int;
    Digits(c, s[3], d, u[3]);
    Digits(a, s[2], b, u[2]);
    Digits(s[0], s[1], u[0], u[1]);
  }

  /** The word of one small byte. */
  lemma {:induction false} SmallWord(s: seq<byte>, i: nat, d: byte)
    requires i + 4 <= |s|
    ensures s[i..i + 4] == [0, 0, 0, d] <==> Load32(s[i..]) == d
  {
    WordRead(s, i);
    assert IsWord([0, 0, 0, d], d);
    if Load32(s[i..]) == d { WordUnique(s[i..i + 4], [0, 0, 0, d], d); }
  }

  // ---- tokens ----

  /** A name with its NUL at place `off` of the strings. */
  ghost predicate NamedAt(strings: seq<byte>, off: nat, name: seq<byte>) {
    off + |name| < |strings| && strings[off..off + |name|] == name && strings[off + |name|] == 0 && 0 !in name
  }

  lemma {:induction false} NamedIff(strings: seq<byte>, off: nat, name: seq<byte>)
    ensures NamedAt(strings, off, name) <==> StringAt(strings, off) == Some(name)
  {
    if NamedAt(strings, off, name) {
      assert strings[off..off + |name| + 1] == name + [0];
      StringIs(strings, off, name);
    }
  }

  ghost predicate HasName(s: seq<byte>, strings: seq<byte>, name: seq<byte>) {
    exists off: nat :: IsWord(s, off) && NamedAt(strings, off, name)
  }

  /** `s` are the bytes of one token, padded to four bytes with anything. */
  ghost predicate Spells(s: seq<byte>, e: Event, strings: seq<byte>) {
    && |s| % 4 == 0
    && match e
       case NodeBegin(name) =>
         && 5 + |name| <= |s| < 9 + |name| && s[..4] == [0, 0, 0, 1]
         && s[4..4 + |name|] == name && s[4 + |name|] == 0 && 0 !in name
       case NodeEnd => s == [0, 0, 0, 2]
       case Property(name, val) =>
         && 12 + |val| <= |s| < 16 + |val| && s[..4] == [0, 0, 0, 3]
         && IsWord(s[4..8], |val|) && HasName(s[8..12], strings, name) && s[12..12 + |val|] == val
       case Filler => s == [0, 0, 0, 4]
  }

  /** A structure block: the tokens one after the other, and the end token. */
  ghost predicate SpellsAll(s: seq<byte>, es: seq<Event>, strings: seq<byte>)
    decreases |es|
  {
    if es == [] then |s| >= 4 && s[..4] == [0, 0, 0, 9]
    else exists n: nat {:trigger s[n..]} :: 0 < n <= |s| && Spells(s[..n], es[0], strings)
           && SpellsAll(s[n..], es[1..], strings)
  }

  /** The first token of `s` takes `n` bytes and is event `e`. */
  ghost predicate Reads(s: seq<byte>, e: Event, strings: seq<byte>, n: nat) {
    First(s).Some? && Align4(First(s).value.raw) == n && EventOf(First(s).value.tok, strings) == Some(e)
  }

  lemma {:induction false} AlignedTo(m: nat, n: nat)
    ensures n == Align4(m) <==> m <= n < m + 4 && n % 4 == 0
  {
  }

  lemma {:induction false} TakeSlice(s: seq<byte>, n: nat, i: nat, j: nat)
    requires i <= j <= n <= |s|
    ensures s[..n][i..j] == s[i..j]
  {
  }

  lemma {:induction false} BeginSpelled(s: seq<byte>, name: seq<byte>, strings: seq<byte>, n: nat)
    requires n <= |s|
    ensures Reads(s, NodeBegin(name), strings, n) <==> Spells(s[..n], NodeBegin(name), strings)
  {
    var u := s[..n];
    AlignedTo(5 + |name|, n);
    if n == Align4(5 + |name|) {
      TakeSlice(s, n, 0, 4);
      TakeSlice(s, n, 4, 4 + |name|);
      assert u[0..4] == u[..4] && s[4 + |name|] == u[4 + |name|];
      BeginFields(s, name, strings, n);
    } else {
      FirstIs(s);
    }
  }

  lemma {:induction false} BeginFields(s: seq<byte>, name: seq<byte>, strings: seq<byte>, n: nat)
    requires n == Align4(5 + |name|) <= |s|
    ensures Reads(s, NodeBegin(name), strings, n) <==>
      s[0..4] == [0, 0, 0, 1] && s[4..4 + |name|] == name && s[4 + |name|] == 0 && 0 !in name
  {
    FirstIs(s);
    SmallWord(s, 0, 1);
    assert s[0..] == s;
    var e := 4 + |name|;
    if s[4..e] == name && s[e] == 0 && 0 !in name {
      assert forall k :: 0 <= k < |name| ==> s[4 + k] == name[k];
      assert NulFrom(s, 4) == e;
    }
  }

  lemma {:induction false} PropertySpelled(s: seq<byte>, name: seq<byte>, val: seq<byte>, strings: seq<byte>, n: nat)
    requires n <= |s|
    ensures Reads(s, Property(name, val), strings, n) <==> Spells(s[..n], Property(name, val), strings)
  {
    var u := s[..n];
    AlignedTo(12 + |val|, n);
    if n == Align4(12 + |val|) {
      TakeSlice(s, n, 0, 4);
      TakeSlice(s, n, 4, 8);
      TakeSlice(s, n, 8, 12);
      TakeSlice(s, n, 12, 12 + |val|);
      assert u[0..4] == u[..4];
      PropertyFields(s, name, val, strings, n);
    } else {
      FirstIs(s);
    }
  }

  lemma {:induction false} PropertyFields(s: seq<byte>, name: seq<byte>, val: seq<byte>, strings: seq<byte>, n: nat)
    requires n == Align4(12 + |val|) <= |s|
    ensures Reads(s, Property(name, val), strings, n) <==>
      && s[0..4] == [0, 0, 0, 3] && IsWord(s[4..8], |val|)
      && HasName(s[8..12], strings, name) && s[12..12 + |val|] == val
  {
    SmallWord(s, 0, 3);
    assert s[0..] == s;
    WordRead(s, 4);
    WordRead(s, 8);
    NamedIff(strings, Load32(s[8..]), name);
    if Load32(s) == 3 && Load32(s[4..]) == |val| { FirstIsProp(s, |val|); }
    if Reads(s, Property(name, val), strings, n) { FirstProp(s); }
  }

  lemma {:induction false} OtherSpelled(s: seq<byte>, e: Event, strings: seq<byte>, n: nat)
    requires n <= |s| && (e == NodeEnd || e == Filler)
    ensures Reads(s, e, strings, n) <==> Spells(s[..n], e, strings)
  {
    FirstIs(s);
    if |s| >= 4 {
      SmallWord(s, 0, 2);
      SmallWord(s, 0, 4);
    }
    assert s[0..] == s;
    if n == 4 { assert s[0..4] == s[..n]; }
  }

  lemma {:induction false} TokenSpelled(s: seq<byte>, e: Event, strings: seq<byte>, n: nat)
    requires n <= |s|
    ensures Reads(s, e, strings, n) <==> Spells(s[..n], e, strings)
  {
    match e
    case NodeBegin(name) => BeginSpelled(s, name, strings, n);
    case Property(name, val) => PropertySpelled(s, name, val, strings, n);
    case _ => OtherSpelled(s, e, strings, n);
  }

  // ---- whole blocks ----

  lemma {:induction false} WalkNext(s: seq<byte>, es: seq<Event>, strings: seq<byte>)
    requires es != []
    ensures Walk(s, strings) == Some(es) <==>
      First(s).Some? && var n := Align4(First(s).value.raw);
        n <= |s| && Reads(s, es[0], strings, n) && Walk(s[n..], strings) == Some(es[1..])
  {
    if |s| >= 4 { FirstTag(s); }
    if First(s).Some? && Align4(First(s).value.raw) <= |s| {
      var n, tok := Align4(First(s).value.raw), First(s).value.tok;
      if ToEnd(s[n..]).Some? {
        var ts := ToEnd(s[n..]).value;
        assert ([tok] + ts)[1..] == ts;
        assert es == [es[0]] + es[1..];
        if Walk(s, strings) == Some(es) { assert Events(ts, strings).value == es[1..]; }
      }
    }
  }

  /** A walk over a structure block sees exactly the events whose bytes, in the order and form of the specification, it
      consists of. */
  lemma {:induction false} FormatExactly(s: seq<byte>, es: seq<Event>, strings: seq<byte>)
    ensures Walk(s, strings) == Some(es) <==> SpellsAll(s, es, strings)
    decreases |es|
  {
    if es == [] {
      if |s| >= 4 {
        SmallWord(s, 0, 9);
        assert s[0..4] == s[..4] && s[0..] == s;
      }
    } else {
      WalkNext(s, es, strings);
      if Walk(s, strings) == Some(es) {
        var n := Align4(First(s).value.raw);
        TokenSpelled(s, es[0], strings, n);
        FormatExactly(s[n..], es[1..], strings);
      }
      if SpellsAll(s, es, strings) {
        var n: nat :| 0 < n <= |s| && Spells(s[..n], es[0], strings) && SpellsAll(s[n..], es[1..], strings);
        TokenSpelled(s, es[0], strings, n);
        FormatExactly(s[n..], es[1..], strings);
      }
    }
  }

  // ---- padding ----

  /** `s` are the bytes of one token, padded with zeros. */
  ghost predicate SpellsOut(s: seq<byte>, e: Event, strings: seq<byte>) {
    && Spells(s, e, strings)
    && (e.NodeBegin? ==> forall k :: 5 + |e.name| <= k < |s| ==> s[k] == 0)
    && (e.Property? ==> forall k :: 12 + |e.val| <= k < |s| ==> s[k] == 0)
  }

  /** A structure block with zeros for padding and nothing behind its end. */
  ghost predicate SpelledOut(s: seq<byte>, es: seq<Event>, strings: seq<byte>)
    decreases |es|
  {
    if es == [] then s == [0, 0, 0, 9]
    else exists n: nat {:trigger s[n..]} :: 0 < n <= |s| && SpellsOut(s[..n], es[0], strings)
           && SpelledOut(s[n..], es[1..], strings)
  }

  lemma {:induction false} PadsSpelled(s: seq<byte>, es: seq<Event>, strings: seq<byte>)
    requires Walk(s, strings) == Some(es) && Pads(s)
    ensures SpelledOut(s, es, strings)
    decreases |es|
  {
    if es == [] {
      SmallWord(s, 0, 9);
      assert s[0..4] == s && s[0..] == s;
    } else {
      WalkNext(s, es, strings);
      var n := Align4(First(s).value.raw);
      TokenSpelled(s, es[0], strings, n);
      FirstRaw(s);
      FirstTag(s);
      PadsSpelled(s[n..], es[1..], strings);
      assert SpellsOut(s[..n], es[0], strings);
    }
  }

  /** The tag the scanner reports is the word at the offset. */
  lemma {:induction false} TagIsWord(s: seq<byte>, off: nat)
    requires NextTagAt(s, off).1 >= 0
    ensures off + 4 <= |s| && IsWord(s[off..off + 4], NextTagAt(s, off).0)
    ensures NextTagAt(s, off).0 in {1, 2, 3, 4, 9}
  {
    WordRead(s, off);
    FirstIs(s[off..]);
  }

  lemma {:induction false} SpellsOn(u: seq<byte>, rest: seq<byte>, e: Event, es: seq<Event>, strings: seq<byte>)
    requires u != [] && Spells(u, e, strings) && SpellsAll(rest, es, strings)
    ensures SpellsAll(u + rest, [e] + es, strings)
  {
    var n := |u|;
    assert (u + rest)[..n] == u && (u + rest)[n..] == rest && ([e] + es)[1..] == es;
  }

  // One unnamed root with a property "a" of the bytes 7 and 8, token by token.
  const ROOT: seq<byte> := [0, 0, 0, 1, 0, 0, 0, 0]
  const PROPERTY_A: seq<byte> := [0, 0, 0, 3, 0, 0, 0, 2, 0, 0, 0, 0, 7, 8, 0, 0]
  const CLOSE: seq<byte> := [0, 0, 0, 2]
  const LAST: seq<byte> := [0, 0, 0, 9]
  const NAMES: seq<byte> := [97, 0]

  lemma {:induction false} ExampleProperty()
    ensures Spells(PROPERTY_A, Property([97], [7, 8]), NAMES)
  {
    var u := PROPERTY_A;
    assert u[4..8] == [0, 0, 0, 2] && u[8..12] == [0, 0, 0, 0] && u[12..14] == [7, 8];
    assert IsWord(u[8..12], 0) && NamedAt(NAMES, 0, [97]);
  }

  lemma {:induction false} ExampleRead()
    ensures Walk(ROOT + (PROPERTY_A + (CLOSE + LAST)), NAMES) ==
      Some([NodeBegin([])] + ([Property([97], [7, 8])] + ([NodeEnd] + [])))
  {
    assert SpellsAll(LAST, [], NAMES);
    SpellsOn(CLOSE, LAST, NodeEnd, [], NAMES);
    ExampleProperty();
    SpellsOn(PROPERTY_A, CLOSE + LAST, Property([97], [7, 8]), [NodeEnd] + [], NAMES);
    SpellsOn(ROOT, PROPERTY_A + (CLOSE + LAST), NodeBegin([]), [Property([97], [7, 8])] + ([NodeEnd] + []), NAMES);
    FormatExactly(ROOT + (PROPERTY_A + (CLOSE + LAST)),
                  [NodeBegin([])] + ([Property([97], [7, 8])] + ([NodeEnd] + [])), NAMES);
  }

  /** What the scanner reports for each of them. */
  lemma {:induction false} ExampleTags()
    ensures var s := ROOT + (PROPERTY_A + (CLOSE + LAST));
      && NextTagAt(s, 0) == (1, 8) && NextTagAt(s, 8) == (3, 24)
      && NextTagAt(s, 24) == (2, 28) && NextTagAt(s, 28) == (9, 32)
  {
    var s := ROOT + (PROPERTY_A + (CLOSE + LAST));
    ExampleProperty();
    assert s[0..8] == ROOT && s[8..24] == PROPERTY_A && s[24..28] == CLOSE && s[28..32] == LAST;
    TagSpelled(s, 0, NodeBegin([]), 8);
    TagSpelled(s, 8, Property([97], [7, 8]), 16);
    TagSpelled(s, 24, NodeEnd, 4);
    SmallWord(s, 28, 9);
    FirstTag(s[28..]);
  }

  lemma {:induction false} TagSpelled(s: seq<byte>, off: nat, e: Event, n: nat)
    requires off + n <= |s| && 4 <= n && off % 4 == 0 && Spells(s[off..off + n], e, NAMES)
    ensures NextTagAt(s, off) ==
      (match e case NodeBegin(_) => 1 case NodeEnd => 2 case Property(_, _) => 3 case Filler => 4, off + n)
  {
    assert s[off..][..n] == s[off..off + n];
    TokenSpelled(s[off..], e, NAMES, n);
    AlignSum(off, First(s[off..]).value.raw);
  }

  /** No other bytes spell the example out. */
  lemma {:induction false} ExampleWritten(s: seq<byte>)
    requires SpelledOut(s, [NodeBegin([]), Property([97], [7, 8]), NodeEnd], NAMES)
    ensures s == ROOT + (PROPERTY_A + (CLOSE + LAST))
  {
    var es := [NodeBegin([]), Property([97], [7, 8]), NodeEnd];
    var n := SpelledFirst(s, es, NAMES);
    RootWritten(s[..n]);
    var m := SpelledFirst(s[n..], es[1..], NAMES);
    PropertyWritten(s[n..][..m]);
    var l := SpelledFirst(s[n..][m..], es[1..][1..], NAMES);
    Joined(s, n, m, l);
  }

  lemma {:induction false} SpelledFirst(s: seq<byte>, es: seq<Event>, strings: seq<byte>) returns (n: nat)
    requires SpelledOut(s, es, strings) && es != []
    ensures 0 < n <= |s| && SpellsOut(s[..n], es[0], strings) && SpelledOut(s[n..], es[1..], strings)
  {
    n :| 0 < n <= |s| && SpellsOut(s[..n], es[0], strings) && SpelledOut(s[n..], es[1..], strings);
  }

  lemma {:induction false} Joined(s: seq<byte>, n: nat, m: nat, l: nat)
    requires n + m + l <= |s|
    ensures s == s[..n] + (s[n..][..m] + (s[n..][m..][..l] + s[n..][m..][l..]))
  {
  }

  lemma {:induction false} RootWritten(u: seq<byte>)
    requires SpellsOut(u, NodeBegin([]), NAMES)
    ensures u == ROOT
  {
    assert u == u[..4] + [u[4], u[5], u[6], u[7]];
  }

  lemma {:induction false} PropertyWritten(u: seq<byte>)
    requires SpellsOut(u, Property([97], [7, 8]), NAMES)
    ensures u == PROPERTY_A
  {
    var off: nat :| IsWord(u[8..12], off) && NamedAt(NAMES, off, [97]);
    WordUnique(u[4..8], [0, 0, 0, 2], 2);
    WordUnique(u[8..12], [0, 0, 0, 0], 0);
    assert u == u[..4] + u[4..8] + u[8..12] + u[12..14] + [u[14], u[15]];
  }

  // ---- the other blocks ----

  /** Eight bytes, the most significant first. */
  ghost predicate IsLong(s: seq<byte>, n: nat) {
    |s| == 8 && exists hi: nat, lo: nat :: IsWord(s[..4], hi) && IsWord(s[4..], lo) && n == 0x1_0000_0000 * hi + lo
  }

  lemma {:induction false} LongRead(s: seq<byte>, i: nat)
    requires i + 8 <= |s|
    ensures IsLong(s[i..i + 8], Load64(s[i..]))
  {
    WordRead(s, i);
    WordRead(s, i + 4);
    var u := s[i..i + 8];
    assert u[..4] == s[i..i + 4] && u[4..] == s[i + 4..i + 8] && s[i..][4..] == s[i + 4..];
    assert IsWord(u[..4], Load32(s[i..])) && IsWord(u[4..], Load32(s[i + 4..]));
  }

  /** A reserve map (section 5.3): for each entry its address and its size, and at the end an entry of size zero. */
  ghost predicate SpellsMap(s: seq<byte>, rs: seq<Reserve>) {
    && 16 * |rs| + 16 <= |s| && IsLong(s[16 * |rs| + 8..16 * |rs| + 16], 0)
    && forall i: nat :: i < |rs| ==>
         IsLong(s[16 * i..16 * i + 8], rs[i].address) && IsLong(s[16 * i + 8..16 * i + 16], rs[i].size)
  }

  lemma {:induction false} MapSpelled(s: seq<byte>, rs: seq<Reserve>)
    requires 16 * |rs| + 16 <= |s| && SizeAt(s, |rs|) == 0
    requires forall i: nat :: i < |rs| ==> SizeAt(s, i) == rs[i].size && AddressAt(s, i) == rs[i].address
    ensures SpellsMap(s, rs)
  {
    LongRead(s, 16 * |rs| + 8);
    forall i: nat | i < |rs|
      ensures IsLong(s[16 * i..16 * i + 8], rs[i].address) && IsLong(s[16 * i + 8..16 * i + 16], rs[i].size)
    {
      LongRead(s, 16 * i);
      LongRead(s, 16 * i + 8);
    }
  }

  /** The error numbers of the library. */
  lemma ErrorNumbers()
    ensures ERR_NOTFOUND == -1 && ERR_EXISTS == -2 && ERR_NOSPACE == -3 && ERR_BADOFFSET == -4 && ERR_BADSTATE == -7
    ensures ERR_TRUNCATED == -8 && ERR_BADMAGIC == -9 && ERR_BADVERSION == -10 && ERR_BADSTRUCTURE == -11
    ensures ERR_BADFLAGS == -18
  {
  }

  /** The header fields of a blob (section 5.2) that readers of version 17 take. */
  lemma HeaderExactly(h: Header)
    ensures HeaderOk(h) <==>
      && h.magic == 0xd00d_feed && h.lastComp <= 17 <= h.version && 40 <= h.totalsize < 0x8000_0000
      && 40 <= h.offRsvmap <= h.totalsize
      && 40 <= h.offStruct && h.offStruct + h.sizeStruct <= h.totalsize
      && 40 <= h.offStrings && h.offStrings + h.sizeStrings <= h.totalsize
  {
  }
}
