/** What the unfinished blocks of the sequential writer mean. */
module FdtDraft {
  import opened Common
  import opened FdtTokens
  import opened FdtParse
  import opened FdtChunks
  import opened FdtReserve
  import opened FdtPatch

  const HEADER_SIZE: nat := 48

  // ---- what an unfinished tree means ----

  /** While writing, a name offset counts back from the end of the strings, as a negative 32-bit word. */
  function SwEvent(t: Token, strings: seq<byte>): Option<Event> {
    if !t.Prop? then EventOf(t, strings)
    else if U32 - |strings| <= t.nameoff < U32 then
      EventOf(Prop(|strings| - (U32 - t.nameoff), t.val), strings)
    else None
  }

  ghost predicate Written(structs: seq<byte>, strings: seq<byte>, toks: seq<Token>, events: seq<Event>) {
    && Tokens(structs) == Some(toks) && |toks| == |events|
    && forall i :: 0 <= i < |toks| ==> SwEvent(toks[i], strings) == Some(events[i])
  }

  /** The written blocks hold exactly these calls, folded as `Unfold` explains. */
  ghost predicate Holds(structs: seq<byte>, strings: seq<byte>, toks: seq<Token>, events: seq<Event>) {
    forall k: nat {:trigger Unfold(k)} :: Unfold(k) ==> Written(structs, strings, toks, events)
  }

  ghost predicate Names(t: Token, strings: seq<byte>, e: Event) {
    forall k: nat {:trigger Unfold(k)} :: Unfold(k) ==> SwEvent(t, strings) == Some(e)
  }

  lemma {:induction false} NamesIff(t: Token, strings: seq<byte>, e: Event)
    ensures Names(t, strings, e) <==> SwEvent(t, strings) == Some(e)
  {
    assert Unfold(0);
  }

  lemma {:induction false} HoldsIff(structs: seq<byte>, strings: seq<byte>, toks: seq<Token>, events: seq<Event>)
    ensures Holds(structs, strings, toks, events) <==> Written(structs, strings, toks, events)
  {
    assert Unfold(0);
  }

  /** One more token. */
  lemma {:induction false} HoldsAppend(structs: seq<byte>, strings: seq<byte>, toks: seq<Token>, events: seq<Event>,
                    chunk: seq<byte>, t: Token, e: Event)
    requires Holds(structs, strings, toks, events) && Tokens(chunk) == Some([t]) && Names(t, strings, e)
    ensures Holds(structs + chunk, strings, toks + [t], events + [e])
  {
    HoldsIff(structs, strings, toks, events);
    NamesIff(t, strings, e);
    TokensConcat(structs, chunk);
    HoldsIff(structs + chunk, strings, toks + [t], events + [e]);
  }

  lemma {:induction false} NulShift(x: seq<byte>, s: seq<byte>, i: nat)
    requires i <= |s|
    ensures NulFrom(x + s, |x| + i) == |x| + NulFrom(s, i)
    decreases |s| - i
  {
    if i < |s| && s[i] != 0 { NulShift(x, s, i + 1); }
  }

  /** A new string in front leaves the names already written. */
  lemma {:induction false} SwEventPrepend(t: Token, x: seq<byte>, strings: seq<byte>)
    requires SwEvent(t, strings).Some?
    ensures SwEvent(t, x + strings) == SwEvent(t, strings)
  {
    if t.Prop? {
      var i := |strings| - (U32 - t.nameoff);
      NulShift(x, strings, i);
      var e := NulFrom(strings, i);
      assert (x + strings)[|x| + i..|x| + e] == strings[i..e];
    }
  }

  lemma {:induction false} HoldsPrepend(structs: seq<byte>, x: seq<byte>, strings: seq<byte>, toks: seq<Token>,
                                        events: seq<Event>)
    requires Holds(structs, strings, toks, events)
    ensures Holds(structs, x + strings, toks, events)
  {
    HoldsIff(structs, strings, toks, events);
    HoldsIff(structs, x + strings, toks, events);
    forall i | 0 <= i < |toks| ensures SwEvent(toks[i], x + strings) == Some(events[i]) {
      SwEventPrepend(toks[i], x, strings);
    }
  }

  ghost predicate IsName(strings: seq<byte>, i: nat, name: seq<byte>) {
    forall k: nat {:trigger Unfold(k)} :: Unfold(k) ==> StringAt(strings, i) == Some(name)
  }

  /** A property whose name is at place `i` of the strings. */
  lemma {:induction false} PropNames(strings: seq<byte>, i: nat, name: seq<byte>, val: seq<byte>)
    requires IsName(strings, i, name) && |strings| < U32
    ensures i < |strings| && Names(Prop(U32 - (|strings| - i), val), strings, Event.Property(name, val))
  {
    assert Unfold(0);
    NamesIff(Prop(U32 - (|strings| - i), val), strings, Event.Property(name, val));
  }

  lemma {:induction false} NameIs(strings: seq<byte>, i: nat, name: seq<byte>)
    requires 0 !in name && i + |name| + 1 <= |strings| && strings[i..i + |name| + 1] == name + [0]
    ensures IsName(strings, i, name)
  {
    StringIs(strings, i, name);
  }

  /** Writing a token behind the structure block. */
  lemma {:induction false} EmitHolds(buf: seq<byte>, lo: nat, a: nat, end: nat, bytes: seq<byte>, len: nat, hi: nat,
                                     toks: seq<Token>, events: seq<Event>, t: Token, e: Event)
    requires lo <= a && end == a + len && end <= hi <= |buf| && Image(bytes, len, t)
    requires Holds(buf[lo..a], buf[hi..], toks, events) && Names(t, buf[hi..], e)
    ensures var buf' := Put(buf, a, bytes);
      |buf'| == |buf| && buf'[hi..] == buf[hi..] && Holds(buf'[lo..end], buf'[hi..], toks + [t], events + [e])
  {
    var pad := buf[a + |bytes|..end];
    PutInside(buf, a, bytes, lo, end);
    PutSuffix(buf, a, bytes, hi);
    assert Put(buf, a, bytes)[lo..end] == buf[lo..a] + (bytes + pad);
    HoldsAppend(buf[lo..a], buf[hi..], toks, events, bytes + pad, t, e);
  }

  /** Writing a string in front of the strings block. */
  lemma {:induction false} AddHolds(buf: seq<byte>, lo: nat, a: nat, at: nat, hi: nat, bytes: seq<byte>,
                                    toks: seq<Token>, events: seq<Event>)
    requires lo <= a <= at && at + |bytes| == hi <= |buf| && Holds(buf[lo..a], buf[hi..], toks, events)
    ensures var buf' := Put(buf, at, bytes);
      && |buf'| == |buf| && buf'[..lo] == buf[..lo] && buf'[lo..a] == buf[lo..a]
      && buf'[at..] == bytes + buf[hi..] && Holds(buf'[lo..a], buf'[at..], toks, events)
  {
    PutPrefix(buf, at, bytes, lo);
    PutOutside(buf, at, bytes, lo, a);
    PutIs(buf, at, bytes);
    assert Put(buf, at, bytes)[at..] == bytes + buf[hi..];
    HoldsPrepend(buf[lo..a], bytes, buf[hi..], toks, events);
  }

  // ---- the room test ----

  /** The room test of `fdt_add_string_`, on 32-bit words: whether `need` bytes of strings are refused. */
  predicate Refused(total: nat, top: nat, need: nat) {
    (total + U32 - need % U32) % U32 < top
  }

  /** The sizes for which the test answers as it should: those that fit, and those the subtraction does not
      wrap for or wraps to too little. */
  predicate RoomRight(total: nat, top: nat, need: nat) {
    need + top <= total || total < need % U32 + top <= total + top || need % U32 + top > total + U32
  }

  /** Strings are refused exactly when there is no room for them, if and only if their size is one of these. */
  lemma {:induction false} RoomTest(total: nat, top: nat, need: nat)
    requires top <= total < INT_MAX
    ensures (Refused(total, top, need) <==> need + top > total) <==> RoomRight(total, top, need)
  {
    var o := need % U32;
    if o <= total {
      assert (total + U32 - o) % U32 == total - o by { ModOnce(total - o); }
    }
  }

  lemma {:induction false} ModOnce(x: nat)
    requires x < U32
    ensures (x + U32) % U32 == x
  {
  }

  /** Strings one byte larger than the whole buffer pass the test. */
  lemma RoomExample()
    ensures !Refused(100, 64, 101) && 101 + 64 > 100 && !RoomRight(100, 64, 101)
  {
    assert 101 % U32 == 101;
  }

  // ---- the reserve map ----

  /** The bytes before the structure block hold the header, unread here, and the reserve map. */
  ghost predicate MapIs(head: seq<byte>, rs: seq<Reserve>) {
    forall k: nat {:trigger Unfold(k)} :: Unfold(k) ==> |head| >= HEADER_SIZE && head[HEADER_SIZE..] == MapBytes(rs)
  }

  lemma {:induction false} MapIff(head: seq<byte>, rs: seq<Reserve>)
    ensures MapIs(head, rs) <==> |head| >= HEADER_SIZE && head[HEADER_SIZE..] == MapBytes(rs)
  {
    assert Unfold(0);
  }

  lemma {:induction false} MapExtend(buf: seq<byte>, at: nat, rs: seq<Reserve>, r: Reserve)
    requires at + 16 <= |buf| && MapIs(buf[..at], rs)
    ensures MapIs(Put(buf, at, Entry(r))[..at + 16], rs + [r])
  {
    MapIff(buf[..at], rs);
    var head := Put(buf, at, Entry(r))[..at + 16];
    PutIs(buf, at, Entry(r));
    assert head == buf[..at] + Entry(r);
    assert head[HEADER_SIZE..] == buf[..at][HEADER_SIZE..] + Entry(r);
    assert (rs + [r])[..|rs|] == rs;
    MapIff(head, rs + [r]);
  }

  lemma {:induction false} HoldsNothing(strings: seq<byte>)
    ensures Holds([], strings, [], [])
  {
    HoldsIff([], strings, [], []);
  }

  // ---- finishing ----

  /** Correcting a name offset by the size of the strings turns it from the distance to their end
      into the distance from their start. */
  lemma {:induction false} ShiftedEvents(toks: seq<Token>, strings: seq<byte>, events: seq<Event>)
    requires |toks| == |events| && |strings| < U32
    requires forall i :: 0 <= i < |toks| ==> SwEvent(toks[i], strings) == Some(events[i])
    ensures Events(ShiftAll(toks, |strings|), strings) == Some(events)
  {
    var ts := ShiftAll(toks, |strings|);
    forall i | 0 <= i < |ts| ensures EventOf(ts[i], strings) == Some(events[i]) {
      assert SwEvent(toks[i], strings) == Some(events[i]);
    }
    EventsAre(ts, strings, events);
  }

  /** A walk over the finished blocks sees exactly these events. */
  ghost predicate Sees(structs: seq<byte>, strings: seq<byte>, events: seq<Event>) {
    forall k: nat {:trigger Unfold(k)} :: Unfold(k) ==> Walk(structs, strings) == Some(events)
  }

  lemma {:induction false} SeesIff(structs: seq<byte>, strings: seq<byte>, events: seq<Event>)
    ensures Sees(structs, strings, events) <==> Walk(structs, strings) == Some(events)
  {
    assert Unfold(0);
  }

  lemma {:induction false} FinishedWalk(body: seq<byte>, structs: seq<byte>, strings: seq<byte>,
                                        toks: seq<Token>, events: seq<Event>)
    requires Holds(body, strings, toks, events) && |strings| < U32
    requires AllPatched(structs, toks, |strings|)
    ensures Sees(structs, strings, events)
  {
    HoldsIff(body, strings, toks, events);
    AllPatchedIff(structs, toks, |strings|);
    ShiftedEvents(toks, strings, events);
    SeesIff(structs, strings, events);
  }

  /** The end tag, and the strings moved down to it. */
  lemma {:induction false} EndHolds(buf: seq<byte>, lo: nat, a: nat, end: nat, hi: nat, n: nat,
                                    toks: seq<Token>, events: seq<Event>)
    requires lo <= a && a + 4 == end <= hi && hi + n == |buf| && Holds(buf[lo..a], buf[hi..], toks, events)
    ensures var ended := Put(buf, a, Be32(END));
      var moved := Put(ended, end, ended[hi..]);
      moved[..lo] == buf[..lo] && moved[end..][..n] == buf[hi..] && Patched(moved[lo..end], toks, n, 0, 0)
  {
    var ended := Put(buf, a, Be32(END));
    PutPrefix(buf, a, Be32(END), lo);
    PutSuffix(buf, a, Be32(END), hi);
    PutInside(buf, a, Be32(END), lo, end);
    assert ended[lo..end] == buf[lo..a] + Be32(END);
    var moved := Put(ended, end, ended[hi..]);
    PutPrefix(ended, end, ended[hi..], lo);
    PutOutside(ended, end, ended[hi..], lo, end);
    PutInside(ended, end, ended[hi..], end, end + n);
    assert moved[end..][..n] == moved[end..end + n];
    HoldsIff(buf[lo..a], buf[hi..], toks, events);
    PatchStart(buf[lo..a], toks, n);
  }
}
