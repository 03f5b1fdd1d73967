/** The whole-blob validator. */
module FdtCheck {
  import opened Common
  import opened FdtTokens
  import opened FdtParse
  import opened FdtBlob

  // ---- well-formed trees ----

  /** Nesting depth after the first `k` events. */
  function Depth(es: seq<Event>, k: nat): int
    requires k <= |es|
  {
    if k == 0 then 0
    else Depth(es, k - 1) + (if es[k - 1].NodeBegin? then 1 else if es[k - 1].NodeEnd? then -1 else 0)
  }

  /** Event `k` closes only what is open; a top-level node is unnamed and the last thing in the tree. */
  predicate FitsAt(es: seq<Event>, k: nat)
    requires k < |es|
  {
    && Depth(es, k + 1) >= 0
    && (es[k].NodeBegin? && Depth(es, k) == 0 ==> es[k].name == [])
    && (es[k].NodeEnd? && Depth(es, k + 1) == 0 ==> k + 1 == |es|)
  }

  /** Tags balance, depth never goes negative, and there is at most one top-level node, unnamed. */
  ghost predicate Rooted(es: seq<Event>) {
    Depth(es, |es|) == 0 && forall k: nat :: k < |es| ==> FitsAt(es, k)
  }

  /** What the validator promises of a blob. */
  ghost predicate Accepted(b: Blob) {
    && Fits(b)
    && (exists n: nat :: MapLength(RsvBlock(b), n))
    && Walk(Structs(b), Strings(b)).Some?
    && Rooted(Walk(Structs(b), Strings(b)).value)
    && (b.hdr.totalsize == INT_MAX ==> OnlyFiller(Walk(Structs(b), Strings(b)).value))
  }

  predicate OnlyFiller(es: seq<Event>) {
    forall i :: 0 <= i < |es| ==> es[i] == Filler
  }

  /** Once the top-level node is open it stays open to the last event: there is no second one. */
  lemma {:induction false} OneRoot(es: seq<Event>, i: nat, j: nat)
    requires Rooted(es) && i < j < |es| && es[i].NodeBegin? && Depth(es, i) == 0
    ensures Depth(es, j) >= 1
  {
    if j > i + 1 {
      OneRoot(es, i, j - 1);
      assert FitsAt(es, j - 1);
    }
  }

  // ---- reading tag by tag ----

  lemma {:induction false} DepthPrefix(es: seq<Event>, more: seq<Event>, k: nat)
    requires k <= |es|
    ensures Depth(es + more, k) == Depth(es, k)
  {
    if k > 0 { DepthPrefix(es, more, k - 1); }
  }

  /** The tokens before `off` are `ts`; `off` may lie past the end in the padding of the last one. */
  ghost predicate Reached(s: seq<byte>, ts: seq<Token>, off: nat) {
    && off % 4 == 0
    && ToEnd(s) == (if off <= |s| then Prepend(ts, ToEnd(s[off..])) else None)
  }

  lemma {:induction false} ReachedStart(s: seq<byte>)
    ensures Reached(s, [], 0)
  {
    assert s[0..] == s;
    if ToEnd(s).Some? { assert [] + ToEnd(s).value == ToEnd(s).value; }
  }

  /** One tag further, or nowhere. */
  lemma {:induction false} ReachedStep(s: seq<byte>, ts: seq<Token>, off: nat)
    requires Reached(s, ts, off)
    ensures var (tag, next) := NextTagAt(s, off);
      && (next < 0 ==> ToEnd(s) == None)
      && (next >= 0 ==> off + 4 <= |s|)
      && (next >= 0 && tag == END ==> ToEnd(s) == Some(ts))
      && (next >= 0 && tag != END ==>
            next > off && First(s[off..]).Some? && Reached(s, ts + [First(s[off..]).value.tok], next))
  {
    if off + 4 <= |s| {
      var u := s[off..];
      FirstTag(u);
      if First(u).Some? {
        var item := First(u).value;
        AlignSum(off, item.raw);
        var n := Align4(item.raw);
        if n <= |u| {
          assert u[n..] == s[off + n..];
          if ToEnd(u[n..]).Some? {
            assert ts + ([item.tok] + ToEnd(u[n..]).value) == (ts + [item.tok]) + ToEnd(u[n..]).value;
          }
        }
      } else if Load32(u) == END {
        AlignSum(off, 4);
        assert ts + [] == ts;
      }
    } else if off <= |s| {
      FirstIs(s[off..]);
    }
  }

  /** The events of the tokens read so far. */
  ghost predicate Resolved(ts: seq<Token>, strings: seq<byte>, es: seq<Event>) {
    |es| == |ts| && forall i :: 0 <= i < |ts| ==> EventOf(ts[i], strings) == Some(es[i])
  }

  /** The events of a longer tree start with those already read. */
  lemma {:induction false} Extends(s: seq<byte>, strings: seq<byte>, ts: seq<Token>, off: nat, es: seq<Event>)
    requires Reached(s, ts, off) && Resolved(ts, strings, es)
    ensures Walk(s, strings).Some? ==>
      |es| <= |Walk(s, strings).value| && Walk(s, strings).value[..|es|] == es
  {
    if Walk(s, strings).Some? {
      var all := ToEnd(s).value;
      var full := Walk(s, strings).value;
      EventsAre(all, strings, full);
      forall i | 0 <= i < |es| ensures full[i] == es[i] {
        assert all[i] == ts[i];
      }
    }
  }

  lemma {:induction false} Whole(s: seq<byte>, strings: seq<byte>, ts: seq<Token>, es: seq<Event>)
    requires ToEnd(s) == Some(ts) && Resolved(ts, strings, es)
    ensures Walk(s, strings) == Some(es)
  {
    EventsAre(ts, strings, es);
  }

  /** A name that does not resolve. */
  lemma {:induction false} Unresolved(s: seq<byte>, strings: seq<byte>, ts: seq<Token>, t: Token, off: nat)
    requires Reached(s, ts + [t], off) && EventOf(t, strings) == None
    ensures Walk(s, strings) == None
  {
    if ToEnd(s).Some? {
      var all := ToEnd(s).value;
      assert all[|ts|] == t;
      forall full | Walk(s, strings) == Some(full) ensures false {
        EventsAre(all, strings, full);
      }
    }
  }

  /** An event that does not fit where it is makes every tree that starts so ill-formed. */
  lemma {:induction false} Misfit(es: seq<Event>, k: nat, full: seq<Event>)
    requires k < |es| <= |full| && full[..|es|] == es && !FitsAt(es, k)
    requires es[k].NodeEnd? && Depth(es, k + 1) == 0 ==> k + 1 < |es|
    ensures !Rooted(full)
  {
    assert full == es + full[|es|..];
    DepthPrefix(es, full[|es|..], k);
    DepthPrefix(es, full[|es|..], k + 1);
    assert full[k] == es[k];
    assert !FitsAt(full, k);
  }

  /** Every event so far fits. */
  ghost predicate Fine(es: seq<Event>) {
    Depth(es, |es|) >= 0 && forall k: nat :: k < |es| ==> FitsAt(es, k)
  }

  /** The top-level node has been closed. */
  predicate Closed(es: seq<Event>) {
    es != [] && es[|es| - 1].NodeEnd? && Depth(es, |es|) == 0
  }

  lemma {:induction false} FineStep(es: seq<Event>, e: Event)
    requires Fine(es) && !Closed(es) && FitsAt(es + [e], |es|)
    ensures Fine(es + [e])
  {
    forall k: nat | k < |es| ensures FitsAt(es + [e], k) {
      assert FitsAt(es, k);
      DepthPrefix(es, [e], k);
      DepthPrefix(es, [e], k + 1);
    }
  }

  /** What token `t` says about the whole tree. */
  lemma {:induction false} Seen(s: seq<byte>, strings: seq<byte>, ts: seq<Token>, t: Token, next: nat, es: seq<Event>)
    requires Reached(s, ts + [t], next) && Resolved(ts, strings, es)
    ensures EventOf(t, strings) == None ==> Walk(s, strings) == None
    ensures EventOf(t, strings).Some? ==>
      var now := es + [EventOf(t, strings).value];
      && Resolved(ts + [t], strings, now)
      && (Walk(s, strings).Some? ==> |now| <= |Walk(s, strings).value| && Walk(s, strings).value[..|now|] == now)
  {
    if EventOf(t, strings) == None {
      Unresolved(s, strings, ts, t, next);
    } else {
      Extends(s, strings, ts + [t], next, es + [EventOf(t, strings).value]);
    }
  }

  /** No tree that starts with `now` is well-formed. */
  lemma {:induction false} NoTree(s: seq<byte>, strings: seq<byte>, now: seq<Event>, k: nat)
    requires Walk(s, strings).Some? ==> |now| <= |Walk(s, strings).value| && Walk(s, strings).value[..|now|] == now
    requires k < |now| && !FitsAt(now, k) && (now[k].NodeEnd? && Depth(now, k + 1) == 0 ==> k + 1 < |now|)
    ensures Walk(s, strings).Some? ==> !Rooted(Walk(s, strings).value)
  {
    if Walk(s, strings).Some? { Misfit(now, k, Walk(s, strings).value); }
  }

  lemma {:induction false} NotFiller(s: seq<byte>, strings: seq<byte>, now: seq<Event>)
    requires Walk(s, strings).Some? ==> |now| <= |Walk(s, strings).value| && Walk(s, strings).value[..|now|] == now
    requires now != [] && now[|now| - 1] != Filler
    ensures Walk(s, strings).Some? ==> !OnlyFiller(Walk(s, strings).value)
  {
    if Walk(s, strings).Some? { assert Walk(s, strings).value[|now| - 1] == now[|now| - 1]; }
  }

  lemma {:induction false} FillerDepth(es: seq<Event>, k: nat)
    requires OnlyFiller(es) && k <= |es|
    ensures Depth(es, k) == 0
  {
    if k > 0 { FillerDepth(es, k - 1); }
  }

  /** The structure block of a blob holds a well-formed tree. */
  ghost predicate TreeOk(b: Blob)
    requires Fits(b)
  {
    && Walk(Structs(b), Strings(b)).Some? && Rooted(Walk(Structs(b), Strings(b)).value)
    && (b.hdr.totalsize == INT_MAX ==> OnlyFiller(Walk(Structs(b), Strings(b)).value))
  }

  /** What is known when token `t` has been read behind the events `es`. */
  ghost predicate Reading(b: Blob, t: Token, es: seq<Event>)
    requires Fits(b)
  {
    var walk, e := Walk(Structs(b), Strings(b)), EventOf(t, Strings(b));
    && Fine(es) && (b.hdr.totalsize == INT_MAX ==> OnlyFiller(es))
    && (e == None ==> walk == None)
    && (e.Some? && walk.Some? ==> |es| < |walk.value| && walk.value[..|es| + 1] == es + [e.value])
  }

  /** The checks of one node begin. */
  method VisitBegin(b: Blob, offset: nat, depth: nat, ghost name: seq<byte>, ghost es: seq<Event>) returns (err: int)
    requires Fits(b) && Reading(b, Begin(name), es) && !Closed(es) && depth == Depth(es, |es|) < INT_MAX
    requires offset % 4 == 0 && offset + 4 <= |Structs(b)| && First(Structs(b)[offset..]).Some?
    requires First(Structs(b)[offset..]).value.tok == Begin(name)
    ensures err != 0 ==> !TreeOk(b)
    ensures err == 0 ==> FitsAt(es + [NodeBegin(name)], |es|) && b.hdr.totalsize != INT_MAX
  {
    ghost var now := es + [NodeBegin(name)];
    DepthPrefix(es, [NodeBegin(name)], |es|);
    if b.hdr.totalsize == INT_MAX { NotFiller(Structs(b), Strings(b), now); }
    if depth + 1 > INT_MAX { return ERR_BADSTRUCTURE; }
    err := 0;
    if depth == 0 {
      var found;
      err, found := GetName(b, offset);
      if err != 0 { return; }
      if found != [] {
        NoTree(Structs(b), Strings(b), now, |es|);
        return ERR_BADSTRUCTURE;
      }
    } else if b.hdr.totalsize == INT_MAX {
      FillerDepth(es, |es|);
    }
  }

  /** The check of a node end. */
  method VisitEnd(b: Blob, depth: nat, ghost es: seq<Event>) returns (err: int)
    requires Fits(b) && Reading(b, EndNode, es) && !Closed(es) && depth == Depth(es, |es|)
    ensures err != 0 ==> !TreeOk(b)
    ensures err == 0 ==> depth > 0 && FitsAt(es + [NodeEnd], |es|) && b.hdr.totalsize != INT_MAX
  {
    DepthPrefix(es, [NodeEnd], |es|);
    if depth == 0 {
      NoTree(Structs(b), Strings(b), es + [NodeEnd], |es|);
      return ERR_BADSTRUCTURE;
    }
    if b.hdr.totalsize == INT_MAX { FillerDepth(es, |es|); }
    err := 0;
  }

  /** The check of a property: its name. */
  method VisitProp(b: Blob, offset: nat, ghost t: Token, ghost es: seq<Event>) returns (err: int)
    requires Fits(b) && t.Prop? && Reading(b, t, es) && !Closed(es)
    requires offset + 4 <= |Structs(b)| && First(Structs(b)[offset..]).Some?
    requires First(Structs(b)[offset..]).value.tok == t
    ensures err != 0 ==> !TreeOk(b)
    ensures err == 0 ==> EventOf(t, Strings(b)).Some? && b.hdr.totalsize != INT_MAX
    ensures err == 0 ==> FitsAt(es + [EventOf(t, Strings(b)).value], |es|)
  {
    var s := b.mem[b.hdr.offStruct..b.hdr.offStruct + b.hdr.sizeStruct];
    FirstProp(s[offset..]);
    var name;
    err, name := GetString(b, Load32(s[offset..][8..]));
    ghost var e := EventOf(t, Strings(b));
    if e.Some? {
      DepthPrefix(es, [e.value], |es|);
      if err != 0 && b.hdr.totalsize == INT_MAX { NotFiller(s, Strings(b), es + [e.value]); }
    }
  }

  /** Nothing may follow the end of the top-level node. */
  lemma {:induction false} AfterEnd(b: Blob, t: Token, es: seq<Event>)
    requires Fits(b) && Reading(b, t, es) && Closed(es)
    ensures !TreeOk(b)
  {
    var e := EventOf(t, Strings(b));
    if e.Some? {
      DepthPrefix(es, [e.value], |es|);
      DepthPrefix(es, [e.value], |es| - 1);
      NoTree(Structs(b), Strings(b), es + [e.value], |es| - 1);
    }
  }

  /** One more event that fits. */
  lemma {:induction false} OneMore(es: seq<Event>, e: Event)
    requires Fine(es) && !Closed(es) && FitsAt(es + [e], |es|)
    ensures Fine(es + [e])
    ensures Depth(es + [e], |es| + 1)
      == Depth(es, |es|) + (if e.NodeBegin? then 1 else if e.NodeEnd? then -1 else 0)
    ensures Closed(es + [e]) <==> e.NodeEnd? && Depth(es + [e], |es| + 1) == 0
  {
    FineStep(es, e);
    DepthPrefix(es, [e], |es|);
  }

  /** One token: what it does to the depth, and whether only the end tag may follow. */
  method Visit(b: Blob, offset: nat, tag: nat, depth: nat, ghost t: Token, ghost es: seq<Event>)
    returns (err: int, depth': nat, expectEnd: bool)
    requires Fits(b) && Reading(b, t, es) && !Closed(es) && depth == Depth(es, |es|) < INT_MAX && t.Tag() == tag
    requires offset % 4 == 0 && offset + 4 <= |Structs(b)| && First(Structs(b)[offset..]).Some?
    requires First(Structs(b)[offset..]).value.tok == t
    ensures err != 0 ==> !TreeOk(b)
    ensures err == 0 ==> EventOf(t, Strings(b)).Some? && depth' <= depth + 1
    ensures err == 0 ==>
      var now := es + [EventOf(t, Strings(b)).value];
      && Fine(now) && depth' == Depth(now, |now|) && expectEnd == Closed(now)
      && (b.hdr.totalsize == INT_MAX ==> OnlyFiller(now))
  {
    err, depth', expectEnd := 0, depth, false;
    if tag == BEGIN_NODE {
      err := VisitBegin(b, offset, depth, t.name, es);
      if err != 0 { return; }
      depth' := depth + 1;
    } else if tag == END_NODE {
      err := VisitEnd(b, depth, es);
      if err != 0 { return; }
      depth' := depth - 1;
      if depth' == 0 { expectEnd := true; }
    } else if tag == PROP {
      err := VisitProp(b, offset, t, es);
      if err != 0 { return; }
    } else {
      DepthPrefix(es, [Filler], |es|);
    }
    OneMore(es, EventOf(t, Strings(b)).value);
  }

  /** The loop of `fdt_check_full`: offset, depth and the flag that the end tag must follow. */
  method CheckTree(b: Blob) returns (err: int)
    requires Fits(b)
    ensures err == 0 <==> TreeOk(b)
  {
    var s := b.mem[b.hdr.offStruct..b.hdr.offStruct + b.hdr.sizeStruct];
    ghost var strings := Strings(b);
    var nextoffset, depth, expectEnd := 0, 0, false;
    ghost var ts: seq<Token>, es: seq<Event> := [], [];
    ReachedStart(s);
    while true
      invariant 0 <= 4 * depth <= nextoffset <= |s| + 3 && nextoffset % 4 == 0
      invariant Reached(s, ts, nextoffset) && Resolved(ts, strings, es)
      invariant Fine(es) && depth == Depth(es, |es|) && expectEnd == Closed(es)
      invariant b.hdr.totalsize == INT_MAX ==> OnlyFiller(es)
      decreases |s| + 4 - nextoffset
    {
      var offset := nextoffset;
      ReachedStep(s, ts, offset);
      var tag;
      tag, nextoffset := NextTag(s, offset);
      if nextoffset < 0 { return nextoffset; }
      if tag == END {
        Whole(s, strings, ts, es);
        return if depth != 0 then ERR_BADSTRUCTURE else 0;
      }
      ghost var t := First(s[offset..]).value.tok;
      FirstTag(s[offset..]);
      Seen(s, strings, ts, t, nextoffset, es);
      assert Reading(b, t, es);
      if expectEnd {
        AfterEnd(b, t, es);
        return ERR_BADSTRUCTURE;
      }
      err, depth, expectEnd := Visit(b, offset, tag, depth, t, es);
      if err != 0 { return; }
      ts, es := ts + [t], es + [EventOf(t, strings).value];
    }
  }

  /** `fdt_check_full` accepts exactly the blobs that hold one well-formed tree, and it always returns. */
  method CheckFull(b: Blob) returns (err: int)
    requires b.hdr.version >= LAST_VERSION
    ensures err == 0 <==> Accepted(b)
  {
    if |b.mem| < V17_SIZE { return ERR_TRUNCATED; }
    err := CheckHeader(b.hdr);
    if err != 0 { return; }
    if |b.mem| < b.hdr.totalsize { return ERR_TRUNCATED; }
    var n := NumMemRsv(b);
    if n < 0 { return n; }
    err := CheckTree(b);
  }
}
