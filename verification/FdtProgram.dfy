/** Whole programs of the writer: what they leave is what they wrote, and they fail only for want of space. */
module FdtProgram {
  import opened Common
  import opened FdtTokens
  import opened FdtParse
  import opened FdtReserve
  import opened FdtBlob
  import opened FdtFormat
  import opened FdtDraft
  import opened FdtCheck
  import opened FdtRoundTrip
  import opened FdtWriter

  /** What a program may write: C strings as names, and values whose length is an `int`. */
  predicate Legal(e: Event) {
    match e
    case NodeBegin(name) => 0 !in name
    case NodeEnd => true
    case Property(name, val) => 0 !in name && |val| <= INT_MAX
    case Filler => false
  }

  // ---- how much space a program takes ----

  /** The structure and strings after one call, from those before. */
  ghost function After(d: Sizes, e: Event): Sizes {
    match e
    case NodeBegin(name) => d.(structs := d.structs + 4 + Align4(|name| + 1))
    case NodeEnd => d.(structs := d.structs + 4)
    case Property(name, val) =>
      d.(structs := d.structs + 12 + Align4(|val|), strings := (if AddsTo(d, name) then name + [0] else []) + d.strings)
    case Filler => d
  }

  ghost predicate AddsTo(d: Sizes, name: seq<byte>) {
    d.flags % 2 == NO_NAME_DEDUP || !Occurs(d.strings, name)
  }

  ghost function AfterAll(d: Sizes, es: seq<Event>): Sizes {
    if es == [] then d else After(AfterAll(d, es[..|es| - 1]), es[|es| - 1])
  }

  /** The structure block still misses its end tag. */
  ghost predicate Fit(d: Sizes) {
    d.offStruct + d.structs + 4 + |d.strings| <= d.total
  }

  /** More calls never take less space. */
  lemma {:induction false} FitBefore(d: Sizes, es: seq<Event>, i: nat)
    requires i <= |es| && Fit(AfterAll(d, es))
    ensures Fit(AfterAll(d, es[..i]))
    decreases |es|
  {
    if i == |es| {
      assert es[..i] == es;
    } else {
      var rest := es[..|es| - 1];
      FitBefore(d, rest, i);
      assert rest[..i] == es[..i];
    }
  }

  lemma {:induction false} AfterNext(d: Sizes, es: seq<Event>, i: nat)
    requires i < |es|
    ensures AfterAll(d, es[..i + 1]) == After(AfterAll(d, es[..i]), es[i])
  {
    assert es[..i + 1][..i] == es[..i];
  }

  // ---- running a program ----

  /** One call. It fails, or goes astray, only when its outcome would not fit. */
  method Call(w: Writer, e: Event) returns (ok: bool)
    requires w.Open() && Legal(e)
    modifies w
    ensures ok ==> w.Open() && w.events == old(w.events) + [e] && w.reserves == old(w.reserves)
    ensures ok ==> w.Measure() == After(old(w.Measure()), e) && (old(w.Clean()) ==> w.Clean())
    ensures !ok ==> !Fit(After(old(w.Measure()), e))
  {
    var err;
    match e {
      case NodeBegin(name) =>
        var err', astray := w.BeginNode(name);
        return !astray && err' == 0;
      case NodeEnd =>
        err := w.EndNode();
        return err == 0;
      case Property(name, val) =>
        ok := CallProperty(w, name, val);
    }
  }

  method CallProperty(w: Writer, name: seq<byte>, val: seq<byte>) returns (ok: bool)
    requires w.Open() && 0 !in name && |val| <= INT_MAX
    modifies w
    ensures ok ==> w.Open() && w.events == old(w.events) + [Event.Property(name, val)] && w.reserves == old(w.reserves)
    ensures ok ==> w.Measure() == After(old(w.Measure()), Event.Property(name, val))
    ensures ok && old(w.Clean()) ==> w.Clean()
    ensures !ok ==> !Fit(After(old(w.Measure()), Event.Property(name, val)))
  {
    assert w.Adds(name) == AddsTo(w.Measure(), name);
    Held(w, name);
    var err, astray := w.Property(name, val);
    ok := !astray && err == 0;
  }

  /** A name that fits does not go astray. */
  lemma {:induction false} Held(w: Writer, name: seq<byte>)
    requires w.Open()
    ensures w.GoesAstray(name) ==> w.Adds(name) && w.offStruct + w.sizeStruct + w.sizeStrings + |name| + 1 > w.totalsize
  {
    if w.lastComp % 2 != NO_NAME_DEDUP && Occurs(w.Strings(), name) {
      var k: nat :| OccursAt(w.Strings(), name, k);
      assert |name| < |w.Strings()|;
    }
  }

  /** The reserve map, and its end. */
  method Reserves(w: Writer, rs: seq<Reserve>) returns (ok: bool)
    requires w.Valid() && w.Reserving() && w.Clean() && w.reserves == [] && w.offStruct == HEADER_SIZE
    modifies w
    ensures ok <==> HEADER_SIZE + 16 * (|rs| + 1) <= old(|w.buf|)
    ensures ok ==> w.Open() && w.Clean() && w.events == [] && w.reserves == rs
    ensures ok ==> w.Measure() == Sizes(old(|w.buf|), HEADER_SIZE + 16 * (|rs| + 1), 0, [], old(w.lastComp))
  {
    var i := 0;
    while i < |rs|
      invariant i <= |rs| && w.Valid() && w.Reserving() && w.Clean() && w.reserves == rs[..i]
      invariant w.offStruct == HEADER_SIZE + 16 * i && |w.buf| == old(|w.buf|) && w.lastComp == old(w.lastComp)
    {
      var err := w.AddReservemapEntry(rs[i].address, rs[i].size);
      if err != 0 { return false; }
      i := i + 1;
    }
    var err := w.FinishReservemap();
    ok := err == 0;
  }

  /** The nodes and properties. */
  method Tree(w: Writer, es: seq<Event>) returns (ok: bool)
    requires w.Open() && w.Clean() && w.events == [] && forall i :: 0 <= i < |es| ==> Legal(es[i])
    modifies w
    ensures ok ==> w.Open() && w.Clean() && w.events == es && w.reserves == old(w.reserves)
    ensures ok ==> w.Measure() == AfterAll(old(w.Measure()), es)
    ensures !ok ==> !Fit(AfterAll(old(w.Measure()), es))
  {
    ghost var d := w.Measure();
    var i := 0;
    while i < |es|
      invariant i <= |es| && w.Open() && w.Clean() && w.events == es[..i] && w.reserves == old(w.reserves)
      invariant w.Measure() == AfterAll(d, es[..i])
    {
      AfterNext(d, es, i);
      ok := Call(w, es[i]);
      if !ok {
        if Fit(AfterAll(d, es)) { FitBefore(d, es, i + 1); }
        return;
      }
      i := i + 1;
    }
    assert es[..i] == es;
    ok := true;
  }

  /** Writes a blob and validates it. It succeeds exactly when the blob fits into the buffer; then a walk over
      it sees the calls, the reserve entries are read back, and the validator accepts it exactly when the
      calls form one unnamed root. */
  method Write(buf: seq<byte>, flags: nat, rs: seq<Reserve>, es: seq<Event>) returns (ok: bool, b: Blob, check: int)
    requires |buf| < INT_MAX && forall i :: 0 <= i < |es| ==> Legal(es[i])
    ensures var d := Sizes(|buf|, HEADER_SIZE + 16 * (|rs| + 1), 0, [], flags);
      ok <==> flags <= NO_NAME_DEDUP && Fit(AfterAll(d, es))
    ensures ok ==> Fits(b) && Walk(Structs(b), Strings(b)) == Some(es) && ReadsBack(RsvBlock(b), rs)
    ensures ok ==> SpelledOut(Structs(b), es, Strings(b)) && SpellsMap(RsvBlock(b), rs)
    ensures var d := Sizes(|buf|, HEADER_SIZE + 16 * (|rs| + 1), 0, [], flags);
      ok ==> Strings(b) == AfterAll(d, es).strings
    ensures ok ==> b.hdr.magic == 0xd00d_feed && b.hdr.version == 17 && b.hdr.lastComp == 16
    ensures ok ==> (check == 0 <==> Rooted(es))
  {
    check := 0;
    b := Blob(Header(0, 0, 0, 0, 0, 0, 0, 0, 0), []);
    ghost var d := Sizes(|buf|, HEADER_SIZE + 16 * (|rs| + 1), 0, [], flags);
    if Fit(AfterAll(d, es)) { FitBefore(d, es, 0); }
    AfterKeeps(d, es);
    var w := new Writer(buf);
    var err := w.Create(flags);
    if err != 0 { return false, b, 0; }
    ok := Reserves(w, rs);
    if !ok { return; }
    ok := Tree(w, es);
    if !ok { return; }
    ok, b, check := Close(w);
  }

  /** Finishes a tree and validates it. */
  method Close(w: Writer) returns (ok: bool, b: Blob, check: int)
    requires w.Open() && w.Clean()
    modifies w
    ensures ok <==> Fit(old(w.Measure()))
    ensures ok ==> Fits(b) && Walk(Structs(b), Strings(b)) == Some(old(w.events))
    ensures ok ==> ReadsBack(RsvBlock(b), old(w.reserves)) && SpellsMap(RsvBlock(b), old(w.reserves))
    ensures ok ==> SpelledOut(Structs(b), old(w.events), Strings(b)) && Strings(b) == old(w.Strings())
    ensures ok ==> b.hdr.magic == 0xd00d_feed && b.hdr.version == 17 && b.hdr.lastComp == 16
    ensures ok ==> (check == 0 <==> Rooted(old(w.events)))
  {
    b, check := Blob(Header(0, 0, 0, 0, 0, 0, 0, 0, 0), []), 0;
    var err := w.Finish();
    ok := err == 0;
    if !ok { return; }
    b := w.Blob();
    RoundTrip(w);
    ReserveMap(w);
    PadsSpelled(Structs(b), w.events, Strings(b));
    MapSpelled(RsvBlock(b), w.reserves);
    check := CheckFull(b);
  }

  /** A blob of `head`, an empty reserve map `rsv`, a structure block and strings. */
  function Assembled(head: seq<byte>, rsv: seq<byte>, tree: seq<byte>, names: seq<byte>): Blob
    requires |head| == 40 && |rsv| == 16 && |tree| == 32 && |names| == 2
  {
    Blob(Header(0xd00d_feed, 90, 56, 88, 40, 17, 16, 2, 32), head + rsv + tree + names)
  }

  lemma {:induction false} AssembledBlocks(head: seq<byte>, rsv: seq<byte>, tree: seq<byte>, names: seq<byte>)
    requires |head| == 40 && |rsv| == 16 && |tree| == 32 && |names| == 2 && rsv[8..] == [0, 0, 0, 0, 0, 0, 0, 0]
    ensures var b := Assembled(head, rsv, tree, names);
      Fits(b) && Structs(b) == tree && Strings(b) == names && MapLength(RsvBlock(b), 0)
  {
    var b := Assembled(head, rsv, tree, names);
    var s := RsvBlock(b);
    assert s == rsv + tree + names;
    assert s[8..16] == rsv[8..];
    ZeroLong(s, 8);
    assert SizeAt(s, 0) == Load64(s[8..]);
  }

  lemma {:induction false} RootedExample(e: Event)
    requires e.Property?
    ensures Rooted([NodeBegin([])] + ([e] + ([NodeEnd] + [])))
  {
    var es := [NodeBegin([])] + ([e] + ([NodeEnd] + []));
    assert es == [NodeBegin([]), e, NodeEnd];
    assert Depth(es, 1) == 1;
    assert Depth(es, 2) == 1;
    assert Depth(es, 3) == 0;
  }

  /** A blob given byte by byte: the validator accepts it. */
  method CheckExample(head: seq<byte>) returns (check: int)
    requires |head| == 40
    ensures check == 0
  {
    var rsv, tree := seq(16, _ => 0), ROOT + (PROPERTY_A + (CLOSE + LAST));
    var b := Assembled(head, rsv, tree, NAMES);
    AssembledBlocks(head, rsv, tree, NAMES);
    ExampleRead();
    RootedExample(Event.Property([97], [7, 8]));
    check := CheckFull(b);
  }

  /** The same tree written: exactly the bytes given. */
  method WriteExample(buf: seq<byte>) returns (ok: bool, tree: seq<byte>, names: seq<byte>, check: int)
    requires 106 <= |buf| < INT_MAX
    ensures ok && check == 0
    ensures tree == ROOT + (PROPERTY_A + (CLOSE + LAST)) && names == NAMES
  {
    var es := [NodeBegin([]), Event.Property([97], [7, 8]), NodeEnd];
    ghost var d := Sizes(|buf|, HEADER_SIZE + 16, 0, [], 0);
    ExampleSizes(d, es);
    var b;
    ok, b, check := Write(buf, 0, [], es);
    RootedExample(es[1]);
    assert es == [NodeBegin([])] + ([es[1]] + ([NodeEnd] + []));
    ExampleWritten(Structs(b));
    tree, names := Structs(b), Strings(b);
  }

  lemma {:induction false} ExampleSizes(d: Sizes, es: seq<Event>)
    requires es == [NodeBegin([]), Event.Property([97], [7, 8]), NodeEnd] && d.strings == [] && d.flags == 0
    ensures AfterAll(d, es) == d.(structs := d.structs + 28, strings := NAMES)
  {
    AfterNext(d, es, 0);
    AfterNext(d, es, 1);
    AfterNext(d, es, 2);
    assert es[..0] == [] && es[..3] == es;
    assert !Occurs([], [97]);
    assert [97] + [0] + [] == NAMES;
  }

  lemma {:induction false} ZeroLong(s: seq<byte>, i: nat)
    requires i + 8 <= |s| && s[i..i + 8] == [0, 0, 0, 0, 0, 0, 0, 0]
    ensures Load64(s[i..]) == 0
  {
    var u := s[i..i + 8];
    assert s[i..i + 4] == u[..4] && s[i + 4..i + 8] == u[4..] && s[i..][4..] == s[i + 4..];
    SmallWord(s, i, 0);
    SmallWord(s, i + 4, 0);
  }

  lemma {:induction false} AfterKeeps(d: Sizes, es: seq<Event>)
    ensures var d' := AfterAll(d, es); d'.total == d.total && d'.offStruct == d.offStruct && d'.flags == d.flags
  {
    if es != [] { AfterKeeps(d, es[..|es| - 1]); }
  }
}
