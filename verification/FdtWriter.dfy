/** The sequential devicetree writer: the structure block grows up from the reserve map,
    the strings block grows down from the end of the buffer, and finishing brings them together. */
module FdtWriter {
  import opened Common
  import opened FdtTokens
  import opened FdtParse
  import opened FdtChunks
  import opened FdtReserve
  import opened FdtPatch
  import opened FdtDraft
  import opened FdtPadding
  import FdtBlob

  const SW_MAGIC: nat := 0x2ff2_0112
  const NO_NAME_DEDUP: nat := 1
  const LAST_COMPATIBLE: nat := 16
  const TERMINATOR: Reserve := Reserve(0, 0)

  datatype Sizes = Sizes(total: nat, offStruct: nat, structs: nat, strings: seq<byte>, flags: nat)

  class Writer {
    var buf: seq<byte>

    // header
    var magic: nat
    var totalsize: nat
    var offStruct: nat
    var offStrings: nat
    var offRsvmap: nat
    var version: nat
    var lastComp: nat
    var sizeStrings: nat
    var sizeStruct: nat

    /** The calls made so far, the tokens they became, and the reserve entries. */
    ghost var events: seq<Event>
    ghost var toks: seq<Token>
    ghost var reserves: seq<Reserve>

    constructor (buf: seq<byte>)
      requires |buf| < INT_MAX
      ensures Valid() && this.buf == buf && magic == 0
    {
      this.buf := buf;
      magic := 0;
    }

    // ---- phases ----

    ghost function Structs(): seq<byte>
      reads this
      requires offStruct + sizeStruct <= |buf|
    {
      buf[offStruct..offStruct + sizeStruct]
    }

    ghost function Strings(): seq<byte>
      reads this
      requires sizeStrings <= |buf|
    {
      buf[|buf| - sizeStrings..]
    }

    ghost predicate Layout()
      reads this
    {
      && totalsize == |buf| < INT_MAX
      && offRsvmap == HEADER_SIZE <= offStruct
      && offStruct + sizeStruct + sizeStrings <= totalsize
      && magic == SW_MAGIC && version == FdtBlob.LAST_VERSION
    }

    /** From `fdt_create` to `fdt_finish_reservemap`. */
    ghost predicate Reserving()
      reads this
    {
      && Layout() && offStrings == 0 && sizeStruct == 0 && sizeStrings == 0 && events == [] && toks == []
      && MapIs(buf[..offStruct], reserves)
    }

    /** From `fdt_finish_reservemap` to `fdt_finish`. */
    ghost predicate Open()
      reads this
    {
      && Layout() && offStrings == totalsize
      && Holds(Structs(), Strings(), toks, events)
      && MapIs(buf[..offStruct], reserves + [TERMINATOR])
    }

    /** The draft is padded with zeros, and free space is zero. */
    ghost predicate Clean()
      reads this
    {
      sizeStrings <= |buf| && Tidy(buf, offStruct, offStruct + sizeStruct, |buf| - sizeStrings)
    }

    /** After `fdt_finish`: a walk over the blob sees exactly the calls made. */
    ghost predicate Finished()
      reads this
    {
      && |buf| < INT_MAX && magic == FdtBlob.MAGIC && version == FdtBlob.LAST_VERSION && lastComp == LAST_COMPATIBLE
      && offRsvmap == HEADER_SIZE <= offStruct && offStrings == offStruct + sizeStruct
      && totalsize == offStrings + sizeStrings <= |buf|
      && Sees(Structs(), buf[offStrings..totalsize], events)
      && MapIs(buf[..offStruct], reserves + [TERMINATOR])
    }

    /** The finished blob, as a reader is given it. */
    function Blob(): FdtBlob.Blob
      reads this
      requires Finished()
    {
      FdtBlob.Blob(FdtBlob.Header(magic, totalsize, offStruct, offStrings, offRsvmap,
                                  version, lastComp, sizeStrings, sizeStruct), buf)
    }

    ghost predicate Valid()
      reads this
    {
      && |buf| < INT_MAX
      && (magic == SW_MAGIC && offStrings == totalsize ==> Open())
      && (magic == SW_MAGIC && offStrings != totalsize ==> Reserving())
      && (magic == FdtBlob.MAGIC ==> Finished())
    }

    /** The error of a call made in another phase. */
    ghost function WrongPhase(): int
      reads this
    {
      if magic == FdtBlob.MAGIC || magic == SW_MAGIC then ERR_BADSTATE else ERR_BADMAGIC
    }

    method Probe() returns (err: int)
      ensures err == 0 <==> magic == SW_MAGIC
      ensures err != 0 ==> err == WrongPhase()
    {
      if magic == FdtBlob.MAGIC { return ERR_BADSTATE; }
      if magic != SW_MAGIC { return ERR_BADMAGIC; }
      err := 0;
    }

    method ProbeMemrsv() returns (err: int)
      requires Valid()
      ensures err == 0 <==> Reserving()
      ensures err != 0 ==> err == WrongPhase()
    {
      err := Probe();
      if err != 0 { return; }
      if offStrings != 0 { return ERR_BADSTATE; }
    }

    method ProbeStruct() returns (err: int)
      requires Valid()
      ensures err == 0 <==> Open()
      ensures err != 0 ==> err == WrongPhase()
    {
      err := Probe();
      if err != 0 { return; }
      if offStrings != totalsize { return ERR_BADSTATE; }
    }

    // ---- reserve map ----

    method Create(flags: nat) returns (err: int)
      requires |buf| < INT_MAX
      modifies this
      ensures err == 0 <==> HEADER_SIZE <= |buf| && flags <= NO_NAME_DEDUP
      ensures |buf| < HEADER_SIZE ==> err == ERR_NOSPACE
      ensures err == 0 ==> Reserving() && Valid() && reserves == [] && lastComp == flags && |buf| == old(|buf|)
      ensures err == 0 ==> offStruct == HEADER_SIZE && Clean()
      ensures err != 0 ==> unchanged(this)
    {
      if |buf| < HEADER_SIZE { return ERR_NOSPACE; }
      if flags > NO_NAME_DEDUP { return ERR_BADFLAGS; }
      buf := seq(|buf|, _ => 0);
      magic, version, lastComp := SW_MAGIC, FdtBlob.LAST_VERSION, flags;
      totalsize, offRsvmap, offStruct, offStrings := |buf|, HEADER_SIZE, HEADER_SIZE, 0;
      sizeStruct, sizeStrings := 0, 0;
      events, toks, reserves := [], [], [];
      MapIff(buf[..offStruct], []);
      TidyStart(buf, offStruct, |buf|);
      err := 0;
    }

    /** Writes an entry behind the map. */
    method AppendReserve(r: Reserve) returns (err: int)
      requires Reserving()
      modifies this
      ensures Layout() && sizeStruct == 0 && sizeStrings == 0 && events == [] && toks == []
      ensures err == 0 <==> old(offStruct) + 16 <= totalsize
      ensures err == 0 ==> offStruct == old(offStruct) + 16 && |buf| == old(|buf|)
      ensures offStrings == old(offStrings) && lastComp == old(lastComp) && reserves == old(reserves)
      ensures err == 0 ==> MapIs(buf[..offStruct], reserves + [r]) && (old(Clean()) ==> Clean())
      ensures err != 0 ==> err == ERR_NOSPACE && unchanged(this)
    {
      if offStruct + 16 > totalsize { return ERR_NOSPACE; }
      MapExtend(buf, offStruct, reserves, r);
      if Clean() { TidyMoved(buf, offStruct, Entry(r), offStruct + 16, |buf|); }
      buf := Put(buf, offStruct, Entry(r));
      offStruct := offStruct + 16;
      err := 0;
    }

    method AddReservemapEntry(address: u64, size: u64) returns (err: int)
      requires Valid()
      modifies this
      ensures Valid()
      ensures err == 0 <==> old(Reserving()) && old(offStruct) + 16 <= totalsize
      ensures err == 0 ==> Reserving() && reserves == old(reserves) + [Reserve(address, size)]
      ensures err == 0 && old(Clean()) ==> Clean()
      ensures err == 0 ==> offStruct == old(offStruct) + 16 && |buf| == old(|buf|) && lastComp == old(lastComp)
      ensures err != 0 ==> err == (if old(Reserving()) then ERR_NOSPACE else WrongPhase()) && unchanged(this)
    {
      err := ProbeMemrsv();
      if err != 0 { return; }
      err := AppendReserve(Reserve(address, size));
      if err == 0 { reserves := reserves + [Reserve(address, size)]; }
    }

    method FinishReservemap() returns (err: int)
      requires Valid()
      modifies this
      ensures Valid()
      ensures err == 0 <==> old(Reserving()) && old(offStruct) + 16 <= totalsize
      ensures err == 0 ==> Open() && events == [] && reserves == old(reserves)
      ensures err == 0 && old(Clean()) ==> Clean()
      ensures err == 0 ==> offStruct == old(offStruct) + 16 && |buf| == old(|buf|) && lastComp == old(lastComp)
      ensures err == 0 ==> sizeStruct == 0 && sizeStrings == 0
      ensures err != 0 ==> err == (if old(Reserving()) then ERR_NOSPACE else WrongPhase()) && unchanged(this)
    {
      err := ProbeMemrsv();
      if err != 0 { return; }
      err := AppendReserve(TERMINATOR);
      if err != 0 { return; }
      offStrings := totalsize;
      HoldsNothing(Strings());
      assert Structs() == [];
    }

    /** Everything about a draft that its size depends on. */
    ghost function Measure(): Sizes
      reads this
      requires sizeStrings <= |buf|
    {
      Sizes(|buf|, offStruct, sizeStruct, Strings(), lastComp)
    }

    /** The draft is `d` with more structure and with new strings in front. */
    ghost predicate Grew(d: Sizes, n: nat, added: seq<byte>)
      reads this
    {
      sizeStrings <= |buf| && Measure() == d.(structs := d.structs + n, strings := added + d.strings)
    }

    // ---- structure block ----

    method GrabSpace(len: nat) returns (ok: bool, offset: nat)
      requires offStruct + sizeStruct + sizeStrings <= totalsize
      modifies this`sizeStruct
      ensures offset == old(sizeStruct)
      ensures ok == (offStruct + offset + len + sizeStrings <= totalsize)
      ensures sizeStruct == if ok then offset + len else offset
    {
      offset := sizeStruct;
      var spaceleft := totalsize - offStruct - sizeStrings;
      if offset + len > spaceleft { return false, offset; }
      sizeStruct := offset + len;
      ok := true;
    }

    /** Writes a token into the `len` bytes just grabbed at `off`. */
    method Emit(off: nat, bytes: seq<byte>, len: nat, ghost t: Token, ghost e: Event)
      requires Layout() && offStrings == totalsize && sizeStruct == off + len
      requires Holds(buf[offStruct..offStruct + off], Strings(), toks, events)
      requires MapIs(buf[..offStruct], reserves + [TERMINATOR])
      requires Image(bytes, len, t) && Names(t, Strings(), e)
      modifies this`buf, this`toks, this`events
      ensures Open() && events == old(events) + [e]
      ensures Strings() == old(Strings()) && |buf| == old(|buf|)
      ensures old(Tidy(buf, offStruct, offStruct + off, |buf| - sizeStrings)) ==> Clean()
    {
      var at := offStruct + off;
      ghost var lo, end, hi, before := offStruct, offStruct + sizeStruct, |buf| - sizeStrings, buf;
      EmitDraft(buf, lo, at, end, bytes, len, hi, toks, events, t, e);
      buf := Put(buf, at, bytes);
      toks, events := toks + [t], events + [e];
      assert |buf| - sizeStrings == hi && Strings() == buf[hi..] && Structs() == buf[lo..end];
      assert Clean() == Tidy(buf, lo, end, hi);
      assert buf[..lo] == before[..lo];
    }

    /** Grabs space for a token and writes it. */
    method EmitToken(bytes: seq<byte>, len: nat, ghost t: Token, ghost e: Event) returns (err: int)
      requires Open() && Image(bytes, len, t) && Names(t, Strings(), e)
      modifies this`buf, this`toks, this`events, this`sizeStruct
      ensures Open()
      ensures err == 0 <==> offStruct + old(sizeStruct) + len + sizeStrings <= totalsize
      ensures err == 0 ==> events == old(events) + [e] && |buf| == old(|buf|) && (old(Clean()) ==> Clean())
      ensures err == 0 ==> sizeStruct == old(sizeStruct) + len && Strings() == old(Strings())
      ensures err != 0 ==> err == ERR_NOSPACE && unchanged(this)
    {
      var ok, off := GrabSpace(len);
      if !ok { return ERR_NOSPACE; }
      Emit(off, bytes, len, t, e);
      err := 0;
    }

    /** The names for which a node goes wrong: the length is no `int`, and what is left of it fits. */
    ghost predicate NodeAstray(name: seq<byte>)
      reads this
    {
      |name| >= INT_MAX && 0 <= NodeLen(|name|) && offStruct + sizeStruct + NodeLen(|name|) + sizeStrings <= totalsize
    }

    /** `fdt_begin_node`. Where it goes astray nothing is said about the buffer. */
    method BeginNode(name: seq<byte>) returns (err: int, astray: bool)
      requires Valid() && 0 !in name
      modifies this
      ensures astray <==> old(Open()) && old(NodeAstray(name))
      ensures !astray ==> Valid()
      ensures !astray ==> (err == 0 <==>
        old(Open()) && offStruct + old(sizeStruct) + 4 + Align4(|name| + 1) + sizeStrings <= totalsize)
      ensures !astray && err == 0 ==> Open() && events == old(events) + [NodeBegin(name)] && reserves == old(reserves)
      ensures !astray && err == 0 ==> old(Open()) && Grew(old(Measure()), 4 + Align4(|name| + 1), [])
      ensures !astray && err == 0 && old(Clean()) ==> Clean()
      ensures !astray && err != 0 ==> err == (if old(Open()) then ERR_NOSPACE else WrongPhase()) && unchanged(this)
    {
      astray := false;
      err := ProbeStruct();
      if err != 0 { return; }
      var len := NodeLen(|name|);
      if len < 0 || offStruct + sizeStruct + len + sizeStrings > totalsize { return ERR_NOSPACE, false; }
      if |name| >= INT_MAX { return 0, true; }
      BeginImage(name);
      NamesIff(Begin(name), Strings(), NodeBegin(name));
      err := EmitToken(Be32(BEGIN_NODE) + name + [0], len, Begin(name), NodeBegin(name));
    }

    method EndNode() returns (err: int)
      requires Valid()
      modifies this
      ensures Valid()
      ensures err == 0 <==> old(Open()) && offStruct + old(sizeStruct) + 4 + sizeStrings <= totalsize
      ensures err == 0 ==> Open() && events == old(events) + [NodeEnd] && reserves == old(reserves)
      ensures err == 0 ==> old(Open()) && Grew(old(Measure()), 4, [])
      ensures err == 0 && old(Clean()) ==> Clean()
      ensures err != 0 ==> err == (if old(Open()) then ERR_NOSPACE else WrongPhase()) && unchanged(this)
    {
      err := ProbeStruct();
      if err != 0 { return; }
      EndImage();
      NamesIff(Token.EndNode, Strings(), NodeEnd);
      err := EmitToken(Be32(END_NODE), 4, Token.EndNode, NodeEnd);
    }

    // ---- strings block and properties ----

    /** Adds a string in front of the strings; 0 when there is no room, else minus its distance from the end of
        the buffer. The sizes are 32-bit words: where the test for room goes wrong (`RoomTest`) the copy
        goes astray, and nothing is said about the buffer. */
    method AddString(s: seq<byte>) returns (nameoff: int, astray: bool)
      requires Open() && 0 !in s
      modifies this`buf, this`sizeStrings
      ensures astray <==> !RoomRight(totalsize, offStruct + sizeStruct, old(sizeStrings) + |s| + 1)
      ensures !astray ==> Open() && Structs() == old(Structs()) && (old(Clean()) ==> Clean())
      ensures !astray ==> (nameoff == 0 <==> offStruct + sizeStruct + old(sizeStrings) + |s| + 1 > totalsize)
      ensures !astray && nameoff == 0 ==> sizeStrings == old(sizeStrings) && buf == old(buf)
      ensures !astray && nameoff != 0 ==>
        sizeStrings == old(sizeStrings) + |s| + 1 && nameoff + sizeStrings == 0 && Strings() == s + [0] + old(Strings())
    {
      astray := false;
      var len := (|s| + 1) % U32;
      var offset := (sizeStrings + len) % U32;
      var structTop := offStruct + sizeStruct;
      SumWraps(sizeStrings, |s| + 1);
      RoomTest(totalsize, structTop, sizeStrings + |s| + 1);
      if (totalsize + U32 - offset) % U32 < structTop { return 0, false; }
      if sizeStrings + |s| + 1 > totalsize - structTop { return -offset, true; }
      WholeWord(sizeStrings, |s| + 1);
      PlaceString(s, offset);
      nameoff := -offset;
    }

    /** Copies a string to a place `offset` before the end, where there is room. */
    method PlaceString(s: seq<byte>, offset: nat)
      requires Open() && 0 !in s && offset == sizeStrings + |s| + 1 && offStruct + sizeStruct + offset <= totalsize
      modifies this`buf, this`sizeStrings
      ensures Open() && Structs() == old(Structs()) && sizeStrings == offset && Strings() == s + [0] + old(Strings())
      ensures old(Clean()) ==> Clean()
    {
      var at, bytes := totalsize - offset, s + [0];
      ghost var lo, top, hi, before := offStruct, offStruct + sizeStruct, totalsize - sizeStrings, buf;
      AddHolds(buf, lo, top, at, hi, bytes, toks, events);
      TidyString(buf, lo, top, at, bytes, hi);
      buf := Put(buf, at, bytes);
      sizeStrings := offset;
      assert |buf| - sizeStrings == at && Strings() == buf[at..] && Structs() == buf[lo..top];
      assert buf[..lo] == before[..lo];
    }

    /** Whether a name has to be added: it is not there, or names are not shared. */
    ghost predicate Adds(name: seq<byte>)
      reads this
      requires sizeStrings <= |buf|
    {
      lastComp % 2 == NO_NAME_DEDUP || !Occurs(Strings(), name)
    }

    /** The names for which a property goes wrong: one that needs a place the room test gives by mistake,
        and one whose length is no `int` when it is looked up. */
    ghost predicate GoesAstray(name: seq<byte>)
      reads this
      requires sizeStrings <= |buf|
    {
      || (lastComp % 2 != NO_NAME_DEDUP && |name| >= INT_MAX)
      || (Adds(name) && !RoomRight(totalsize, offStruct + sizeStruct, sizeStrings + |name| + 1))
    }

    /** The distance of a name from the end of the buffer, as a negative offset; 0 when there is
        no room for it. Unless switched off, a string that is already there is used again. */
    method NameOffset(name: seq<byte>) returns (nameoff: int, added: bool, astray: bool)
      requires Open() && 0 !in name
      modifies this`buf, this`sizeStrings
      ensures astray <==> old(GoesAstray(name))
      ensures !astray ==> Open() && Structs() == old(Structs()) && added == old(Adds(name))
      ensures !astray && old(Clean()) ==> Clean()
      ensures !astray ==>
        (nameoff == 0 <==> added && offStruct + sizeStruct + old(sizeStrings) + |name| + 1 > totalsize)
      ensures !astray && (nameoff == 0 || !added) ==> buf == old(buf) && sizeStrings == old(sizeStrings)
      ensures !astray && nameoff != 0 && added ==>
        sizeStrings == old(sizeStrings) + |name| + 1 && Strings() == name + [0] + old(Strings())
      ensures !astray && nameoff != 0 ==>
        nameoff < 0 <= sizeStrings + nameoff && IsName(Strings(), sizeStrings + nameoff, name)
    {
      nameoff, added := 0, false;
      if lastComp % 2 != NO_NAME_DEDUP {
        if |name| >= INT_MAX { return 0, false, true; }
        var p := FindString(buf[totalsize - sizeStrings..], name);
        if p >= 0 {
          assert OccursAt(Strings(), name, p);
          NameIs(Strings(), p, name);
          return p - sizeStrings, false, false;
        }
      }
      added := true;
      nameoff, astray := AddName(name);
    }

    /** `AddString`, and the name is found where it was put. */
    method AddName(name: seq<byte>) returns (nameoff: int, astray: bool)
      requires Open() && 0 !in name
      modifies this`buf, this`sizeStrings
      ensures astray <==> !RoomRight(totalsize, offStruct + sizeStruct, old(sizeStrings) + |name| + 1)
      ensures !astray ==> Open() && Structs() == old(Structs()) && (old(Clean()) ==> Clean())
      ensures !astray ==> (nameoff == 0 <==> offStruct + sizeStruct + old(sizeStrings) + |name| + 1 > totalsize)
      ensures !astray && nameoff == 0 ==> sizeStrings == old(sizeStrings) && buf == old(buf)
      ensures !astray && nameoff != 0 ==> sizeStrings == old(sizeStrings) + |name| + 1 && nameoff + sizeStrings == 0
      ensures !astray && nameoff != 0 ==> Strings() == name + [0] + old(Strings()) && IsName(Strings(), 0, name)
    {
      nameoff, astray := AddString(name);
      if !astray && nameoff != 0 {
        assert Strings()[0..|name| + 1] == name + [0];
        NameIs(Strings(), 0, name);
      }
    }

    /** `fdt_del_last_string_`: takes back the string just added. */
    method DelLastString(s: seq<byte>, ghost strings: seq<byte>, ghost structs: seq<byte>)
      requires Open() && Strings() == s + [0] + strings && Structs() == structs
      requires Holds(structs, strings, toks, events)
      modifies this`sizeStrings
      ensures Open() && Strings() == strings
    {
      ghost var all := Strings();
      sizeStrings := sizeStrings - (|s| + 1);
      assert Strings() == all[|s| + 1..];
    }

    /** Writes a property whose name is in the strings. */
    method WriteProperty(nameoff: int, name: seq<byte>, val: seq<byte>) returns (err: int)
      requires Open() && |val| <= INT_MAX
      requires nameoff < 0 <= sizeStrings + nameoff && IsName(Strings(), sizeStrings + nameoff, name)
      modifies this`buf, this`toks, this`events, this`sizeStruct
      ensures Open()
      ensures err == 0 <==> offStruct + old(sizeStruct) + 12 + Align4(|val|) + sizeStrings <= totalsize
      ensures err == 0 ==> events == old(events) + [Event.Property(name, val)] && |buf| == old(|buf|)
      ensures err == 0 && old(Clean()) ==> Clean()
      ensures err == 0 ==> sizeStruct == old(sizeStruct) + 12 + Align4(|val|) && Strings() == old(Strings())
      ensures err != 0 ==> err == ERR_NOSPACE && unchanged(this)
    {
      PropImage(U32 + nameoff, val);
      PropNames(Strings(), sizeStrings + nameoff, name, val);
      ghost var t := Prop(U32 + nameoff, val);
      err := EmitToken(PropHeader(|val|, U32 + nameoff) + val, 12 + Align4(|val|), t, Event.Property(name, val));
    }

    /** There is room for a property and, where it has to be added, its name. */
    ghost predicate PropertyFits(name: seq<byte>, val: seq<byte>)
      reads this
    {
      && Open()
      && offStruct + sizeStruct + 12 + Align4(|val|) + sizeStrings + (if Adds(name) then |name| + 1 else 0) <= totalsize
    }

    /** `fdt_property`. */
    method Property(name: seq<byte>, val: seq<byte>) returns (err: int, astray: bool)
      requires Valid() && 0 !in name && |val| <= INT_MAX
      modifies this
      ensures astray <==> old(Open()) && old(GoesAstray(name))
      ensures !astray ==> Valid() && reserves == old(reserves)
      ensures !astray ==> (err == 0 <==> old(PropertyFits(name, val)))
      ensures !astray && err == 0 ==> Open() && events == old(events) + [Event.Property(name, val)]
      ensures !astray && err == 0 ==> old(Open()) && (old(Clean()) ==> Clean())
      ensures !astray && err == 0 ==>
        Grew(old(Measure()), 12 + Align4(|val|), if old(Adds(name)) then name + [0] else [])
      ensures !astray && err != 0 && !old(Open()) ==> err == WrongPhase() && unchanged(this)
      ensures !astray && err != 0 && old(Open()) ==>
        && err == ERR_NOSPACE && Open() && events == old(events)
        && Structs() == old(Structs()) && Strings() == old(Strings())
    {
      astray := false;
      err := ProbeStruct();
      if err != 0 { return; }
      err, astray := OpenProperty(name, val);
    }

    /** The same in the right phase. */
    method OpenProperty(name: seq<byte>, val: seq<byte>) returns (err: int, astray: bool)
      requires Open() && 0 !in name && |val| <= INT_MAX
      modifies this`buf, this`toks, this`events, this`sizeStruct, this`sizeStrings
      ensures astray <==> old(GoesAstray(name))
      ensures !astray ==> Open() && (err == 0 <==> old(PropertyFits(name, val)))
      ensures !astray && err == 0 ==> events == old(events) + [Event.Property(name, val)] && (old(Clean()) ==> Clean())
      ensures !astray && err == 0 ==>
        Grew(old(Measure()), 12 + Align4(|val|), if old(Adds(name)) then name + [0] else [])
      ensures !astray && err != 0 ==> err == ERR_NOSPACE && events == old(events)
      ensures !astray && err != 0 ==> Structs() == old(Structs()) && Strings() == old(Strings())
    {
      ghost var strings, structs := Strings(), Structs();
      var nameoff, added, wrong := NameOffset(name);
      if wrong { return 0, true; }
      astray := false;
      if nameoff == 0 { return ERR_NOSPACE, false; }
      ghost var d := Measure();
      assert d == old(Measure()).(strings := (if added then name + [0] else []) + strings);
      err := WriteOrUndo(nameoff, name, val, added, strings, structs);
      assert [] + d.strings == d.strings;
    }

    /** Writes the property, or takes back its name. */
    method WriteOrUndo(nameoff: int, name: seq<byte>, val: seq<byte>, added: bool,
                       ghost strings: seq<byte>, ghost structs: seq<byte>) returns (err: int)
      requires Open() && |val| <= INT_MAX
      requires nameoff < 0 <= sizeStrings + nameoff && IsName(Strings(), sizeStrings + nameoff, name)
      requires Strings() == (if added then name + [0] else []) + strings && Structs() == structs
      requires Holds(structs, strings, toks, events)
      modifies this`buf, this`toks, this`events, this`sizeStruct, this`sizeStrings
      ensures Open() && (err == 0 <==> offStruct + |structs| + 12 + Align4(|val|) + old(sizeStrings) <= totalsize)
      ensures err == 0 ==> events == old(events) + [Event.Property(name, val)] && (old(Clean()) ==> Clean())
      ensures err == 0 ==> Grew(old(Measure()), 12 + Align4(|val|), [])
      ensures err != 0 ==> err == ERR_NOSPACE && events == old(events) && Structs() == structs && Strings() == strings
    {
      err := WriteProperty(nameoff, name, val);
      if err == 0 {
        assert [] + Strings() == Strings();
      } else if added {
        DelLastString(name, strings, structs);
      }
    }

    // ---- finishing ----

    /** Corrects the name offset of the property at `offset`. */
    method CorrectName(offset: nat)
      requires offStruct + sizeStruct <= |buf| && offset + 12 <= sizeStruct
      modifies this`buf
      ensures |buf| == old(|buf|)
      ensures Structs() == PatchedAt(old(Structs()), sizeStrings, offset, PROP)
      ensures buf[..offStruct] == old(buf[..offStruct])
      ensures buf[offStruct + sizeStruct..] == old(buf[offStruct + sizeStruct..])
    {
      var at := offStruct + offset + 8;
      PatchInPlace(buf, offStruct, offStruct + sizeStruct, sizeStrings, offset);
      buf := Put(buf, at, Be32((Load32(buf[at..]) + sizeStrings) % U32));
    }

    /** Corrects token `k` at `offset`, if it is a property. */
    method CorrectToken(offset: nat, tag: nat, ghost k: nat, ghost next: int)
      requires |buf| < INT_MAX && offStruct + sizeStruct <= |buf| && k < |toks|
      requires Round(Structs(), toks, sizeStrings, offset, k, tag, next)
      modifies this`buf
      ensures |buf| == old(|buf|) && next >= 0
      ensures Patched(Structs(), toks, sizeStrings, next, k + 1) && (old(Pads(Structs())) ==> Pads(Structs()))
      ensures buf[..offStruct] == old(buf[..offStruct])
      ensures buf[offStruct + sizeStruct..] == old(buf[offStruct + sizeStruct..])
    {
      PadsRound(Structs(), toks, sizeStrings, offset, k);
      if tag == PROP { CorrectName(offset); }
    }

    /** Reads the tag of token `k` at `offset`. */
    method NextStructTag(offset: nat, ghost k: nat) returns (tag: nat, next: int)
      requires |buf| < INT_MAX && offStruct + sizeStruct <= |buf|
      requires Patched(Structs(), toks, sizeStrings, offset, k)
      ensures Round(Structs(), toks, sizeStrings, offset, k, tag, next)
    {
      tag, next := NextTag(buf[offStruct..offStruct + sizeStruct], offset);
      PatchRound(Structs(), toks, sizeStrings, offset, k);
    }

    /** The patching loop of `fdt_finish` over the structure block, its end tag included. */
    method CorrectNames() returns (err: int)
      requires |buf| < INT_MAX && offStruct + sizeStruct <= |buf|
      requires Patched(Structs(), toks, sizeStrings, 0, 0)
      modifies this`buf
      ensures err == 0 && |buf| == old(|buf|)
      ensures AllPatched(Structs(), toks, sizeStrings) && (old(Pads(Structs())) ==> Pads(Structs()))
      ensures buf[..offStruct] == old(buf[..offStruct])
      ensures buf[offStruct + sizeStruct..] == old(buf[offStruct + sizeStruct..])
    {
      var offset := 0;
      ghost var k := 0;
      var tag, nextoffset := NextStructTag(offset, k);
      ghost var head, tail := buf[..offStruct], buf[offStruct + sizeStruct..];
      while tag != END
        invariant |buf| == old(|buf|) && buf[..offStruct] == head && buf[offStruct + sizeStruct..] == tail
        invariant Round(Structs(), toks, sizeStrings, offset, k, tag, nextoffset)
        invariant old(Pads(Structs())) ==> Pads(Structs())
        decreases |toks| - k
      {
        CorrectToken(offset, tag, k, nextoffset);
        offset, k := nextoffset, k + 1;
        tag, nextoffset := NextStructTag(offset, k);
      }
      if nextoffset < 0 { return nextoffset; }
      PatchDone(Structs(), toks, sizeStrings);
      err := 0;
    }

    /** Writes the end tag into the four bytes just grabbed at `off` and moves the strings down to it. */
    method Relocate(off: nat)
      requires Layout() && sizeStruct == off + 4
      requires Holds(buf[offStruct..offStruct + off], Strings(), toks, events)
      modifies this`buf, this`offStrings
      ensures |buf| == old(|buf|) && offStrings == offStruct + sizeStruct
      ensures buf[..offStruct] == old(buf[..offStruct])
      ensures buf[offStrings..][..sizeStrings] == old(Strings())
      ensures Patched(Structs(), toks, sizeStrings, 0, 0)
      ensures old(Tidy(buf, offStruct, offStruct + off, |buf| - sizeStrings)) ==> Pads(Structs())
    {
      var newstroffset, oldstroffset := offStruct + sizeStruct, |buf| - sizeStrings;
      EndHolds(buf, offStruct, offStruct + off, newstroffset, oldstroffset, sizeStrings, toks, events);
      TidyEnd(buf, offStruct, offStruct + off, newstroffset, oldstroffset, Strings(), toks, events);
      buf := Put(buf, offStruct + off, Be32(END));
      buf := Put(buf, newstroffset, buf[oldstroffset..]);
      offStrings := newstroffset;
    }

    /** The end tag at `off`, the strings behind it and the names corrected. */
    method Assemble(off: nat) returns (err: int)
      requires Layout() && sizeStruct == off + 4
      requires Holds(buf[offStruct..offStruct + off], Strings(), toks, events)
      modifies this`buf, this`offStrings
      ensures err == 0 && |buf| == old(|buf|) && offStrings == offStruct + sizeStruct
      ensures buf[..offStruct] == old(buf[..offStruct])
      ensures offStrings + sizeStrings <= |buf|
      ensures Sees(Structs(), buf[offStrings..offStrings + sizeStrings], events)
      ensures buf[offStrings..offStrings + sizeStrings] == old(Strings())
      ensures old(Tidy(buf, offStruct, offStruct + off, |buf| - sizeStrings)) ==> Pads(Structs())
    {
      ghost var body, strings := buf[offStruct..offStruct + off], Strings();
      Relocate(off);
      ghost var tail := buf[offStrings..];
      err := CorrectNames();
      if err != 0 { return; }
      assert buf[offStrings..offStrings + sizeStrings] == tail[..sizeStrings];
      FinishedWalk(body, Structs(), strings, toks, events);
    }

    /** Everything `fdt_finish` does once the end tag has its four bytes at `off`. */
    method Complete(off: nat) returns (err: int)
      requires Layout() && sizeStruct == off + 4
      requires Holds(buf[offStruct..offStruct + off], Strings(), toks, events)
      requires MapIs(buf[..offStruct], reserves + [TERMINATOR])
      modifies this
      ensures err == 0 && Finished() && events == old(events) && reserves == old(reserves)
      ensures buf[offStrings..totalsize] == old(Strings())
      ensures old(Tidy(buf, offStruct, offStruct + off, |buf| - sizeStrings)) ==> Pads(Structs())
    {
      err := Assemble(off);
      if err != 0 { return; }
      totalsize := offStrings + sizeStrings;
      lastComp, magic := LAST_COMPATIBLE, FdtBlob.MAGIC;
    }

    method Finish() returns (err: int)
      requires Valid()
      modifies this
      ensures Valid()
      ensures err == 0 <==> old(Open() && offStruct + sizeStruct + 4 + sizeStrings <= totalsize)
      ensures err == 0 ==> Finished() && events == old(events) && reserves == old(reserves)
      ensures err == 0 ==> buf[offStrings..totalsize] == old(Strings()) && (old(Clean()) ==> Pads(Structs()))
      ensures err != 0 ==> err == (if old(Open()) then ERR_NOSPACE else WrongPhase()) && unchanged(this)
    {
      err := ProbeStruct();
      if err != 0 { return; }
      ghost var structs := Structs();
      var ok, off := GrabSpace(4);
      if !ok { return ERR_NOSPACE; }
      assert buf[offStruct..offStruct + off] == structs;
      err := Complete(off);
    }
  }

  /** An `int` with the low 32 bits of a length. */
  function AsInt(n: nat): int {
    if n % U32 < U32 / 2 then n % U32 else n % U32 - U32
  }

  /** The space `fdt_begin_node` asks for, which a negative value stands for as a `size_t` and does not get. */
  function NodeLen(n: nat): (r: int)
    ensures n < INT_MAX ==> r == 4 + Align4(n + 1)
  {
    4 + (AsInt(n + 1) + 3) / 4 * 4
  }

  /** A name of 2^32 - 1 bytes passes for an empty one without its end. */
  lemma NameExample()
    ensures NodeLen(U32 - 1) == 4 && U32 - 1 >= INT_MAX
  {
  }

  /** Adding a wrapped length wraps the sum. */
  lemma {:induction false} SumWraps(a: nat, b: nat)
    ensures (a + b % U32) % U32 == (a + b) % U32
  {
    var q, r := b / U32, b % U32;
    WrapMany(a + r, q);
  }

  lemma {:induction false} WrapMany(x: nat, q: nat)
    ensures (x + q * U32) % U32 == x % U32
  {
    if q > 0 {
      WrapMany(x, q - 1);
      var y := x + (q - 1) * U32;
      assert x + q * U32 == y + U32;
      assert (y + U32) % U32 == y % U32;
    }
  }

  lemma {:induction false} WholeWord(a: nat, b: nat)
    requires a + b < U32
    ensures (a + b % U32) % U32 == a + b
  {
  }
}
