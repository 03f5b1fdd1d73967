/** A complete devicetree blob, version 17: its header (section 5.2 of the Devicetree
    Specification v0.4), its blocks and the accessors that check every offset. */
module FdtBlob {
  import opened Common
  import opened FdtTokens
  import opened FdtParse
  import opened FdtReserve

  type u32 = x: nat | x < U32

  const MAGIC: nat := 0xd00d_feed
  const LAST_VERSION: nat := 17
  const V17_SIZE: nat := 40

  datatype Header = Header(magic: u32, totalsize: u32, offStruct: u32, offStrings: u32, offRsvmap: u32,
                           version: u32, lastComp: u32, sizeStrings: u32, sizeStruct: u32)

  /** The header fields, and the memory the blob lies in. */
  datatype Blob = Blob(hdr: Header, mem: seq<byte>)

  // ---- header ----

  /** A block inside the blob, after the header. */
  predicate InBlob(h: Header, base: nat, size: nat) {
    V17_SIZE <= base && base + size <= h.totalsize
  }

  predicate HeaderOk(h: Header) {
    && h.magic == MAGIC && h.lastComp <= LAST_VERSION <= h.version
    && V17_SIZE <= h.totalsize <= INT_MAX
    && InBlob(h, h.offRsvmap, 0) && InBlob(h, h.offStruct, h.sizeStruct) && InBlob(h, h.offStrings, h.sizeStrings)
  }

  function Add32(a: u32, b: u32): u32 {
    if a + b < U32 then a + b else a + b - U32
  }

  method CheckOff(hdrsize: nat, totalsize: u32, off: u32) returns (ok: bool)
    ensures ok <==> hdrsize <= off <= totalsize
  {
    ok := off >= hdrsize && off <= totalsize;
  }

  method CheckBlock(hdrsize: nat, totalsize: u32, base: u32, size: u32) returns (ok: bool)
    ensures ok <==> hdrsize <= base && base + size <= totalsize
  {
    ok := CheckOff(hdrsize, totalsize, base);
    if !ok { return false; }
    if Add32(base, size) < base { return false; }
    ok := CheckOff(hdrsize, totalsize, Add32(base, size));
  }

  method CheckHeader(h: Header) returns (err: int)
    requires h.version >= LAST_VERSION
    ensures err == 0 <==> HeaderOk(h)
    ensures err == ERR_BADMAGIC <==> h.magic != MAGIC
    ensures err <= 0
  {
    if h.magic != MAGIC { return ERR_BADMAGIC; }
    if h.lastComp > LAST_VERSION || h.version < h.lastComp { return ERR_BADVERSION; }
    if h.totalsize < V17_SIZE || h.totalsize > INT_MAX { return ERR_TRUNCATED; }
    var ok := CheckOff(V17_SIZE, h.totalsize, h.offRsvmap);
    if !ok { return ERR_TRUNCATED; }
    ok := CheckBlock(V17_SIZE, h.totalsize, h.offStruct, h.sizeStruct);
    if !ok { return ERR_TRUNCATED; }
    ok := CheckBlock(V17_SIZE, h.totalsize, h.offStrings, h.sizeStrings);
    if !ok { return ERR_TRUNCATED; }
    err := 0;
  }

  // ---- blocks ----

  /** A header that fits the memory. */
  predicate Fits(b: Blob) {
    HeaderOk(b.hdr) && b.hdr.totalsize <= |b.mem|
  }

  function Structs(b: Blob): (s: seq<byte>)
    requires Fits(b)
    ensures |s| == b.hdr.sizeStruct < INT_MAX
  {
    b.mem[b.hdr.offStruct..b.hdr.offStruct + b.hdr.sizeStruct]
  }

  function Strings(b: Blob): (s: seq<byte>)
    requires Fits(b)
    ensures |s| == b.hdr.sizeStrings
  {
    b.mem[b.hdr.offStrings..b.hdr.offStrings + b.hdr.sizeStrings]
  }

  /** Everything from the reserve map to the end of the blob. */
  function RsvBlock(b: Blob): (s: seq<byte>)
    requires Fits(b)
    ensures |s| == b.hdr.totalsize - b.hdr.offRsvmap
  {
    b.mem[b.hdr.offRsvmap..b.hdr.totalsize]
  }

  /** Entry `n` is the first of size zero: the map holds `n` entries. */
  ghost predicate MapLength(s: seq<byte>, n: nat) {
    16 * n + 16 <= |s| && SizeAt(s, n) == 0 && forall i: nat :: i < n ==> SizeAt(s, i) != 0
  }

  /** `fdt_num_mem_rsv`: stops at the terminator or at the end of the blob. */
  method NumMemRsv(b: Blob) returns (n: int)
    requires Fits(b)
    ensures n >= 0 ==> MapLength(RsvBlock(b), n)
    ensures n < 0 ==> n == ERR_TRUNCATED && forall k: nat :: !MapLength(RsvBlock(b), k)
  {
    ghost var s := RsvBlock(b);
    var i := 0;
    while true
      invariant 0 <= i && 16 * i <= |s| && forall k: nat :: k < i ==> SizeAt(s, k) != 0
      decreases |s| - 16 * i
    {
      var absoffset := (b.hdr.offRsvmap + 16 * i) % U32;
      if absoffset < b.hdr.offRsvmap { return ERR_TRUNCATED; }
      if absoffset > b.hdr.totalsize - 16 { return ERR_TRUNCATED; }
      assert s[16 * i + 8..][..8] == b.mem[absoffset + 8..][..8];
      LoadPrefix64(s[16 * i + 8..], b.mem[absoffset + 8..]);
      if Load64(b.mem[absoffset + 8..]) == 0 { return i; }
      i := i + 1;
    }
  }

  // ---- names ----

  /** Finding the NUL of a string. */
  method FindNul(s: seq<byte>, from: nat, end: nat) returns (e: nat)
    requires from <= end <= |s|
    ensures from <= e <= end && (e < end ==> s[e] == 0) && forall k :: from <= k < e ==> s[k] != 0
  {
    e := from;
    while e < end && s[e] != 0
      invariant from <= e <= end && forall k :: from <= k < e ==> s[k] != 0
    {
      e := e + 1;
    }
  }

  lemma {:induction false} NulIs(s: seq<byte>, i: nat, e: nat)
    requires i <= e <= |s| && (e < |s| ==> s[e] == 0) && forall k :: i <= k < e ==> s[k] != 0
    ensures NulFrom(s, i) == e
  {
    assert i == e || NulFrom(s, i) >= i;
  }

  /** `fdt_get_string`: a property's name offset, taken as a signed word, against the
      strings block. It succeeds exactly on a NUL-terminated string inside the block. */
  method GetString(b: Blob, nameoff: u32) returns (err: int, name: seq<byte>)
    requires Fits(b)
    ensures err <= 0
    ensures err == 0 ==> StringAt(Strings(b), nameoff) == Some(name)
    ensures err != 0 && b.hdr.totalsize < INT_MAX ==> StringAt(Strings(b), nameoff) == None
    ensures b.hdr.totalsize >= INT_MAX ==> err != 0
  {
    name := [];
    if b.hdr.totalsize >= INT_MAX { return ERR_TRUNCATED, []; }
    var stroffset: int := if nameoff <= INT_MAX then nameoff else nameoff - U32;
    var absoffset: int := stroffset + b.hdr.offStrings;
    if absoffset < 0 { absoffset := absoffset + U32; }
    if absoffset >= b.hdr.totalsize { return ERR_BADOFFSET, []; }
    var len := b.hdr.totalsize - absoffset;
    if stroffset < 0 { return ERR_BADOFFSET, []; }
    if stroffset >= b.hdr.sizeStrings { return ERR_BADOFFSET, []; }
    if b.hdr.sizeStrings - stroffset < len { len := b.hdr.sizeStrings - stroffset; }
    var e := FindNul(b.mem, absoffset, absoffset + len);
    ghost var s := Strings(b);
    ghost var d := b.hdr.offStrings;
    assert forall k :: stroffset <= k < e - d ==> s[k] == b.mem[d + k];
    assert e < absoffset + len ==> s[e - d] == b.mem[e];
    NulIs(s, stroffset, e - d);
    if e == absoffset + len { return ERR_TRUNCATED, []; }
    assert s[stroffset..e - d] == b.mem[absoffset..e];
    err, name := 0, b.mem[absoffset..e];
  }

  /** `fdt_get_name` of the node at an offset of the structure block. */
  method GetName(b: Blob, nodeoffset: nat) returns (err: int, name: seq<byte>)
    requires Fits(b)
    ensures err <= 0
    ensures b.hdr.totalsize >= INT_MAX ==> err != 0
    ensures var s := Structs(b);
      && (err == 0 ==> nodeoffset + 4 <= |s| && First(s[nodeoffset..]).Some?
                       && First(s[nodeoffset..]).value.tok == Begin(name))
      && (err != 0 && b.hdr.totalsize < INT_MAX && nodeoffset % 4 == 0 && nodeoffset + 4 <= |s| ==>
            First(s[nodeoffset..]).None? || !First(s[nodeoffset..]).value.tok.Begin?)
  {
    name := [];
    if b.hdr.totalsize >= INT_MAX { return ERR_TRUNCATED, []; }
    var s := b.mem[b.hdr.offStruct..b.hdr.offStruct + b.hdr.sizeStruct];
    if nodeoffset % 4 != 0 { return ERR_BADOFFSET, []; }
    var tag, next := NextTag(s, nodeoffset);
    if tag != BEGIN_NODE { return ERR_BADOFFSET, []; }
    ghost var t := s[nodeoffset..];
    FirstIs(t);
    var e := FindNul(s, nodeoffset + 4, |s|);
    assert forall k :: 4 <= k < e - nodeoffset ==> t[k] == s[nodeoffset + k];
    assert e < |s| ==> t[e - nodeoffset] == s[e];
    NulIs(t, 4, e - nodeoffset);
    assert t[4..e - nodeoffset] == s[nodeoffset + 4..e];
    err, name := 0, s[nodeoffset + 4..e];
  }
}
