/** Reading a flattened devicetree: the tag parser, names, and the walk over a whole tree. */
module FdtParse {
  import opened Common
  import opened FdtTokens

  const INT_MAX: nat := 0x7fff_ffff

  /** What `fdt_next_tag` reports at an offset: the tag and the next offset; the end tag
      with an error code when there is no whole token. */
  function NextTagAt(s: seq<byte>, off: int): (nat, int) {
    if off < 0 || off + 4 > |s| then (END, ERR_TRUNCATED)
    else
      match First(s[off..])
      case Some(item) => (item.tok.Tag(), Align4(off + item.raw))
      case None => (END, if Load32(s[off..]) == END then Align4(off + 4) else ERR_BADSTRUCTURE)
  }

  method NextTag(s: seq<byte>, startoffset: int) returns (tag: nat, nextoffset: int)
    requires |s| < INT_MAX
    ensures (tag, nextoffset) == NextTagAt(s, startoffset)
  {
    if startoffset < 0 || startoffset + 4 > |s| { return END, ERR_TRUNCATED; }
    ghost var t := s[startoffset..];
    FirstIs(t);
    tag := Load32(s[startoffset..]);
    var offset := startoffset + 4;
    if tag == BEGIN_NODE {
      while offset < |s| && s[offset] != 0
        invariant startoffset + 4 <= offset <= |s|
        invariant NulFrom(t, 4) == NulFrom(t, offset - startoffset)
      {
        assert t[offset - startoffset] == s[offset];
        offset := offset + 1;
      }
      assert offset < |s| ==> t[offset - startoffset] == s[offset];
      if offset == |s| { return END, ERR_BADSTRUCTURE; }
      offset := offset + 1;
    } else if tag == PROP {
      if offset + 4 > |s| { return END, ERR_BADSTRUCTURE; }
      assert s[offset..] == t[4..];
      var len := Load32(s[offset..]);
      if INT_MAX <= len + offset { return END, ERR_BADSTRUCTURE; }
      offset := offset + 8 + len;
    } else if tag != END && tag != END_NODE && tag != NOP {
      return END, ERR_BADSTRUCTURE;
    }
    if offset > |s| { return END, ERR_BADSTRUCTURE; }
    nextoffset := Align4(offset);
  }

  // ---- names and events ----

  /** What a caller sees of a token: property names resolved. */
  datatype Event = NodeBegin(name: seq<byte>) | NodeEnd | Property(name: seq<byte>, val: seq<byte>) | Filler

  /** The NUL-terminated string at an offset of the strings block. */
  function StringAt(strings: seq<byte>, off: nat): Option<seq<byte>> {
    if off >= |strings| then None
    else
      var e := NulFrom(strings, off);
      if e == |strings| then None else Some(strings[off..e])
  }

  /** A name followed by its NUL is the string at its place. */
  lemma {:induction false} StringIs(strings: seq<byte>, i: nat, name: seq<byte>)
    requires 0 !in name && i + |name| + 1 <= |strings| && strings[i..i + |name| + 1] == name + [0]
    ensures StringAt(strings, i) == Some(name)
  {
    var n := |name|;
    assert forall k :: 0 <= k < n ==> strings[i + k] == strings[i..i + n + 1][k] == name[k];
    assert strings[i + n] == strings[i..i + n + 1][n] == 0;
    assert NulFrom(strings, i) == i + n;
    assert strings[i..i + n] == name;
  }

  function EventOf(t: Token, strings: seq<byte>): Option<Event> {
    match t
    case Begin(name) => Some(NodeBegin(name))
    case EndNode => Some(NodeEnd)
    case Nop => Some(Filler)
    case Prop(nameoff, val) =>
      match StringAt(strings, nameoff)
      case None => None
      case Some(name) => Some(Property(name, val))
  }

  function Events(ts: seq<Token>, strings: seq<byte>): (r: Option<seq<Event>>)
    ensures r.Some? ==> |r.value| == |ts|
  {
    if ts == [] then Some([])
    else
      match EventOf(ts[0], strings)
      case None => None
      case Some(e) =>
        match Events(ts[1..], strings)
        case None => None
        case Some(es) => Some([e] + es)
  }

  /** Everything a walk over a finished tree sees, in order. */
  function Walk(structs: seq<byte>, strings: seq<byte>): Option<seq<Event>> {
    match ToEnd(structs)
    case None => None
    case Some(ts) => Events(ts, strings)
  }

  /** Events are resolved token by token. */
  lemma {:induction false} EventsAre(ts: seq<Token>, strings: seq<byte>, es: seq<Event>)
    ensures Events(ts, strings) == Some(es) <==>
      |es| == |ts| && forall i :: 0 <= i < |ts| ==> EventOf(ts[i], strings) == Some(es[i])
  {
    if |es| == |ts| > 0 {
      var tail, rest := ts[1..], es[1..];
      EventsAre(tail, strings, rest);
      assert es == [es[0]] + rest;
      assert forall i :: 0 < i < |ts| ==> ts[i] == tail[i - 1] && es[i] == rest[i - 1];
      assert forall i :: 0 <= i < |tail| ==> tail[i] == ts[i + 1] && rest[i] == es[i + 1];
      assert Events(ts, strings) == Some(es) ==> Events(tail, strings).value == rest;
    }
  }

  /** String `s` with its NUL is at place `k`. */
  predicate OccursAt(strtab: seq<byte>, s: seq<byte>, k: nat) {
    k + |s| + 1 <= |strtab| && strtab[k..k + |s| + 1] == s + [0]
  }

  ghost predicate Occurs(strtab: seq<byte>, s: seq<byte>) {
    exists k: nat :: OccursAt(strtab, s, k)
  }

  /** `fdt_find_string_`: the first place a string occurs, NUL included; -1 when it does not. */
  method FindString(strtab: seq<byte>, s: seq<byte>) returns (p: int)
    ensures p == -1 || (p >= 0 && OccursAt(strtab, s, p))
    ensures forall k: nat :: OccursAt(strtab, s, k) ==> 0 <= p <= k
  {
    var len := |s| + 1;
    p := 0;
    while p <= |strtab| - len
      invariant 0 <= p && forall k: nat :: k < p ==> !OccursAt(strtab, s, k)
    {
      if strtab[p..p + len] == s + [0] { return; }
      p := p + 1;
    }
    p := -1;
  }
}
