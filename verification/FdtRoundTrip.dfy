/** Writer and reader undo each other. */
module FdtRoundTrip {
  import opened Common
  import opened FdtTokens
  import opened FdtParse
  import opened FdtReserve
  import opened FdtDraft
  import opened FdtBlob
  import opened FdtCheck
  import FdtWriter

  /** Reading a finished blob gives back exactly the calls that wrote it, whether names were shared
      or not, and the validator accepts it exactly when those calls form one unnamed root. */
  lemma {:induction false} RoundTrip(w: FdtWriter.Writer)
    requires w.Finished()
    ensures Fits(w.Blob()) && Walk(Structs(w.Blob()), Strings(w.Blob())) == Some(w.events)
    ensures Accepted(w.Blob()) <==> Rooted(w.events)
  {
    var b := w.Blob();
    assert HeaderOk(b.hdr);
    SeesIff(Structs(b), Strings(b), w.events);
    ReserveMap(w);
    var n := Terminated(RsvBlock(b), w.reserves);
  }

  /** The reserve entries are read back in order, up to the first of size zero. */
  lemma {:induction false} ReserveMap(w: FdtWriter.Writer)
    requires w.Finished() && Fits(w.Blob())
    ensures ReadsBack(RsvBlock(w.Blob()), w.reserves)
  {
    var b := w.Blob();
    var rs := w.reserves + [FdtWriter.TERMINATOR];
    var s := RsvBlock(b);
    MapIff(w.buf[..w.offStruct], rs);
    var rest := w.buf[w.offStruct..w.totalsize];
    assert s == w.buf[..w.offStruct][HEADER_SIZE..] + rest;
    forall i: nat | i < |rs| ensures SizeAt(s, i) == rs[i].size && AddressAt(s, i) == rs[i].address {
      MapAt(rs, rest, i);
    }
  }

  ghost predicate ReadsBack(s: seq<byte>, rs: seq<Reserve>) {
    && 16 * |rs| + 16 <= |s| && SizeAt(s, |rs|) == 0
    && forall i: nat :: i < |rs| ==> SizeAt(s, i) == rs[i].size && AddressAt(s, i) == rs[i].address
  }

  /** The number of entries a reader counts: all of them when none is empty. */
  lemma {:induction false} Terminated(s: seq<byte>, rs: seq<Reserve>) returns (n: nat)
    requires ReadsBack(s, rs)
    ensures n <= |rs| && MapLength(s, n)
    ensures (forall i :: 0 <= i < |rs| ==> rs[i].size != 0) ==> n == |rs|
  {
    n := 0;
    while n < |rs| && rs[n].size != 0
      invariant n <= |rs| && forall i: nat :: i < n ==> SizeAt(s, i) != 0
    {
      assert SizeAt(s, n) == rs[n].size;
      n := n + 1;
    }
    if n < |rs| { assert SizeAt(s, n) == rs[n].size; }
  }
}
