/** The memory reserve map (section 5.3 of the Devicetree Specification v0.4): pairs of
    64-bit big-endian address and size, ended by an entry of size zero. */
module FdtReserve {
  import opened Common
  import opened FdtTokens
  import opened FdtChunks

  type u64 = x: nat | x < 0x1_0000_0000_0000_0000

  datatype Reserve = Reserve(address: u64, size: u64)

  function Be64(n: u64): (b: seq<byte>)
    ensures |b| == 8
  {
    Be32(n / U32) + Be32(n % U32)
  }

  function Load64(s: seq<byte>): nat
    requires |s| >= 8
  {
    Load32(s) * U32 + Load32(s[4..])
  }

  function Entry(r: Reserve): (b: seq<byte>)
    ensures |b| == 16
  {
    Be64(r.address) + Be64(r.size)
  }

  lemma {:induction false} LoadBe64(n: u64, rest: seq<byte>)
    ensures Load64(Be64(n) + rest) == n
  {
    var s := Be64(n) + rest;
    assert s == Be32(n / U32) + (Be32(n % U32) + rest);
    LoadBe32(n / U32, Be32(n % U32) + rest);
    assert s[4..] == Be32(n % U32) + rest;
    LoadBe32(n % U32, rest);
  }

  /** The map written for a list of entries, without its terminator. */
  function MapBytes(rs: seq<Reserve>): (b: seq<byte>)
    ensures |b| == 16 * |rs|
  {
    if rs == [] then [] else MapBytes(rs[..|rs| - 1]) + Entry(rs[|rs| - 1])
  }

  /** The size field of entry `i`. */
  function SizeAt(s: seq<byte>, i: nat): nat
    requires 16 * i + 16 <= |s|
  {
    Load64(s[16 * i + 8..])
  }

  function AddressAt(s: seq<byte>, i: nat): nat
    requires 16 * i + 16 <= |s|
  {
    Load64(s[16 * i..])
  }

  lemma {:induction false} LoadPrefix64(s: seq<byte>, u: seq<byte>)
    requires |s| >= 8 && |u| >= 8 && s[..8] == u[..8]
    ensures Load64(s) == Load64(u)
  {
    assert s[..4] == s[..8][..4] && u[..4] == u[..8][..4];
    LoadPrefix(s, u);
    assert s[4..][..4] == s[..8][4..] && u[4..][..4] == u[..8][4..];
    LoadPrefix(s[4..], u[4..]);
  }

  lemma {:induction false} EntryAt(a: seq<byte>, r: Reserve, rest: seq<byte>, i: nat)
    requires |a| == 16 * i
    ensures var s := a + Entry(r) + rest; SizeAt(s, i) == r.size && AddressAt(s, i) == r.address
  {
    var s := a + Entry(r) + rest;
    assert s[16 * i..] == Be64(r.address) + (Be64(r.size) + rest);
    assert s[16 * i + 8..] == Be64(r.size) + rest;
    LoadBe64(r.address, Be64(r.size) + rest);
    LoadBe64(r.size, rest);
  }

  /** Every entry written is read back. */
  lemma {:induction false} MapAt(rs: seq<Reserve>, rest: seq<byte>, i: nat)
    requires i < |rs|
    ensures var s := MapBytes(rs) + rest; SizeAt(s, i) == rs[i].size && AddressAt(s, i) == rs[i].address
  {
    var n := |rs| - 1;
    var front := MapBytes(rs[..n]);
    if i == n {
      EntryAt(front, rs[n], rest, n);
    } else {
      MapAt(rs[..n], Entry(rs[n]) + rest, i);
      assert MapBytes(rs) + rest == front + (Entry(rs[n]) + rest);
    }
  }
}
