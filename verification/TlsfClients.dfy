/** What the heap is for: each client has memory of its own. Programs of calls, stores and loads
    run on the heap are compared with clients that each keep their words in a map. */
module TlsfClients {
  import opened Bits
  import opened TlsfMapping
  import opened TlsfTiling
  import opened TlsfLayout
  import opened TlsfHeap

  /** What programs do. Addresses of stores and loads are those of words. */
  datatype Call =
    | Malloc(size: nat)
    | MallocAligned(k: nat, size: nat)
    | Free(p: int)
    | Store(p: int, a: int, v: int)
    | Load(p: int, a: int)

  /** A range as its client knows it: the bytes it asked for and the words it stored. */
  datatype Range = Range(size: nat, words: map<int, int>)

  type Clients = map<int, Range>

  /** Sizes are of type `size_t` and alignments powers of two. */
  predicate Legal(c: Call) {
    match c
    case Malloc(size) => size < SIZE_T
    case MallocAligned(k, size) => k <= 62 && size < SIZE_T
    case _ => true
  }

  /** Bytes a client may use after asking for `size`; `align_up` wraps for the last sizes. */
  function Usable(size: nat): nat {
    if size + 7 < SIZE_T then size else 0
  }

  predicate MayUse(s: Clients, p: int, a: int) {
    p in s && p <= a && a + 8 <= p + s[p].size && a % 8 == 0
  }

  /** The clients after a call that answered `r`. A call a client may not make has no effect. */
  function After(s: Clients, c: Call, r: int): Clients {
    match c
    case Malloc(size) => if r == 0 then s else s[r := Range(Usable(size), map[])]
    case MallocAligned(k, size) => if r == 0 then s else s[r := Range(Usable(size), map[])]
    case Free(p) => s - {p}
    case Store(p, a, v) => if MayUse(s, p, a) then s[p := s[p].(words := s[p].words[a := v])] else s
    case Load(p, a) => s
  }

  ghost predicate Fresh(s: Clients, r: int, size: nat) {
    r !in s && r % 8 == 0 && forall q :: q in s ==> r + size <= q || q + s[q].size <= r
  }

  /** What a client may rely on: new ranges overlap none it knows, and a load gives back
      the word its owner stored. */
  ghost predicate Answers(s: Clients, c: Call, r: int) {
    match c
    case Malloc(size) => r != 0 ==> Fresh(s, r, Usable(size))
    case MallocAligned(k, size) => r != 0 ==> Fresh(s, r, Usable(size)) && r % Pow2(k) == 0
    case Free(p) => true
    case Store(p, a, v) => true
    case Load(p, a) => MayUse(s, p, a) && a in s[p].words ==> r == s[p].words[a]
  }

  /** A run of `calls` with answers `rs` through the clients `ss`. */
  ghost predicate Trace(calls: seq<Call>, rs: seq<int>, ss: seq<Clients>) {
    && |rs| == |calls| && |ss| == |calls| + 1 && ss[0] == map[]
    && forall i {:trigger calls[i]} :: 0 <= i < |calls| ==>
      Answers(ss[i], calls[i], rs[i]) && ss[i + 1] == After(ss[i], calls[i], rs[i])
  }

  // ---- memory holds what the clients stored ----

  ghost predicate Keeps(mem: Memory, s: Clients, p: int)
    requires p in s
  {
    forall a :: a in s[p].words ==> p <= a && a + 8 <= p + s[p].size && a in mem && mem[a] == s[p].words[a]
  }

  ghost predicate Agree(mem: Memory, client: map<int, nat>, s: Clients) {
    && s.Keys == client.Keys
    && forall p :: p in s ==> s[p].size <= client[p] && Keeps(mem, s, p)
  }

  /** The allocator's work changes nothing the clients that remain have stored. */
  lemma AgreeLater(mem: Memory, mem': Memory, client: map<int, nat>, s: Clients)
    requires Agree(mem, client, s) && Untouched(mem, mem', client)
    ensures Agree(mem', client, s)
  {
    forall p | p in s ensures Keeps(mem', s, p) {
      assert Keeps(mem, s, p);
      forall a | a in s[p].words ensures a in mem' && mem'[a] == s[p].words[a] {
        assert Held(client, p, a);
      }
    }
  }

  /** A new range is away from all others. */
  lemma NewRange(h: Heap, client: map<int, nat>, s: Clients, p: int, size: nat)
    requires h.Valid() && p !in client && p in h.client && h.client == client[p := h.client[p]] && size <= h.client[p]
    requires s.Keys == client.Keys && forall q :: q in s ==> s[q].size <= client[q]
    ensures Fresh(s, p, size)
  {
    Disjoint(h.client, h.m, h.at, p, p);
    forall q | q in s ensures p + size <= q || q + s[q].size <= p {
      Disjoint(h.client, h.m, h.at, p, q);
    }
  }

  /** The word at `a` meets no range but that of `p`. */
  ghost predicate OnlyIn(client: map<int, nat>, p: int, a: int) {
    forall q :: q in client && q != p ==> a + 8 <= q || q + client[q] <= a
  }

  /** A store into one range is not seen in another. */
  lemma OwnStore(mem: Memory, client: map<int, nat>, s: Clients, p: int, a: int, v: int)
    requires Agree(mem, client, s) && MayUse(s, p, a) && OnlyIn(client, p, a)
    ensures Agree(mem[a := v], client, After(s, Store(p, a, v), 0))
  {
    var s' := After(s, Store(p, a, v), 0);
    forall q | q in s' ensures s'[q].size <= client[q] && Keeps(mem[a := v], s', q) {
      assert Keeps(mem, s, q);
    }
  }

  lemma RangeThere(mem: Memory, client: map<int, nat>, m: Tiling, at: Pool, p: int, a: int)
    requires Tiles(m, at) && Domain(mem, at) && Exact(client, m, at)
    requires p in client && p <= a && a + 8 <= p + client[p] && a % 8 == 0
    ensures a in mem && OnlyIn(client, p, a)
  {
    Disjoint(client, m, at, p, p);
    assert InPool(at, a);
    forall q | q in client && q != p ensures a + 8 <= q || q + client[q] <= a {
      Disjoint(client, m, at, p, q);
    }
  }

  /** A word a client may use is there, and is its own. */
  lemma WordThere(h: Heap, s: Clients, p: int, a: int)
    requires h.Valid() && Agree(h.mem, h.client, s) && MayUse(s, p, a)
    ensures a in h.mem && p in h.client && a + 8 <= p + h.client[p] && OnlyIn(h.client, p, a)
  {
    assert h.m != map[];
    RangeThere(h.mem, h.client, h.m, h.at, p, a);
  }

  /** The clients with one more range. */
  lemma AgreeMore(mem: Memory, client: map<int, nat>, s: Clients, p: int, room: nat, size: nat)
    requires Agree(mem, client, s) && size <= room
    ensures Agree(mem, client[p := room], s[p := Range(size, map[])])
  {
    var s' := s[p := Range(size, map[])];
    forall q | q in s' ensures s'[q].size <= client[p := room][q] && Keeps(mem, s', q) {
      assert q != p ==> Keeps(mem, s, q);
    }
  }

  lemma AgreeLess(mem: Memory, client: map<int, nat>, s: Clients, p: int)
    requires Agree(mem, client, s)
    ensures Agree(mem, client - {p}, s - {p})
  {
    forall q | q in s - {p} ensures Keeps(mem, s - {p}, q) {
      assert Keeps(mem, s, q);
    }
  }

  /** The clients after an allocation. */
  lemma Granted(h: Heap, mem: Memory, client: map<int, nat>, s: Clients, p: int, size: nat)
    requires h.Valid() && Agree(mem, client, s) && Untouched(mem, h.mem, client)
    requires p !in client && p in h.client && h.client == client[p := h.client[p]] && size <= h.client[p]
    ensures Fresh(s, p, size) && Agree(h.mem, h.client, s[p := Range(size, map[])])
  {
    AgreeLater(mem, h.mem, client, s);
    NewRange(h, client, s, p, size);
    AgreeMore(h.mem, client, s, p, h.client[p], size);
  }

  /** The clients after a range is given back. */
  lemma Released(mem: Memory, mem': Memory, client: map<int, nat>, client': map<int, nat>, s: Clients, p: int)
    requires Agree(mem, client, s) && client' == client - {p} && Untouched(mem, mem', client')
    ensures Agree(mem', client', s - {p})
  {
    AgreeLess(mem, client, s, p);
    AgreeLater(mem, mem', client', s - {p});
  }

  // ---- programs ----

  /** `malloc`. */
  method DoMalloc(h: Heap, s: Clients, size: nat) returns (r: int, s': Clients)
    requires h.Valid() && Agree(h.mem, h.client, s) && size < SIZE_T
    modifies h, h.ctl, h.ctl.slBitmap, h.ctl.heads
    ensures h.Valid() && Agree(h.mem, h.client, s')
    ensures s' == After(s, Malloc(size), r) && Answers(s, Malloc(size), r)
  {
    ghost var block, client, mem := 0, h.client, h.mem;
    r, block := h.Malloc(size);
    s' := s;
    if r == 0 {
      AgreeLater(mem, h.mem, client, s);
    } else {
      Granted(h, mem, client, s, r, Usable(size));
      s' := s[r := Range(Usable(size), map[])];
    }
  }

  /** `malloc_aligned`: alignments up to that of words need nothing more. */
  method DoMallocAligned(h: Heap, s: Clients, k: nat, size: nat) returns (r: int, s': Clients)
    requires h.Valid() && Agree(h.mem, h.client, s) && k <= 62 && size < SIZE_T
    modifies h, h.ctl, h.ctl.slBitmap, h.ctl.heads
    ensures h.Valid() && Agree(h.mem, h.client, s')
    ensures s' == After(s, MallocAligned(k, size), r) && Answers(s, MallocAligned(k, size), r)
  {
    if Pow2(k) <= 8 {
      r, s' := DoMalloc(h, s, size);
      WordAligned(r, k);
    } else {
      r, s' := DoMemalign(h, s, k, size);
    }
  }

  lemma WordAligned(r: int, k: nat)
    requires Pow2(k) <= 8
    ensures r % 8 == 0 ==> r % Pow2(k) == 0
  {
    if k > 3 {
      assert Pow2(4) == 16;
      Pow2Monotone(4, k);
    } else if k == 3 {
      assert Pow2(3) == 8;
    } else if k == 2 {
      assert Pow2(2) == 4;
      WordMultiple(r);
    } else if k == 1 {
      assert Pow2(1) == 2;
      WordMultiple(r);
    } else {
      assert Pow2(0) == 1;
    }
  }

  lemma WordMultiple(r: int)
    ensures r % 8 == 0 ==> r % 4 == 0 && r % 2 == 0
  {
  }

  method DoMemalign(h: Heap, s: Clients, k: nat, size: nat) returns (r: int, s': Clients)
    requires h.Valid() && Agree(h.mem, h.client, s) && k <= 62 && size < SIZE_T
    modifies h, h.ctl, h.ctl.slBitmap, h.ctl.heads
    ensures h.Valid() && Agree(h.mem, h.client, s')
    ensures s' == After(s, MallocAligned(k, size), r) && Answers(s, MallocAligned(k, size), r)
  {
    ghost var block, gap, client, mem := 0, 0, h.client, h.mem;
    r, block, gap := h.Memalign(Pow2(k), size, k);
    s' := s;
    if r == 0 {
      AgreeLater(mem, h.mem, client, s);
    } else {
      Granted(h, mem, client, s, r, Usable(size));
      s' := s[r := Range(Usable(size), map[])];
    }
  }

  /** `free` of a range that is held, or of null. */
  method DoFree(h: Heap, s: Clients, p: int) returns (s': Clients)
    requires h.Valid() && Agree(h.mem, h.client, s)
    modifies h, h.ctl, h.ctl.slBitmap, h.ctl.heads
    ensures h.Valid() && Agree(h.mem, h.client, s') && s' == After(s, Free(p), 0)
  {
    s' := s - {p};
    NoNull(h);
    assert h.client - {0} == h.client;
    if p == 0 || p in s {
      ghost var client, mem := h.client, h.mem;
      h.Free(p);
      Released(mem, h.mem, client, h.client, s, p);
    } else {
      assert s' == s;
    }
  }

  lemma NoNull(h: Heap)
    requires h.Valid()
    ensures 0 !in h.client
  {
    if 0 in h.client { Disjoint(h.client, h.m, h.at, 0, 0); }
  }

  method DoStore(h: Heap, s: Clients, p: int, a: int, v: int) returns (s': Clients)
    requires h.Valid() && Agree(h.mem, h.client, s)
    modifies h
    ensures h.Valid() && Agree(h.mem, h.client, s') && s' == After(s, Store(p, a, v), 0)
  {
    s' := s;
    if MayUse(s, p, a) {
      ghost var mem' := h.mem[a := v];
      WordThere(h, s, p, a);
      OwnStore(h.mem, h.client, s, p, a, v);
      h.ClientStore(p, a, v);
      s' := s[p := s[p].(words := s[p].words[a := v])];
      assert h.mem == mem' && s' == After(s, Store(p, a, v), 0);
    }
  }

  method DoLoad(h: Heap, s: Clients, p: int, a: int) returns (r: int)
    requires h.Valid() && Agree(h.mem, h.client, s)
    ensures Answers(s, Load(p, a), r)
  {
    r := 0;
    if MayUse(s, p, a) {
      WordThere(h, s, p, a);
      assert Keeps(h.mem, s, p);
      r := h.mem[a];
    }
  }

  method Do(h: Heap, s: Clients, c: Call) returns (r: int, s': Clients)
    requires h.Valid() && Agree(h.mem, h.client, s) && Legal(c)
    modifies h, h.ctl, h.ctl.slBitmap, h.ctl.heads
    ensures h.Valid() && Agree(h.mem, h.client, s')
    ensures s' == After(s, c, r) && Answers(s, c, r)
  {
    match c {
      case Malloc(size) => r, s' := DoMalloc(h, s, size);
      case MallocAligned(k, size) => r, s' := DoMallocAligned(h, s, k, size);
      case Free(p) => r := 0; s' := DoFree(h, s, p);
      case Store(p, a, v) => r := 0; s' := DoStore(h, s, p, a, v);
      case Load(p, a) => r := DoLoad(h, s, p, a); s' := s;
    }
  }

  /** Any program on a new heap: the answers are those of clients with memory of their own. */
  method Run(h: Heap, calls: seq<Call>) returns (rs: seq<int>, ss: seq<Clients>)
    requires h.Valid() && h.client == map[] && forall i :: 0 <= i < |calls| ==> Legal(calls[i])
    modifies h, h.ctl, h.ctl.slBitmap, h.ctl.heads
    ensures h.Valid() && Trace(calls, rs, ss)
    ensures Agree(h.mem, h.client, ss[|calls|])
  {
    rs, ss := [], [map[]];
    var i := 0;
    while i < |calls|
      invariant i <= |calls| && h.Valid() && Trace(calls[..i], rs, ss) && Agree(h.mem, h.client, ss[i])
    {
      var r, s := Do(h, ss[i], calls[i]);
      TraceMore(calls, i, rs, ss, r, s);
      rs, ss := rs + [r], ss + [s];
      i := i + 1;
    }
    assert calls[..i] == calls;
  }

  lemma TraceMore(calls: seq<Call>, i: nat, rs: seq<int>, ss: seq<Clients>, r: int, s: Clients)
    requires i < |calls| && Trace(calls[..i], rs, ss)
    requires Answers(ss[i], calls[i], r) && s == After(ss[i], calls[i], r)
    ensures Trace(calls[..i + 1], rs + [r], ss + [s])
  {
    var cs, rs', ss' := calls[..i + 1], rs + [r], ss + [s];
    forall j | 0 <= j < |cs| ensures Answers(ss'[j], cs[j], rs'[j]) && ss'[j + 1] == After(ss'[j], cs[j], rs'[j]) {
      if j < i {
        assert calls[..i][j] == cs[j];
        assert ss'[j] == ss[j] && rs'[j] == rs[j] && ss'[j + 1] == ss[j + 1];
      }
    }
  }

  // ---- what programs see ----

  /** In every state of every run the ranges are pairwise disjoint. */
  lemma {:induction false} Separate(calls: seq<Call>, rs: seq<int>, ss: seq<Clients>, i: nat, p: int, q: int)
    requires Trace(calls, rs, ss) && i <= |calls| && p in ss[i] && q in ss[i] && p != q
    ensures p + ss[i][p].size <= q || q + ss[i][q].size <= p
  {
    if i > 0 {
      var s, c, r := ss[i - 1], calls[i - 1], rs[i - 1];
      assert Answers(s, c, r) && ss[i] == After(s, c, r);
      if p in s && q in s { Separate(calls, rs, ss, i - 1, p, q); }
    }
  }

  /** No call between takes the range away or stores into the word. */
  ghost predicate Quiet(calls: seq<Call>, i: nat, j: nat, p: int, a: int) {
    forall l :: i < l < j && l < |calls| ==>
      calls[l] != Free(p) && !(calls[l].Store? && calls[l].p == p && calls[l].a == a)
  }

  /** What a client stored stays, whatever happens between. */
  lemma {:induction false} Stays(calls: seq<Call>, rs: seq<int>, ss: seq<Clients>, i: nat, j: nat, p: int, a: int,
                                 v: int)
    requires Trace(calls, rs, ss) && i < j <= |calls| && Quiet(calls, i, j, p, a)
    requires calls[i] == Store(p, a, v) && MayUse(ss[i], p, a)
    ensures MayUse(ss[j], p, a) && a in ss[j][p].words && ss[j][p].words[a] == v
  {
    if j == i + 1 {
      assert ss[j] == After(ss[i], calls[i], rs[i]);
    } else {
      Stays(calls, rs, ss, i, j - 1, p, a, v);
      var c := calls[j - 1];
      assert Answers(ss[j - 1], c, rs[j - 1]) && ss[j] == After(ss[j - 1], c, rs[j - 1]);
    }
  }

  /** A load gives back the word stored last. */
  lemma ReadsBack(calls: seq<Call>, rs: seq<int>, ss: seq<Clients>, i: nat, j: nat, p: int, a: int, v: int)
    requires Trace(calls, rs, ss) && i < j < |calls| && Quiet(calls, i, j, p, a)
    requires calls[i] == Store(p, a, v) && MayUse(ss[i], p, a) && calls[j] == Load(p, a)
    ensures rs[j] == v
  {
    Stays(calls, rs, ss, i, j, p, a, v);
  }
}
