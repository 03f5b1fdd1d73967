/** Memory that is never shared: areas that own all their pages, and what programs read from them. */
module CowPlain {
  import opened Common
  import opened CowState

  /** An area that owns all its pages. */
  datatype PlainArea = PlainArea(ubase: nat, perm: Perm, pages: seq<Page>)

  type Plain = map<int, PlainArea>

  /** What a step does to memory that is never shared. */
  datatype Op =
    | Map(area: int, ubase: nat, perm: Perm, count: nat)
    | Load(area: int, uaddr: nat)
    | Fetch(area: int, uaddr: nat)
    | Store(area: int, uaddr: nat, value: byte)
    | KernelRead(area: int, uaddr: nat)
    | KernelWrite(area: int, uaddr: nat, value: byte)
    | Fork(area: int, child: int)
    | Unmap(area: int)

  function Index(area: PlainArea, uaddr: nat): nat
    requires uaddr >= area.ubase
  {
    (uaddr - area.ubase) / PGSIZE
  }

  function Offset(area: PlainArea, uaddr: nat): nat
    requires uaddr >= area.ubase
  {
    (uaddr - area.ubase) % PGSIZE
  }

  predicate Reaches(p: Plain, a: int, uaddr: nat) {
    a in p && uaddr >= p[a].ubase && Index(p[a], uaddr) < |p[a].pages| && |p[a].pages[Index(p[a], uaddr)]| == PGSIZE
  }

  function ReadAt(p: Plain, a: int, uaddr: nat): Option<byte> {
    if Reaches(p, a, uaddr) then Some(p[a].pages[Index(p[a], uaddr)][Offset(p[a], uaddr)]) else None
  }

  function Patch(page: Page, o: nat, v: byte): (r: Page)
    requires o < |page|
    ensures |r| == |page| && r[o] == v && forall i :: 0 <= i < |page| && i != o ==> r[i] == page[i]
  {
    page[o := v]
  }

  function WriteAt(p: Plain, a: int, uaddr: nat, v: byte): Plain {
    if Reaches(p, a, uaddr) && p[a].perm.w then
      var i := Index(p[a], uaddr);
      p[a := p[a].(pages := p[a].pages[i := Patch(p[a].pages[i], Offset(p[a], uaddr), v)])]
    else p
  }

  function Zeros(n: nat): (r: seq<Page>)
    ensures |r| == n && forall i :: 0 <= i < n ==> r[i] == ZeroPage()
  {
    seq(n, _ => ZeroPage())
  }

  function Step(p: Plain, op: Op): Plain {
    match op
    case Map(a, ubase, perm, n) => if a in p then p else p[a := PlainArea(ubase, perm, Zeros(n))]
    case Load(_, _) => p
    case Fetch(_, _) => p
    case KernelRead(_, _) => p
    case Store(a, uaddr, v) => WriteAt(p, a, uaddr, v)
    case KernelWrite(a, uaddr, v) => WriteAt(p, a, uaddr, v)
    case Fork(a, c) => if a in p && c !in p then p[c := p[a]] else p
    case Unmap(a) => if a in p then p[a := p[a].(pages := Zeros(|p[a].pages|))] else p
  }

  /** What a step reports to the program. */
  function Seen(p: Plain, op: Op): Option<byte> {
    match op
    case Load(a, uaddr) => if a in p && p[a].perm.r then ReadAt(p, a, uaddr) else None
    case Fetch(a, uaddr) => if a in p && p[a].perm.x then ReadAt(p, a, uaddr) else None
    case KernelRead(a, uaddr) => ReadAt(p, a, uaddr)
    case Store(a, uaddr, v) => if Reaches(p, a, uaddr) && p[a].perm.w then Some(v) else None
    case KernelWrite(a, uaddr, v) => if Reaches(p, a, uaddr) && p[a].perm.w then Some(v) else None
    case _ => None
  }

  function After(p: Plain, ops: seq<Op>): Plain {
    if ops == [] then p else Step(After(p, ops[..|ops| - 1]), ops[|ops| - 1])
  }

  lemma {:induction false} AfterNext(p: Plain, ops: seq<Op>, i: nat)
    requires i < |ops|
    ensures After(p, ops[..i + 1]) == Step(After(p, ops[..i]), ops[i])
  {
    assert ops[..i + 1][..i] == ops[..i];
  }

  // ---- what is read is what was written last ----

  ghost predicate Sized(p: Plain) {
    forall a, i :: a in p && 0 <= i < |p[a].pages| ==> |p[a].pages[i]| == PGSIZE
  }

  lemma {:induction false} StepSized(p: Plain, op: Op)
    requires Sized(p)
    ensures Sized(Step(p, op))
  {
  }

  lemma {:induction false} AfterSized(p: Plain, ops: seq<Op>)
    requires Sized(p)
    ensures Sized(After(p, ops))
  {
    if ops != [] {
      AfterSized(p, ops[..|ops| - 1]);
      StepSized(After(p, ops[..|ops| - 1]), ops[|ops| - 1]);
    }
  }

  /** The bytes of an area of `n` pages of 4096 bytes. */
  predicate InRange(ubase: nat, n: nat, u: nat) {
    ubase <= u < ubase + 4096 * n
  }

  lemma {:induction false} ReachesIff(p: Plain, a: int, u: nat)
    requires Sized(p)
    ensures Reaches(p, a, u) <==> a in p && InRange(p[a].ubase, |p[a].pages|, u)
  {
    if a in p && u >= p[a].ubase {
      var n, x := |p[a].pages|, u - p[a].ubase;
      if x / 4096 < n { assert x < 4096 * n; } else { assert x >= 4096 * n; }
    }
  }

  /** Different addresses of an area are different bytes of it. */
  lemma {:induction false} Places(area: PlainArea, t: nat, u: nat)
    requires t >= area.ubase && u >= area.ubase && Index(area, t) == Index(area, u)
    requires Offset(area, t) == Offset(area, u)
    ensures t == u
  {
  }

  /** A write is read back where it went and nowhere else, and moves nothing. */
  lemma {:induction false} WriteReads(p: Plain, a: int, t: nat, v: byte, b: int, u: nat)
    requires Sized(p)
    ensures var p' := WriteAt(p, a, t, v);
      && Reaches(p', b, u) == Reaches(p, b, u)
      && ReadAt(p', b, u) ==
         if a == b && t == u && Reaches(p, a, t) && p[a].perm.w then Some(v) else ReadAt(p, b, u)
  {
    if Reaches(p, a, t) && p[a].perm.w && a == b && t != u && Reaches(p, b, u) && Index(p[a], t) == Index(p[a], u) {
      if Offset(p[a], t) == Offset(p[a], u) { Places(p[a], t, u); }
    }
  }

  lemma {:induction false} ZeroReads(p: Plain, a: int, ubase: nat, perm: Perm, n: nat, u: nat)
    requires p == p[a := PlainArea(ubase, perm, Zeros(n))]
    ensures ReadAt(p, a, u) == if InRange(ubase, n, u) then Some(0) else None
  {
    assert p[a] == PlainArea(ubase, perm, Zeros(n));
    var q := map[a := p[a]];
    ReachesIff(q, a, u);
    assert Reaches(p, a, u) <==> Reaches(q, a, u);
  }

  predicate Writes(p: Plain, op: Op, a: int, u: nat) {
    (op.Store? || op.KernelWrite?) && op.area == a && op.uaddr == u && Reaches(p, a, u) && p[a].perm.w
  }

  predicate Reads(op: Op) {
    op.Load? || op.Fetch? || op.KernelRead?
  }

  /** The byte last written to address `u` of area `a` by a program: by a store or the kernel, 0 by mapping or unmapping
      the area, and before a fork what was written to the parent. */
  ghost function Latest(p: Plain, ops: seq<Op>, a: int, u: nat): Option<byte>
    decreases |ops|
  {
    if ops == [] then ReadAt(p, a, u)
    else
      var before, op := ops[..|ops| - 1], ops[|ops| - 1];
      var q := After(p, before);
      if Writes(q, op, a, u) then Some(op.value)
      else if op.Map? && op.area == a && a !in q then
        if InRange(op.ubase, op.count, u) then Some(0) else None
      else if op.Fork? && op.child == a && op.area in q && a !in q then Latest(p, before, op.area, u)
      else if op.Unmap? && op.area == a && a in q then
        if Latest(p, before, a, u).Some? then Some(0) else None
      else Latest(p, before, a, u)
  }

  /** Every read gives the byte last written there. */
  lemma {:induction false} ReadsLatest(p: Plain, ops: seq<Op>, a: int, u: nat)
    requires Sized(p)
    ensures ReadAt(After(p, ops), a, u) == Latest(p, ops, a, u)
    decreases |ops|
  {
    if ops != [] {
      var before, op := ops[..|ops| - 1], ops[|ops| - 1];
      var q := After(p, before);
      AfterSized(p, before);
      ReadsLatest(p, before, a, u);
      match op
      case Store(b, t, v) => WriteReads(q, b, t, v, a, u);
      case KernelWrite(b, t, v) => WriteReads(q, b, t, v, a, u);
      case Map(b, ubase, perm, n) => if b == a && a !in q { ZeroReads(Step(q, op), a, ubase, perm, n, u); }
      case Fork(b, c) => if c == a && b in q && a !in q { ReadsLatest(p, before, b, u); }
      case Unmap(b) =>
        if b == a && a in q {
          ZeroReads(Step(q, op), a, q[a].ubase, q[a].perm, |q[a].pages|, u);
          ReachesIff(q, a, u);
        }
      case _ =>
    }
  }
}
