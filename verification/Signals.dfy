/** Signal delivery and return: the interrupted context is saved in a frame on the user stack. */
module Signals {
  import Bits

  // ---- contexts and frames ----

  /** User registers: `gpr[0]` is the zero register, `gpr[2]` the stack pointer. */
  datatype Context = Context(gpr: seq<nat>, fpregs: seq<nat>, pc: nat)

  predicate IsContext(c: Context) {
    |c.gpr| == 32 && |c.fpregs| == 33
  }

  /** The frame in 8-byte words: the signal information (18 words with its padding), the user context
      up to the saved mask, its unused words, and the machine context. */
  const MASK_AT: nat := 23
  const MCONTEXT_AT: nat := 40
  const FRAME_WORDS: nat := 138
  const FRAME_SIZE: nat := 1104
  const UCONTEXT_AT: nat := 144

  function Blank(n: nat): (r: seq<nat>)
    ensures |r| == n
  {
    seq(n, _ => 0)
  }

  /** `SigContext::from`, as words: the pc, 31 registers, and 33 of 66 floating-point words. */
  function Machine(c: Context): (w: seq<nat>)
    requires IsContext(c)
    ensures |w| == FRAME_WORDS - MCONTEXT_AT
  {
    [c.pc] + c.gpr[1..] + c.fpregs + Blank(33)
  }

  function Encode(info: seq<nat>, mask: nat, c: Context): (w: seq<nat>)
    requires IsContext(c) && |info| == 18
    ensures |w| == FRAME_WORDS
  {
    info + Blank(5) + [mask] + Blank(16) + Machine(c)
  }

  /** `restore_from_signal` and the saved mask, from the words of a frame. */
  function Restored(w: seq<nat>, now: Context): (r: (nat, Context))
    requires |w| == FRAME_WORDS && IsContext(now)
    ensures IsContext(r.1)
  {
    var m := w[MCONTEXT_AT..];
    (w[MASK_AT], Context([now.gpr[0]] + m[1..32], m[32..65], m[0]))
  }

  /** A frame gives back the mask, the pc, the floating-point registers, and every register but the
      zero register, which it does not hold. */
  lemma {:induction false} FrameRoundTrip(info: seq<nat>, mask: nat, c: Context, now: Context)
    requires IsContext(c) && IsContext(now) && |info| == 18
    ensures Restored(Encode(info, mask, c), now) == (mask, c.(gpr := [now.gpr[0]] + c.gpr[1..]))
  {
    var w := Encode(info, mask, c);
    var m := Machine(c);
    assert w[MCONTEXT_AT..] == m;
    assert w[MASK_AT] == mask;
    assert m[1..32] == c.gpr[1..] && m[32..65] == c.fpregs;
  }

  /** `stack_top & !0xf`. */
  function AlignDown(n: nat): (r: nat)
    ensures r % 16 == 0 && r <= n < r + 16
  {
    n / 16 * 16
  }

  /** The context in which a handler starts. */
  function Entered(c: Context, stackTop: nat, signum: nat, handler: nat, siginfo: bool, restorer: nat): (r: Context)
    requires IsContext(c)
    ensures IsContext(r)
  {
    var gpr := c.gpr[1 := restorer][10 := signum][2 := stackTop];
    Context(if siginfo then gpr[11 := stackTop][12 := stackTop + UCONTEXT_AT] else gpr, c.fpregs, handler)
  }

  // ---- user memory ----

  type Memory = map<int, nat>

  /** The words `w` are in memory from address `at` on. */
  predicate Holds(mem: Memory, at: int, w: seq<nat>) {
    forall i: nat :: i < |w| ==> Word(mem, at, i) == w[i]
  }

  function Word(mem: Memory, at: int, i: nat): nat {
    if at + 8 * i in mem then mem[at + 8 * i] else 0
  }

  /** What a handler finds: the signal information at `info`, and at `uc` the user context, with the mask in its word 5,
      behind the flags, the link and the stack, the pc in word 22 and the registers behind that. */
  ghost predicate FrameAt(mem: Memory, at: int, uc: int, info: seq<nat>, mask: nat, c: Context)
    requires IsContext(c) && |info| == 18
  {
    && (forall i: nat {:trigger info[i]} :: i < 18 ==> Word(mem, at, i) == info[i])
    && Word(mem, uc, 5) == mask && Word(mem, uc, 22) == c.pc
    && (forall r: nat {:trigger c.gpr[r]} :: 1 <= r < 32 ==> Word(mem, uc, 22 + r) == c.gpr[r])
    && (forall r: nat {:trigger c.fpregs[r]} :: r < 33 ==> Word(mem, uc, 54 + r) == c.fpregs[r])
  }

  lemma {:induction false} FrameThere(mem: Memory, at: int, info: seq<nat>, mask: nat, c: Context)
    requires IsContext(c) && |info| == 18 && Holds(mem, at, Encode(info, mask, c))
    ensures FrameAt(mem, at, at + 144, info, mask, c)
  {
    var w, m := Encode(info, mask, c), Machine(c);
    assert w[MCONTEXT_AT..] == m;
    var uc := at + 144;
    forall i: nat {:trigger Word(mem, uc, i)} | 18 + i < FRAME_WORDS ensures Word(mem, uc, i) == w[18 + i] {
      assert Word(mem, at, 18 + i) == w[18 + i];
    }
    assert w[23] == mask && w[40] == m[0] == c.pc;
    forall r: nat | 1 <= r < 32 ensures w[40 + r] == c.gpr[r] {
      assert m[r] == c.gpr[1..][r - 1];
    }
    forall r: nat | r < 33 ensures w[72 + r] == c.fpregs[r] {
      assert m[32 + r] == c.fpregs[r];
    }
    forall i: nat | i < 18 ensures Word(mem, at, i) == info[i] {
      assert w[i] == info[i];
    }
  }

  // ---- nesting ----

  /** A delivery that has not returned: where its frame is and what it interrupted. */
  datatype Saved = Saved(at: int, info: seq<nat>, mask: nat, ctx: Context)

  /** The frame of a delivery is intact. */
  predicate Intact(mem: Memory, s: Saved) {
    IsContext(s.ctx) && |s.info| == 18 && Holds(mem, s.at, Encode(s.info, s.mask, s.ctx))
  }

  /** Deeper frames lie below: their ranges do not meet. */
  ghost predicate Stacked(frames: seq<Saved>) {
    forall i, j :: 0 <= i < j < |frames| ==> frames[j].at + FRAME_SIZE <= frames[i].at
  }

  // ---- runs ----

  datatype State = State(ctx: Context, mask: nat, frames: seq<Saved>)

  ghost predicate Delivers(s: State, s': State) {
    && IsContext(s.ctx) && IsContext(s'.ctx) && s'.ctx.gpr[0] == s.ctx.gpr[0]
    && |s'.frames| == |s.frames| + 1 && s'.frames[..|s.frames|] == s.frames
    && s'.frames[|s.frames|].mask == s.mask && s'.frames[|s.frames|].ctx == s.ctx
  }

  ghost predicate Returns(s: State, s': State) {
    && IsContext(s.ctx) && IsContext(s'.ctx) && s.frames != [] && s'.frames == s.frames[..|s.frames| - 1]
    && var top := s.frames[|s.frames| - 1];
    && IsContext(top.ctx) && s'.mask == top.mask && s'.ctx == top.ctx.(gpr := [s.ctx.gpr[0]] + top.ctx.gpr[1..])
  }

  /** User code: anything but the zero register and the saved frames. */
  ghost predicate Computes(s: State, s': State) {
    IsContext(s.ctx) && IsContext(s'.ctx) && s'.ctx.gpr[0] == s.ctx.gpr[0] && s'.frames == s.frames
  }

  ghost predicate IsRun(ss: seq<State>) {
    forall i {:trigger ss[i]} :: 0 <= i < |ss| - 1 ==>
      Delivers(ss[i], ss[i + 1]) || Returns(ss[i], ss[i + 1]) || Computes(ss[i], ss[i + 1])
  }

  /** While a delivery has not returned, its frame and those above it are the same. */
  lemma {:induction false} FramesStay(ss: seq<State>, i: nat)
    requires IsRun(ss) && 0 < i < |ss| && Delivers(ss[0], ss[1])
    requires forall k :: 0 < k <= i ==> |ss[k].frames| > |ss[0].frames|
    ensures ss[i].frames[..|ss[0].frames| + 1] == ss[1].frames
    ensures IsContext(ss[i].ctx) && ss[i].ctx.gpr[0] == ss[0].ctx.gpr[0]
  {
    var d := |ss[0].frames| + 1;
    if i > 1 {
      FramesStay(ss, i - 1);
      var s, s' := ss[i - 1], ss[i];
      if Delivers(s, s') {
        assert s'.frames[..d] == s'.frames[..|s.frames|][..d];
      } else if Returns(s, s') {
        assert s'.frames[..d] == s.frames[..d];
        assert s'.ctx.gpr[0] == s.ctx.gpr[0];
      }
    } else {
      assert ss[1].frames[..d] == ss[1].frames;
    }
  }

  /** From a delivery to the return at the same depth, whatever is delivered, computed and returned from in between:
      the interrupted context and mask come back, and so do the frames. */
  lemma {:induction false} Nested(ss: seq<State>)
    requires IsRun(ss) && |ss| > 2 && Delivers(ss[0], ss[1])
    requires forall k :: 0 < k < |ss| - 1 ==> |ss[k].frames| > |ss[0].frames|
    requires |ss[|ss| - 1].frames| == |ss[0].frames|
    ensures ss[|ss| - 1] == ss[0]
  {
    var n, d := |ss| - 1, |ss[0].frames|;
    FramesStay(ss, n - 1);
    var s, s' := ss[n - 1], ss[n];
    assert Returns(s, s');
    assert |s.frames| == d + 1 && s.frames[..d + 1] == s.frames;
    assert s.frames[..d] == ss[1].frames[..d];
    assert s'.ctx.gpr == ss[0].ctx.gpr;
  }

  datatype Step =
    | Deliver(info: seq<nat>, signum: nat, handler: nat, mask: nat, nodefer: bool, siginfo: bool, restorer: nat)
    | Compute(ctx: Context, mask: nat, mem: Memory)
    | Return

  /** The steps that can be taken: a delivery has room for its frame below the last one, user code leaves the saved
      frames and the zero register alone, and a handler returns with the stack pointer it was started with. */
  predicate Allowed(s: State, step: Step)
    requires IsContext(s.ctx)
  {
    match step
    case Deliver(info, signum, _, _, _, _, _) =>
      && (s.frames != [] ==> s.ctx.gpr[2] <= s.frames[|s.frames| - 1].at)
      && |info| == 18 && s.ctx.gpr[2] >= FRAME_SIZE + 16 && signum > 0
    case Compute(ctx, _, mem) =>
      && IsContext(ctx) && ctx.gpr[0] == s.ctx.gpr[0]
      && forall i :: 0 <= i < |s.frames| ==> Intact(mem, s.frames[i])
    case Return => s.frames != [] && s.ctx.gpr[2] == s.frames[|s.frames| - 1].at
  }

  /** A step from `s` to `s'`; one that cannot be taken does nothing. */
  ghost predicate Takes(s: State, step: Step, s': State) {
    IsContext(s.ctx) &&
    if !Allowed(s, step) then s' == s
    else
      match step
      case Deliver(_, signum, handler, _, _, _, _) =>
        Delivers(s, s') && s'.ctx.pc == handler && s'.ctx.gpr[10] == signum
      case Compute(ctx, mask, _) => Computes(s, s') && s'.ctx == ctx && s'.mask == mask
      case Return => Returns(s, s')
  }

  ghost predicate Follows(ss: seq<State>, steps: seq<Step>) {
    |ss| == |steps| + 1 && forall i {:trigger steps[i]} :: 0 <= i < |steps| ==> Takes(ss[i], steps[i], ss[i + 1])
  }

  lemma {:induction false} FollowsRun(ss: seq<State>, steps: seq<Step>)
    requires Follows(ss, steps)
    ensures IsRun(ss)
  {
    forall i {:trigger ss[i]} | 0 <= i < |ss| - 1
      ensures Delivers(ss[i], ss[i + 1]) || Returns(ss[i], ss[i + 1]) || Computes(ss[i], ss[i + 1])
    {
      assert Takes(ss[i], steps[i], ss[i + 1]);
    }
  }

  /** A run that begins with a delivery and is back at its depth at the end, and not before. */
  ghost predicate Balanced(ss: seq<State>) {
    && |ss| > 2 && |ss[1].frames| == |ss[0].frames| + 1 && |ss[|ss| - 1].frames| == |ss[0].frames|
    && forall k :: 0 < k < |ss| - 1 ==> |ss[k].frames| > |ss[0].frames|
  }

  class Task {
    var ctx: Context
    var mask: nat
    var mem: Memory

    /** The deliveries that have not returned, the outermost first. (The kernel keeps no such list.) */
    var frames: seq<Saved>

    constructor (ctx: Context, mask: nat, mem: Memory)
      requires IsContext(ctx)
      ensures Valid() && frames == [] && this.ctx == ctx && this.mask == mask
    {
      this.ctx, this.mask, this.mem, frames := ctx, mask, mem, [];
    }

    ghost predicate Valid()
      reads this
    {
      && IsContext(ctx) && Stacked(frames)
      && forall i :: 0 <= i < |frames| ==> Intact(mem, frames[i])
    }

    ghost function Now(): State
      reads this
    {
      State(ctx, mask, frames)
    }

    /** The running handler has left the frames above it alone: its stack is below its own frame. */
    predicate Below()
      reads this
      requires IsContext(ctx)
    {
      frames != [] ==> ctx.gpr[2] <= frames[|frames| - 1].at
    }

    /** User code runs: anything may change but the saved frames and the zero register. */
    method UserRuns(ctx': Context, mask': nat, mem': Memory)
      requires Valid() && IsContext(ctx') && ctx'.gpr[0] == ctx.gpr[0]
      requires forall i :: 0 <= i < |frames| ==> Intact(mem', frames[i])
      modifies this`ctx, this`mask, this`mem
      ensures Valid() && ctx == ctx' && mask == mask' && mem == mem' && Computes(old(Now()), Now())
    {
      ctx, mask, mem := ctx', mask', mem';
    }

    /** `copy_to_user` of a frame. */
    method CopyToUser(at: int, w: seq<nat>)
      modifies this`mem
      ensures Holds(mem, at, w)
      ensures forall a :: a < at || a >= at + 8 * |w| ==>
        (a in mem <==> a in old(mem)) && (a in mem ==> mem[a] == old(mem)[a])
    {
      for i := 0 to |w|
        invariant forall k: nat :: k < i ==> Word(mem, at, k) == w[k]
        invariant forall a :: a < at || a >= at + 8 * |w| ==>
          (a in mem <==> a in old(mem)) && (a in mem ==> mem[a] == old(mem)[a])
      {
        ghost var before := mem;
        mem := mem[at + 8 * i := w[i]];
        forall k: nat | k < i + 1 ensures Word(mem, at, k) == w[k] {
          if k < i { assert Word(before, at, k) == w[k]; }
        }
      }
    }

    /** `copy_from_user` of a frame. */
    method CopyFromUser(at: int) returns (w: seq<nat>)
      ensures |w| == FRAME_WORDS && Holds(mem, at, w)
    {
      w := [];
      for i := 0 to FRAME_WORDS
        invariant |w| == i && forall k: nat :: k < i ==> Word(mem, at, k) == w[k]
      {
        w := w + [Word(mem, at, i)];
      }
    }

    /** Saves the context and a mask in a new frame below the stack pointer. */
    method PushFrame(info: seq<nat>, oldMask: nat) returns (stackTop: nat)
      requires Valid() && Below() && |info| == 18 && ctx.gpr[2] >= FRAME_SIZE + 16
      modifies this`mem, this`frames
      ensures Valid() && frames == old(frames) + [Saved(stackTop, info, oldMask, ctx)]
      ensures stackTop % 16 == 0 && stackTop + FRAME_SIZE <= ctx.gpr[2]
    {
      stackTop := AlignDown(ctx.gpr[2] - FRAME_SIZE);
      ghost var before := mem;
      CopyToUser(stackTop, Encode(info, oldMask, ctx));
      FramesKept(before, mem, frames, stackTop, ctx.gpr[2]);
      frames := frames + [Saved(stackTop, info, oldMask, ctx)];
    }

    /** The part of `handle_signal` that delivers to a handler without the alternate stack. */
    method HandleSignal(info: seq<nat>, signum: nat, handler: nat, actionMask: nat, nodefer: bool, siginfo: bool,
                        restorer: nat)
      requires Valid() && Below() && |info| == 18 && ctx.gpr[2] >= FRAME_SIZE + 16 && signum > 0
      modifies this
      ensures Valid() && Below() && Delivers(old(Now()), Now())
      ensures frames == old(frames) + [Saved(ctx.gpr[2], info, old(mask), old(ctx))]
      ensures ctx.gpr[2] % 16 == 0 && ctx.gpr[2] + FRAME_SIZE <= old(ctx).gpr[2]
      ensures ctx.pc == handler && ctx.gpr[1] == restorer && ctx.gpr[10] == signum && ctx.fpregs == old(ctx).fpregs
      ensures ctx.gpr[0] == old(ctx).gpr[0]
      ensures siginfo ==> ctx.gpr[11] == ctx.gpr[2] && ctx.gpr[12] == ctx.gpr[2] + 144
      ensures mask == Bits.Or(Bits.Or(old(mask), actionMask), if nodefer then 0 else Bits.Pow2(signum - 1))
      ensures forall r :: 3 <= r < 10 || 13 <= r < 32 ==> ctx.gpr[r] == old(ctx).gpr[r]
      ensures !siginfo ==> ctx.gpr[11] == old(ctx).gpr[11] && ctx.gpr[12] == old(ctx).gpr[12]
      ensures FrameAt(mem, ctx.gpr[2], ctx.gpr[2] + 144, info, old(mask), old(ctx))
    {
      var oldMask := mask;
      mask := Bits.Or(Bits.Or(oldMask, actionMask), if nodefer then 0 else Bits.Pow2(signum - 1));
      var stackTop := PushFrame(info, oldMask);
      assert Intact(mem, frames[|frames| - 1]);
      FrameThere(mem, stackTop, info, oldMask, ctx);
      ctx := Entered(ctx, stackTop, signum, handler, siginfo, restorer);
    }

    /** `return_from_signal`, at the stack pointer the handler was started with: exactly the interrupted
        registers, floating-point state, pc and mask come back. */
    method ReturnFromSignal()
      requires Valid() && frames != [] && ctx.gpr[2] == frames[|frames| - 1].at
      modifies this`ctx, this`mask, this`frames
      ensures Valid() && Returns(old(Now()), Now())
      ensures frames == old(frames)[..|old(frames)| - 1]
      ensures var top := old(frames)[|old(frames)| - 1];
        && mask == top.mask && ctx.pc == top.ctx.pc && ctx.fpregs == top.ctx.fpregs
        && ctx.gpr[1..] == top.ctx.gpr[1..] && ctx.gpr[0] == old(ctx).gpr[0]
    {
      var w := CopyFromUser(ctx.gpr[2]);
      ghost var top := frames[|frames| - 1];
      assert Intact(mem, top);
      SameWords(mem, top.at, w, Encode(top.info, top.mask, top.ctx));
      FrameRoundTrip(top.info, top.mask, top.ctx, ctx);
      var (m, c) := Restored(w, ctx);
      mask, ctx := m, c;
      frames := frames[..|frames| - 1];
    }

    method Do(step: Step)
      requires Valid()
      modifies this
      ensures Valid() && Takes(old(Now()), step, Now())
    {
      if !Allowed(State(ctx, mask, frames), step) { return; }
      match step {
        case Deliver(info, signum, handler, actionMask, nodefer, siginfo, restorer) =>
          HandleSignal(info, signum, handler, actionMask, nodefer, siginfo, restorer);
        case Compute(ctx', mask', mem') => UserRuns(ctx', mask', mem');
        case Return => ReturnFromSignal();
      }
    }

    /** Any sequence of deliveries, user code and returns. A balanced one ends in the context and with the mask in which
        it began. */
    method Run(steps: seq<Step>) returns (ghost states: seq<State>)
      requires Valid()
      modifies this
      ensures Valid() && Follows(states, steps) && states[0] == old(Now()) && states[|steps|] == Now()
      ensures Balanced(states) ==> ctx == old(ctx) && mask == old(mask) && frames == old(frames)
    {
      states := [Now()];
      for i := 0 to |steps|
        invariant Valid() && Follows(states, steps[..i]) && states[0] == old(Now()) && states[i] == Now()
      {
        Do(steps[i]);
        states := states + [Now()];
        assert steps[..i + 1] == steps[..i] + [steps[i]];
      }
      assert steps[..|steps|] == steps;
      FollowsRun(states, steps);
      if Balanced(states) { Nested(states); }
    }
  }

  lemma {:induction false} SameWords(mem: Memory, at: int, a: seq<nat>, b: seq<nat>)
    requires |a| == |b| && Holds(mem, at, a) && Holds(mem, at, b)
    ensures a == b
  {
    forall i: nat | i < |a| ensures a[i] == b[i] {
      assert Word(mem, at, i) == a[i] && Word(mem, at, i) == b[i];
    }
  }

  /** A new frame below all others changes none of them. */
  lemma {:induction false} FramesKept(mem: Memory, mem': Memory, frames: seq<Saved>, at: int, sp: nat)
    requires Stacked(frames) && (frames != [] ==> sp <= frames[|frames| - 1].at) && at + FRAME_SIZE <= sp
    requires forall i :: 0 <= i < |frames| ==> Intact(mem, frames[i])
    requires forall a :: a < at || a >= at + FRAME_SIZE ==>
      (a in mem' <==> a in mem) && (a in mem' ==> mem'[a] == mem[a])
    ensures forall i :: 0 <= i < |frames| ==> Intact(mem', frames[i]) && at + FRAME_SIZE <= frames[i].at
  {
    forall i | 0 <= i < |frames| ensures Intact(mem', frames[i]) && at + FRAME_SIZE <= frames[i].at {
      assert Intact(mem, frames[i]);
      var s := frames[i];
      assert at + FRAME_SIZE <= s.at;
      forall k: nat | k < FRAME_WORDS ensures Word(mem', s.at, k) == Word(mem, s.at, k) {
      }
    }
  }
}
