/** Signal frames on the user stack: delivery pushes one, sigreturn pops it. */
module Signals {
  import opened Words

  const SIGKILL := 9
  const SIGSEGV := 11
  const KILL_BIT: bv32 := 0x200
  const SIG_DFL := 0
  const SIG_IGN := 1
  const FRAME_WORDS := 20
  const FRAME_SIZE := 160

  /** The registers a user program sees. */
  datatype Context = Context(
    r15: nat, r14: nat, r13: nat, r12: nat, r11: nat, r10: nat, r9: nat, r8: nat, rbp: nat, rdi: nat, rsi: nat,
    rdx: nat, rcx: nat, rbx: nat, rax: nat, rip: nat, rflags: nat, rsp: nat)

  /** One process: its registers, its memory, the words it may touch and the
      signals it blocks. */
  datatype Process = Process(ctx: Context, mem: Cells, valid: set<nat>, blocked: bv32)

  datatype Action = Action(handler: nat, restorer: nat, mask: bv32)

  /** What a delivery or a return comes to. */
  datatype Outcome = Ignored | Exits(sig: nat) | Entered(p: Process)

  // ---- frames ----------------------------------------------------------------------------------

  /** The frame, word by word in the order of its fields. */
  function Frame(c: Context, sig: nat, mask: bv32): (f: seq<nat>)
    ensures |f| == FRAME_WORDS
  {
    [c.r15, c.r14, c.r13, c.r12, c.r11, c.r10, c.r9, c.r8, c.rbp, c.rdi, c.rsi, c.rdx, c.rcx, c.rbx, c.rax,
     c.rip, c.rflags, c.rsp, sig, AsWord(mask)]
  }

  function Unframe(f: seq<nat>): (c: Context)
    requires |f| == FRAME_WORDS
  {
    Context(f[0], f[1], f[2], f[3], f[4], f[5], f[6], f[7], f[8], f[9], f[10], f[11], f[12], f[13], f[14], f[15],
            f[16], f[17])
  }

  function AsWord(m: bv32): (w: nat) { m as nat }

  /** `frame.mask as u32`. */
  function AsMask(w: nat): (m: bv32) { (w % 0x1_0000_0000) as bv32 }

  lemma MaskBack(m: bv32)
    ensures AsMask(AsWord(m)) == m
  {
    assert (m as nat) as bv32 == m;
  }

  lemma FrameBack(c: Context, sig: nat, mask: bv32)
    ensures Unframe(Frame(c, sig, mask)) == c && AsMask(Frame(c, sig, mask)[19]) == mask
  {
    hide AsWord, AsMask;
    MaskBack(mask);
  }

  // ---- user memory -----------------------------------------------------------------------------

  predicate InReach(p: Process, a: nat, n: nat) { forall i: nat | i < n :: a + 8 * i in p.valid }

  /** Cells with the words `f` stored from `a` on. */
  function Stored(mem: Cells, a: nat, f: seq<nat>): (r: Cells) {
    if f == [] then mem else Stored(mem, a, f[..|f| - 1])[a + 8 * (|f| - 1) := f[|f| - 1]]
  }

  function Fetched(mem: Cells, a: nat, n: nat): (f: seq<nat>)
    ensures |f| == n
  {
    if n == 0 then [] else Fetched(mem, a, n - 1) + [Load(mem, a + 8 * (n - 1))]
  }

  lemma {:induction false} StoredElsewhere(mem: Cells, a: nat, f: seq<nat>, b: nat)
    requires b < a || a + 8 * |f| <= b
    ensures Load(Stored(mem, a, f), b) == Load(mem, b)
  {
    if f != [] { StoredElsewhere(mem, a, f[..|f| - 1], b); }
  }

  lemma {:induction false} StoredAt(mem: Cells, a: nat, f: seq<nat>, i: nat)
    requires i < |f|
    ensures Load(Stored(mem, a, f), a + 8 * i) == f[i]
  {
    if i < |f| - 1 { StoredAt(mem, a, f[..|f| - 1], i); }
  }

  /** Words from `a` on that memory still holds are read back. */
  lemma {:induction false} FetchedIs(mem: Cells, a: nat, f: seq<nat>, n: nat)
    requires n <= |f| && forall i: nat | i < n :: Load(mem, a + 8 * i) == f[i]
    ensures Fetched(mem, a, n) == f[..n]
  {
    if n > 0 { FetchedIs(mem, a, f, n - 1); }
  }

  // ---- delivery and return ---------------------------------------------------------------------

  /** The bit of a signal in a mask. */
  function BitOf(sig: nat): (b: bv32)
    requires sig < 32
  {
    1 as bv32 << sig
  }

  /** All three masks without SIGKILL. */
  function Union(a: bv32, b: bv32, c: bv32): (r: bv32) { (a | b | c) & !KILL_BIT }

  predicate Meets(a: bv32, b: bv32) { a & b != 0 }

  /** What is blocked while a handler runs. */
  function Handling(blocked: bv32, sig: nat, mask: bv32): (r: bv32)
    requires sig < 32
  {
    Union(blocked, BitOf(sig), mask)
  }

  predicate Blocks(mask: bv32, sig: nat)
    requires sig < 32
  {
    Meets(mask, BitOf(sig))
  }

  function Wrap(a: int): (r: nat) { a % WORD }

  /** Where the handler's stack begins: room for the frame and the return
      address, then 8 below a multiple of 16 as after a call. */
  function HandlerSp(rsp: nat): (sp: nat) { Wrap(Wrap(rsp - (FRAME_SIZE + 8)) / 16 * 16 - 8) }

  function Deliver(p: Process, sig: nat, act: Action, ignored: bool): (r: Outcome)
    requires sig < 32
  {
    if sig == SIGKILL then Exits(SIGKILL)
    else if act.handler == SIG_IGN then Ignored
    else if act.handler == SIG_DFL then (if ignored then Ignored else Exits(sig))
    else if act.restorer == 0 then Exits(sig)
    else
      var sp := HandlerSp(p.ctx.rsp);
      if !InReach(p, sp + 8, FRAME_WORDS) || sp !in p.valid then Exits(SIGSEGV)
      else
        var mem := Stored(p.mem, sp + 8, Frame(p.ctx, sig, p.blocked));
        Entered(p.(mem := mem[sp := act.restorer],
                   ctx := p.ctx.(rdi := sig, rip := act.handler, rsp := sp),
                   blocked := Handling(p.blocked, sig, act.mask)))
  }

  function Sigreturn(p: Process): (r: Outcome) {
    if !InReach(p, p.ctx.rsp, FRAME_WORDS) then Exits(SIGSEGV)
    else
      var f := Fetched(p.mem, p.ctx.rsp, FRAME_WORDS);
      Entered(p.(ctx := Unframe(f), blocked := AsMask(f[19]) & !KILL_BIT))
  }

  /** A process whose reach ends below the kernel half, with SIGKILL open. */
  ghost predicate Sane(p: Process) {
    p.ctx.rsp < WORD && p.blocked & KILL_BIT == 0 && forall a | a in p.valid :: a + FRAME_SIZE + 16 < WORD / 2
  }

  /** The same words from `limit` up. */
  ghost predicate SameFrom(mem: Cells, to: Cells, limit: nat) {
    forall a: nat | limit <= a :: Load(to, a) == Load(mem, a)
  }

  lemma HandlerSpIs(rsp: nat)
    requires rsp < WORD
    ensures HandlerSp(rsp) % 16 == 8
    ensures HandlerSp(rsp) + FRAME_SIZE + 8 <= rsp <==> 184 <= rsp
    ensures rsp < 184 ==> HandlerSp(rsp) >= WORD / 2
  {
    hide Wrap;
    var room: int := rsp - (FRAME_SIZE + 8);
    var a: int := Wrap(room);
    WrapIs(room);
    var low: int := a / 16 * 16 - 8;
    WrapIs(low);
  }

  /** The stack pointer is no further down than that takes. */
  lemma HandlerSpNear(rsp: nat)
    requires 184 <= rsp < WORD
    ensures HandlerSp(rsp) + 176 <= rsp < HandlerSp(rsp) + 192
  {
    hide Wrap;
    var room: int := rsp - 168;
    WrapIs(room);
    WrapIs(room / 16 * 16 - 8);
  }

  lemma WrapIs(a: int)
    requires -WORD <= a < WORD
    ensures Wrap(a) == if a < 0 then a + WORD else a
  {
  }

  /** Where the frame of a handler that was just entered begins. */
  function Base(q: Process): (a: nat) { q.ctx.rsp + 8 }

  ghost predicate HoldsFrame(mem: Cells, a: nat, f: seq<nat>) {
    forall i: nat | i < |f| :: Load(mem, a + 8 * i) == f[i]
  }

  /** A handler is entered with its stack aligned as after a call; its frame is
      strictly below the interrupted stack pointer and nothing from there up
      was written. */
  lemma DeliverPushes(p: Process, sig: nat, act: Action, ignored: bool)
    requires Sane(p) && sig < 32 && Deliver(p, sig, act, ignored).Entered?
    ensures var q := Deliver(p, sig, act, ignored).p;
            && Sane(q) && q.valid == p.valid && q.ctx.rsp % 16 == 8 && Base(q) + FRAME_SIZE <= p.ctx.rsp
            && q.ctx.rip == act.handler && q.ctx.rdi == sig && Load(q.mem, q.ctx.rsp) == act.restorer
            && SameFrom(p.mem, q.mem, p.ctx.rsp) && HoldsFrame(q.mem, Base(q), Frame(p.ctx, sig, p.blocked))
            && InReach(p, Base(q), FRAME_WORDS)
  {
    hide BitOf;
    hide Frame, AsWord;
    var q, sp, f := Deliver(p, sig, act, ignored).p, HandlerSp(p.ctx.rsp), Frame(p.ctx, sig, p.blocked);
    HandlerSpIs(p.ctx.rsp);
    assert sp + 8 + 8 * 0 in p.valid;
    KillStaysOpen(p.blocked | BitOf(sig) | act.mask);
    forall a: nat | p.ctx.rsp <= a ensures Load(q.mem, a) == Load(p.mem, a) { StoredElsewhere(p.mem, sp + 8, f, a); }
    forall i: nat | i < |f| ensures Load(q.mem, sp + 8 + 8 * i) == f[i] { StoredAt(p.mem, sp + 8, f, i); }
  }

  /** The 20 words of the frame and the return address can be written. */
  ghost predicate CanPush(p: Process, sp: nat) { forall i: nat | i <= 20 :: sp + 8 * i in p.valid }

  /** What becomes of a signal: SIGKILL ends the process whatever it asked for; a
      signal is dropped if it is to be ignored, or by default if that is its
      default; a handler is entered exactly if there is one, it can return, and
      its frame can be written; anything else ends the process. */
  lemma DeliverDecides(p: Process, sig: nat, act: Action, ignored: bool)
    requires sig < 32
    ensures var r := Deliver(p, sig, act, ignored);
            && (r.Ignored? <==> sig != 9 && (act.handler == 1 || (act.handler == 0 && ignored)))
            && (r.Entered? <==> sig != 9 && 1 < act.handler && act.restorer != 0 && CanPush(p, HandlerSp(p.ctx.rsp)))
            && (r.Exits? ==> r.sig == if sig != 9 && 1 < act.handler && act.restorer != 0 then 11 else sig)
  {
    hide HandlerSp, Stored, Frame, Handling;
    PushReach(p, HandlerSp(p.ctx.rsp));
  }

  lemma PushReach(p: Process, sp: nat)
    ensures CanPush(p, sp) <==> InReach(p, sp + 8, FRAME_WORDS) && sp in p.valid
  {
    if InReach(p, sp + 8, FRAME_WORDS) && sp in p.valid {
      forall i: nat | i <= 20 ensures sp + 8 * i in p.valid {
        if i > 0 { assert sp + 8 + 8 * (i - 1) in p.valid; }
      }
    }
    if CanPush(p, sp) {
      assert sp + 8 * 0 in p.valid;
      forall i: nat | i < FRAME_WORDS ensures sp + 8 + 8 * i in p.valid { assert sp + 8 * (i + 1) in p.valid; }
    }
  }

  /** Returning needs the frame to be readable, and nothing else. */
  lemma ReturnDecides(p: Process)
    ensures var r := Sigreturn(p);
            if forall i: nat | i < 20 :: p.ctx.rsp + 8 * i in p.valid then r.Entered? && r.p.mem == p.mem
            else r == Exits(11)
  {
  }

  /** The frame, by distance from the stack pointer below it. */
  ghost predicate LaidOut(mem: Cells, sp: nat, c: Context, sig: nat, mask: bv32) {
    && Load(mem, sp + 8) == c.r15 && Load(mem, sp + 16) == c.r14 && Load(mem, sp + 24) == c.r13
    && Load(mem, sp + 32) == c.r12 && Load(mem, sp + 40) == c.r11 && Load(mem, sp + 48) == c.r10
    && Load(mem, sp + 56) == c.r9 && Load(mem, sp + 64) == c.r8 && Load(mem, sp + 72) == c.rbp
    && Load(mem, sp + 80) == c.rdi && Load(mem, sp + 88) == c.rsi && Load(mem, sp + 96) == c.rdx
    && Load(mem, sp + 104) == c.rcx && Load(mem, sp + 112) == c.rbx && Load(mem, sp + 120) == c.rax
    && Load(mem, sp + 128) == c.rip && Load(mem, sp + 136) == c.rflags && Load(mem, sp + 144) == c.rsp
    && Load(mem, sp + 152) == sig && AsMask(Load(mem, sp + 160)) == mask
  }

  /** Where a handler finds the interrupted registers, the signal and the mask. */
  lemma FrameLayout(p: Process, sig: nat, act: Action, ignored: bool)
    requires Sane(p) && sig < 32 && Deliver(p, sig, act, ignored).Entered?
    ensures var q := Deliver(p, sig, act, ignored).p; LaidOut(q.mem, q.ctx.rsp, p.ctx, sig, p.blocked)
  {
    hide Deliver;
    DeliverPushes(p, sig, act, ignored);
    var q := Deliver(p, sig, act, ignored).p;
    FrameWords(q.mem, q.ctx.rsp, p.ctx, sig, p.blocked);
  }

  lemma WordAt(mem: Cells, sp: nat, f: seq<nat>, i: nat, o: nat)
    requires HoldsFrame(mem, sp + 8, f) && i < |f| && o == 8 * i + 8
    ensures Load(mem, sp + o) == f[i]
  {
    assert Load(mem, sp + 8 + 8 * i) == f[i];
  }

  lemma FrameWords(mem: Cells, sp: nat, c: Context, sig: nat, mask: bv32)
    requires HoldsFrame(mem, sp + 8, Frame(c, sig, mask))
    ensures LaidOut(mem, sp, c, sig, mask)
  {
    hide AsWord, AsMask, HoldsFrame;
    var f := Frame(c, sig, mask);
    MaskBack(mask);
    WordAt(mem, sp, f, 0, 8);
    WordAt(mem, sp, f, 1, 16);
    WordAt(mem, sp, f, 2, 24);
    WordAt(mem, sp, f, 3, 32);
    WordAt(mem, sp, f, 4, 40);
    WordAt(mem, sp, f, 5, 48);
    WordAt(mem, sp, f, 6, 56);
    WordAt(mem, sp, f, 7, 64);
    WordAt(mem, sp, f, 8, 72);
    WordAt(mem, sp, f, 9, 80);
    WordAt(mem, sp, f, 10, 88);
    WordAt(mem, sp, f, 11, 96);
    WordAt(mem, sp, f, 12, 104);
    WordAt(mem, sp, f, 13, 112);
    WordAt(mem, sp, f, 14, 120);
    WordAt(mem, sp, f, 15, 128);
    WordAt(mem, sp, f, 16, 136);
    WordAt(mem, sp, f, 17, 144);
    WordAt(mem, sp, f, 18, 152);
    WordAt(mem, sp, f, 19, 160);
  }

  function Shifted(k: bv32): (r: bv32)
    requires k < 32
  {
    1 as bv32 << k
  }

  function Num(s: nat): (k: bv32)
    requires s < 32
  {
    s as bv32
  }

  lemma NumBack(s: nat)
    requires s < 32
    ensures Num(s) as nat == s && Num(s) < 32
  {
    assert (s as bv32) as nat == s;
  }

  lemma AsShift(s: nat)
    requires s < 32
    ensures Num(s) < 32 && BitOf(s) == Shifted(Num(s))
  {
  }

  lemma BitsDiffer(a: bv32, b: bv32)
    requires a < 32 && b < 32
    ensures Shifted(a) & Shifted(b) != 0 <==> a == b
  {
  }

  /** No two signals share a bit. */
  lemma OneBit(s: nat, t: nat)
    requires s < 32 && t < 32
    ensures Blocks(BitOf(s), t) <==> s == t
  {
    hide BitOf, Shifted, Num;
    AsShift(s);
    AsShift(t);
    NumBack(s);
    NumBack(t);
    BitsDiffer(Num(s), Num(t));
  }

  lemma KillIs()
    ensures BitOf(SIGKILL) == KILL_BIT
  {
  }

  lemma UnionMeets(a: bv32, b: bv32, c: bv32, t: bv32)
    requires !Meets(t, KILL_BIT)
    ensures Meets(Union(a, b, c), t) <==> Meets(a, t) || Meets(b, t) || Meets(c, t)
  {
    hide Union;
    UnionParts(a, b, c, t);
    AnyPart(a & t, b & t, c & t);
  }

  lemma UnionParts(a: bv32, b: bv32, c: bv32, t: bv32)
    requires t & KILL_BIT == 0
    ensures Union(a, b, c) & t == (a & t) | (b & t) | (c & t)
  {
    KillStaysOpen(t);
    assert (a | b | c) & !KILL_BIT & t == (a | b | c) & (t & !KILL_BIT);
  }

  lemma AnyPart(x: bv32, y: bv32, z: bv32)
    ensures x | y | z != 0 <==> x != 0 || y != 0 || z != 0
  {
  }

  lemma UnionOpen(a: bv32, b: bv32, c: bv32)
    ensures !Meets(Union(a, b, c), KILL_BIT)
  {
  }

  lemma HandlingBlocks(b: bv32, sig: nat, m: bv32, t: nat)
    requires sig < 32 && t < 32
    ensures Blocks(Handling(b, sig, m), t) <==> t != SIGKILL && (Blocks(b, t) || t == sig || Blocks(m, t))
  {
    hide BitOf, Meets, Union;
    KillIs();
    UnionOpen(b, BitOf(sig), m);
    OneBit(t, SIGKILL);
    OneBit(sig, t);
    if t != SIGKILL { UnionMeets(b, BitOf(sig), m, BitOf(t)); }
  }

  /** While the handler runs, blocked are the signals blocked before, the signal
      itself and those of the action's mask, and never SIGKILL. */
  lemma HandlerBlocks(p: Process, sig: nat, act: Action, ignored: bool, t: nat)
    requires sig < 32 && t < 32 && Deliver(p, sig, act, ignored).Entered?
    ensures Blocks(Deliver(p, sig, act, ignored).p.blocked, t) <==>
              t != SIGKILL && (Blocks(p.blocked, t) || t == sig || Blocks(act.mask, t))
  {
    hide Blocks, Handling, Stored, Frame, InReach, HandlerSp;
    HandlingBlocks(p.blocked, sig, act.mask, t);
  }

  lemma KillStaysOpen(m: bv32)
    ensures (m & !KILL_BIT) & KILL_BIT == 0 && (m & KILL_BIT == 0 ==> m & !KILL_BIT == m)
  {
  }

  /** If the frame is still there, returning gives back every register and the
      mask, whatever the handler did to them. */
  lemma ReturnRestores(p: Process, sig: nat, e: Process)
    requires p.blocked & KILL_BIT == 0 && InReach(e, e.ctx.rsp, FRAME_WORDS)
    requires HoldsFrame(e.mem, e.ctx.rsp, Frame(p.ctx, sig, p.blocked))
    ensures Sigreturn(e) == Entered(e.(ctx := p.ctx, blocked := p.blocked))
  {
    hide Frame, Unframe, AsMask;
    var f := Frame(p.ctx, sig, p.blocked);
    FetchedIs(e.mem, e.ctx.rsp, f, FRAME_WORDS);
    assert f[..FRAME_WORDS] == f;
    FrameBack(p.ctx, sig, p.blocked);
    KillStaysOpen(p.blocked);
  }

  // ---- nesting -----------------------------------------------------------------------------------

  /** What a handler does: its own work, which may change any register, the mask
      and any word below its frame, and further signals taken meanwhile, each
      with what its handler does. */
  datatype Body =
    | Done
    | Work(ctx: Context, mem: Cells, blocked: bv32, rest: Body)
    | Signal(sig: nat, act: Action, ignored: bool, inner: Body, rest: Body)

  /** Run a body above which `limit` must stay as it is. It comes to nothing if
      the rules are broken or the process dies. */
  ghost function Run(p: Process, b: Body, limit: nat): (r: Outcome)
    ensures r.Entered? || r.Exits?
    decreases b, 0
  {
    match b
    case Done => Entered(p)
    case Work(ctx, mem, blocked, rest) =>
      if SameFrom(p.mem, mem, limit) && ctx.rsp <= limit && ctx.rsp < WORD then
        Run(p.(ctx := ctx, mem := mem, blocked := blocked & !KILL_BIT), rest, limit)
      else Exits(0)
    case Signal(sig, act, ignored, inner, rest) =>
      if sig >= 32 then Exits(0)
      else
        match Deliver(p, sig, act, ignored)
        case Ignored => Run(p, rest, limit)
        case Exits(s) => Exits(s)
        case Entered(q) =>
          var o := Handled(q, inner);
          if o.Entered? then Run(o.p, rest, limit) else o
  }

  /** Run the handler to the point where the restorer asks to return, then
      return. */
  ghost function Handled(q: Process, inner: Body): (r: Outcome)
    ensures r.Entered? || r.Exits?
    decreases inner, 1
  {
    match Run(q, inner, Base(q))
    case Entered(e) => if e.ctx.rsp == Base(q) then Sigreturn(e) else Exits(0)
    case Exits(s) => Exits(s)
  }

  /** However deep the nesting, nothing at or above the limit changes, and after
      each handled signal the interrupted program continues with exactly the
      registers and the mask it had. */
  lemma {:induction false} RunUnwinds(p: Process, b: Body, limit: nat)
    requires Sane(p) && p.ctx.rsp <= limit && Run(p, b, limit).Entered?
    ensures var r := Run(p, b, limit).p;
            Sane(r) && r.valid == p.valid && r.ctx.rsp <= limit && SameFrom(p.mem, r.mem, limit)
    decreases b, 0
  {
    hide Deliver, Handled;
    match b
    case Done =>
    case Work(ctx, mem, blocked, rest) =>
      KillStaysOpen(blocked);
      RunUnwinds(p.(ctx := ctx, mem := mem, blocked := blocked & !KILL_BIT), rest, limit);
    case Signal(sig, act, ignored, inner, rest) =>
      if Deliver(p, sig, act, ignored).Entered? {
        HandledUnwinds(p, sig, act, ignored, inner);
        RunUnwinds(Handled(Deliver(p, sig, act, ignored).p, inner).p, rest, limit);
      } else {
        RunUnwinds(p, rest, limit);
      }
  }

  /** A signal taken and returned from: the process is as it was, except below
      its stack pointer. */
  lemma {:induction false} HandledUnwinds(p: Process, sig: nat, act: Action, ignored: bool, inner: Body)
    requires Sane(p) && sig < 32 && Deliver(p, sig, act, ignored).Entered?
    requires Handled(Deliver(p, sig, act, ignored).p, inner).Entered?
    ensures var r := Handled(Deliver(p, sig, act, ignored).p, inner).p;
            r == p.(mem := r.mem) && SameFrom(p.mem, r.mem, p.ctx.rsp)
    decreases inner, 1
  {
    hide Deliver, Sigreturn, Frame;
    var q := Deliver(p, sig, act, ignored).p;
    DeliverPushes(p, sig, act, ignored);
    RunUnwinds(q, inner, Base(q));
    var e := Run(q, inner, Base(q)).p;
    FrameKept(q.mem, e.mem, Base(q), Frame(p.ctx, sig, p.blocked));
    ReturnRestores(p, sig, e);
  }

  lemma FrameKept(mem: Cells, to: Cells, a: nat, f: seq<nat>)
    requires HoldsFrame(mem, a, f) && SameFrom(mem, to, a)
    ensures HoldsFrame(to, a, f)
  {
    forall i: nat | i < |f| ensures Load(to, a + 8 * i) == f[i] { assert Load(to, a + 8 * i) == Load(mem, a + 8 * i); }
  }

  // ---- in place ------------------------------------------------------------------------------------

  class Task {
    var ctx: Context
    var mem: Cells
    var valid: set<nat>
    var blocked: bv32

    ghost function Now(): (p: Process)
      reads this
    {
      Process(ctx, mem, valid, blocked)
    }

    /** Store words if they are all within reach. */
    method CopyOut(a: nat, f: seq<nat>) returns (ok: bool)
      modifies this`mem
      ensures ok == InReach(Now(), a, |f|) && mem == if ok then Stored(old(mem), a, f) else old(mem)
    {
      ok := InReach(Process(ctx, mem, valid, blocked), a, |f|);
      if !ok { return; }
      var i := 0;
      while i < |f|
        invariant 0 <= i <= |f| && mem == Stored(old(mem), a, f[..i])
      {
        assert f[..i + 1][..i] == f[..i];
        mem := mem[a + 8 * i := f[i]];
        i := i + 1;
      }
      assert f[..i] == f;
    }

    method CopyIn(a: nat, n: nat) returns (ok: bool, f: seq<nat>)
      ensures ok == InReach(Now(), a, n) && (ok ==> f == Fetched(mem, a, n))
    {
      f := [];
      ok := InReach(Process(ctx, mem, valid, blocked), a, n);
      if !ok { return; }
      while |f| < n
        invariant |f| <= n && f == Fetched(mem, a, |f|)
        decreases n - |f|
      {
        f := f + [Load(mem, a + 8 * |f|)];
      }
    }

    /** Build the frame and enter the handler, or say how the signal ends. */
    method DeliverCurrent(sig: nat, act: Action, ignored: bool) returns (r: Outcome)
      requires sig < 32
      modifies this
      ensures var d := Deliver(old(Now()), sig, act, ignored);
              && (d.Entered? <==> r.Entered?) && (d.Entered? ==> Now() == d.p) && (!d.Entered? ==> r == d)
    {
      if sig == SIGKILL { return Exits(SIGKILL); }
      if act.handler == SIG_IGN { return Ignored; }
      if act.handler == SIG_DFL { return if ignored then Ignored else Exits(sig); }
      if act.restorer == 0 { return Exits(sig); }
      var frame := Frame(ctx, sig, blocked);
      var sp := HandlerSp(ctx.rsp);
      var ok := CopyOut(sp + 8, frame);
      if !ok { return Exits(SIGSEGV); }
      if sp !in valid { return Exits(SIGSEGV); }
      mem := mem[sp := act.restorer];
      ctx := ctx.(rdi := sig, rip := act.handler, rsp := sp);
      blocked := Handling(blocked, sig, act.mask);
      return Entered(Process(ctx, mem, valid, blocked));
    }

    method SigReturn() returns (r: Outcome)
      modifies this
      ensures var d := Sigreturn(old(Now()));
              && (d.Entered? <==> r.Entered?) && (d.Entered? ==> Now() == d.p) && (!d.Entered? ==> r == d)
    {
      var ok, f := CopyIn(ctx.rsp, FRAME_WORDS);
      if !ok { return Exits(SIGSEGV); }
      blocked := AsMask(f[19]) & !KILL_BIT;
      ctx := Unframe(f);
      return Entered(Process(ctx, mem, valid, blocked));
    }
  }
}
