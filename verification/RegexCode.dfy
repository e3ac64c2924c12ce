/** The bytecode, its accepting paths and the code each plan stands for. */
module RegexCode {
  import opened RegexSyntax

  datatype Inst =
    | ITest(t: Test)
    | ISave(slot: nat)
    | ISplit(first: nat, second: nat)
    | IJmp(target: nat)
    | IMatch

  // ---- accepting paths ---------------------------------------------------

  datatype Verdict = No | Yes(end: nat, cap: Slots)

  /** Follow the program from `pc` for at most `k` instructions, letting the
      word decide every SPLIT; accept on MATCH with the word used up. */
  ghost function Accepts(k: nat, p: seq<Inst>, x: Subject, pc: nat, i: nat, cap: Slots, w: Word): (v: Verdict)
    requires i <= |x.s|
  {
    if k == 0 || pc >= |p| then No
    else match p[pc]
      case ITest(t) => if Passes(x, t, i) then Accepts(k - 1, p, x, pc + 1, i + Width(t), cap, w) else No
      case ISave(slot) => Accepts(k - 1, p, x, pc + 1, i, Save(cap, slot, i), w)
      case ISplit(a, b) => if w == [] then No else Accepts(k - 1, p, x, if w[0] then a else b, i, cap, w[1..])
      case IJmp(t) => Accepts(k - 1, p, x, t, i, cap, w)
      case IMatch => if w == [] then Yes(i, cap) else No
  }

  // ---- the code of a plan ------------------------------------------------

  /** How many instructions a plan compiles to. */
  function Size(c: Plan): (s: nat) {
    match c
    case Skip => 0
    case Stuck => 0
    case Check(_) => 1
    case Then(a, b) => Size(a) + Size(b)
    case Either(a, b) => Size(a) + 2 + Size(b)
    case Maybe(a) => Size(a) + 1
    case Star(a) => Size(a) + 2
    case Bracket(a, _) => Size(a) + 2
  }

  ghost predicate Holds(p: seq<Inst>, at: nat, i: Inst) { at < |p| && p[at] == i }

  /** The code of `c` stands in `p` from `lo` on. */
  ghost predicate Placed(p: seq<Inst>, c: Plan, lo: nat) {
    match c
    case Skip => true
    case Stuck => false
    case Check(t) => Holds(p, lo, ITest(t))
    case Then(a, b) => Placed(p, a, lo) && Placed(p, b, lo + Size(a))
    case Either(a, b) =>
      && Holds(p, lo, ISplit(lo + 1, lo + Size(a) + 2))
      && Placed(p, a, lo + 1)
      && Holds(p, lo + Size(a) + 1, IJmp(lo + Size(a) + 2 + Size(b)))
      && Placed(p, b, lo + Size(a) + 2)
    case Maybe(a) =>
      && Holds(p, lo, ISplit(lo + 1, lo + Size(a) + 1))
      && Placed(p, a, lo + 1)
    case Star(a) =>
      && Holds(p, lo, ISplit(lo + 1, lo + Size(a) + 2))
      && Placed(p, a, lo + 1)
      && Holds(p, lo + Size(a) + 1, IJmp(lo))
    case Bracket(a, g) =>
      && Holds(p, lo, ISave(2 * g))
      && Placed(p, a, lo + 1)
      && Holds(p, lo + Size(a) + 1, ISave(2 * g + 1))
  }

  /** Only the instructions of the code itself matter. */
  lemma {:induction false} PlacedFrame(p: seq<Inst>, q: seq<Inst>, c: Plan, lo: nat)
    requires Placed(p, c, lo)
    requires lo + Size(c) <= |p| && lo + Size(c) <= |q|
    requires forall k | lo <= k < lo + Size(c) :: q[k] == p[k]
    ensures Placed(q, c, lo)
    decreases c, 1
  {
    match c
    case Then(a, b) =>
      PlacedFrame(p, q, a, lo);
      PlacedFrame(p, q, b, lo + Size(a));
    case Either(a, b) => EitherFrame(p, q, a, b, lo);
    case Maybe(a) => PlacedFrame(p, q, a, lo + 1);
    case Star(a) => InnerFrame(p, q, a, lo, Size(c));
    case Bracket(a, _) => InnerFrame(p, q, a, lo, Size(c));
    case _ =>
  }

  lemma {:induction false} InnerFrame(p: seq<Inst>, q: seq<Inst>, a: Plan, lo: nat, n: nat)
    requires Placed(p, a, lo + 1) && 1 + Size(a) < n
    requires lo + n <= |p| && lo + n <= |q| && forall k | lo <= k < lo + n :: q[k] == p[k]
    ensures Placed(q, a, lo + 1) && q[lo] == p[lo] && q[lo + Size(a) + 1] == p[lo + Size(a) + 1]
    decreases a, 2
  {
    PlacedFrame(p, q, a, lo + 1);
  }

  lemma {:induction false} EitherFrame(p: seq<Inst>, q: seq<Inst>, a: Plan, b: Plan, lo: nat)
    requires Placed(p, Either(a, b), lo)
    requires lo + Size(a) + 2 + Size(b) <= |p| && lo + Size(a) + 2 + Size(b) <= |q|
    requires forall k | lo <= k < lo + Size(a) + 2 + Size(b) :: q[k] == p[k]
    ensures Placed(q, Either(a, b), lo)
    decreases Either(a, b), 0
  {
    PlacedFrame(p, q, a, lo + 1);
    PlacedFrame(p, q, b, lo + Size(a) + 2);
  }

  // ---- soundness: accepting paths through the code are matches -------------

  /** The path leaves at `hi` as outcome `r` says and then accepts like `v`. */
  ghost predicate Leaves(k: nat, p: seq<Inst>, x: Subject, hi: nat, r: Outcome, v: Verdict) {
    r.Done? && r.pos <= |x.s| && Accepts(k, p, x, hi, r.pos, r.cap, r.rest) == v
  }

  /** Every accepting path that enters the code of `c` leaves it at the end,
      having done what `Eval` does with the same choices. */
  lemma {:induction false} CodeSound(c: Plan, p: seq<Inst>, x: Subject, lo: nat, k: nat, i: nat, cap: Slots, w: Word,
                                     v: Verdict)
    returns (k': nat)
    requires i <= |x.s| && Placed(p, c, lo)
    requires v.Yes? && Accepts(k, p, x, lo, i, cap, w) == v
    ensures k' <= k && Leaves(k', p, x, lo + Size(c), Eval(c, x, i, cap, w), v)
    decreases c, k, 1
  {
    hide Accepts;
    match c
    case Skip => k' := k;
    case Then(a, b) => k' := ThenSound(a, b, p, x, lo, k, i, cap, w, v);
    case Either(a, b) => k' := EitherSound(a, b, p, x, lo, k, i, cap, w, v);
    case Maybe(a) => k' := MaybeSound(a, p, x, lo, k, i, cap, w, v);
    case Star(a) => k' := StarSound(a, p, x, lo, k, i, cap, w, v);
    case Bracket(a, g) => k' := BracketSound(a, g, p, x, lo, k, i, cap, w, v);
    case Check(t) => k' := CheckSound(t, p, x, lo, k, i, cap, w, v);
  }

  lemma CheckSound(t: Test, p: seq<Inst>, x: Subject, lo: nat, k: nat, i: nat, cap: Slots, w: Word, v: Verdict)
    returns (k': nat)
    requires i <= |x.s| && Placed(p, Check(t), lo)
    requires v.Yes? && Accepts(k, p, x, lo, i, cap, w) == v
    ensures k' <= k && Leaves(k', p, x, lo + 1, Eval(Check(t), x, i, cap, w), v)
  {
    k' := k - 1;
  }

  lemma {:induction false} ThenSound(a: Plan, b: Plan, p: seq<Inst>, x: Subject, lo: nat, k: nat, i: nat, cap: Slots,
                                     w: Word, v: Verdict)
    returns (k': nat)
    requires i <= |x.s| && Placed(p, Then(a, b), lo)
    requires v.Yes? && Accepts(k, p, x, lo, i, cap, w) == v
    ensures k' <= k && Leaves(k', p, x, lo + Size(a) + Size(b), Eval(Then(a, b), x, i, cap, w), v)
    decreases Then(a, b), k, 0
  {
    var h := CodeSound(a, p, x, lo, k, i, cap, w, v);
    var r := Eval(a, x, i, cap, w);
    k' := CodeSound(b, p, x, lo + Size(a), h, r.pos, r.cap, r.rest, v);
  }

  lemma {:induction false} EitherSound(a: Plan, b: Plan, p: seq<Inst>, x: Subject, lo: nat, k: nat, i: nat, cap: Slots,
                                       w: Word, v: Verdict)
    returns (k': nat)
    requires i <= |x.s| && Placed(p, Either(a, b), lo)
    requires v.Yes? && Accepts(k, p, x, lo, i, cap, w) == v
    ensures k' <= k && Leaves(k', p, x, lo + Size(a) + 2 + Size(b), Eval(Either(a, b), x, i, cap, w), v)
    decreases Either(a, b), k, 0
  {
    hide Accepts;
    SplitStep(k, p, x, lo, i, cap, w, lo + 1, lo + Size(a) + 2);
    if w[0] {
      var h := CodeSound(a, p, x, lo + 1, k - 1, i, cap, w[1..], v);
      var r := Eval(a, x, i, cap, w[1..]);
      JumpStep(h, p, x, lo + 1 + Size(a), r.pos, r.cap, r.rest, lo + Size(a) + 2 + Size(b));
      k' := h - 1;
    } else {
      k' := CodeSound(b, p, x, lo + Size(a) + 2, k - 1, i, cap, w[1..], v);
    }
  }

  lemma {:induction false} MaybeSound(a: Plan, p: seq<Inst>, x: Subject, lo: nat, k: nat, i: nat, cap: Slots, w: Word,
                                      v: Verdict)
    returns (k': nat)
    requires i <= |x.s| && Placed(p, Maybe(a), lo)
    requires v.Yes? && Accepts(k, p, x, lo, i, cap, w) == v
    ensures k' <= k && Leaves(k', p, x, lo + Size(a) + 1, Eval(Maybe(a), x, i, cap, w), v)
    decreases Maybe(a), k, 0
  {
    k' := k - 1;
    if w[0] { k' := CodeSound(a, p, x, lo + 1, k - 1, i, cap, w[1..], v); }
  }

  lemma {:induction false} BracketSound(a: Plan, g: nat, p: seq<Inst>, x: Subject, lo: nat, k: nat, i: nat, cap: Slots,
                                        w: Word, v: Verdict)
    returns (k': nat)
    requires i <= |x.s| && Placed(p, Bracket(a, g), lo)
    requires v.Yes? && Accepts(k, p, x, lo, i, cap, w) == v
    ensures k' <= k && Leaves(k', p, x, lo + Size(a) + 2, Eval(Bracket(a, g), x, i, cap, w), v)
    decreases Bracket(a, g), k, 0
  {
    var h := CodeSound(a, p, x, lo + 1, k - 1, i, Save(cap, 2 * g, i), w, v);
    k' := h - 1;
  }

  lemma {:induction false} StarSound(a: Plan, p: seq<Inst>, x: Subject, lo: nat, k: nat, i: nat, cap: Slots, w: Word,
                                     v: Verdict)
    returns (k': nat)
    requires i <= |x.s| && Placed(p, Star(a), lo)
    requires v.Yes? && Accepts(k, p, x, lo, i, cap, w) == v
    ensures k' <= k && Leaves(k', p, x, lo + Size(a) + 2, Eval(Star(a), x, i, cap, w), v)
    decreases Star(a), k, 0
  {
    SplitStep(k, p, x, lo, i, cap, w, lo + 1, lo + Size(a) + 2);
    k' := k - 1;
    if w[0] {
      var h := CodeSound(a, p, x, lo + 1, k - 1, i, cap, w[1..], v);
      var r := Eval(a, x, i, cap, w[1..]);
      JumpStep(h, p, x, lo + 1 + Size(a), r.pos, r.cap, r.rest, lo);
      k' := StarSound(a, p, x, lo, h - 1, r.pos, r.cap, r.rest, v);
    }
  }

  lemma SplitStep(k: nat, p: seq<Inst>, x: Subject, pc: nat, i: nat, cap: Slots, w: Word, a: nat, b: nat)
    requires i <= |x.s| && Holds(p, pc, ISplit(a, b))
    ensures Accepts(k, p, x, pc, i, cap, w) ==
              if k == 0 || w == [] then No else Accepts(k - 1, p, x, if w[0] then a else b, i, cap, w[1..])
  {
  }

  lemma JumpStep(k: nat, p: seq<Inst>, x: Subject, pc: nat, i: nat, cap: Slots, w: Word, t: nat)
    requires i <= |x.s| && Holds(p, pc, IJmp(t))
    ensures Accepts(k, p, x, pc, i, cap, w) == if k == 0 then No else Accepts(k - 1, p, x, t, i, cap, w)
  {
  }

  // ---- completeness: matches are accepting paths through the code -----------

  /** Whatever `Eval` can do, the code can do, and it then continues after
      its last instruction. */
  lemma {:induction false} CodeComplete(c: Plan, p: seq<Inst>, x: Subject, lo: nat, k': nat, i: nat, cap: Slots,
                                        w: Word, v: Verdict)
    returns (k: nat)
    requires i <= |x.s| && Placed(p, c, lo) && v.Yes?
    requires Leaves(k', p, x, lo + Size(c), Eval(c, x, i, cap, w), v)
    ensures Accepts(k, p, x, lo, i, cap, w) == v
    decreases c, |w|, 1
  {
    hide Accepts, Leaves, Eval;
    match c
    case Skip => k := SkipComplete(p, x, lo, k', i, cap, w, v);
    case Then(a, b) => k := ThenComplete(a, b, p, x, lo, k', i, cap, w, v);
    case Either(a, b) => k := EitherComplete(a, b, p, x, lo, k', i, cap, w, v);
    case Maybe(a) => k := MaybeComplete(a, p, x, lo, k', i, cap, w, v);
    case Star(a) => k := StarComplete(a, p, x, lo, k', i, cap, w, v);
    case Bracket(a, g) => k := BracketComplete(a, g, p, x, lo, k', i, cap, w, v);
    case Check(t) => k := CheckComplete(t, p, x, lo, k', i, cap, w, v);
  }

  lemma SkipComplete(p: seq<Inst>, x: Subject, lo: nat, k': nat, i: nat, cap: Slots, w: Word, v: Verdict)
    returns (k: nat)
    requires i <= |x.s| && Leaves(k', p, x, lo, Eval(Skip, x, i, cap, w), v)
    ensures Accepts(k, p, x, lo, i, cap, w) == v
  {
    k := k';
  }

  lemma CheckComplete(t: Test, p: seq<Inst>, x: Subject, lo: nat, k': nat, i: nat, cap: Slots, w: Word, v: Verdict)
    returns (k: nat)
    requires i <= |x.s| && Placed(p, Check(t), lo) && v.Yes?
    requires Leaves(k', p, x, lo + 1, Eval(Check(t), x, i, cap, w), v)
    ensures Accepts(k, p, x, lo, i, cap, w) == v
  {
    k := k' + 1;
  }

  lemma {:induction false} ThenComplete(a: Plan, b: Plan, p: seq<Inst>, x: Subject, lo: nat, k': nat, i: nat,
                                        cap: Slots, w: Word, v: Verdict)
    returns (k: nat)
    requires i <= |x.s| && Placed(p, Then(a, b), lo) && v.Yes?
    requires Leaves(k', p, x, lo + Size(a) + Size(b), Eval(Then(a, b), x, i, cap, w), v)
    ensures Accepts(k, p, x, lo, i, cap, w) == v
    decreases Then(a, b), |w|, 0
  {
    var r := Eval(a, x, i, cap, w);
    var h := CodeComplete(b, p, x, lo + Size(a), k', r.pos, r.cap, r.rest, v);
    k := CodeComplete(a, p, x, lo, h, i, cap, w, v);
  }

  lemma {:induction false} EitherComplete(a: Plan, b: Plan, p: seq<Inst>, x: Subject, lo: nat, k': nat, i: nat,
                                          cap: Slots, w: Word, v: Verdict)
    returns (k: nat)
    requires i <= |x.s| && Placed(p, Either(a, b), lo) && v.Yes?
    requires Leaves(k', p, x, lo + Size(a) + 2 + Size(b), Eval(Either(a, b), x, i, cap, w), v)
    ensures Accepts(k, p, x, lo, i, cap, w) == v
    decreases Either(a, b), |w|, 0
  {
    hide Accepts, Leaves, Size;
    var l, hi, h := lo + Size(a) + 2, lo + Size(a) + 2 + Size(b), 0;
    assert w != [] by { LeavesDone(k', p, x, hi, Eval(Either(a, b), x, i, cap, w), v); }
    if w[0] {
      LeavesByJump(k', p, x, l - 1, hi, Eval(a, x, i, cap, w[1..]), v);
      h := CodeComplete(a, p, x, lo + 1, k' + 1, i, cap, w[1..], v);
    } else {
      h := CodeComplete(b, p, x, l, k', i, cap, w[1..], v);
    }
    k := h + 1;
    SplitStep(k, p, x, lo, i, cap, w, lo + 1, l);
  }

  lemma LeavesDone(k: nat, p: seq<Inst>, x: Subject, hi: nat, r: Outcome, v: Verdict)
    requires Leaves(k, p, x, hi, r, v)
    ensures r.Done?
  {
  }

  lemma LeavesByJump(k: nat, p: seq<Inst>, x: Subject, pc: nat, hi: nat, r: Outcome, v: Verdict)
    requires Leaves(k, p, x, hi, r, v) && Holds(p, pc, IJmp(hi))
    ensures Leaves(k + 1, p, x, pc, r, v)
  {
    JumpStep(k + 1, p, x, pc, r.pos, r.cap, r.rest, hi);
  }

  lemma {:induction false} MaybeComplete(a: Plan, p: seq<Inst>, x: Subject, lo: nat, k': nat, i: nat, cap: Slots,
                                         w: Word, v: Verdict)
    returns (k: nat)
    requires i <= |x.s| && Placed(p, Maybe(a), lo) && v.Yes?
    requires Leaves(k', p, x, lo + Size(a) + 1, Eval(Maybe(a), x, i, cap, w), v)
    ensures Accepts(k, p, x, lo, i, cap, w) == v
    decreases Maybe(a), |w|, 0
  {
    k := k' + 1;
    if w[0] {
      var h := CodeComplete(a, p, x, lo + 1, k', i, cap, w[1..], v);
      k := h + 1;
    }
  }

  lemma {:induction false} StarComplete(a: Plan, p: seq<Inst>, x: Subject, lo: nat, k': nat, i: nat, cap: Slots,
                                        w: Word, v: Verdict)
    returns (k: nat)
    requires i <= |x.s| && Placed(p, Star(a), lo) && v.Yes?
    requires Leaves(k', p, x, lo + Size(a) + 2, Eval(Star(a), x, i, cap, w), v)
    ensures Accepts(k, p, x, lo, i, cap, w) == v
    decreases Star(a), |w|, 0
  {
    hide Accepts;
    k := k' + 1;
    if w[0] {
      var r := Eval(a, x, i, cap, w[1..]);
      var h := StarComplete(a, p, x, lo, k', r.pos, r.cap, r.rest, v);
      JumpStep(h + 1, p, x, lo + 1 + Size(a), r.pos, r.cap, r.rest, lo);
      var q := CodeComplete(a, p, x, lo + 1, h + 1, i, cap, w[1..], v);
      k := q + 1;
    }
    SplitStep(k, p, x, lo, i, cap, w, lo + 1, lo + Size(a) + 2);
  }

  lemma {:induction false} BracketComplete(a: Plan, g: nat, p: seq<Inst>, x: Subject, lo: nat, k': nat, i: nat,
                                           cap: Slots, w: Word, v: Verdict)
    returns (k: nat)
    requires i <= |x.s| && Placed(p, Bracket(a, g), lo) && v.Yes?
    requires Leaves(k', p, x, lo + Size(a) + 2, Eval(Bracket(a, g), x, i, cap, w), v)
    ensures Accepts(k, p, x, lo, i, cap, w) == v
    decreases Bracket(a, g), |w|, 0
  {
    var r := Eval(a, x, i, Save(cap, 2 * g, i), w);
    assert Accepts(k' + 1, p, x, lo + 1 + Size(a), r.pos, r.cap, r.rest) == v;
    var h := CodeComplete(a, p, x, lo + 1, k' + 1, i, Save(cap, 2 * g, i), w, v);
    k := h + 1;
  }

  // ---- jump targets and slots ----------------------------------------------

  /** Jumps land inside [lo, hi] and slots stay below `slots`. */
  predicate Within(i: Inst, lo: nat, hi: nat, slots: nat) {
    match i
    case ISplit(a, b) => lo <= a <= hi && lo <= b <= hi
    case IJmp(t) => lo <= t <= hi
    case ISave(slot) => slot < slots
    case _ => true
  }

  ghost predicate SlotsBelow(c: Plan, slots: nat) {
    match c
    case Then(a, b) => SlotsBelow(a, slots) && SlotsBelow(b, slots)
    case Either(a, b) => SlotsBelow(a, slots) && SlotsBelow(b, slots)
    case Maybe(a) => SlotsBelow(a, slots)
    case Star(a) => SlotsBelow(a, slots)
    case Bracket(a, g) => SlotsBelow(a, slots) && 2 * g + 1 < slots
    case _ => true
  }

  /** The code of a plan jumps nowhere but into itself or to the instruction
      just after it. */
  lemma {:induction false} CodeWithin(c: Plan, p: seq<Inst>, lo: nat, slots: nat, k: nat)
    requires Placed(p, c, lo) && SlotsBelow(c, slots)
    requires lo <= k < lo + Size(c)
    ensures k < |p| && Within(p[k], lo, lo + Size(c), slots)
    decreases c, 1
  {
    match c
    case Then(a, b) => ThenWithin(a, b, p, lo, slots, k);
    case Either(a, b) => EitherWithin(a, b, p, lo, slots, k);
    case Maybe(a) =>
      if lo < k { CodeWithin(a, p, lo + 1, slots, k); }
    case Star(a) => StarWithin(a, p, lo, slots, k);
    case Bracket(a, g) => BracketWithin(a, g, p, lo, slots, k);
    case _ =>
  }

  lemma {:induction false} ThenWithin(a: Plan, b: Plan, p: seq<Inst>, lo: nat, slots: nat, k: nat)
    requires Placed(p, Then(a, b), lo) && SlotsBelow(Then(a, b), slots)
    requires lo <= k < lo + Size(a) + Size(b)
    ensures k < |p| && Within(p[k], lo, lo + Size(a) + Size(b), slots)
    decreases Then(a, b), 0
  {
    if k < lo + Size(a) { CodeWithin(a, p, lo, slots, k); } else { CodeWithin(b, p, lo + Size(a), slots, k); }
  }

  lemma {:induction false} StarWithin(a: Plan, p: seq<Inst>, lo: nat, slots: nat, k: nat)
    requires Placed(p, Star(a), lo) && SlotsBelow(Star(a), slots)
    requires lo <= k < lo + Size(a) + 2
    ensures k < |p| && Within(p[k], lo, lo + Size(a) + 2, slots)
    decreases Star(a), 0
  {
    if lo < k < lo + Size(a) + 1 { CodeWithin(a, p, lo + 1, slots, k); }
  }

  lemma {:induction false} BracketWithin(a: Plan, g: nat, p: seq<Inst>, lo: nat, slots: nat, k: nat)
    requires Placed(p, Bracket(a, g), lo) && SlotsBelow(Bracket(a, g), slots)
    requires lo <= k < lo + Size(a) + 2
    ensures k < |p| && Within(p[k], lo, lo + Size(a) + 2, slots)
    decreases Bracket(a, g), 0
  {
    if lo < k < lo + Size(a) + 1 { CodeWithin(a, p, lo + 1, slots, k); }
  }

  lemma {:induction false} EitherWithin(a: Plan, b: Plan, p: seq<Inst>, lo: nat, slots: nat, k: nat)
    requires Placed(p, Either(a, b), lo) && SlotsBelow(Either(a, b), slots)
    requires lo <= k < lo + Size(a) + 2 + Size(b)
    ensures k < |p| && Within(p[k], lo, lo + Size(a) + 2 + Size(b), slots)
    decreases Either(a, b), 0
  {
    if lo < k < lo + Size(a) + 1 { CodeWithin(a, p, lo + 1, slots, k); }
    if lo + Size(a) + 1 < k { CodeWithin(b, p, lo + Size(a) + 2, slots, k); }
  }

  ghost predicate GroupsBelow(n: Node, m: nat) {
    match n
    case Cat(a, b) => GroupsBelow(a, m) && GroupsBelow(b, m)
    case Alt(a, b) => GroupsBelow(a, m) && GroupsBelow(b, m)
    case Rep(a, _, _) => GroupsBelow(a, m)
    case Group(a, g) => GroupsBelow(a, m) && g < m
    case _ => true
  }

  lemma {:induction false} GroupsGiveSlots(n: Node, m: nat)
    requires GroupsBelow(n, m)
    ensures SlotsBelow(PlanOf(n), 2 * m)
  {
    match n
    case Cat(a, b) => GroupsGiveSlots(a, m); GroupsGiveSlots(b, m);
    case Alt(a, b) => GroupsGiveSlots(a, m); GroupsGiveSlots(b, m);
    case Rep(a, min, max) =>
      GroupsGiveSlots(a, m);
      RoundsBelow(PlanOf(a), min, 2 * m);
      RoundsBelow(PlanOf(a), Upper(min, max) - min, 2 * m);
    case Group(a, _) => GroupsGiveSlots(a, m);
    case _ =>
  }

  lemma {:induction false} RoundsBelow(c: Plan, k: nat, slots: nat)
    requires SlotsBelow(c, slots)
    ensures SlotsBelow(Times(c, k), slots) && SlotsBelow(Maybes(c, k), slots)
  {
    if k > 0 { RoundsBelow(c, k - 1, slots); }
  }

  // ---- whole programs ------------------------------------------------------

  /** `p` is the compiled form of `n`. */
  ghost predicate Compiled(p: seq<Inst>, n: Node) {
    var c := PlanOf(n);
    |p| == Size(c) + 1 && Placed(p, c, 0) && p[Size(c)] == IMatch
  }

  /** What running a program relies on: it ends in MATCH, and every jump and
      every slot is in range. */
  predicate WellFormed(p: seq<Inst>, slots: nat) {
    p != [] && p[|p| - 1] == IMatch && forall k | 0 <= k < |p| :: Within(p[k], 0, |p| - 1, slots)
  }

  lemma CompiledWellFormed(n: Node, p: seq<Inst>, m: nat)
    requires Compiled(p, n) && GroupsBelow(n, m)
    ensures WellFormed(p, 2 * m)
  {
    GroupsGiveSlots(n, m);
    forall k | 0 <= k < |p|
      ensures Within(p[k], 0, |p| - 1, 2 * m)
    {
      if k < Size(PlanOf(n)) { CodeWithin(PlanOf(n), p, 0, 2 * m, k); }
    }
  }

  /** If the program of a node accepts with a given word, the node itself
      matches with that word, and with the same result. */
  lemma CompiledSound(n: Node, p: seq<Inst>, x: Subject, k: nat, i: nat, cap: Slots, w: Word, end: nat, cap': Slots)
    requires i <= |x.s| && Compiled(p, n)
    requires Accepts(k, p, x, 0, i, cap, w) == Yes(end, cap')
    ensures Eval(PlanOf(n), x, i, cap, w) == Done(end, cap', [])
  {
    var k' := CodeSound(PlanOf(n), p, x, 0, k, i, cap, w, Yes(end, cap'));
  }

  /** And the other way round. */
  lemma CompiledComplete(n: Node, p: seq<Inst>, x: Subject, i: nat, cap: Slots, w: Word) returns (k: nat)
    requires i <= |x.s| && Compiled(p, n)
    requires var r := Eval(PlanOf(n), x, i, cap, w); r.Done? && r.rest == []
    ensures var r := Eval(PlanOf(n), x, i, cap, w); Accepts(k, p, x, 0, i, cap, w) == Yes(r.pos, r.cap)
  {
    var c := PlanOf(n);
    var r := Eval(c, x, i, cap, w);
    assert Accepts(1, p, x, Size(c), r.pos, r.cap, []) == Yes(r.pos, r.cap);
    k := CodeComplete(c, p, x, 0, 1, i, cap, w, Yes(r.pos, r.cap));
  }
}
