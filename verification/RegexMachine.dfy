/** The backtracking machine. */
module RegexMachine {
  import opened RegexSyntax
  import opened RegexCode

  // ---- one run of the machine ------------------------------------------------

  /** `left` is the step counter afterwards; it is negative exactly when the
      budget ran out. */
  datatype Run = Run(ok: bool, end: nat, left: int, cap: Slots)

  function RunFrom(p: seq<Inst>, x: Subject, pc: nat, sp: nat, steps: int, end: nat, cap: Slots): (r: Run)
    requires sp <= |x.s|
    ensures r.left < steps && |r.cap| == |cap|
    decreases if steps > 0 then steps else 0
  {
    if steps <= 0 || pc >= |p| then Run(false, end, steps - 1, cap)
    else match p[pc]
      case ITest(t) =>
        if Passes(x, t, sp) then RunFrom(p, x, pc + 1, sp + Width(t), steps - 1, end, cap)
        else Run(false, end, steps - 1, cap)
      case ISave(slot) =>
        var r := RunFrom(p, x, pc + 1, sp, steps - 1, end, Save(cap, slot, sp));
        if r.ok then r else Run(false, end, r.left, cap)
      case ISplit(a, b) =>
        var r := RunFrom(p, x, a, sp, steps - 1, end, cap);
        if r.ok then r else RunFrom(p, x, b, sp, r.left, end, cap)
      case IJmp(t) => RunFrom(p, x, t, sp, steps - 1, end, cap)
      case IMatch => Run(true, sp, steps - 1, cap)
  }

  /** The order in which the engine tries choice words. */
  predicate Earlier(w: Word, v: Word) {
    w == [] || (v != [] && ((w[0] && !v[0]) || (w[0] == v[0] && Earlier(w[1..], v[1..]))))
  }

  /** No path from here accepts, whatever the choices. */
  ghost predicate Hopeless(p: seq<Inst>, x: Subject, pc: nat, sp: nat, cap: Slots)
    requires sp <= |x.s|
  {
    forall k: nat, w: Word :: Accepts(k, p, x, pc, sp, cap, w) == No
  }

  /** The path with word `w` accepts, and before every other that does. */
  ghost predicate First(p: seq<Inst>, x: Subject, pc: nat, sp: nat, cap: Slots, w: Word, end: nat, cap': Slots)
    requires sp <= |x.s|
  {
    && (exists k: nat :: Accepts(k, p, x, pc, sp, cap, w) == Yes(end, cap'))
    && forall k: nat, v: Word | Accepts(k, p, x, pc, sp, cap, v).Yes? :: Earlier(w, v)
  }

  /** A run that fails puts every capture slot back. */
  lemma {:induction false} FailureRestores(p: seq<Inst>, x: Subject, pc: nat, sp: nat, steps: int, end: nat, cap: Slots)
    requires sp <= |x.s|
    ensures var r := RunFrom(p, x, pc, sp, steps, end, cap); !r.ok ==> r.cap == cap && r.end == end
    decreases if steps > 0 then steps else 0
  {
    if steps > 0 && pc < |p| {
      match p[pc]
      case ITest(t) =>
        if Passes(x, t, sp) { FailureRestores(p, x, pc + 1, sp + Width(t), steps - 1, end, cap); }
      case ISave(slot) =>
      case ISplit(a, b) =>
        FailureRestores(p, x, a, sp, steps - 1, end, cap);
        FailureRestores(p, x, b, sp, RunFrom(p, x, a, sp, steps - 1, end, cap).left, end, cap);
      case IJmp(t) => FailureRestores(p, x, t, sp, steps - 1, end, cap);
      case IMatch =>
    }
  }

  /** A run that fails with budget to spare has tried everything. */
  lemma {:induction false} FailureIsFinal(p: seq<Inst>, x: Subject, pc: nat, sp: nat, steps: int, end: nat, cap: Slots)
    requires sp <= |x.s|
    requires var r := RunFrom(p, x, pc, sp, steps, end, cap); !r.ok && r.left >= 0
    ensures Hopeless(p, x, pc, sp, cap)
    decreases if steps > 0 then steps else 0
  {
    if pc < |p| {
      match p[pc]
      case ITest(t) =>
        if Passes(x, t, sp) { FailureIsFinal(p, x, pc + 1, sp + Width(t), steps - 1, end, cap); }
      case ISave(slot) => FailureIsFinal(p, x, pc + 1, sp, steps - 1, end, Save(cap, slot, sp));
      case ISplit(a, b) =>
        FailureIsFinal(p, x, a, sp, steps - 1, end, cap);
        FailureIsFinal(p, x, b, sp, RunFrom(p, x, a, sp, steps - 1, end, cap).left, end, cap);
      case IJmp(t) => FailureIsFinal(p, x, t, sp, steps - 1, end, cap);
    }
  }

  /** A run that succeeds reports the path that comes first in order. */
  lemma {:induction false} SuccessIsFirst(p: seq<Inst>, x: Subject, pc: nat, sp: nat, steps: int, end: nat, cap: Slots)
    returns (w: Word)
    requires sp <= |x.s|
    requires RunFrom(p, x, pc, sp, steps, end, cap).ok
    ensures var r := RunFrom(p, x, pc, sp, steps, end, cap); First(p, x, pc, sp, cap, w, r.end, r.cap)
    decreases if steps > 0 then steps else 0
  {
    var r := RunFrom(p, x, pc, sp, steps, end, cap);
    match p[pc]
    case ITest(t) =>
      w := SuccessIsFirst(p, x, pc + 1, sp + Width(t), steps - 1, end, cap);
      FirstStep(p, x, pc, sp, cap, pc + 1, sp + Width(t), cap, w, r.end, r.cap);
    case ISave(slot) =>
      w := SuccessIsFirst(p, x, pc + 1, sp, steps - 1, end, Save(cap, slot, sp));
      FirstStep(p, x, pc, sp, cap, pc + 1, sp, Save(cap, slot, sp), w, r.end, r.cap);
    case ISplit(a, b) =>
      var q := RunFrom(p, x, a, sp, steps - 1, end, cap);
      if q.ok {
        var u := SuccessIsFirst(p, x, a, sp, steps - 1, end, cap);
        FirstLeft(p, x, pc, sp, cap, u, r.end, r.cap);
        w := [true] + u;
      } else {
        FailureIsFinal(p, x, a, sp, steps - 1, end, cap);
        var u := SuccessIsFirst(p, x, b, sp, q.left, end, cap);
        FirstRight(p, x, pc, sp, cap, u, r.end, r.cap);
        w := [false] + u;
      }
    case IJmp(t) =>
      w := SuccessIsFirst(p, x, t, sp, steps - 1, end, cap);
      FirstStep(p, x, pc, sp, cap, t, sp, cap, w, r.end, r.cap);
    case IMatch =>
      w := [];
      assert Accepts(1, p, x, pc, sp, cap, w) == Yes(r.end, r.cap);
  }

  /** A step that makes no choice keeps the first path first. */
  lemma FirstStep(p: seq<Inst>, x: Subject, pc: nat, sp: nat, cap: Slots, pc': nat, sp': nat, cap': Slots, w: Word,
                  end: nat, capf: Slots)
    requires sp <= |x.s| && sp' <= |x.s|
    requires forall k: nat, v: Word | k > 0 ::
               Accepts(k, p, x, pc, sp, cap, v) == Accepts(k - 1, p, x, pc', sp', cap', v)
    requires First(p, x, pc', sp', cap', w, end, capf)
    ensures First(p, x, pc, sp, cap, w, end, capf)
  {
    var k: nat :| Accepts(k, p, x, pc', sp', cap', w) == Yes(end, capf);
    assert Accepts(k + 1, p, x, pc, sp, cap, w) == Yes(end, capf);
  }

  lemma FirstLeft(p: seq<Inst>, x: Subject, pc: nat, sp: nat, cap: Slots, u: Word, end: nat, capf: Slots)
    requires sp <= |x.s| && pc < |p| && p[pc].ISplit?
    requires First(p, x, p[pc].first, sp, cap, u, end, capf)
    ensures First(p, x, pc, sp, cap, [true] + u, end, capf)
  {
    var w := [true] + u;
    assert w[1..] == u;
    var k: nat :| Accepts(k, p, x, p[pc].first, sp, cap, u) == Yes(end, capf);
    assert Accepts(k + 1, p, x, pc, sp, cap, w) == Yes(end, capf);
    forall h: nat, v: Word | Accepts(h, p, x, pc, sp, cap, v).Yes?
      ensures Earlier(w, v)
    {
      if v[0] { assert Accepts(h - 1, p, x, p[pc].first, sp, cap, v[1..]).Yes?; }
    }
  }

  lemma FirstRight(p: seq<Inst>, x: Subject, pc: nat, sp: nat, cap: Slots, u: Word, end: nat, capf: Slots)
    requires sp <= |x.s| && pc < |p| && p[pc].ISplit?
    requires Hopeless(p, x, p[pc].first, sp, cap)
    requires First(p, x, p[pc].second, sp, cap, u, end, capf)
    ensures First(p, x, pc, sp, cap, [false] + u, end, capf)
  {
    var w := [false] + u;
    assert w[1..] == u;
    var k: nat :| Accepts(k, p, x, p[pc].second, sp, cap, u) == Yes(end, capf);
    assert Accepts(k + 1, p, x, pc, sp, cap, w) == Yes(end, capf);
    forall h: nat, v: Word | Accepts(h, p, x, pc, sp, cap, v).Yes?
      ensures Earlier(w, v)
    {
      SplitStep(h, p, x, pc, sp, cap, v, p[pc].first, p[pc].second);
      assert !v[0];
    }
  }

  /** With `more` steps the run does the same and has `more` left. */
  ghost predicate Stretches(p: seq<Inst>, x: Subject, pc: nat, sp: nat, steps: int, more: nat, end: nat, cap: Slots)
    requires sp <= |x.s|
  {
    var r := RunFrom(p, x, pc, sp, steps, end, cap);
    RunFrom(p, x, pc, sp, steps + more, end, cap) == r.(left := r.left + more)
  }

  /** A run that ends within its budget does not depend on the budget. */
  lemma {:induction false} EnoughIsEnough(p: seq<Inst>, x: Subject, pc: nat, sp: nat, steps: int, more: nat, end: nat,
                                          cap: Slots)
    requires sp <= |x.s|
    requires RunFrom(p, x, pc, sp, steps, end, cap).left >= 0
    ensures Stretches(p, x, pc, sp, steps, more, end, cap)
    decreases if steps > 0 then steps else 0
  {
    hide Stretches;
    if pc < |p| && p[pc].ISplit? {
      var a, b := p[pc].first, p[pc].second;
      var r := RunFrom(p, x, a, sp, steps - 1, end, cap);
      EnoughIsEnough(p, x, a, sp, steps - 1, more, end, cap);
      if !r.ok { EnoughIsEnough(p, x, b, sp, r.left, more, end, cap); }
      SplitEnough(p, x, pc, sp, steps, more, end, cap);
    } else if pc < |p| && p[pc].ISave? {
      EnoughIsEnough(p, x, pc + 1, sp, steps - 1, more, end, Save(cap, p[pc].slot, sp));
      SaveEnough(p, x, pc, sp, steps, more, end, cap);
    } else {
      if pc < |p| && p[pc].IJmp? { EnoughIsEnough(p, x, p[pc].target, sp, steps - 1, more, end, cap); }
      if pc < |p| && p[pc].ITest? && Passes(x, p[pc].t, sp) {
        EnoughIsEnough(p, x, pc + 1, sp + Width(p[pc].t), steps - 1, more, end, cap);
      }
      StepEnough(p, x, pc, sp, steps, more, end, cap);
    }
  }

  lemma StepEnough(p: seq<Inst>, x: Subject, pc: nat, sp: nat, steps: int, more: nat, end: nat, cap: Slots)
    requires sp <= |x.s| && 0 < steps && (pc < |p| ==> !p[pc].ISplit? && !p[pc].ISave?)
    requires pc < |p| && p[pc].IJmp? ==> Stretches(p, x, p[pc].target, sp, steps - 1, more, end, cap)
    requires pc < |p| && p[pc].ITest? && Passes(x, p[pc].t, sp) ==>
               Stretches(p, x, pc + 1, sp + Width(p[pc].t), steps - 1, more, end, cap)
    ensures Stretches(p, x, pc, sp, steps, more, end, cap)
  {
  }

  lemma SaveEnough(p: seq<Inst>, x: Subject, pc: nat, sp: nat, steps: int, more: nat, end: nat, cap: Slots)
    requires sp <= |x.s| && pc < |p| && p[pc].ISave? && 0 < steps
    requires Stretches(p, x, pc + 1, sp, steps - 1, more, end, Save(cap, p[pc].slot, sp))
    ensures Stretches(p, x, pc, sp, steps, more, end, cap)
  {
  }

  lemma SplitEnough(p: seq<Inst>, x: Subject, pc: nat, sp: nat, steps: int, more: nat, end: nat, cap: Slots)
    requires sp <= |x.s| && pc < |p| && p[pc].ISplit? && 0 < steps
    requires Stretches(p, x, p[pc].first, sp, steps - 1, more, end, cap)
    requires var r := RunFrom(p, x, p[pc].first, sp, steps - 1, end, cap);
             !r.ok ==> Stretches(p, x, p[pc].second, sp, r.left, more, end, cap)
    ensures Stretches(p, x, pc, sp, steps, more, end, cap)
  {
  }

  // ---- the machine as the source has it ---------------------------------------

  class Machine {
    const p: seq<Inst>
    const x: Subject
    var steps: int
    var end: nat
    const cap: array<int>

    constructor (p: seq<Inst>, x: Subject)
      ensures this.p == p && this.x == x && cap.Length == CAP_SLOTS && fresh(cap) && end == 0
    {
      this.p, this.x, steps, end := p, x, 0, 0;
      cap := new int[CAP_SLOTS](_ => 0);
    }

    /** Run from `pc0` at `sp0`, recursing on SPLIT and SAVE and looping
        otherwise. */
    method Go(pc0: nat, sp0: nat) returns (ok: bool)
      requires WellFormed(p, cap.Length) && pc0 < |p| && sp0 <= |x.s|
      modifies this, cap
      ensures RunFrom(p, x, pc0, sp0, old(steps), old(end), old(cap[..])) == Run(ok, end, steps, cap[..])
      decreases if steps > 0 then steps else 0
    {
      var pc: nat, sp: nat := pc0, sp0;
      while true
        invariant pc < |p| && sp <= |x.s| && steps <= old(steps)
        invariant cap[..] == old(cap[..]) && end == old(end)
        invariant RunFrom(p, x, pc0, sp0, old(steps), old(end), old(cap[..])) ==
                  RunFrom(p, x, pc, sp, steps, end, cap[..])
        decreases if steps > 0 then steps else 0
      {
        if steps <= 0 {
          steps := steps - 1;
          return false;
        }
        steps := steps - 1;
        assert Within(p[pc], 0, |p| - 1, cap.Length);
        match p[pc]
        case ITest(t) =>
          if !Passes(x, t, sp) { return false; }
          pc, sp := pc + 1, sp + Width(t);
        case ISave(slot) =>
          var saved := cap[slot];
          cap[slot] := sp;
          FailureRestores(p, x, pc + 1, sp, steps, end, cap[..]);
          ok := Go(pc + 1, sp);
          if ok { return; }
          cap[slot] := saved;
          assert cap[..] == old(cap[..]);
          return;
        case ISplit(a, b) =>
          FailureRestores(p, x, a, sp, steps, end, cap[..]);
          ok := Go(a, sp);
          if ok { return; }
          pc := b;
        case IJmp(t) => pc := t;
        case IMatch =>
          end := sp;
          return true;
      }
    }
  }
}
