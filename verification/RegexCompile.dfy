/** The emitter: AST to bytecode, with jump targets patched in afterwards. */
module RegexCompile {
  import opened RegexSyntax
  import opened RegexCode

  /** `q` is `p` followed by the code of `c`. */
  ghost predicate Extends(p: seq<Inst>, q: seq<Inst>, c: Plan) {
    p <= q && |q| == |p| + Size(c) && Placed(q, c, |p|)
  }

  lemma ExtendsThen(p: seq<Inst>, q: seq<Inst>, r: seq<Inst>, a: Plan, b: Plan)
    requires Extends(p, q, a) && Extends(q, r, b)
    ensures Extends(p, r, Then(a, b))
  {
    PlacedFrame(q, r, a, |p|);
  }

  lemma ExtendsBracket(p: seq<Inst>, q: seq<Inst>, a: Plan, g: nat)
    requires Extends(p + [ISave(2 * g)], q, a)
    ensures Extends(p, q + [ISave(2 * g + 1)], Bracket(a, g))
  {
    PlacedFrame(q, q + [ISave(2 * g + 1)], a, |p| + 1);
    assert q[|p|] == (p + [ISave(2 * g)])[|p|];
  }

  lemma ExtendsMaybe(p: seq<Inst>, q: seq<Inst>, a: Plan)
    requires Extends(p + [ISplit(|p| + 1, 0)], q, a)
    ensures Extends(p, q[|p| := ISplit(|p| + 1, |q|)], Maybe(a))
  {
    PlacedFrame(q, q[|p| := ISplit(|p| + 1, |q|)], a, |p| + 1);
  }

  lemma ExtendsStar(p: seq<Inst>, q: seq<Inst>, a: Plan)
    requires Extends(p + [ISplit(|p| + 1, 0)], q, a)
    ensures Extends(p, (q + [IJmp(|p|)])[|p| := ISplit(|p| + 1, |q| + 1)], Star(a))
  {
    PlacedFrame(q, (q + [IJmp(|p|)])[|p| := ISplit(|p| + 1, |q| + 1)], a, |p| + 1);
  }

  lemma ExtendsEither(p: seq<Inst>, q: seq<Inst>, r: seq<Inst>, a: Plan, b: Plan)
    requires Extends(p + [ISplit(|p| + 1, 0)], q, a)
    requires Extends((q + [IJmp(0)])[|p| := ISplit(|p| + 1, |q| + 1)], r, b)
    ensures Extends(p, r[|q| := IJmp(|r|)], Either(a, b))
  {
    var s := r[|q| := IJmp(|r|)];
    var mid := (q + [IJmp(0)])[|p| := ISplit(|p| + 1, |q| + 1)];
    assert |q| == |p| + 1 + Size(a) && |mid| == |q| + 1;
    assert forall k | 0 <= k < |mid| :: r[k] == mid[k];
    assert forall k | 0 <= k < |p| :: s[k] == p[k];
    assert s[|p|] == ISplit(|p| + 1, |p| + Size(a) + 2);
    PlacedFrame(q, s, a, |p| + 1);
    PlacedFrame(r, s, b, |p| + Size(a) + 2);
  }

  /** The program under construction. `grant` is the largest capacity the
      allocator is willing to give its instruction array. */
  class Emitter {
    var inst: seq<Inst>
    var cap: nat
    const grant: nat

    ghost predicate Valid()
      reads this
    {
      |inst| <= cap
    }

    static function Grown(cap: nat): (c: nat) { if cap == 0 then 64 else 2 * cap }

    /** The array is full and the allocator will not enlarge it. */
    ghost predicate Refused()
      reads this
    {
      |inst| == cap && Grown(cap) > grant
    }

    constructor (grant: nat)
      ensures Valid() && inst == [] && cap == 0 && this.grant == grant
    {
      inst, cap, this.grant := [], 0, grant;
    }

    method Push(i: Inst) returns (at: int)
      requires Valid()
      modifies this
      ensures Valid()
      ensures at < 0 <==> old(Refused())
      ensures at < 0 ==> inst == old(inst) && Refused()
      ensures at >= 0 ==> at == |old(inst)| && inst == old(inst) + [i]
    {
      if |inst| >= cap {
        if Grown(cap) > grant { return -1; }
        cap := Grown(cap);
      }
      at := |inst|;
      inst := inst + [i];
    }

    /** Fill in the two targets of a SPLIT pushed earlier. */
    method PatchFirst(s: nat)
      requires Valid() && s < |inst| && inst[s].ISplit?
      modifies this`inst
      ensures inst == old(inst)[s := ISplit(|old(inst)|, old(inst[s].second))]
    {
      inst := inst[s := ISplit(|inst|, inst[s].second)];
    }

    method PatchSecond(s: nat)
      requires Valid() && s < |inst| && inst[s].ISplit?
      modifies this`inst
      ensures inst == old(inst)[s := ISplit(old(inst[s].first), |old(inst)|)]
    {
      inst := inst[s := ISplit(inst[s].first, |inst|)];
    }

    /** The code appended is exactly the code of the node's plan; what was
        there before stays. Only the allocator can make this fail. */
    method Emit(n: Node) returns (ok: bool)
      requires Valid() && NoNull(n)
      modifies this
      ensures Valid()
      ensures !ok ==> Refused()
      ensures ok ==> Extends(old(inst), inst, PlanOf(n))
      decreases n, 1
    {
      match n
      case Empty => return true;
      case Atom(t) =>
        var at := Push(ITest(t));
        return at >= 0;
      case Cat(a, b) =>
        ok := Emit(a);
        if !ok { return; }
        ghost var mid := inst;
        ok := Emit(b);
        if ok { ExtendsThen(old(inst), mid, inst, PlanOf(a), PlanOf(b)); }
      case Alt(a, b) =>
        ok := EmitAlt(a, b);
      case Rep(a, min, max) =>
        ok := EmitRep(a, min, max);
      case Group(a, g) =>
        var at := Push(ISave(2 * g));
        if at < 0 { return false; }
        ok := Emit(a);
        if !ok { return; }
        ExtendsBracket(old(inst), inst, PlanOf(a), g);
        at := Push(ISave(2 * g + 1));
        return at >= 0;
    }

    method EmitAlt(a: Node, b: Node) returns (ok: bool)
      requires Valid() && NoNull(a) && NoNull(b)
      modifies this
      ensures Valid()
      ensures !ok ==> Refused()
      ensures ok ==> Extends(old(inst), inst, Either(PlanOf(a), PlanOf(b)))
      decreases Alt(a, b), 0
    {
      var s := Push(ISplit(0, 0));
      if s < 0 { return false; }
      PatchFirst(s);
      assert inst == old(inst) + [ISplit(|old(inst)| + 1, 0)];
      ok := Emit(a);
      if !ok { return; }
      ghost var left := inst;
      var j := Push(IJmp(0));
      if j < 0 { return false; }
      PatchSecond(s);
      ok := Emit(b);
      if !ok { return; }
      ExtendsEither(old(inst), left, inst, PlanOf(a), PlanOf(b));
      inst := inst[j := IJmp(|inst|)];
    }

    /** `min` copies, then either a loop or `max - min` optional copies. */
    method EmitRep(a: Node, min: nat, max: int) returns (ok: bool)
      requires Valid() && NoNull(a)
      modifies this
      ensures Valid()
      ensures !ok ==> Refused()
      ensures ok ==> Extends(old(inst), inst, PlanOf(Rep(a, min, max)))
      decreases Rep(a, min, max), 0
    {
      ghost var c := PlanOf(a);
      var i := 0;
      while i < min
        invariant i <= min && Valid() && Extends(old(inst), inst, Times(c, i))
      {
        ghost var before := inst;
        ok := Emit(a);
        if !ok { return; }
        ExtendsThen(old(inst), before, inst, Times(c, i), c);
        i := i + 1;
      }
      ghost var mid := inst;
      if max < 0 {
        ok := EmitStar(a);
        if ok { ExtendsThen(old(inst), mid, inst, Times(c, min), Star(c)); }
      } else {
        ok := EmitMaybes(a, min, max);
        if ok { ExtendsThen(old(inst), mid, inst, Times(c, min), Maybes(c, Upper(min, max) - min)); }
      }
    }

    /** The loop of an unbounded repetition. */
    method EmitStar(a: Node) returns (ok: bool)
      requires Valid() && NoNull(a)
      modifies this
      ensures Valid()
      ensures !ok ==> Refused()
      ensures ok ==> Extends(old(inst), inst, Star(PlanOf(a)))
      decreases a, 2
    {
      var l1 := |inst|;
      var s := Push(ISplit(0, 0));
      if s < 0 { return false; }
      PatchFirst(s);
      assert inst == old(inst) + [ISplit(|old(inst)| + 1, 0)];
      ok := Emit(a);
      if !ok { return; }
      ExtendsStar(old(inst), inst, PlanOf(a));
      var j := Push(IJmp(l1));
      if j < 0 { return false; }
      PatchSecond(s);
    }

    /** The optional rounds of a bounded repetition. */
    method EmitMaybes(a: Node, min: nat, max: int) returns (ok: bool)
      requires Valid() && NoNull(a)
      modifies this
      ensures Valid()
      ensures !ok ==> Refused()
      ensures ok ==> Extends(old(inst), inst, Maybes(PlanOf(a), Upper(min, max) - min))
      decreases a, 2
    {
      ghost var c := PlanOf(a);
      var i := min;
      while i < max
        invariant min <= i <= Upper(min, max) && Valid() && Extends(old(inst), inst, Maybes(c, i - min))
      {
        ghost var before := inst;
        var s := Push(ISplit(0, 0));
        if s < 0 { return false; }
        PatchFirst(s);
        assert inst == before + [ISplit(|before| + 1, 0)];
        ok := Emit(a);
        if !ok { return; }
        ExtendsMaybe(before, inst, c);
        PatchSecond(s);
        ExtendsThen(old(inst), before, inst, Maybes(c, i - min), Maybe(c));
        i := i + 1;
      }
      return true;
    }

    /** The emitting half of regcomp. */
    method Compile(n: Node) returns (ok: bool)
      requires Valid() && inst == [] && NoNull(n)
      modifies this
      ensures Valid()
      ensures ok ==> Compiled(inst, n)
      ensures !ok ==> Refused()
    {
      ok := Emit(n);
      if !ok { return; }
      ghost var body := inst;
      var at := Push(IMatch);
      ok := at >= 0;
      if ok { PlacedFrame(body, inst, PlanOf(n), 0); }
    }
  }
}
