/** What the capture slots hold after a match. */
module RegexCaptures {
  import opened RegexSyntax
  import opened RegexCode

  ghost function Groups(n: Node): (gs: set<nat>) {
    match n
    case Cat(a, b) => Groups(a) + Groups(b)
    case Alt(a, b) => Groups(a) + Groups(b)
    case Rep(a, _, _) => Groups(a)
    case Group(a, g) => Groups(a) + {g}
    case _ => {}
  }

  /** No two groups of the node carry the same number. */
  ghost predicate DistinctGroups(n: Node) {
    match n
    case Cat(a, b) => DistinctGroups(a) && DistinctGroups(b) && Groups(a) !! Groups(b)
    case Alt(a, b) => DistinctGroups(a) && DistinctGroups(b) && Groups(a) !! Groups(b)
    case Rep(a, _, _) => DistinctGroups(a)
    case Group(a, g) => DistinctGroups(a) && g !in Groups(a)
    case _ => true
  }

  /** What running a program and reporting its captures rely on. */
  ghost predicate Runnable(p: seq<Inst>, n: Node, nsub: nat) {
    && Compiled(p, n) && WellFormed(p, CAP_SLOTS) && DistinctGroups(n)
    && nsub <= MAX_SUB && forall g | g in Groups(n) :: 1 <= g <= nsub
  }

  /** What stands between the parentheses of group `g`. */
  ghost function Body(n: Node, g: nat): (r: Node)
    requires g in Groups(n)
  {
    match n
    case Cat(a, b) => if g in Groups(a) then Body(a, g) else Body(b, g)
    case Alt(a, b) => if g in Groups(a) then Body(a, g) else Body(b, g)
    case Rep(a, _, _) => Body(a, g)
    case Group(a, h) => if g == h then a else Body(a, g)
  }

  ghost predicate Untouched(g: nat, cap: Slots, cap': Slots)
    requires |cap| == |cap'| && 2 * g + 1 < |cap|
  {
    cap'[2 * g] == cap[2 * g] && cap'[2 * g + 1] == cap[2 * g + 1]
  }

  /** Group `g` holds a span inside [i, j) that the group's body matches. */
  ghost predicate Captured(body: Node, x: Subject, g: nat, i: nat, j: nat, cap: Slots)
    requires 2 * g + 1 < |cap|
  {
    i <= cap[2 * g] <= cap[2 * g + 1] <= j <= |x.s| && Matches(body, x, cap[2 * g], cap[2 * g + 1])
  }

  ghost predicate Disciplined(n: Node, x: Subject, g: nat, i: nat, j: nat, cap: Slots, cap': Slots)
    requires |cap| == |cap'| && 2 * g + 1 < |cap|
  {
    Untouched(g, cap, cap') || (g in Groups(n) && Captured(Body(n, g), x, g, i, j, cap'))
  }

  /** A match leaves every group as it was or sets it to a span, inside the
      match, that the group's own body matches. */
  lemma {:induction false} EvalDisciplined(n: Node, x: Subject, i: nat, cap: Slots, w: Word, g: nat)
    requires i <= |x.s| && 2 * g + 1 < |cap|
    requires DistinctGroups(n)
    requires Eval(PlanOf(n), x, i, cap, w).Done?
    ensures var r := Eval(PlanOf(n), x, i, cap, w); Disciplined(n, x, g, i, r.pos, cap, r.cap)
    decreases n, 0, 0
  {
    match n
    case Cat(a, b) =>
      EvalDisciplined(a, x, i, cap, w, g);
      var r := Eval(PlanOf(a), x, i, cap, w);
      EvalDisciplined(b, x, r.pos, r.cap, r.rest, g);
    case Alt(a, b) =>
      EvalDisciplined(if w[0] then a else b, x, i, cap, w[1..], g);
    case Rep(a, min, max) =>
      TimesDisciplined(a, x, min, i, cap, w, g);
      var r := Eval(Times(PlanOf(a), min), x, i, cap, w);
      if max < 0 {
        StarDisciplined(a, x, r.pos, r.cap, r.rest, g);
      } else {
        MaybesDisciplined(a, x, Upper(min, max) - min, r.pos, r.cap, r.rest, g);
      }
    case Group(a, h) =>
      EvalDisciplined(a, x, i, Save(cap, 2 * h, i), w, g);
      EvalMatches(a, x, i, Save(cap, 2 * h, i), w);
    case _ =>
  }

  lemma {:induction false} TimesDisciplined(a: Node, x: Subject, k: nat, i: nat, cap: Slots, w: Word, g: nat)
    requires i <= |x.s| && 2 * g + 1 < |cap|
    requires DistinctGroups(a)
    requires Eval(Times(PlanOf(a), k), x, i, cap, w).Done?
    ensures var r := Eval(Times(PlanOf(a), k), x, i, cap, w); Disciplined(a, x, g, i, r.pos, cap, r.cap)
    decreases a, 1, k
  {
    if k > 0 {
      TimesDisciplined(a, x, k - 1, i, cap, w, g);
      var r := Eval(Times(PlanOf(a), k - 1), x, i, cap, w);
      EvalDisciplined(a, x, r.pos, r.cap, r.rest, g);
    }
  }

  lemma {:induction false} MaybesDisciplined(a: Node, x: Subject, k: nat, i: nat, cap: Slots, w: Word, g: nat)
    requires i <= |x.s| && 2 * g + 1 < |cap|
    requires DistinctGroups(a)
    requires Eval(Maybes(PlanOf(a), k), x, i, cap, w).Done?
    ensures var r := Eval(Maybes(PlanOf(a), k), x, i, cap, w); Disciplined(a, x, g, i, r.pos, cap, r.cap)
    decreases a, 1, k
  {
    if k > 0 {
      MaybesDisciplined(a, x, k - 1, i, cap, w, g);
      var r := Eval(Maybes(PlanOf(a), k - 1), x, i, cap, w);
      assert Eval(Maybe(PlanOf(a)), x, r.pos, r.cap, r.rest).Done?;
      if r.rest[0] { EvalDisciplined(a, x, r.pos, r.cap, r.rest[1..], g); }
    }
  }

  lemma {:induction false} StarDisciplined(a: Node, x: Subject, i: nat, cap: Slots, w: Word, g: nat)
    requires i <= |x.s| && 2 * g + 1 < |cap|
    requires DistinctGroups(a)
    requires Eval(Star(PlanOf(a)), x, i, cap, w).Done?
    ensures var r := Eval(Star(PlanOf(a)), x, i, cap, w); Disciplined(a, x, g, i, r.pos, cap, r.cap)
    decreases a, 1, |w|
  {
    if w[0] {
      EvalDisciplined(a, x, i, cap, w[1..], g);
      var r := Eval(PlanOf(a), x, i, cap, w[1..]);
      StarDisciplined(a, x, r.pos, r.cap, r.rest, g);
    }
  }
}
