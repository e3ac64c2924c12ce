/** What a run of the machine costs, computed from the plan and the subject
    alone: how many steps it takes, or that no budget is enough. */
module RegexCost {
  import opened RegexSyntax
  import opened RegexCode
  import opened RegexMachine

  /** The steps until the run ends and whether it ends in a match, or a run
      that comes back to where it was and never ends. */
  datatype Toll = Toll(steps: nat, hit: bool) | Forever

  function Tick(t: Toll): (r: Toll) { if t.Forever? then t else Toll(t.steps + 1, t.hit) }

  /** Try `t` and, if it fails, `u`. */
  function OrElse(t: Toll, u: Toll): (r: Toll) {
    if t.Forever? || t.hit then t else if u.Forever? then u else Toll(t.steps + u.steps, u.hit)
  }

  /** The cost of carrying out `c` at `i` when going on from `j` costs
      `rest(j)`. */
  function Price(c: Plan, x: Subject, i: nat, rest: nat -> Toll): (t: Toll)
    requires i <= |x.s|
    decreases c, |x.s| - i, 1
  {
    match c
    case Skip => rest(i)
    case Stuck => Toll(0, false)
    case Check(t) => if Passes(x, t, i) then Tick(rest(i + Width(t))) else Toll(1, false)
    case Then(a, b) => Price(a, x, i, Onward(b, x, rest))
    case Either(a, b) => Tick(OrElse(Price(a, x, i, Ticked(rest)), Price(b, x, i, rest)))
    case Maybe(a) => Tick(OrElse(Price(a, x, i, rest), rest(i)))
    case Star(a) => Tick(OrElse(Price(a, x, i, Again(a, x, i, rest)), rest(i)))
    case Bracket(a, _) => Tick(Price(a, x, i, Ticked(rest)))
  }

  function Ticked(rest: nat -> Toll): (r: nat -> Toll) { (j: nat) => Tick(rest(j)) }

  /** Going on with `b`. */
  function Onward(b: Plan, x: Subject, rest: nat -> Toll): (r: nat -> Toll)
    decreases b, |x.s| + 1, 0
  {
    (j: nat) => if j <= |x.s| then Price(b, x, j, rest) else Forever
  }

  /** Going on with the next round of a repetition that began a round at `i`. A
      round that did not move leads to the same round again, for ever. */
  function Again(a: Plan, x: Subject, i: nat, rest: nat -> Toll): (r: nat -> Toll)
    requires i <= |x.s|
    decreases Star(a), |x.s| - i, 0
  {
    (j: nat) => if i < j <= |x.s| then Tick(Price(Star(a), x, j, rest)) else Forever
  }

  function Arrived(): (r: nat -> Toll) { (j: nat) => Toll(1, true) }

  /** The whole program: after the plan comes one MATCH. */
  function PriceOf(n: Node, x: Subject, start: nat): (t: Toll)
    requires start <= |x.s|
  {
    Price(PlanOf(n), x, start, Arrived())
  }

  // ---- more is known, the rest stays ----------------------------------------------------

  /** `u` says what `t` says, and more where `t` was not known to end. */
  predicate Below(t: Toll, u: Toll) { t.Forever? || t == u }

  ghost predicate BelowFrom(x: Subject, i: nat, f: nat -> Toll, g: nat -> Toll) {
    forall j: nat | i <= j <= |x.s| :: Below(f(j), g(j))
  }

  lemma {:induction false} PriceGrows(c: Plan, x: Subject, i: nat, f: nat -> Toll, g: nat -> Toll)
    requires i <= |x.s| && BelowFrom(x, i, f, g)
    ensures Below(Price(c, x, i, f), Price(c, x, i, g))
    decreases c, |x.s| - i
  {
    match c
    case Skip =>
    case Stuck =>
    case Check(t) => if Passes(x, t, i) { assert Below(f(i + Width(t)), g(i + Width(t))); }
    case Then(a, b) =>
      forall j: nat | i <= j <= |x.s| ensures Below(Onward(b, x, f)(j), Onward(b, x, g)(j)) {
        PriceGrows(b, x, j, f, g);
      }
      PriceGrows(a, x, i, Onward(b, x, f), Onward(b, x, g));
    case Either(a, b) =>
      PriceGrows(a, x, i, Ticked(f), Ticked(g));
      PriceGrows(b, x, i, f, g);
    case Maybe(a) => PriceGrows(a, x, i, f, g);
    case Star(a) =>
      forall j: nat | i <= j <= |x.s| ensures Below(Again(a, x, i, f)(j), Again(a, x, i, g)(j)) {
        if i < j { PriceGrows(c, x, j, f, g); }
      }
      PriceGrows(a, x, i, Again(a, x, i, f), Again(a, x, i, g));
    case Bracket(a, _) => PriceGrows(a, x, i, Ticked(f), Ticked(g));
  }

  // ---- the machine pays the price ---------------------------------------------------------

  /** What a run with `steps` steps does if its cost is `t`. */
  predicate Obeys(r: Run, steps: int, t: Toll) {
    if t.Toll? && t.steps <= steps then r.ok == t.hit && r.left == steps - t.steps else !r.ok && r.left < 0
  }

  predicate Positive(t: Toll) { t.Toll? ==> 1 <= t.steps }

  /** Every run from `pc` at `i` with at most `m` steps costs `t`. */
  ghost predicate Costs(m: nat, p: seq<Inst>, x: Subject, pc: nat, i: nat, t: Toll)
    requires i <= |x.s|
  {
    && Positive(t)
    && forall steps: int, end: nat, cap: Slots | steps <= m :: Obeys(RunFrom(p, x, pc, i, steps, end, cap), steps, t)
  }

  ghost predicate CostsFrom(m: nat, p: seq<Inst>, x: Subject, pc: nat, i: nat, rest: nat -> Toll) {
    forall j: nat | i <= j <= |x.s| :: Costs(m, p, x, pc, j, rest(j))
  }

  lemma NoSteps(p: seq<Inst>, x: Subject, pc: nat, i: nat, t: Toll)
    requires i <= |x.s| && Positive(t)
    ensures Costs(0, p, x, pc, i, t)
  {
  }

  lemma TestCosts(m: nat, p: seq<Inst>, x: Subject, pc: nat, i: nat, t: Test, u: Toll)
    requires i <= |x.s| && Holds(p, pc, ITest(t))
    requires Passes(x, t, i) ==> Costs(m, p, x, pc + 1, i + Width(t), u)
    ensures Costs(m, p, x, pc, i, if Passes(x, t, i) then Tick(u) else Toll(1, false))
  {
  }

  lemma JumpCosts(m: nat, p: seq<Inst>, x: Subject, pc: nat, i: nat, t: nat, u: Toll)
    requires i <= |x.s| && Holds(p, pc, IJmp(t)) && Costs(m, p, x, t, i, u)
    ensures Costs(m, p, x, pc, i, Tick(u))
  {
  }

  lemma SaveCosts(m: nat, p: seq<Inst>, x: Subject, pc: nat, i: nat, slot: nat, u: Toll)
    requires i <= |x.s| && Holds(p, pc, ISave(slot)) && Costs(m, p, x, pc + 1, i, u)
    ensures Costs(m, p, x, pc, i, Tick(u))
  {
  }

  lemma SplitCosts(m: nat, p: seq<Inst>, x: Subject, pc: nat, i: nat, a: nat, b: nat, t: Toll, u: Toll)
    requires i <= |x.s| && 0 < m && Holds(p, pc, ISplit(a, b))
    requires Costs(m - 1, p, x, a, i, t) && Costs(m - 1, p, x, b, i, u)
    ensures Costs(m, p, x, pc, i, Tick(OrElse(t, u)))
  {
  }

  lemma CostsLess(m: nat, k: nat, p: seq<Inst>, x: Subject, pc: nat, i: nat, t: Toll)
    requires i <= |x.s| && Costs(m, p, x, pc, i, t) && k <= m
    ensures Costs(k, p, x, pc, i, t)
  {
  }

  lemma {:induction false} PricePositive(c: Plan, p: seq<Inst>, lo: nat, x: Subject, i: nat, rest: nat -> Toll)
    requires i <= |x.s| && Placed(p, c, lo) && forall j: nat | i <= j <= |x.s| :: Positive(rest(j))
    ensures Positive(Price(c, x, i, rest))
    decreases c
  {
    match c
    case Then(a, b) =>
      forall j: nat | i <= j <= |x.s| ensures Positive(Onward(b, x, rest)(j)) {
        PricePositive(b, p, lo + Size(a), x, j, rest);
      }
      PricePositive(a, p, lo, x, i, Onward(b, x, rest));
    case _ =>
  }

  /** The code of a plan costs what the plan does, whatever the budget. */
  lemma {:induction false} CodePriced(m: nat, c: Plan, p: seq<Inst>, x: Subject, lo: nat, i: nat, rest: nat -> Toll)
    requires i <= |x.s| && Placed(p, c, lo) && CostsFrom(m, p, x, lo + Size(c), i, rest)
    ensures Costs(m, p, x, lo, i, Price(c, x, i, rest))
    decreases c, m, 1
  {
    hide RunFrom, Costs, Passes;
    match c
    case Skip =>
    case Check(t) => CheckPriced(m, t, p, x, lo, i, rest);
    case Then(a, b) => ThenPriced(m, a, b, p, x, lo, i, rest);
    case Either(a, b) => EitherPriced(m, a, b, p, x, lo, i, rest);
    case Maybe(a) => MaybePriced(m, a, p, x, lo, i, rest);
    case Star(a) => StarPriced(m, a, p, x, lo, i, rest);
    case Bracket(a, g) => BracketPriced(m, a, g, p, x, lo, i, rest);
  }

  lemma {:induction false} ThenPriced(m: nat, a: Plan, b: Plan, p: seq<Inst>, x: Subject, lo: nat, i: nat,
                                      rest: nat -> Toll)
    requires i <= |x.s| && Placed(p, Then(a, b), lo) && CostsFrom(m, p, x, lo + Size(a) + Size(b), i, rest)
    ensures Costs(m, p, x, lo, i, Price(Then(a, b), x, i, rest))
    decreases Then(a, b), m, 0
  {
    hide RunFrom, Costs, Size;
    var mid := lo + Size(a);
    forall j: nat | i <= j <= |x.s| ensures Costs(m, p, x, mid, j, Onward(b, x, rest)(j)) {
      CodePriced(m, b, p, x, mid, j, rest);
    }
    CodePriced(m, a, p, x, lo, i, Onward(b, x, rest));
  }

  lemma CheckPriced(m: nat, t: Test, p: seq<Inst>, x: Subject, lo: nat, i: nat, rest: nat -> Toll)
    requires i <= |x.s| && Placed(p, Check(t), lo) && CostsFrom(m, p, x, lo + 1, i, rest)
    ensures Costs(m, p, x, lo, i, Price(Check(t), x, i, rest))
  {
    hide RunFrom, Costs;
    TestCosts(m, p, x, lo, i, t, rest(i + Width(t)));
  }

  lemma CostsFromLess(m: nat, k: nat, p: seq<Inst>, x: Subject, pc: nat, i: nat, rest: nat -> Toll)
    requires i <= |x.s| && CostsFrom(m, p, x, pc, i, rest) && k <= m
    ensures CostsFrom(k, p, x, pc, i, rest)
  {
    hide Costs;
    forall j: nat | i <= j <= |x.s| ensures Costs(k, p, x, pc, j, rest(j)) { CostsLess(m, k, p, x, pc, j, rest(j)); }
  }

  lemma {:induction false} EitherPriced(m: nat, a: Plan, b: Plan, p: seq<Inst>, x: Subject, lo: nat, i: nat,
                                        rest: nat -> Toll)
    requires i <= |x.s| && Placed(p, Either(a, b), lo) && CostsFrom(m, p, x, lo + Size(a) + 2 + Size(b), i, rest)
    ensures Costs(m, p, x, lo, i, Price(Either(a, b), x, i, rest))
    decreases Either(a, b), m, 0
  {
    hide RunFrom, Costs, Price, Size;
    var l, hi := lo + Size(a) + 2, lo + Size(a) + 2 + Size(b);
    assert Price(Either(a, b), x, i, rest) == EitherPrice(a, b, x, i, rest) by { EitherUnfolds(a, b, x, i, rest); }
    if m == 0 {
      PriceKnown(p, x, hi, i, rest, m);
      PricePositive(Either(a, b), p, lo, x, i, rest);
      NoSteps(p, x, lo, i, EitherPrice(a, b, x, i, rest));
    } else {
      CostsFromLess(m, m - 1, p, x, hi, i, rest);
      JumpsCost(m - 1, p, x, l - 1, hi, i, rest);
      CodePriced(m - 1, a, p, x, lo + 1, i, Ticked(rest));
      CodePriced(m - 1, b, p, x, l, i, rest);
      SplitCosts(m, p, x, lo, i, lo + 1, l, Price(a, x, i, Ticked(rest)), Price(b, x, i, rest));
    }
  }

  function EitherPrice(a: Plan, b: Plan, x: Subject, i: nat, rest: nat -> Toll): (t: Toll)
    requires i <= |x.s|
  {
    Tick(OrElse(Price(a, x, i, Ticked(rest)), Price(b, x, i, rest)))
  }

  lemma {:induction false} EitherUnfolds(a: Plan, b: Plan, x: Subject, i: nat, rest: nat -> Toll)
    requires i <= |x.s|
    ensures Price(Either(a, b), x, i, rest) == EitherPrice(a, b, x, i, rest)
  {
    hide Tick, OrElse, Ticked, Onward, Again, Passes, Width;
  }

  lemma JumpsCost(m: nat, p: seq<Inst>, x: Subject, pc: nat, t: nat, i: nat, rest: nat -> Toll)
    requires i <= |x.s| && Holds(p, pc, IJmp(t)) && CostsFrom(m, p, x, t, i, rest)
    ensures CostsFrom(m, p, x, pc, i, Ticked(rest))
  {
    hide Costs;
    forall j: nat | i <= j <= |x.s| ensures Costs(m, p, x, pc, j, Ticked(rest)(j)) {
      JumpCosts(m, p, x, pc, j, t, rest(j));
    }
  }

  lemma PriceKnown(p: seq<Inst>, x: Subject, pc: nat, i: nat, rest: nat -> Toll, m: nat)
    requires CostsFrom(m, p, x, pc, i, rest)
    ensures forall j: nat | i <= j <= |x.s| :: Positive(rest(j))
  {
    forall j: nat | i <= j <= |x.s| ensures Positive(rest(j)) { assert Costs(m, p, x, pc, j, rest(j)); }
  }

  lemma {:induction false} MaybePriced(m: nat, a: Plan, p: seq<Inst>, x: Subject, lo: nat, i: nat, rest: nat -> Toll)
    requires i <= |x.s| && Placed(p, Maybe(a), lo) && CostsFrom(m, p, x, lo + Size(a) + 1, i, rest)
    ensures Costs(m, p, x, lo, i, Price(Maybe(a), x, i, rest))
    decreases Maybe(a), m, 0
  {
    hide RunFrom, Costs;
    var hi := lo + Size(a) + 1;
    if m == 0 {
      PriceKnown(p, x, hi, i, rest, m);
      PricePositive(Maybe(a), p, lo, x, i, rest);
      NoSteps(p, x, lo, i, Price(Maybe(a), x, i, rest));
    } else {
      CostsFromLess(m, m - 1, p, x, hi, i, rest);
      CodePriced(m - 1, a, p, x, lo + 1, i, rest);
      SplitCosts(m, p, x, lo, i, lo + 1, hi, Price(a, x, i, rest), rest(i));
    }
  }

  lemma {:induction false} BracketPriced(m: nat, a: Plan, g: nat, p: seq<Inst>, x: Subject, lo: nat, i: nat,
                                         rest: nat -> Toll)
    requires i <= |x.s| && Placed(p, Bracket(a, g), lo) && CostsFrom(m, p, x, lo + Size(a) + 2, i, rest)
    ensures Costs(m, p, x, lo, i, Price(Bracket(a, g), x, i, rest))
    decreases Bracket(a, g), m, 0
  {
    hide RunFrom, Costs;
    forall j: nat | i <= j <= |x.s| ensures Costs(m, p, x, lo + Size(a) + 1, j, Ticked(rest)(j)) {
      SaveCosts(m, p, x, lo + Size(a) + 1, j, 2 * g + 1, rest(j));
    }
    CodePriced(m, a, p, x, lo + 1, i, Ticked(rest));
    SaveCosts(m, p, x, lo, i, 2 * g, Price(a, x, i, Ticked(rest)));
  }

  /** Every round as the machine goes on to it, the same place included. */
  function EveryRound(a: Plan, x: Subject, rest: nat -> Toll): (r: nat -> Toll) {
    (j: nat) => if j <= |x.s| then Tick(Price(Star(a), x, j, rest)) else Forever
  }

  /** A round that comes back without having moved changes nothing: either the
      price does not depend on it, or there is no end. */
  lemma SameRounds(a: Plan, x: Subject, i: nat, rest: nat -> Toll)
    requires i <= |x.s|
    ensures Price(a, x, i, EveryRound(a, x, rest)) == Price(a, x, i, Again(a, x, i, rest))
  {
    var f, g := Again(a, x, i, rest), EveryRound(a, x, rest);
    assert BelowFrom(x, i, f, g);
    PriceGrows(a, x, i, f, g);
    if Price(a, x, i, f).Forever? {
      assert Price(Star(a), x, i, rest).Forever?;
      assert BelowFrom(x, i, g, f);
      PriceGrows(a, x, i, g, f);
    }
  }

  function StarPrice(a: Plan, x: Subject, i: nat, rest: nat -> Toll): (t: Toll)
    requires i <= |x.s|
  {
    Tick(OrElse(Price(a, x, i, Again(a, x, i, rest)), rest(i)))
  }

  lemma {:induction false} StarUnfolds(a: Plan, x: Subject, i: nat, rest: nat -> Toll)
    requires i <= |x.s|
    ensures Price(Star(a), x, i, rest) == StarPrice(a, x, i, rest)
  {
    hide Tick, OrElse, Ticked, Onward, Again, Passes, Width;
  }

  lemma {:induction false} StarPriced(m: nat, a: Plan, p: seq<Inst>, x: Subject, lo: nat, i: nat, rest: nat -> Toll)
    requires i <= |x.s| && Placed(p, Star(a), lo) && CostsFrom(m, p, x, lo + Size(a) + 2, i, rest)
    ensures Costs(m, p, x, lo, i, Price(Star(a), x, i, rest))
    decreases Star(a), m, 0
  {
    hide RunFrom, Costs, Price, Size;
    var hi := lo + Size(a) + 2;
    assert Price(Star(a), x, i, rest) == StarPrice(a, x, i, rest) by { StarUnfolds(a, x, i, rest); }
    if m == 0 {
      PriceKnown(p, x, hi, i, rest, m);
      PricePositive(Star(a), p, lo, x, i, rest);
      NoSteps(p, x, lo, i, Price(Star(a), x, i, rest));
    } else {
      CostsFromLess(m, m - 1, p, x, hi, i, rest);
      forall j: nat | i <= j <= |x.s| ensures Costs(m - 1, p, x, hi - 1, j, EveryRound(a, x, rest)(j)) {
        StarPriced(m - 1, a, p, x, lo, j, rest);
        JumpCosts(m - 1, p, x, hi - 1, j, lo, Price(Star(a), x, j, rest));
      }
      CodePriced(m - 1, a, p, x, lo + 1, i, EveryRound(a, x, rest));
      SameRounds(a, x, i, rest);
      SplitCosts(m, p, x, lo, i, lo + 1, hi, Price(a, x, i, Again(a, x, i, rest)), rest(i));
    }
  }

  /** A whole program costs what its node does: with that many steps it ends as
      the price says, with fewer it runs out. */
  lemma RunPriced(n: Node, p: seq<Inst>, x: Subject, start: nat, steps: int, end: nat, cap: Slots)
    requires start <= |x.s| && Compiled(p, n)
    ensures Obeys(RunFrom(p, x, 0, start, steps, end, cap), steps, PriceOf(n, x, start))
  {
    hide RunFrom, Placed, Price;
    var m: nat := if steps < 0 then 0 else steps;
    forall j: nat | start <= j <= |x.s| ensures Costs(m, p, x, Size(PlanOf(n)), j, Arrived()(j)) {
      MatchCosts(m, p, x, Size(PlanOf(n)), j);
    }
    CodePriced(m, PlanOf(n), p, x, 0, start, Arrived());
    assert Costs(m, p, x, 0, start, PriceOf(n, x, start));
  }

  lemma MatchCosts(m: nat, p: seq<Inst>, x: Subject, pc: nat, i: nat)
    requires i <= |x.s| && Holds(p, pc, IMatch)
    ensures Costs(m, p, x, pc, i, Toll(1, true))
  {
  }

  // ---- when there is a price ---------------------------------------------------------------

  /** The plan may come to its end without having moved. */
  predicate MayStay(c: Plan) {
    match c
    case Skip => true
    case Stuck => false
    case Check(t) => Width(t) == 0
    case Then(a, b) => MayStay(a) && MayStay(b)
    case Either(a, b) => MayStay(a) || MayStay(b)
    case Maybe(_) => true
    case Star(_) => true
    case Bracket(a, _) => MayStay(a)
  }

  /** Every round of an unbounded repetition moves. */
  predicate Productive(c: Plan) {
    match c
    case Then(a, b) => Productive(a) && Productive(b)
    case Either(a, b) => Productive(a) && Productive(b)
    case Maybe(a) => Productive(a)
    case Star(a) => Productive(a) && !MayStay(a)
    case Bracket(a, _) => Productive(a)
    case _ => true
  }

  /** A bound on the price with `r` bytes to go, if going on costs at most `k`. */
  function Bound(c: Plan, r: nat, k: nat): (b: nat)
    decreases c, r, 1
  {
    match c
    case Skip => k
    case Stuck => 0
    case Check(_) => 1 + k
    case Then(a, b) => Bound(a, r, Bound(b, r, k))
    case Either(a, b) => 1 + Bound(a, r, 1 + k) + Bound(b, r, k)
    case Maybe(a) => 1 + Bound(a, r, k) + k
    case Star(a) => 1 + Bound(a, r, NextRound(a, r, k)) + k
    case Bracket(a, _) => 1 + Bound(a, r, 1 + k)
  }

  /** A round that moved leaves fewer bytes to go. */
  function NextRound(a: Plan, r: nat, k: nat): (b: nat)
    decreases Star(a), r, 0
  {
    if r == 0 then 0 else 1 + Bound(Star(a), r - 1, k)
  }

  lemma {:induction false} BoundGrows(c: Plan, r: nat, s: nat, k: nat, l: nat)
    requires r <= s && k <= l
    ensures Bound(c, r, k) <= Bound(c, s, l)
    decreases c, s
  {
    match c
    case Then(a, b) =>
      BoundGrows(b, r, s, k, l);
      BoundGrows(a, r, s, Bound(b, r, k), Bound(b, s, l));
    case Either(a, b) =>
      BoundGrows(a, r, s, 1 + k, 1 + l);
      BoundGrows(b, r, s, k, l);
    case Maybe(a) => BoundGrows(a, r, s, k, l);
    case Star(a) =>
      if 0 < r { BoundGrows(c, r - 1, s - 1, k, l); }
      BoundGrows(a, r, s, NextRound(a, r, k), NextRound(a, s, l));
    case Bracket(a, _) => BoundGrows(a, r, s, 1 + k, 1 + l);
    case _ =>
  }

  predicate Fits(t: Toll, k: nat) { t.Toll? && t.steps <= k }

  /** Going on costs at most `k` from every place the plan can leave at. */
  ghost predicate Afforded(c: Plan, x: Subject, i: nat, rest: nat -> Toll, k: nat) {
    forall j: nat | i <= j <= |x.s| && (i < j || MayStay(c)) :: Fits(rest(j), k)
  }

  /** A plan whose rounds all move has a price, and it is within the bound. */
  lemma {:induction false} PriceBounded(c: Plan, x: Subject, i: nat, rest: nat -> Toll, k: nat)
    requires i <= |x.s| && Productive(c) && Afforded(c, x, i, rest, k)
    ensures Fits(Price(c, x, i, rest), Bound(c, |x.s| - i, k))
    decreases c, |x.s| - i, 1
  {
    match c
    case Then(a, b) => ThenBounded(a, b, x, i, rest, k);
    case Either(a, b) =>
      PriceBounded(a, x, i, Ticked(rest), 1 + k);
      PriceBounded(b, x, i, rest, k);
    case Maybe(a) => PriceBounded(a, x, i, rest, k);
    case Star(a) => StarBounded(a, x, i, rest, k);
    case Bracket(a, _) => PriceBounded(a, x, i, Ticked(rest), 1 + k);
    case _ =>
  }

  lemma {:induction false} ThenBounded(a: Plan, b: Plan, x: Subject, i: nat, rest: nat -> Toll, k: nat)
    requires i <= |x.s| && Productive(Then(a, b)) && Afforded(Then(a, b), x, i, rest, k)
    ensures Fits(Price(Then(a, b), x, i, rest), Bound(Then(a, b), |x.s| - i, k))
    decreases Then(a, b), |x.s| - i, 0
  {
    var r := |x.s| - i;
    forall j: nat | i <= j <= |x.s| && (i < j || MayStay(a))
      ensures Fits(Onward(b, x, rest)(j), Bound(b, r, k))
    {
      PriceBounded(b, x, j, rest, k);
      BoundGrows(b, |x.s| - j, r, k, k);
    }
    PriceBounded(a, x, i, Onward(b, x, rest), Bound(b, r, k));
  }

  lemma {:induction false} StarBounded(a: Plan, x: Subject, i: nat, rest: nat -> Toll, k: nat)
    requires i <= |x.s| && Productive(Star(a)) && Afforded(Star(a), x, i, rest, k)
    ensures Fits(Price(Star(a), x, i, rest), Bound(Star(a), |x.s| - i, k))
    decreases Star(a), |x.s| - i, 0
  {
    hide Bound, Fits;
    var r: nat := |x.s| - i;
    var l := NextRound(a, r, k);
    forall j: nat | i < j <= |x.s| ensures Fits(Again(a, x, i, rest)(j), l) {
      PriceBounded(Star(a), x, j, rest, k);
      BoundGrows(Star(a), |x.s| - j, r - 1, k, k);
      FitsTicked(Price(Star(a), x, j, rest), Bound(Star(a), |x.s| - j, k), l);
    }
    PriceBounded(a, x, i, Again(a, x, i, rest), l);
    assert Fits(rest(i), k);
    FitsStar(Price(a, x, i, Again(a, x, i, rest)), rest(i), a, r, k);
  }

  lemma FitsTicked(t: Toll, k: nat, l: nat)
    requires Fits(t, k) && k < l
    ensures Fits(Tick(t), l)
  {
  }

  lemma FitsStar(t: Toll, u: Toll, a: Plan, r: nat, k: nat)
    requires Fits(t, Bound(a, r, NextRound(a, r, k))) && Fits(u, k)
    ensures Fits(Tick(OrElse(t, u)), Bound(Star(a), r, k))
  {
  }

  // ---- when there is none --------------------------------------------------------------------

  /** The plan can come to its end without having moved, whatever the subject. */
  predicate Nullable(c: Plan) {
    match c
    case Skip => true
    case Then(a, b) => Nullable(a) && Nullable(b)
    case Either(a, b) => Nullable(a) || Nullable(b)
    case Maybe(_) => true
    case Star(_) => true
    case Bracket(a, _) => Nullable(a)
    case _ => false
  }

  /** Every way through the plan enters a repetition whose body can match the
      empty string. */
  predicate Doomed(c: Plan) {
    match c
    case Then(a, b) => Doomed(a) || Doomed(b)
    case Either(a, b) => Doomed(a) && Doomed(b)
    case Star(a) => Nullable(a)
    case Bracket(a, _) => Doomed(a)
    case _ => false
  }

  predicate Hits(t: Toll) { t.Toll? && t.hit }

  ghost predicate Hitless(x: Subject, i: nat, rest: nat -> Toll) {
    forall j: nat | i <= j <= |x.s| :: !Hits(rest(j))
  }

  /** What comes after decides: no hit there, no hit at all. */
  lemma {:induction false} NoHitAhead(c: Plan, x: Subject, i: nat, rest: nat -> Toll)
    requires i <= |x.s| && Hitless(x, i, rest)
    ensures !Hits(Price(c, x, i, rest))
    decreases c, |x.s| - i
  {
    match c
    case Then(a, b) =>
      forall j: nat | i <= j <= |x.s| ensures !Hits(Onward(b, x, rest)(j)) { NoHitAhead(b, x, j, rest); }
      NoHitAhead(a, x, i, Onward(b, x, rest));
    case Either(a, b) =>
      assert Hitless(x, i, Ticked(rest));
      NoHitAhead(a, x, i, Ticked(rest));
      NoHitAhead(b, x, i, rest);
    case Maybe(a) => NoHitAhead(a, x, i, rest);
    case Star(a) =>
      forall j: nat | i < j <= |x.s| ensures !Hits(Again(a, x, i, rest)(j)) { NoHitAhead(c, x, j, rest); }
      NoHitAhead(a, x, i, Again(a, x, i, rest));
    case Bracket(a, _) =>
      assert Hitless(x, i, Ticked(rest));
      NoHitAhead(a, x, i, Ticked(rest));
    case _ =>
  }

  /** The plan can come to its end at `i` without having moved. */
  predicate StaysAt(c: Plan, x: Subject, i: nat)
    requires i <= |x.s|
  {
    match c
    case Skip => true
    case Stuck => false
    case Check(t) => Width(t) == 0 && Passes(x, t, i)
    case Then(a, b) => StaysAt(a, x, i) && StaysAt(b, x, i)
    case Either(a, b) => StaysAt(a, x, i) || StaysAt(b, x, i)
    case Maybe(_) => true
    case Star(_) => true
    case Bracket(a, _) => StaysAt(a, x, i)
  }

  lemma {:induction false} NullableStays(c: Plan, x: Subject, i: nat)
    requires i <= |x.s| && Nullable(c)
    ensures StaysAt(c, x, i)
  {
    match c
    case Then(a, b) => NullableStays(a, x, i); NullableStays(b, x, i);
    case Either(a, b) => NullableStays(if Nullable(a) then a else b, x, i);
    case Bracket(a, _) => NullableStays(a, x, i);
    case _ =>
  }

  /** A plan that can come to its end without having moved does, if nothing
      hits before. */
  lemma {:induction false} NoEndAhead(c: Plan, x: Subject, i: nat, rest: nat -> Toll)
    requires i <= |x.s| && rest(i).Forever? && Hitless(x, i, rest) && StaysAt(c, x, i)
    ensures Price(c, x, i, rest).Forever?
    decreases c
  {
    NoHitAhead(c, x, i, rest);
    match c
    case Then(a, b) =>
      NoEndAhead(b, x, i, rest);
      forall j: nat | i <= j <= |x.s| ensures !Hits(Onward(b, x, rest)(j)) { NoHitAhead(b, x, j, rest); }
      NoEndAhead(a, x, i, Onward(b, x, rest));
    case Either(a, b) =>
      assert Hitless(x, i, Ticked(rest));
      if StaysAt(a, x, i) {
        NoEndAhead(a, x, i, Ticked(rest));
      } else {
        NoHitAhead(a, x, i, Ticked(rest));
        NoEndAhead(b, x, i, rest);
      }
    case Maybe(a) => NoHitAhead(a, x, i, rest);
    case Star(a) => LaterRoundsHitless(a, x, i, rest);
    case Bracket(a, _) =>
      assert Hitless(x, i, Ticked(rest));
      NoEndAhead(a, x, i, Ticked(rest));
    case _ =>
  }

  lemma LaterRoundsHitless(a: Plan, x: Subject, i: nat, rest: nat -> Toll)
    requires i <= |x.s| && Hitless(x, i, rest)
    ensures !Hits(Price(a, x, i, Again(a, x, i, rest)))
  {
    forall j: nat | i < j <= |x.s| ensures !Hits(Again(a, x, i, rest)(j)) { NoHitAhead(Star(a), x, j, rest); }
    NoHitAhead(a, x, i, Again(a, x, i, rest));
  }

  /** A repetition reached at `i`, where its body can match the empty string,
      does not end unless a round that moved hits first. */
  lemma EmptyRoundStarves(a: Plan, x: Subject, i: nat, rest: nat -> Toll)
    requires i <= |x.s| && StaysAt(a, x, i)
    requires forall j: nat | i < j <= |x.s| :: !Hits(Price(Star(a), x, j, rest))
    ensures Price(Star(a), x, i, rest).Forever?
  {
    assert Hitless(x, i, Again(a, x, i, rest));
    NoEndAhead(a, x, i, Again(a, x, i, rest));
  }

  /** Where that holds from `i` on, no budget is enough, whatever follows. */
  lemma {:induction false} EmptyRoundsNeverEnd(a: Plan, x: Subject, i: nat, rest: nat -> Toll)
    requires i <= |x.s| && forall j: nat | i <= j <= |x.s| :: StaysAt(a, x, j)
    ensures Price(Star(a), x, i, rest).Forever?
    decreases |x.s| - i
  {
    forall j: nat | i < j <= |x.s| ensures !Hits(Price(Star(a), x, j, rest)) { EmptyRoundsNeverEnd(a, x, j, rest); }
    EmptyRoundStarves(a, x, i, rest);
  }

  /** A doomed plan hits on no subject, at no start and with no budget. */
  lemma {:induction false} DoomedNeverHits(c: Plan, x: Subject, i: nat, rest: nat -> Toll)
    requires i <= |x.s| && Doomed(c)
    ensures !Hits(Price(c, x, i, rest))
    decreases c
  {
    match c
    case Then(a, b) =>
      if Doomed(a) {
        DoomedNeverHits(a, x, i, Onward(b, x, rest));
      } else {
        forall j: nat | i <= j <= |x.s| ensures !Hits(Onward(b, x, rest)(j)) { DoomedNeverHits(b, x, j, rest); }
        NoHitAhead(a, x, i, Onward(b, x, rest));
      }
    case Either(a, b) =>
      DoomedNeverHits(a, x, i, Ticked(rest));
      DoomedNeverHits(b, x, i, rest);
    case Star(a) =>
      forall j: nat | i <= j <= |x.s| ensures StaysAt(a, x, j) { NullableStays(a, x, j); }
      EmptyRoundsNeverEnd(a, x, i, rest);
    case Bracket(a, _) => DoomedNeverHits(a, x, i, Ticked(rest));
  }

  // ---- staying is matching the empty span ---------------------------------------------------

  lemma {:induction false} IteratesForward(a: Node, x: Subject, k: nat, i: nat, j: nat)
    requires i <= |x.s| && Iterates(a, x, k, i, j)
    ensures i <= j
  {
    if k > 0 {
      var m: nat :| m <= |x.s| && Iterates(a, x, k - 1, i, m) && Matches(a, x, m, j);
      IteratesForward(a, x, k - 1, i, m);
    }
  }

  lemma EmptyRounds(a: Node, x: Subject, k: nat, i: nat)
    requires i <= |x.s| && 0 < k && Iterates(a, x, k, i, i)
    ensures Matches(a, x, i, i)
  {
    var m: nat :| m <= |x.s| && Iterates(a, x, k - 1, i, m) && Matches(a, x, m, i);
    IteratesForward(a, x, k - 1, i, m);
  }

  lemma {:induction false} ManyEmptyRounds(a: Node, x: Subject, k: nat, i: nat)
    requires i <= |x.s| && (0 < k ==> Matches(a, x, i, i))
    ensures Iterates(a, x, k, i, i)
  {
    if k > 0 { ManyEmptyRounds(a, x, k - 1, i); }
  }

  lemma {:induction false} TimesStays(c: Plan, x: Subject, k: nat, i: nat)
    requires i <= |x.s|
    ensures StaysAt(Times(c, k), x, i) <==> k == 0 || StaysAt(c, x, i)
    ensures StaysAt(Maybes(c, k), x, i)
  {
    if k > 0 { TimesStays(c, x, k - 1, i); }
  }

  lemma RepStays(n: Node, x: Subject, i: nat)
    requires i <= |x.s| && n.Rep? && (StaysAt(PlanOf(n.a), x, i) <==> Matches(n.a, x, i, i))
    ensures StaysAt(PlanOf(n), x, i) <==> Matches(n, x, i, i)
  {
    var a, min, max := n.a, n.min, n.max;
    TimesStays(PlanOf(a), x, min, i);
    TimesStays(PlanOf(a), x, Upper(min, max) - min, i);
    assert StaysAt(PlanOf(n), x, i) <==> min == 0 || Matches(a, x, i, i);
    if min == 0 || Matches(a, x, i, i) { ManyEmptyRounds(a, x, min, i); }
    if Matches(n, x, i, i) { RepEmptyRounds(n, x, i); }
  }

  lemma RepEmptyRounds(n: Node, x: Subject, i: nat)
    requires i <= |x.s| && n.Rep? && Matches(n, x, i, i)
    ensures n.min == 0 || Matches(n.a, x, i, i)
  {
    match n
    case Rep(a, min, max) =>
      var k: nat :| min <= k && (max < 0 || k <= Upper(min, max)) && Iterates(a, x, k, i, i);
      if k > 0 { EmptyRounds(a, x, k, i); }
  }

  /** The plan of a node stays at `i` exactly if the node matches the empty span
      there. */
  lemma {:induction false} StaysIsMatch(n: Node, x: Subject, i: nat)
    requires i <= |x.s|
    ensures StaysAt(PlanOf(n), x, i) <==> Matches(n, x, i, i)
  {
    match n
    case Cat(a, b) => StaysIsMatch(a, x, i); StaysIsMatch(b, x, i);
    case Alt(a, b) => StaysIsMatch(a, x, i); StaysIsMatch(b, x, i);
    case Rep(a, _, _) => StaysIsMatch(a, x, i); RepStays(n, x, i);
    case Group(a, _) => StaysIsMatch(a, x, i);
    case _ =>
  }
}
