/** What the tests of a regular expression mean, said without them: of single
    bytes, under change of case, in the mirror, and line by line. */
module RegexLaws {
  import opened Bytes
  import opened RegexSyntax
  import opened RegexCaptures
  import opened RegexCode
  import opened RegexCost
  import opened RegexMachine
  import opened RegexSearch

  // ---- one byte ---------------------------------------------------------------------------

  /** The same byte, or a letter and the other case of it. */
  predicate SameLetter(a: int, b: int) {
    a == b || (65 <= a <= 90 && b == a + 32) || (65 <= b <= 90 && a == b + 32)
  }

  lemma CharMeans(ch: Byte, x: Subject, i: nat, j: nat)
    requires i <= |x.s|
    ensures Matches(Atom(Char(ch)), x, i, j) <==>
              i < |x.s| && j == i + 1 && if x.icase then SameLetter(ch, x.s[i]) else ch == x.s[i]
  {
  }

  /** A dot is any byte, but for a newline when lines are told apart. */
  lemma AnyMeans(x: Subject, i: nat, j: nat)
    requires i <= |x.s|
    ensures Matches(Atom(Any), x, i, j) <==> i < |x.s| && j == i + 1 && !(x.newline && x.s[i] == 10)
  {
  }

  lemma ClassMeans(cls: nat, x: Subject, i: nat, j: nat)
    requires i <= |x.s| && cls < |x.classes|
    ensures Matches(Atom(Class(cls)), x, i, j) <==> i < |x.s| && j == i + 1 && x.s[i] in x.classes[cls]
  {
  }

  /** An anchor takes nothing. It holds at its end of the subject unless the
      flag says that this is no end, and inside only next to a newline, when
      lines are told apart. */
  lemma AnchorsMean(x: Subject, i: nat, j: nat)
    requires i <= |x.s|
    ensures Matches(Atom(Bol), x, i, j) <==>
              i == j && if i == 0 then !x.notbol else x.newline && x.s[i - 1] == 10
    ensures Matches(Atom(Eol), x, i, j) <==>
              i == j && if i == |x.s| then !x.noteol else x.newline && x.s[i] == 10
  {
  }

  /** The byte at `k` passes. */
  ghost predicate Takes(t: Test, x: Subject, k: nat) { k < |x.s| && Matches(Atom(t), x, k, k + 1) }

  ghost predicate TakesAll(t: Test, x: Subject, i: nat, j: nat) { forall k: nat | i <= k < j :: Takes(t, x, k) }

  /** A repeated one-byte test matches the stretches of bytes that pass, of a
      length within the bounds. */
  lemma RunMeans(t: Test, min: nat, max: int, x: Subject, i: nat, j: nat)
    requires i <= j <= |x.s| && Width(t) == 1
    ensures Matches(Rep(Atom(t), min, max), x, i, j) <==>
              min <= j - i && (max < 0 || j - i <= max || j - i == min) && TakesAll(t, x, i, j)
  {
    if Matches(Rep(Atom(t), min, max), x, i, j) { RunRounds(t, min, max, x, i, j); }
    if min <= j - i && (max < 0 || j - i <= max || j - i == min) && TakesAll(t, x, i, j) {
      RunIterates(t, x, j - i, i);
    }
  }

  lemma RunRounds(t: Test, min: nat, max: int, x: Subject, i: nat, j: nat)
    requires i <= |x.s| && Width(t) == 1 && Matches(Rep(Atom(t), min, max), x, i, j)
    ensures min <= j - i && (max < 0 || j - i <= Upper(min, max)) && TakesAll(t, x, i, j)
  {
    var k: nat :| min <= k && (max < 0 || k <= Upper(min, max)) && Iterates(Atom(t), x, k, i, j);
    IteratesRun(t, x, k, i, j);
  }

  lemma {:induction false} IteratesRun(t: Test, x: Subject, k: nat, i: nat, j: nat)
    requires i <= |x.s| && Width(t) == 1 && Iterates(Atom(t), x, k, i, j)
    ensures j == i + k && j <= |x.s| && TakesAll(t, x, i, j)
    decreases k
  {
    if k > 0 {
      var m: nat :| m <= |x.s| && Iterates(Atom(t), x, k - 1, i, m) && Matches(Atom(t), x, m, j);
      IteratesRun(t, x, k - 1, i, m);
    }
  }

  lemma {:induction false} RunIterates(t: Test, x: Subject, k: nat, i: nat)
    requires i + k <= |x.s| && TakesAll(t, x, i, i + k)
    ensures Iterates(Atom(t), x, k, i, i + k)
    decreases k
  {
    if k > 0 {
      RunIterates(t, x, k - 1, i);
      assert Takes(t, x, i + k - 1);
    }
  }

  // ---- searches that no test tells apart ----------------------------------------------------

  /** Wherever one test succeeds in its subject, the other does in its. */
  ghost predicate TwinTests(x: Subject, t: Test, y: Subject, u: Test) {
    Width(t) == Width(u) && |x.s| == |y.s| && forall i: nat | i <= |x.s| :: Passes(x, t, i) == Passes(y, u, i)
  }

  ghost predicate TwinPlans(x: Subject, p: Plan, y: Subject, q: Plan) {
    match p
    case Skip => q.Skip?
    case Stuck => q.Stuck?
    case Check(t) => q.Check? && TwinTests(x, t, y, q.t)
    case Then(a, b) => q.Then? && TwinPlans(x, a, y, q.a) && TwinPlans(x, b, y, q.b)
    case Either(a, b) => q.Either? && TwinPlans(x, a, y, q.a) && TwinPlans(x, b, y, q.b)
    case Maybe(a) => q.Maybe? && TwinPlans(x, a, y, q.a)
    case Star(a) => q.Star? && TwinPlans(x, a, y, q.a)
    case Bracket(a, g) => q.Bracket? && g == q.g && TwinPlans(x, a, y, q.a)
  }

  lemma {:induction false} TwinEval(x: Subject, p: Plan, y: Subject, q: Plan, i: nat, cap: Slots, w: Word)
    requires i <= |x.s| == |y.s| && TwinPlans(x, p, y, q)
    ensures Eval(p, x, i, cap, w) == Eval(q, y, i, cap, w)
    decreases p, |w|
  {
    hide Passes;
    match p
    case Then(a, b) =>
      TwinEval(x, a, y, q.a, i, cap, w);
      var r := Eval(a, x, i, cap, w);
      if r.Done? { TwinEval(x, b, y, q.b, r.pos, r.cap, r.rest); }
    case Either(a, b) =>
      if w != [] { TwinEval(x, if w[0] then a else b, y, if w[0] then q.a else q.b, i, cap, w[1..]); }
    case Maybe(a) => if w != [] && w[0] { TwinEval(x, a, y, q.a, i, cap, w[1..]); }
    case Star(a) =>
      if w != [] && w[0] {
        TwinEval(x, a, y, q.a, i, cap, w[1..]);
        var r := Eval(a, x, i, cap, w[1..]);
        if r.Done? { TwinEval(x, p, y, q, r.pos, r.cap, r.rest); }
      }
    case Bracket(a, g) => TwinEval(x, a, y, q.a, i, Save(cap, 2 * g, i), w);
    case _ =>
  }

  ghost predicate SameFrom(x: Subject, i: nat, f: nat -> Toll, g: nat -> Toll) {
    forall j: nat | i <= j <= |x.s| :: f(j) == g(j)
  }

  lemma PassesInside(x: Subject, t: Test, i: nat)
    requires i <= |x.s|
    ensures Passes(x, t, i) ==> i + Width(t) <= |x.s|
  {
  }

  lemma {:induction false} TwinPrice(x: Subject, p: Plan, y: Subject, q: Plan, i: nat, f: nat -> Toll, g: nat -> Toll)
    requires i <= |x.s| == |y.s| && TwinPlans(x, p, y, q) && SameFrom(x, i, f, g)
    ensures Price(p, x, i, f) == Price(q, y, i, g)
    decreases p, |x.s| - i
  {
    hide Passes;
    match p
    case Check(t) => PassesInside(x, t, i);
    case Then(a, b) =>
      forall j: nat | i <= j <= |x.s| ensures Onward(b, x, f)(j) == Onward(q.b, y, g)(j) {
        TwinPrice(x, b, y, q.b, j, f, g);
      }
      TwinPrice(x, a, y, q.a, i, Onward(b, x, f), Onward(q.b, y, g));
    case Either(a, b) =>
      assert SameFrom(x, i, Ticked(f), Ticked(g));
      TwinPrice(x, a, y, q.a, i, Ticked(f), Ticked(g));
      TwinPrice(x, b, y, q.b, i, f, g);
    case Maybe(a) => TwinPrice(x, a, y, q.a, i, f, g);
    case Star(a) =>
      forall j: nat | i <= j <= |x.s| ensures Again(a, x, i, f)(j) == Again(q.a, y, i, g)(j) {
        if i < j { TwinPrice(x, p, y, q, j, f, g); }
      }
      TwinPrice(x, a, y, q.a, i, Again(a, x, i, f), Again(q.a, y, i, g));
    case Bracket(a, _) =>
      assert SameFrom(x, i, Ticked(f), Ticked(g));
      TwinPrice(x, a, y, q.a, i, Ticked(f), Ticked(g));
    case _ =>
  }

  /** Then both searches find the same, with the same captures. */
  lemma TwinSearch(n: Node, x: Subject, m: Node, y: Subject, start: nat, end: nat, cap: Slots)
    requires start <= |x.s| == |y.s| && TwinPlans(x, PlanOf(n), y, PlanOf(m))
    ensures Reachable(n, x, start) <==> Reachable(m, y, start)
    ensures Preferred(n, x, start, end, cap) <==> Preferred(m, y, start, end, cap)
  {
    hide Price, Eval, Matches, PlanOf, TwinPlans, Earlier;
    forall w: Word ensures Eval(PlanOf(n), x, start, Blank(start), w) == Eval(PlanOf(m), y, start, Blank(start), w) {
      TwinEval(x, PlanOf(n), y, PlanOf(m), start, Blank(start), w);
    }
    forall w: Word ensures Concludes(n, x, start, w) == Concludes(m, y, start, w) {}
    TwinPrice(x, PlanOf(n), y, PlanOf(m), start, Arrived(), Arrived());
    assert PriceOf(n, x, start) == PriceOf(m, y, start);
    if MatchesAt(n, x, start) {
      var w := SomeWord(n, x, start);
      if !MatchesAt(m, y, start) { NoWord(m, y, start, w); }
    }
    if MatchesAt(m, y, start) {
      var w := SomeWord(m, y, start);
      if !MatchesAt(n, x, start) { NoWord(n, x, start, w); }
    }
  }

  lemma SomeWord(n: Node, x: Subject, start: nat) returns (w: Word)
    requires start <= |x.s| && MatchesAt(n, x, start)
    ensures Concludes(n, x, start, w)
  {
    var j: nat :| Matches(n, x, start, j);
    w := MatchesEval(n, x, start, j, Blank(start));
  }

  lemma NoWord(n: Node, x: Subject, start: nat, v: Word)
    requires start <= |x.s| && !MatchesAt(n, x, start)
    ensures !Concludes(n, x, start, v)
  {
    if Concludes(n, x, start, v) { EvalMatches(n, x, start, Blank(start), v); }
  }

  // ---- case ----------------------------------------------------------------------------------

  /** A set of bytes that holds both cases of every letter it holds. */
  ghost predicate CaseClosed(c: set<Byte>) { forall a: Byte, b: Byte | a in c && SameLetter(a, b) :: b in c }

  /** `y` is `x` with the case of some letters changed. */
  ghost predicate Recased(x: Subject, y: Subject) {
    && y == x.(s := y.s) && |y.s| == |x.s| && (forall i | 0 <= i < |x.s| :: SameLetter(x.s[i], y.s[i]))
    && (forall k | 0 <= k < |x.classes| :: CaseClosed(x.classes[k]))
  }

  /** `m` is `n` with the case of some characters changed. */
  predicate SamePattern(n: Node, m: Node) {
    match n
    case Atom(t) => m.Atom? && SameTest(t, m.t)
    case Cat(a, b) => m.Cat? && SamePattern(a, m.a) && SamePattern(b, m.b)
    case Alt(a, b) => m.Alt? && SamePattern(a, m.a) && SamePattern(b, m.b)
    case Rep(a, min, max) => m.Rep? && min == m.min && max == m.max && SamePattern(a, m.a)
    case Group(a, g) => m.Group? && g == m.cap && SamePattern(a, m.a)
    case _ => m == n
  }

  predicate SameTest(t: Test, u: Test) {
    t == u || (t.Char? && u.Char? && 0 <= t.ch < 256 && 0 <= u.ch < 256 && SameLetter(t.ch, u.ch))
  }

  lemma CaseTests(x: Subject, t: Test, y: Subject, u: Test)
    requires x.icase && Recased(x, y) && SameTest(t, u)
    ensures TwinTests(x, t, y, u)
  {
    forall i: nat | i <= |x.s| ensures Passes(x, t, i) == Passes(y, u, i) {
      if t.Class? && i < |x.s| && t.cls < |x.classes| { assert CaseClosed(x.classes[t.cls]); }
    }
  }

  lemma {:induction false} CasePlans(x: Subject, n: Node, y: Subject, m: Node)
    requires x.icase && Recased(x, y) && SamePattern(n, m)
    ensures TwinPlans(x, PlanOf(n), y, PlanOf(m))
  {
    hide TwinTests, Recased;
    match n
    case Atom(t) => CaseTests(x, t, y, m.t);
    case Cat(a, b) => CasePlans(x, a, y, m.a); CasePlans(x, b, y, m.b);
    case Alt(a, b) => CasePlans(x, a, y, m.a); CasePlans(x, b, y, m.b);
    case Rep(a, min, max) =>
      CasePlans(x, a, y, m.a);
      TwinTimes(x, PlanOf(a), y, PlanOf(m.a), min);
      TwinMaybes(x, PlanOf(a), y, PlanOf(m.a), Upper(min, max) - min);
    case Group(a, _) => CasePlans(x, a, y, m.a);
    case _ =>
  }

  lemma {:induction false} TwinTimes(x: Subject, p: Plan, y: Subject, q: Plan, k: nat)
    requires TwinPlans(x, p, y, q)
    ensures TwinPlans(x, Times(p, k), y, Times(q, k))
  {
    if k > 0 { TwinTimes(x, p, y, q, k - 1); }
  }

  lemma {:induction false} TwinMaybes(x: Subject, p: Plan, y: Subject, q: Plan, k: nat)
    requires TwinPlans(x, p, y, q)
    ensures TwinPlans(x, Maybes(p, k), y, Maybes(q, k))
  {
    if k > 0 { TwinMaybes(x, p, y, q, k - 1); }
  }

  /** Without regard to case, a search sees the case neither of the subject nor
      of the pattern. */
  lemma CaseLaw(n: Node, x: Subject, m: Node, y: Subject, start: nat, end: nat, cap: Slots)
    requires x.icase && Recased(x, y) && SamePattern(n, m) && start <= |x.s|
    ensures Reachable(n, x, start) <==> Reachable(m, y, start)
    ensures Preferred(n, x, start, end, cap) <==> Preferred(m, y, start, end, cap)
  {
    CasePlans(x, n, y, m);
    TwinSearch(n, x, m, y, start, end, cap);
  }

  // ---- the mirror ------------------------------------------------------------------------------

  function Reversed(s: seq<Byte>): (r: seq<Byte>)
    ensures |r| == |s| && forall i | 0 <= i < |s| :: r[i] == s[|s| - 1 - i]
  {
    if s == [] then [] else [s[|s| - 1]] + Reversed(s[..|s| - 1])
  }

  /** The subject read from its end, where its end is its beginning. */
  function Mirrored(x: Subject): (y: Subject) { x.(s := Reversed(x.s), notbol := x.noteol, noteol := x.notbol) }

  function MirrorTest(t: Test): (u: Test) { if t.Bol? then Eol else if t.Eol? then Bol else t }

  /** The tree read from its end. */
  function Mirror(n: Node): (m: Node) {
    match n
    case Atom(t) => Atom(MirrorTest(t))
    case Cat(a, b) => Cat(Mirror(b), Mirror(a))
    case Alt(a, b) => Alt(Mirror(a), Mirror(b))
    case Rep(a, min, max) => Rep(Mirror(a), min, max)
    case Group(a, g) => Group(Mirror(a), g)
    case _ => n
  }

  /** A test that succeeds somewhere in `x` succeeds at the mirror image of the
      place in `y`. */
  ghost predicate Reflects(x: Subject, y: Subject) {
    && |y.s| == |x.s|
    && forall t: Test, i: nat | i + Width(t) <= |x.s| && Passes(x, t, i) ::
         Passes(y, MirrorTest(t), |x.s| - i - Width(t))
  }

  lemma MirroredReflects(x: Subject)
    ensures Reflects(x, Mirrored(x))
  {
    hide Reversed;
    var y, l := Mirrored(x), |x.s|;
    forall t: Test, i: nat | i + Width(t) <= |x.s| && Passes(x, t, i)
      ensures Passes(y, MirrorTest(t), l - i - Width(t))
    {
      if i < l { assert y.s[l - 1 - i] == x.s[i]; }
      if 0 < i { assert y.s[l - i] == x.s[i - 1]; }
    }
  }

  lemma AtomReflects(x: Subject, y: Subject, t: Test, i: nat, j: nat)
    requires Reflects(x, y) && i <= |x.s| && Matches(Atom(t), x, i, j)
    ensures Matches(Mirror(Atom(t)), y, |x.s| - j, |x.s| - i)
  {
    assert Passes(y, MirrorTest(t), |x.s| - i - Width(t));
  }

  lemma CatSplits(a: Node, b: Node, x: Subject, i: nat, j: nat) returns (m: nat)
    requires i <= |x.s| && Matches(Cat(a, b), x, i, j)
    ensures i <= m <= j && Matches(a, x, i, m) && Matches(b, x, m, j)
  {
    m :| m <= |x.s| && Matches(a, x, i, m) && Matches(b, x, m, j);
  }

  lemma CatMatches(a: Node, b: Node, x: Subject, i: nat, m: nat, j: nat)
    requires i <= m <= |x.s| && Matches(a, x, i, m) && Matches(b, x, m, j)
    ensures Matches(Cat(a, b), x, i, j)
  {
  }

  lemma AltMatches(a: Node, b: Node, x: Subject, i: nat, j: nat)
    requires i <= |x.s|
    ensures Matches(Alt(a, b), x, i, j) <==> Matches(a, x, i, j) || Matches(b, x, i, j)
  {
  }

  lemma GroupMatches(a: Node, g: nat, x: Subject, i: nat, j: nat)
    requires i <= |x.s|
    ensures Matches(Group(a, g), x, i, j) <==> Matches(a, x, i, j)
  {
  }

  predicate InRange(k: nat, min: nat, max: int) { min <= k && (max < 0 || k <= Upper(min, max)) }

  lemma RepSplits(a: Node, min: nat, max: int, x: Subject, i: nat, j: nat) returns (k: nat)
    requires i <= |x.s| && Matches(Rep(a, min, max), x, i, j)
    ensures InRange(k, min, max) && Iterates(a, x, k, i, j)
  {
    k :| min <= k && (max < 0 || k <= Upper(min, max)) && Iterates(a, x, k, i, j);
  }

  lemma RepMatches(a: Node, min: nat, max: int, x: Subject, k: nat, i: nat, j: nat)
    requires i <= j <= |x.s| && InRange(k, min, max) && Iterates(a, x, k, i, j)
    ensures Matches(Rep(a, min, max), x, i, j)
  {
  }

  lemma LastRound(a: Node, x: Subject, k: nat, i: nat, j: nat) returns (m: nat)
    requires i <= |x.s| && Iterates(a, x, k + 1, i, j)
    ensures m <= |x.s| && Iterates(a, x, k, i, m) && Matches(a, x, m, j) && m <= j <= |x.s|
  {
    m :| m <= |x.s| && Iterates(a, x, k, i, m) && Matches(a, x, m, j);
  }

  lemma NoRound(a: Node, x: Subject, i: nat, j: nat)
    requires i <= |x.s|
    ensures Iterates(a, x, 0, i, j) <==> i == j
  {
  }

  lemma FirstRound(a: Node, x: Subject, k: nat, i: nat, m: nat, j: nat)
    requires i <= m <= |x.s| && Matches(a, x, i, m) && Iterates(a, x, k, m, j)
    ensures Iterates(a, x, k + 1, i, j)
  {
    assert Iterates(a, x, 0, i, i);
    assert Iterates(a, x, 1, i, m);
    IteratesConcat(a, x, 1, k, i, m, j);
  }

  lemma NothingReflects(n: Node, x: Subject, y: Subject, i: nat, j: nat)
    requires |x.s| == |y.s| && i <= |x.s| && (n.Null? || n.Empty?) && Matches(n, x, i, j)
    ensures Matches(Mirror(n), y, |x.s| - j, |x.s| - i)
  {
  }

  lemma {:induction false} MirrorMatch(n: Node, x: Subject, y: Subject, i: nat, j: nat)
    requires Reflects(x, y) && i <= j <= |x.s| == |y.s| && Matches(n, x, i, j)
    ensures Matches(Mirror(n), y, |x.s| - j, |x.s| - i)
    decreases n, 0, 0
  {
    hide Passes, Reflects, Matches, Iterates;
    var l := |x.s|;
    match n
    case Atom(t) => AtomReflects(x, y, t, i, j);
    case Cat(a, b) =>
      var m := CatSplits(a, b, x, i, j);
      MirrorMatch(a, x, y, i, m);
      MirrorMatch(b, x, y, m, j);
      CatMatches(Mirror(b), Mirror(a), y, l - j, l - m, l - i);
    case Alt(a, b) =>
      AltMatches(a, b, x, i, j);
      AltMatches(Mirror(a), Mirror(b), y, l - j, l - i);
      if Matches(a, x, i, j) { MirrorMatch(a, x, y, i, j); } else { MirrorMatch(b, x, y, i, j); }
    case Rep(a, min, max) =>
      var k := RepSplits(a, min, max, x, i, j);
      MirrorRounds(a, x, y, k, i, j);
      RepMatches(Mirror(a), min, max, y, k, l - j, l - i);
    case Group(a, g) =>
      GroupMatches(a, g, x, i, j);
      GroupMatches(Mirror(a), g, y, l - j, l - i);
      MirrorMatch(a, x, y, i, j);
    case _ => NothingReflects(n, x, y, i, j);
  }

  lemma {:induction false} MirrorRounds(a: Node, x: Subject, y: Subject, k: nat, i: nat, j: nat)
    requires Reflects(x, y) && i <= |x.s| == |y.s| && Iterates(a, x, k, i, j)
    ensures i <= j <= |x.s| && Iterates(Mirror(a), y, k, |x.s| - j, |x.s| - i)
    decreases a, 1, k
  {
    hide Passes, Reflects, Matches, Iterates, Mirror;
    if k == 0 {
      NoRound(a, x, i, j);
      NoRound(Mirror(a), y, |x.s| - j, |x.s| - i);
    } else {
      var m := LastRound(a, x, k - 1, i, j);
      MirrorRounds(a, x, y, k - 1, i, m);
      MirrorMatch(a, x, y, m, j);
      FirstRound(Mirror(a), y, k - 1, |x.s| - j, |x.s| - m, |x.s| - i);
    }
  }

  lemma {:induction false} MirrorTwice(n: Node)
    ensures Mirror(Mirror(n)) == n
  {
    match n
    case Cat(a, b) => MirrorTwice(a); MirrorTwice(b);
    case Alt(a, b) => MirrorTwice(a); MirrorTwice(b);
    case Rep(a, _, _) => MirrorTwice(a);
    case Group(a, _) => MirrorTwice(a);
    case _ =>
  }

  lemma MirroredTwice(x: Subject)
    ensures Mirrored(Mirrored(x)) == x
  {
    hide Reversed;
    assert Reversed(Reversed(x.s)) == x.s;
  }

  /** A tree matches a span exactly if its mirror image matches the mirror image
      of the span. */
  lemma MirrorLaw(n: Node, x: Subject, i: nat, j: nat)
    requires i <= j <= |x.s|
    ensures Matches(n, x, i, j) <==> Matches(Mirror(n), Mirrored(x), |x.s| - j, |x.s| - i)
  {
    hide Matches, Mirror, Reversed, Reflects;
    var y := Mirrored(x);
    MirrorTwice(n);
    MirroredTwice(x);
    MirroredReflects(x);
    MirroredReflects(y);
    if Matches(n, x, i, j) { MirrorMatch(n, x, y, i, j); }
    if Matches(Mirror(n), y, |x.s| - j, |x.s| - i) { MirrorMatch(Mirror(n), y, x, |x.s| - j, |x.s| - i); }
  }

  // ---- line by line -----------------------------------------------------------------------------

  /** What is left from `p` on, as a subject of its own. */
  function Rest(x: Subject, p: nat): (y: Subject)
    requires p <= |x.s|
  {
    x.(s := x.s[p..], notbol := false)
  }

  ghost predicate LineBegins(x: Subject, p: nat) { x.newline && 0 < p <= |x.s| && x.s[p - 1] == 10 }

  /** No test tells what follows `p` in `x` from what follows `q` in `y`. */
  ghost predicate Aligned(x: Subject, p: nat, y: Subject, q: nat) {
    && p <= |x.s| && q <= |y.s| && |x.s| - p == |y.s| - q
    && forall t: Test, i: nat | p <= i <= |x.s| :: Passes(x, t, i) == Passes(y, t, i - p + q)
  }

  lemma AlignedBack(x: Subject, p: nat, y: Subject, q: nat)
    requires Aligned(x, p, y, q)
    ensures Aligned(y, q, x, p)
  {
    forall t: Test, i: nat | q <= i <= |y.s| ensures Passes(y, t, i) == Passes(x, t, i - q + p) {
      var h: nat := i - q + p;
      assert Passes(x, t, h) == Passes(y, t, h - p + q);
    }
  }

  lemma {:induction false} AlignedMatch(n: Node, x: Subject, p: nat, y: Subject, q: nat, i: nat, j: nat)
    requires Aligned(x, p, y, q) && p <= i <= |x.s| && Matches(n, x, i, j)
    ensures Matches(n, y, i - p + q, j - p + q)
    decreases n, 0, 0
  {
    hide Passes;
    match n
    case Atom(t) => assert Passes(x, t, i) == Passes(y, t, i - p + q);
    case Cat(a, b) =>
      var m: nat :| m <= |x.s| && Matches(a, x, i, m) && Matches(b, x, m, j);
      AlignedMatch(a, x, p, y, q, i, m);
      AlignedMatch(b, x, p, y, q, m, j);
    case Alt(a, b) =>
      if Matches(a, x, i, j) { AlignedMatch(a, x, p, y, q, i, j); } else { AlignedMatch(b, x, p, y, q, i, j); }
    case Rep(a, min, max) =>
      var k: nat :| min <= k && (max < 0 || k <= Upper(min, max)) && Iterates(a, x, k, i, j);
      AlignedRounds(a, x, p, y, q, k, i, j);
    case Group(a, _) => AlignedMatch(a, x, p, y, q, i, j);
    case _ =>
  }

  lemma {:induction false} AlignedRounds(a: Node, x: Subject, p: nat, y: Subject, q: nat, k: nat, i: nat, j: nat)
    requires Aligned(x, p, y, q) && p <= i <= |x.s| && Iterates(a, x, k, i, j)
    ensures i <= j <= |x.s| && Iterates(a, y, k, i - p + q, j - p + q)
    decreases a, 1, k
  {
    hide Passes;
    if k > 0 {
      var m: nat :| m <= |x.s| && Iterates(a, x, k - 1, i, m) && Matches(a, x, m, j);
      AlignedRounds(a, x, p, y, q, k - 1, i, m);
      AlignedMatch(a, x, p, y, q, m, j);
    }
  }

  /** When lines are told apart, the place after a newline is a beginning: from
      there on everything matches as in the rest alone. */
  lemma LineLaw(n: Node, x: Subject, p: nat, i: nat, j: nat)
    requires LineBegins(x, p) && p <= i <= |x.s| && p <= j
    ensures Matches(n, x, i, j) <==> Matches(n, Rest(x, p), i - p, j - p)
  {
    hide Matches;
    var y := Rest(x, p);
    assert Aligned(x, p, y, 0);
    AlignedBack(x, p, y, 0);
    if Matches(n, x, i, j) { AlignedMatch(n, x, p, y, 0, i, j); }
    if Matches(n, y, i - p, j - p) { AlignedMatch(n, y, 0, x, p, i - p, j - p); }
  }

  // ---- preference -----------------------------------------------------------------------------

  /** An alternation prefers its left side wherever that matches at all. */
  lemma LeftFirst(a: Node, b: Node, x: Subject, start: nat, end: nat, cap: Slots)
    requires start <= |x.s|
    ensures Preferred(Alt(a, b), x, start, end, cap) <==>
              if MatchesAt(a, x, start) then Preferred(a, x, start, end, cap) else Preferred(b, x, start, end, cap)
  {
    if MatchesAt(a, x, start) {
      var w := SomeWord(a, x, start);
      LeftTaken(a, b, x, start, end, cap, w);
    } else {
      forall v: Word ensures !Concludes(a, x, start, v) { NoWord(a, x, start, v); }
      RightTaken(a, b, x, start, end, cap);
    }
  }

  lemma AltWords(a: Node, b: Node, x: Subject, start: nat, u: Word)
    requires start <= |x.s|
    ensures Eval(PlanOf(Alt(a, b)), x, start, Blank(start), [true] + u) == Eval(PlanOf(a), x, start, Blank(start), u)
    ensures Eval(PlanOf(Alt(a, b)), x, start, Blank(start), [false] + u) == Eval(PlanOf(b), x, start, Blank(start), u)
  {
    assert ([true] + u)[1..] == u && ([false] + u)[1..] == u;
  }

  lemma AltWordless(a: Node, b: Node, x: Subject, start: nat)
    requires start <= |x.s|
    ensures !Concludes(Alt(a, b), x, start, [])
  {
  }

  lemma LeftTaken(a: Node, b: Node, x: Subject, start: nat, end: nat, cap: Slots, some: Word)
    requires start <= |x.s| && Concludes(a, x, start, some)
    ensures Preferred(Alt(a, b), x, start, end, cap) <==> Preferred(a, x, start, end, cap)
  {
    hide Eval, PlanOf, Blank;
    var n := Alt(a, b);
    if Preferred(a, x, start, end, cap) {
      var w :| Eval(PlanOf(a), x, start, Blank(start), w) == Done(end, cap, [])
               && forall v: Word | Concludes(a, x, start, v) :: Earlier(w, v);
      AltWords(a, b, x, start, w);
      forall v: Word | Concludes(n, x, start, v) ensures Earlier([true] + w, v) {
        AltWordless(a, b, x, start);
        if v[0] {
          AltWords(a, b, x, start, v[1..]);
          assert v == [true] + v[1..] && Concludes(a, x, start, v[1..]);
          assert ([true] + w)[1..] == w;
        }
      }
    }
    if Preferred(n, x, start, end, cap) {
      var w :| Eval(PlanOf(n), x, start, Blank(start), w) == Done(end, cap, [])
               && forall v: Word | Concludes(n, x, start, v) :: Earlier(w, v);
      AltWordless(a, b, x, start);
      assert Concludes(n, x, start, w);
      AltWords(a, b, x, start, some);
      assert Concludes(n, x, start, [true] + some) && Earlier(w, [true] + some);
      assert w[0] && w == [true] + w[1..];
      AltWords(a, b, x, start, w[1..]);
      forall v: Word | Concludes(a, x, start, v) ensures Earlier(w[1..], v) {
        AltWords(a, b, x, start, v);
        assert Earlier(w, [true] + v) && ([true] + v)[1..] == v;
      }
    }
  }

  lemma RightTaken(a: Node, b: Node, x: Subject, start: nat, end: nat, cap: Slots)
    requires start <= |x.s| && forall v: Word :: !Concludes(a, x, start, v)
    ensures Preferred(Alt(a, b), x, start, end, cap) <==> Preferred(b, x, start, end, cap)
  {
    hide Eval, PlanOf, Blank;
    var n := Alt(a, b);
    if Preferred(b, x, start, end, cap) {
      var w :| Eval(PlanOf(b), x, start, Blank(start), w) == Done(end, cap, [])
               && forall v: Word | Concludes(b, x, start, v) :: Earlier(w, v);
      AltWords(a, b, x, start, w);
      forall v: Word | Concludes(n, x, start, v) ensures Earlier([false] + w, v) {
        AltWordless(a, b, x, start);
        assert v == [v[0]] + v[1..];
        AltWords(a, b, x, start, v[1..]);
        assert !v[0] by { assert !Concludes(a, x, start, v[1..]); }
        assert Concludes(b, x, start, v[1..]) && ([false] + w)[1..] == w;
      }
    }
    if Preferred(n, x, start, end, cap) {
      var w :| Eval(PlanOf(n), x, start, Blank(start), w) == Done(end, cap, [])
               && forall v: Word | Concludes(n, x, start, v) :: Earlier(w, v);
      AltWordless(a, b, x, start);
      assert Concludes(n, x, start, w);
      assert w == [w[0]] + w[1..];
      AltWords(a, b, x, start, w[1..]);
      assert !w[0] by { assert !Concludes(a, x, start, w[1..]); }
      forall v: Word | Concludes(b, x, start, v) ensures Earlier(w[1..], v) {
        AltWords(a, b, x, start, v);
        assert Earlier(w, [false] + v) && ([false] + v)[1..] == v;
      }
    }
  }

  /** A repeated one-byte test takes all it can. */
  lemma LongestRun(t: Test, x: Subject, start: nat, end: nat, cap: Slots)
    requires start <= |x.s| && Width(t) == 1 && Preferred(Rep(Atom(t), 0, -1), x, start, end, cap)
    ensures start <= end <= |x.s| && TakesAll(t, x, start, end) && !Takes(t, x, end)
  {
    hide Earlier, Matches;
    var n := Rep(Atom(t), 0, -1);
    var w: Word :| Eval(PlanOf(n), x, start, Blank(start), w) == Done(end, cap, [])
                   && forall v: Word | Concludes(n, x, start, v) :: Earlier(w, v);
    assert PlanOf(n) == Then(Skip, Star(Check(t)));
    EvalMatches(n, x, start, Blank(start), w);
    RunMeans(t, 0, -1, x, start, end);
    if Takes(t, x, end) {
      var v := Trues(end - start + 1) + [false];
      StarWord(t, x, start, Blank(start), w);
      StarRun(t, x, start, Blank(start), end - start + 1);
      SkipFirst(Star(Check(t)), x, start, Blank(start), v);
      assert Concludes(n, x, start, v);
      TruesLater(end - start);
    }
  }

  lemma SkipFirst(p: Plan, x: Subject, i: nat, cap: Slots, w: Word)
    requires i <= |x.s|
    ensures Eval(Then(Skip, p), x, i, cap, w) == Eval(p, x, i, cap, w)
  {
  }

  /** So many rounds. */
  function Trues(k: nat): (w: Word)
    ensures |w| == k
  {
    if k == 0 then [] else [true] + Trues(k - 1)
  }

  lemma {:induction false} StarWord(t: Test, x: Subject, i: nat, cap: Slots, w: Word)
    requires i <= |x.s| && Width(t) == 1
    requires var r := Eval(Star(Check(t)), x, i, cap, w); r.Done? && r.rest == []
    ensures var r := Eval(Star(Check(t)), x, i, cap, w); i <= r.pos && w == Trues(r.pos - i) + [false]
    decreases |w|
  {
    if w[0] {
      StarWord(t, x, i + 1, cap, w[1..]);
      assert w == [true] + w[1..];
    } else {
      assert w == [false];
    }
  }

  lemma {:induction false} StarRun(t: Test, x: Subject, i: nat, cap: Slots, k: nat)
    requires i + k <= |x.s| && Width(t) == 1 && TakesAll(t, x, i, i + k)
    ensures Eval(Star(Check(t)), x, i, cap, Trues(k) + [false]) == Done(i + k, cap, [])
    decreases k
  {
    if k > 0 {
      assert Takes(t, x, i);
      StarRun(t, x, i + 1, cap, k - 1);
      assert (Trues(k) + [false])[1..] == Trues(k - 1) + [false];
    }
  }

  lemma {:induction false} TruesLater(k: nat)
    ensures !Earlier(Trues(k) + [false], Trues(k + 1) + [false])
  {
    var w, v := Trues(k) + [false], Trues(k + 1) + [false];
    if k > 0 {
      TruesLater(k - 1);
      assert w[1..] == Trues(k - 1) + [false] && v[1..] == Trues(k) + [false];
    }
  }

  // ---- which groups are set -------------------------------------------------------------------

  /** Every way through `n` passes group `g`. */
  ghost predicate Always(n: Node, g: nat) {
    match n
    case Cat(a, b) => Always(a, g) || Always(b, g)
    case Alt(a, b) => Always(a, g) && Always(b, g)
    case Rep(a, min, _) => 0 < min && Always(a, g)
    case Group(a, h) => g == h || Always(a, g)
    case _ => false
  }

  /** Group `g` has a beginning and an end. */
  predicate IsSet(cap: Slots, g: nat) { 2 * g + 1 < |cap| && 0 <= cap[2 * g] && 0 <= cap[2 * g + 1] }

  /** What was written is not unwritten. */
  lemma {:induction false} StaysWritten(p: Plan, x: Subject, i: nat, cap: Slots, w: Word, slot: nat)
    requires i <= |x.s| && slot < |cap| && 0 <= cap[slot] && Eval(p, x, i, cap, w).Done?
    ensures 0 <= Eval(p, x, i, cap, w).cap[slot]
    decreases p, |w|
  {
    match p
    case Then(a, b) =>
      StaysWritten(a, x, i, cap, w, slot);
      var r := Eval(a, x, i, cap, w);
      StaysWritten(b, x, r.pos, r.cap, r.rest, slot);
    case Either(a, b) => StaysWritten(if w[0] then a else b, x, i, cap, w[1..], slot);
    case Maybe(a) => if w[0] { StaysWritten(a, x, i, cap, w[1..], slot); }
    case Star(a) =>
      if w[0] {
        StaysWritten(a, x, i, cap, w[1..], slot);
        var r := Eval(a, x, i, cap, w[1..]);
        StaysWritten(p, x, r.pos, r.cap, r.rest, slot);
      }
    case Bracket(a, h) => StaysWritten(a, x, i, Save(cap, 2 * h, i), w, slot);
    case _ =>
  }

  lemma StaysSet(p: Plan, x: Subject, i: nat, cap: Slots, w: Word, g: nat)
    requires i <= |x.s| && IsSet(cap, g) && Eval(p, x, i, cap, w).Done?
    ensures IsSet(Eval(p, x, i, cap, w).cap, g)
  {
    hide Eval;
    StaysWritten(p, x, i, cap, w, 2 * g);
    StaysWritten(p, x, i, cap, w, 2 * g + 1);
  }

  lemma {:induction false} AlwaysSet(n: Node, x: Subject, i: nat, cap: Slots, w: Word, g: nat)
    requires i <= |x.s| && 2 * g + 1 < |cap| && Always(n, g) && Eval(PlanOf(n), x, i, cap, w).Done?
    ensures IsSet(Eval(PlanOf(n), x, i, cap, w).cap, g)
    decreases n
  {
    match n
    case Cat(a, b) =>
      var r := Eval(PlanOf(a), x, i, cap, w);
      if Always(b, g) {
        AlwaysSet(b, x, r.pos, r.cap, r.rest, g);
      } else {
        AlwaysSet(a, x, i, cap, w, g);
        StaysSet(PlanOf(b), x, r.pos, r.cap, r.rest, g);
      }
    case Alt(a, b) => AlwaysSet(if w[0] then a else b, x, i, cap, w[1..], g);
    case Rep(a, min, max) =>
      var r := Eval(Times(PlanOf(a), min - 1), x, i, cap, w);
      AlwaysSet(a, x, r.pos, r.cap, r.rest, g);
      var q := Eval(PlanOf(a), x, r.pos, r.cap, r.rest);
      var more := if max < 0 then Star(PlanOf(a)) else Maybes(PlanOf(a), Upper(min, max) - min);
      StaysSet(more, x, q.pos, q.cap, q.rest, g);
    case Group(a, h) =>
      if g == h {
        GroupSets(a, x, i, cap, w, g);
      } else {
        AlwaysSet(a, x, i, Save(cap, 2 * h, i), w, g);
      }
    case _ =>
  }

  lemma GroupSets(a: Node, x: Subject, i: nat, cap: Slots, w: Word, g: nat)
    requires i <= |x.s| && 2 * g + 1 < |cap| && Eval(PlanOf(Group(a, g)), x, i, cap, w).Done?
    ensures IsSet(Eval(PlanOf(Group(a, g)), x, i, cap, w).cap, g)
  {
    StaysWritten(PlanOf(a), x, i, Save(cap, 2 * g, i), w, 2 * g);
  }

  /** A group holds the span that it matched last. */
  lemma GroupHolds(a: Node, x: Subject, i: nat, cap: Slots, w: Word, g: nat)
    requires i <= |x.s| && 2 * g + 1 < |cap| && DistinctGroups(Group(a, g))
    requires Eval(PlanOf(Group(a, g)), x, i, cap, w).Done?
    ensures var r := Eval(PlanOf(Group(a, g)), x, i, cap, w); r.cap[2 * g] == i && r.cap[2 * g + 1] == r.pos
  {
    EvalDisciplined(a, x, i, Save(cap, 2 * g, i), w, g);
  }

  /** A group that every way through the pattern passes is reported. */
  lemma AlwaysReported(n: Node, x: Subject, start: nat, end: nat, cap: Slots, g: nat)
    requires start <= |x.s| && Preferred(n, x, start, end, cap) && Always(n, g) && g <= MAX_SUB
    ensures IsSet(cap, g)
  {
    var w: Word :| Eval(PlanOf(n), x, start, Blank(start), w) == Done(end, cap, []);
    AlwaysSet(n, x, start, Blank(start), w, g);
  }
}
