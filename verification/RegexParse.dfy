/** From a pattern to the AST: the shape of the tree and the numbering of its
    groups. */
module RegexParse {
  import opened Bytes
  import opened Wrappers
  import opened RegexSyntax
  import opened RegexCaptures
  import opened RegexCode
  import opened RegexCompile

  datatype Error = Ok | EParen | ESpace | EBrack | BadBr | BadPat

  /** What lexing an interval at a brace comes to. */
  datatype Brace = Literal | Malformed | Interval(next: nat, min: nat, max: int)

  const BACKSLASH := 92
  const LPAREN := 40
  const RPAREN := 41
  const STAR := 42
  const PLUS := 43
  const DOT := 46
  const QUESTION := 63
  const LBRACKET := 91
  const CARET := 94
  const LBRACE := 123
  const BAR := 124
  const DOLLAR := 36

  // ---- what the parser builds --------------------------------------------------------------------

  function GroupCount(n: Node): (k: nat) {
    match n
    case Cat(a, b) => GroupCount(a) + GroupCount(b)
    case Alt(a, b) => GroupCount(a) + GroupCount(b)
    case Rep(a, _, _) => GroupCount(a)
    case Group(a, _) => GroupCount(a) + 1
    case _ => 0
  }

  /** Groups are numbered from `m + 1` in the order in which they close. */
  predicate Numbered(n: Node, m: nat) {
    match n
    case Cat(a, b) => Numbered(a, m) && Numbered(b, m + GroupCount(a))
    case Alt(a, b) => Numbered(a, m) && Numbered(b, m + GroupCount(a))
    case Rep(a, _, _) => Numbered(a, m)
    case Group(a, g) => Numbered(a, m) && g == m + GroupCount(a) + 1
    case _ => true
  }

  /** A null child stands only for an empty alternative or an empty group. */
  predicate NullsOnlyInBranches(n: Node) {
    match n
    case Cat(a, b) => !a.Null? && !b.Null? && NullsOnlyInBranches(a) && NullsOnlyInBranches(b)
    case Alt(a, b) => NullsOnlyInBranches(a) && NullsOnlyInBranches(b)
    case Rep(a, _, _) => !a.Null? && NullsOnlyInBranches(a)
    case Group(a, _) => NullsOnlyInBranches(a)
    case _ => true
  }

  predicate NoEmpty(n: Node) {
    match n
    case Empty => false
    case Cat(a, b) => NoEmpty(a) && NoEmpty(b)
    case Alt(a, b) => NoEmpty(a) && NoEmpty(b)
    case Rep(a, _, _) => NoEmpty(a)
    case Group(a, _) => NoEmpty(a)
    case _ => true
  }

  /** Repetition binds closest, then concatenation, then alternation, both to
      the left. */
  predicate Precedence(n: Node) {
    match n
    case Cat(a, b) => !a.Alt? && !b.Alt? && !b.Cat? && Precedence(a) && Precedence(b)
    case Alt(a, b) => !b.Alt? && Precedence(a) && Precedence(b)
    case Rep(a, _, _) => !a.Alt? && !a.Cat? && Precedence(a)
    case Group(a, _) => Precedence(a)
    case _ => true
  }

  function ClassCount(n: Node): (k: nat) {
    match n
    case Atom(t) => if t.Class? then 1 else 0
    case Cat(a, b) => ClassCount(a) + ClassCount(b)
    case Alt(a, b) => ClassCount(a) + ClassCount(b)
    case Rep(a, _, _) => ClassCount(a)
    case Group(a, _) => ClassCount(a)
    case _ => 0
  }

  /** Bracket expressions are indexed from `c` in the order they occur. */
  predicate Classed(n: Node, c: nat) {
    match n
    case Atom(t) => t.Class? ==> t.cls == c
    case Cat(a, b) => Classed(a, c) && Classed(b, c + ClassCount(a))
    case Alt(a, b) => Classed(a, c) && Classed(b, c + ClassCount(a))
    case Rep(a, _, _) => Classed(a, c)
    case Group(a, _) => Classed(a, c)
    case _ => true
  }

  /** All of it: the tree built while the counters went from (m, c) to (k, d). */
  ghost predicate Built(n: Node, m: nat, k: nat, c: nat, d: nat) {
    && Numbered(n, m) && k == m + GroupCount(n) && Classed(n, c) && d == c + ClassCount(n) && NullsOnlyInBranches(n)
    && Precedence(n)
  }

  /** How many nodes have to be allocated for a tree. */
  function Nodes(n: Node): (k: nat) {
    match n
    case Null => 0
    case Cat(a, b) => Nodes(a) + Nodes(b) + 1
    case Alt(a, b) => Nodes(a) + Nodes(b) + 1
    case Rep(a, _, _) => Nodes(a) + 1
    case Group(a, _) => Nodes(a) + 1
    case _ => 1
  }

  /** A tree the parser can build from counters at (m, c) with `g` nodes to be
      had. */
  ghost predicate Fits(n: Node, m: nat, c: nat, g: nat) {
    && Numbered(n, m) && Classed(n, c) && Precedence(n) && NullsOnlyInBranches(n) && NoEmpty(n)
    && m + GroupCount(n) <= MAX_SUB && Nodes(n) <= g
  }

  lemma {:induction false} FitsCat(a: Node, b: Node, m: nat, c: nat, g: nat)
    requires Fits(Cat(a, b), m, c, g)
    ensures Nodes(a) + Nodes(b) < g && Fits(b, m + GroupCount(a), c + ClassCount(a), g - Nodes(a))
    ensures !b.Null? && !b.Cat? && !b.Alt?
  {
  }

  lemma {:induction false} FitsAlt(a: Node, b: Node, m: nat, c: nat, g: nat)
    requires Fits(Alt(a, b), m, c, g)
    ensures Nodes(a) + Nodes(b) < g && Fits(b, m + GroupCount(a), c + ClassCount(a), g - Nodes(a)) && !b.Alt?
  {
  }

  /** A tree the text is known to spell up to `end`, if there is one. */
  datatype Goal = Open | Tree(n: Node, end: nat)

  lemma {:induction false} BuiltAlt(a: Node, b: Node, m: nat, k: nat, l: nat, c: nat, d: nat, e: nat)
    requires Built(a, m, k, c, d) && Built(b, k, l, d, e) && !b.Alt?
    ensures Built(Alt(a, b), m, l, c, e)
  {
  }

  lemma {:induction false} BuiltCat(a: Node, b: Node, m: nat, k: nat, l: nat, c: nat, d: nat, e: nat)
    requires Built(a, m, k, c, d) && Built(b, k, l, d, e)
    requires !a.Alt? && !a.Null? && !b.Alt? && !b.Null? && !b.Cat?
    ensures Built(Cat(a, b), m, l, c, e)
  {
  }

  lemma {:induction false} BuiltRep(a: Node, min: nat, max: int, m: nat, k: nat, c: nat, d: nat)
    requires Built(a, m, k, c, d) && !a.Null? && !a.Alt? && !a.Cat?
    ensures Built(Rep(a, min, max), m, k, c, d)
  {
  }

  lemma {:induction false} BuiltGroup(a: Node, m: nat, k: nat, c: nat, d: nat)
    requires 0 < k && Built(a, m, k - 1, c, d)
    ensures Built(Group(a, k), m, k, c, d)
  {
  }

  lemma {:induction false} BuiltCounts(n: Node, m: nat, k: nat, c: nat, d: nat)
    requires Built(n, m, k, c, d)
    ensures k == m + GroupCount(n) && d == c + ClassCount(n)
  {
  }

  /** Nothing has been built and no counter moved. */
  lemma {:induction false} BuiltNull(m: nat, k: nat, c: nat, d: nat)
    ensures Built(Null, m, k, c, d) <==> m == k && c == d
  {
  }

  /** The numbers of a tree so numbered: an interval, none twice. */
  lemma {:induction false} NumberedGroups(n: Node, m: nat)
    requires Numbered(n, m)
    ensures DistinctGroups(n) && forall g :: g in Groups(n) <==> m < g <= m + GroupCount(n)
  {
    match n
    case Cat(a, b) => NumberedGroups(a, m); NumberedGroups(b, m + GroupCount(a));
    case Alt(a, b) => NumberedGroups(a, m); NumberedGroups(b, m + GroupCount(a));
    case Rep(a, _, _) => NumberedGroups(a, m);
    case Group(a, _) => NumberedGroups(a, m);
    case _ =>
  }

  lemma {:induction false} NumberedBelow(n: Node, m: nat, bound: nat)
    requires Numbered(n, m) && m + GroupCount(n) < bound
    ensures GroupsBelow(n, bound)
  {
    match n
    case Cat(a, b) => NumberedBelow(a, m, bound); NumberedBelow(b, m + GroupCount(a), bound);
    case Alt(a, b) => NumberedBelow(a, m, bound); NumberedBelow(b, m + GroupCount(a), bound);
    case Rep(a, _, _) => NumberedBelow(a, m, bound);
    case Group(a, _) => NumberedBelow(a, m, bound);
    case _ =>
  }

  // ---- the parser ----------------------------------------------------------------------------------

  class Parser {
    const pat: seq<Byte>
    const extended: bool
    const icase: bool
    /** Where a bracket expression that begins after '[' at a position ends, and
        the interval that begins at one. */
    const classEnd: nat -> Option<nat>
    const brace: nat -> Brace
    var pos: nat
    var err: Error
    var nsub: nat
    var nclasses: nat
    /** How many more nodes can be allocated, and whether an unchecked
        allocation has failed. */
    var grant: nat
    ghost var starved: bool

    /** The two lexers move forward and stay inside the pattern. */
    ghost predicate Lexing() {
      && (forall i: nat :: classEnd(i).Some? ==> i < classEnd(i).value <= |pat|)
      && (forall i: nat :: brace(i).Interval? ==> i < brace(i).next <= |pat|)
    }

    ghost predicate Valid()
      reads this
    {
      Lexing() && 0 !in pat && pos <= |pat| && nsub <= MAX_SUB
    }

    constructor (pat: seq<Byte>, extended: bool, icase: bool, classEnd: nat -> Option<nat>, brace: nat -> Brace,
                 grant: nat)
      requires 0 !in pat && forall i: nat :: classEnd(i).Some? ==> i < classEnd(i).value <= |pat|
      requires forall i: nat :: brace(i).Interval? ==> i < brace(i).next <= |pat|
      ensures Valid() && this.pat == pat && pos == 0 && nsub == 0 && nclasses == 0 && err == Ok && !starved
    {
      this.pat, this.extended, this.icase, this.classEnd := pat, extended, icase, classEnd;
      this.brace, this.grant := brace, grant;
      pos, err, nsub, nclasses, starved := 0, Ok, 0, 0, false;
    }

    // ---- the text of a tree ----

    /** The byte at a position, 0 at the end. */
    function At(i: nat): (c: int) { if i < |pat| then pat[i] else 0 }

    /** How wide a special character is: bare in extended syntax, escaped in
        basic. */
    function Mark(): (w: nat) { if extended then 1 else 2 }

    predicate Special(i: nat, c: int) { if extended then At(i) == c else At(i) == BACKSLASH && At(i + 1) == c }

    /** Nothing with a meaning of its own begins here. A repetition operator
        with nothing to repeat is ordinary too. */
    predicate Ordinary(i: nat) {
      && !Special(i, LPAREN) && !Special(i, RPAREN) && !Special(i, BAR)
      && At(i) != LBRACKET && At(i) != DOT && At(i) != CARET && At(i) != DOLLAR
    }

    /** The text from `i` to `j` is one character, escaped if a backslash and
        another byte stand here. */
    predicate SpellsChar(i: nat, j: nat, ch: int) {
      && i < |pat| && Ordinary(i)
      && if pat[i] == BACKSLASH && i + 1 < |pat| then j == i + 2 && ch == Fold(pat[i + 1])
         else j == i + 1 && ch == Fold(pat[i])
    }

    function Fold(c: int): (r: int) { if icase then ToLower(c) else c }

    predicate SpellsTest(t: Test, i: nat, j: nat) {
      match t
      case Char(ch) => SpellsChar(i, j, ch)
      case Any => At(i) == DOT && j == i + 1
      case Class(_) => At(i) == LBRACKET && classEnd(i + 1) == Some(j)
      case Bol => At(i) == CARET && j == i + 1
      case Eol => At(i) == DOLLAR && j == i + 1
    }

    predicate SpellsSuffix(i: nat, j: nat, min: nat, max: int) {
      || (At(i) == STAR && j == i + 1 && min == 0 && max == -1)
      || (Special(i, PLUS) && j == i + Mark() && min == 1 && max == -1)
      || (Special(i, QUESTION) && j == i + Mark() && min == 0 && max == 1)
      || (Special(i, LBRACE) && brace(i) == Interval(j, min, max))
    }

    predicate SuffixAt(i: nat) {
      At(i) == STAR || Special(i, PLUS) || Special(i, QUESTION) || (Special(i, LBRACE) && !brace(i).Literal?)
    }

    /** The text from `i` to `j` is that of the tree: its parts in order, with
        nothing between them but the operators, each operator taken by what it
        follows. */
    ghost predicate Spells(n: Node, i: nat, j: nat) {
      match n
      case Null => i == j
      case Empty => i == j
      case Atom(t) => SpellsTest(t, i, j)
      case Cat(a, b) => exists k: nat :: Spells(a, i, k) && !SuffixAt(k) && Spells(b, k, j)
      case Alt(a, b) => exists k: nat :: Spells(a, i, k) && Special(k, BAR) && Spells(b, k + Mark(), j)
      case Rep(a, min, max) => exists k: nat :: Spells(a, i, k) && SpellsSuffix(k, j, min, max)
      case Group(a, _) =>
        exists k: nat :: Special(i, LPAREN) && Spells(a, i + Mark(), k) && Special(k, RPAREN) && j == k + Mark()
    }

    lemma {:induction false} SpellsAlt(a: Node, b: Node, i: nat, k: nat, j: nat)
      requires Spells(a, i, k) && Special(k, BAR) && Spells(b, k + Mark(), j)
      ensures Spells(Alt(a, b), i, j)
    {
    }

    lemma {:induction false} SpellsCat(a: Node, b: Node, i: nat, k: nat, j: nat)
      requires Spells(a, i, k) && !SuffixAt(k) && Spells(b, k, j)
      ensures Spells(Cat(a, b), i, j)
    {
    }

    lemma {:induction false} SpellsNull(i: nat, j: nat)
      ensures Spells(Null, i, j) <==> i == j
    {
    }

    /** A letter and an operator, as text: `a*`, `a+`, `a?` in extended syntax. */
    lemma OperatorText(op: Byte)
      requires extended && !icase && pat == [97, op]
      ensures op == 42 ==> Spells(Rep(Atom(Char(97)), 0, -1), 0, 2)
      ensures op == 43 ==> Spells(Rep(Atom(Char(97)), 1, -1), 0, 2)
      ensures op == 63 ==> Spells(Rep(Atom(Char(97)), 0, 1), 0, 2)
    {
      assert Spells(Atom(Char(97)), 0, 1);
    }

    /** The same in basic syntax, where the last two are escaped. */
    lemma BasicOperatorText(op: Byte)
      requires !extended && !icase && pat == [97, 92, op]
      ensures op == 43 ==> Spells(Rep(Atom(Char(97)), 1, -1), 0, 3)
      ensures op == 63 ==> Spells(Rep(Atom(Char(97)), 0, 1), 0, 3)
    {
      assert Spells(Atom(Char(97)), 0, 1);
    }

    /** `.`, `^` and `$`. */
    lemma TestText()
      requires |pat| == 1
      ensures pat[0] == 46 ==> Spells(Atom(Any), 0, 1)
      ensures pat[0] == 94 ==> Spells(Atom(Bol), 0, 1)
      ensures pat[0] == 36 ==> Spells(Atom(Eol), 0, 1)
    {
    }

    /** `a|b` and `(a)` in extended syntax, `\|` and `\(a\)` in basic. */
    lemma GroupText()
      requires !icase
      ensures extended && pat == [97, 124, 98] ==> Spells(Alt(Atom(Char(97)), Atom(Char(98))), 0, 3)
      ensures extended && pat == [40, 97, 41] ==> Spells(Group(Atom(Char(97)), 1), 0, 3)
      ensures !extended && pat == [97, 92, 124, 98] ==> Spells(Alt(Atom(Char(97)), Atom(Char(98))), 0, 4)
      ensures !extended && pat == [92, 40, 97, 92, 41] ==> Spells(Group(Atom(Char(97)), 1), 0, 5)
    {
      if extended && pat == [97, 124, 98] { assert Spells(Atom(Char(97)), 0, 1) && Spells(Atom(Char(98)), 2, 3); }
      if extended && pat == [40, 97, 41] { assert Spells(Atom(Char(97)), 0 + Mark(), 2) && Special(2, RPAREN); }
      if !extended && pat == [97, 92, 124, 98] { assert Spells(Atom(Char(97)), 0, 1) && Spells(Atom(Char(98)), 3, 4); }
      if !extended && pat == [92, 40, 97, 92, 41] {
        assert Spells(Atom(Char(97)), 0 + Mark(), 3) && Special(3, RPAREN);
      }
    }

    // ---- a tree along its left edge ----

    /** The tree `t`, ending at `j`, is `n`, ending at `i`, with more repetitions. */
    ghost predicate RepFrom(n: Node, i: nat, t: Node, j: nat) {
      (n == t && i == j) || (t.Rep? && exists k: nat :: RepFrom(n, i, t.a, k) && SpellsSuffix(k, j, t.min, t.max))
    }

    ghost predicate CatFrom(n: Node, i: nat, t: Node, j: nat) {
      || (n == t && i == j)
      || (t.Cat? && exists k: nat :: CatFrom(n, i, t.a, k) && !SuffixAt(k) && Spells(t.b, k, j))
    }

    ghost predicate AltFrom(n: Node, i: nat, t: Node, j: nat) {
      || (n == t && i == j)
      || (t.Alt? && exists k: nat :: AltFrom(n, i, t.a, k) && Special(k, BAR) && Spells(t.b, k + Mark(), j))
    }

    lemma {:induction false} RepBase(t: Node, i: nat, j: nat) returns (a: Node, k: nat)
      requires Spells(t, i, j) && Precedence(t) && NullsOnlyInBranches(t) && NoEmpty(t)
      requires !t.Null? && !t.Cat? && !t.Alt?
      ensures (a.Atom? || a.Group?) && Spells(a, i, k) && RepFrom(a, k, t, j)
    {
      a, k := t, j;
      if t.Rep? {
        var h: nat :| Spells(t.a, i, h) && SpellsSuffix(h, j, t.min, t.max);
        a, k := RepBase(t.a, i, h);
      }
    }

    lemma {:induction false} CatBase(t: Node, i: nat, j: nat) returns (a: Node, k: nat)
      requires Spells(t, i, j) && Precedence(t) && NullsOnlyInBranches(t) && NoEmpty(t) && !t.Null? && !t.Alt?
      ensures !a.Null? && !a.Cat? && !a.Alt? && Spells(a, i, k) && CatFrom(a, k, t, j)
    {
      a, k := t, j;
      if t.Cat? {
        var h: nat :| Spells(t.a, i, h) && !SuffixAt(h) && Spells(t.b, h, j);
        a, k := CatBase(t.a, i, h);
      }
    }

    lemma {:induction false} AltBase(t: Node, i: nat, j: nat) returns (a: Node, k: nat)
      requires Spells(t, i, j)
      ensures !a.Alt? && Spells(a, i, k) && AltFrom(a, k, t, j)
    {
      a, k := t, j;
      if t.Alt? {
        var h: nat :| Spells(t.a, i, h) && Special(h, BAR) && Spells(t.b, h + Mark(), j);
        a, k := AltBase(t.a, i, h);
      }
    }

    /** What comes before fits if the whole does, and is the whole only at its
        end. */
    lemma {:induction false} RepPart(n: Node, i: nat, t: Node, j: nat, m: nat, c: nat, g: nat)
      requires RepFrom(n, i, t, j) && Fits(t, m, c, g)
      ensures Fits(n, m, c, g) && Nodes(n) <= Nodes(t) && (Nodes(n) == Nodes(t) ==> n == t && i == j)
      decreases t
    {
      if !(n == t && i == j) {
        var k: nat :| RepFrom(n, i, t.a, k) && SpellsSuffix(k, j, t.min, t.max);
        RepPart(n, i, t.a, k, m, c, g);
      }
    }

    lemma {:induction false} CatPart(n: Node, i: nat, t: Node, j: nat, m: nat, c: nat, g: nat)
      requires CatFrom(n, i, t, j) && Fits(t, m, c, g)
      ensures Fits(n, m, c, g) && Nodes(n) <= Nodes(t) && (Nodes(n) == Nodes(t) ==> n == t && i == j)
      decreases t
    {
      if !(n == t && i == j) {
        var k: nat :| CatFrom(n, i, t.a, k) && !SuffixAt(k) && Spells(t.b, k, j);
        CatPart(n, i, t.a, k, m, c, g);
      }
    }

    lemma {:induction false} AltPart(n: Node, i: nat, t: Node, j: nat, m: nat, c: nat, g: nat)
      requires AltFrom(n, i, t, j) && Fits(t, m, c, g)
      ensures Fits(n, m, c, g) && Nodes(n) <= Nodes(t) && (Nodes(n) == Nodes(t) ==> n == t && i == j)
      decreases t
    {
      if !(n == t && i == j) {
        var k: nat :| AltFrom(n, i, t.a, k) && Special(k, BAR) && Spells(t.b, k + Mark(), j);
        AltPart(n, i, t.a, k, m, c, g);
      }
    }

    /** Unless it is the whole, one more part follows. */
    lemma {:induction false} RepNext(n: Node, i: nat, t: Node, j: nat) returns (min: nat, max: int, k: nat)
      requires RepFrom(n, i, t, j) && n != t
      ensures SpellsSuffix(i, k, min, max) && RepFrom(Rep(n, min, max), k, t, j)
      decreases t
    {
      var h: nat :| RepFrom(n, i, t.a, h) && SpellsSuffix(h, j, t.min, t.max);
      if n == t.a && i == h {
        min, max, k := t.min, t.max, j;
      } else {
        RepOnce(n, i, t.a, h);
        min, max, k := RepNext(n, i, t.a, h);
      }
    }

    lemma {:induction false} CatNext(n: Node, i: nat, t: Node, j: nat) returns (b: Node, k: nat)
      requires CatFrom(n, i, t, j) && n != t
      ensures !SuffixAt(i) && Spells(b, i, k) && CatFrom(Cat(n, b), k, t, j)
      decreases t
    {
      var h: nat :| CatFrom(n, i, t.a, h) && !SuffixAt(h) && Spells(t.b, h, j);
      if n == t.a && i == h {
        b, k := t.b, j;
      } else {
        CatOnce(n, i, t.a, h);
        b, k := CatNext(n, i, t.a, h);
      }
    }

    lemma {:induction false} AltNext(n: Node, i: nat, t: Node, j: nat) returns (b: Node, k: nat)
      requires AltFrom(n, i, t, j) && n != t
      ensures Special(i, BAR) && Spells(b, i + Mark(), k) && AltFrom(Alt(n, b), k, t, j)
      decreases t
    {
      var h: nat :| AltFrom(n, i, t.a, h) && Special(h, BAR) && Spells(t.b, h + Mark(), j);
      if n == t.a && i == h {
        b, k := t.b, j;
      } else {
        AltOnce(n, i, t.a, h);
        b, k := AltNext(n, i, t.a, h);
      }
    }

    /** A tree is not a part of itself. */
    lemma {:induction false} RepOnce(n: Node, i: nat, t: Node, j: nat)
      requires RepFrom(n, i, t, j)
      ensures Nodes(n) <= Nodes(t) && (Nodes(n) == Nodes(t) ==> i == j)
      decreases t
    {
      if !(n == t && i == j) {
        var k: nat :| RepFrom(n, i, t.a, k) && SpellsSuffix(k, j, t.min, t.max);
        RepOnce(n, i, t.a, k);
      }
    }

    lemma {:induction false} CatOnce(n: Node, i: nat, t: Node, j: nat)
      requires CatFrom(n, i, t, j)
      ensures Nodes(n) <= Nodes(t) && (Nodes(n) == Nodes(t) ==> i == j)
      decreases t
    {
      if !(n == t && i == j) {
        var k: nat :| CatFrom(n, i, t.a, k) && !SuffixAt(k) && Spells(t.b, k, j);
        CatOnce(n, i, t.a, k);
      }
    }

    lemma {:induction false} AltOnce(n: Node, i: nat, t: Node, j: nat)
      requires AltFrom(n, i, t, j)
      ensures Nodes(n) <= Nodes(t) && (Nodes(n) == Nodes(t) ==> i == j)
      decreases t
    {
      if !(n == t && i == j) {
        var k: nat :| AltFrom(n, i, t.a, k) && Special(k, BAR) && Spells(t.b, k + Mark(), j);
        AltOnce(n, i, t.a, k);
      }
    }

    /** Where the text of a tree that is not empty begins, no branch ends. */
    lemma {:induction false} Begins(n: Node, i: nat, j: nat)
      requires Textual() && Spells(n, i, j) && !n.Null? && !n.Empty? && !n.Alt?
      requires NullsOnlyInBranches(n) && NoEmpty(n) && Precedence(n)
      ensures i < |pat| && !Special(i, BAR) && !Special(i, RPAREN)
      decreases n
    {
      match n
      case Atom(_) =>
      case Cat(a, b) =>
        var k: nat :| Spells(a, i, k) && !SuffixAt(k) && Spells(b, k, j);
        Begins(a, i, k);
      case Rep(a, min, max) =>
        var k: nat :| Spells(a, i, k) && SpellsSuffix(k, j, min, max);
        Begins(a, i, k);
      case Group(_, _) =>
    }

    ghost predicate Textual() { 0 !in pat }

    lemma EdgeEnds(i: nat)
      requires Textual() && Edge(i)
      ensures !SuffixAt(i)
    {
    }

    lemma SuffixUnique(i: nat, j: nat, min: nat, max: int, k: nat, min': nat, max': int)
      requires SpellsSuffix(i, j, min, max) && SpellsSuffix(i, k, min', max')
      ensures j == k && min == min' && max == max'
    {
    }

    // ---- which patterns leave a null child ----

    /** Where the token at `i` ends, if it is no parenthesis and no bar. A branch
        that is still `blank` has nothing to repeat. */
    function After(i: nat, blank: bool): (j: nat)
      requires i < |pat|
    {
      if !blank && At(i) == STAR then i + 1
      else if !blank && (Special(i, PLUS) || Special(i, QUESTION)) then i + Mark()
      else if !blank && Special(i, LBRACE) && brace(i).Interval? then brace(i).next
      else if At(i) == LBRACKET then (if classEnd(i + 1).Some? then classEnd(i + 1).value else |pat|)
      else if At(i) == BACKSLASH && i + 1 < |pat| then i + 2
      else i + 1
    }

    /** Reading the pattern from `i` on comes to the end of a branch in which
        nothing stands. */
    ghost predicate Hollow(i: nat, blank: bool)
      requires Lexing()
      decreases |pat| - i
    {
      if i >= |pat| then blank
      else if Special(i, LPAREN) then Hollow(i + Mark(), true)
      else if Special(i, BAR) then blank || Hollow(i + Mark(), true)
      else if Special(i, RPAREN) then blank || Hollow(i + Mark(), false)
      else Hollow(After(i, blank), false)
    }

    predicate Edge(i: nat) { i >= |pat| || Special(i, BAR) || Special(i, RPAREN) }

    /** The scan finds exactly the null children of the tree the text spells. */
    lemma {:induction false} HollowNode(n: Node, i: nat, j: nat, blank: bool)
      requires Lexing() && 0 !in pat && Spells(n, i, j) && Precedence(n) && NullsOnlyInBranches(n) && NoEmpty(n)
      requires if n.Alt? || n.Null? then blank && Edge(j) else blank || !SuffixAt(i)
      ensures Hollow(i, blank) <==> !NoNull(n) || Hollow(j, false)
      decreases n
    {
      hide Hollow, SpellsTest;
      match n
      case Null => HollowEdge(i);
      case Atom(t) => HollowTest(t, i, j, blank);
      case Cat(a, b) =>
        var k: nat :| Spells(a, i, k) && !SuffixAt(k) && Spells(b, k, j);
        HollowNode(a, i, k, blank);
        HollowNode(b, k, j, false);
      case Alt(a, b) =>
        var k: nat :| Spells(a, i, k) && Special(k, BAR) && Spells(b, k + Mark(), j);
        HollowNode(a, i, k, true);
        HollowNode(b, k + Mark(), j, true);
        HollowMark(k, BAR);
      case Rep(a, min, max) =>
        var k: nat :| Spells(a, i, k) && SpellsSuffix(k, j, min, max);
        HollowNode(a, i, k, blank);
        HollowSuffix(k, j, min, max);
      case Group(a, _) =>
        var k: nat :| Spells(a, i + Mark(), k) && Special(k, RPAREN) && j == k + Mark();
        HollowNode(a, i + Mark(), k, true);
        HollowOpen(i, blank);
        HollowMark(k, RPAREN);
    }

    lemma HollowEdge(i: nat)
      requires Lexing() && Edge(i)
      ensures Hollow(i, true)
    {
    }

    lemma HollowOpen(i: nat, blank: bool)
      requires Lexing() && Special(i, LPAREN)
      ensures Hollow(i, blank) <==> Hollow(i + Mark(), true)
    {
    }

    lemma HollowMark(i: nat, c: int)
      requires Lexing() && Special(i, c) && (c == BAR || c == RPAREN)
      ensures Hollow(i, false) <==> Hollow(i + Mark(), c == BAR)
    {
    }

    lemma HollowSuffix(i: nat, j: nat, min: nat, max: int)
      requires Lexing() && SpellsSuffix(i, j, min, max)
      ensures Hollow(i, false) <==> Hollow(j, false)
    {
    }

    lemma HollowTest(t: Test, i: nat, j: nat, blank: bool)
      requires Lexing() && 0 !in pat && SpellsTest(t, i, j) && (blank || !SuffixAt(i))
      ensures Hollow(i, blank) <==> Hollow(j, false)
    {
      assert i < |pat|;
      assert After(i, blank) == j;
    }

    lemma EmptyGroupSpelled()
      requires extended && pat == [LPAREN, RPAREN]
      ensures Spells(Group(Null, 1), 0, 2)
    {
      assert Spells(Null, 1, 1) && Special(1, RPAREN);
    }

    lemma EmptyGroupIsHollow()
      requires Lexing() && extended && pat == [LPAREN, RPAREN]
      ensures Hollow(0, true)
    {
      assert Hollow(1, true);
    }

    function Peek(): (c: int)
      reads this
    {
      if pos < |pat| then pat[pos] else 0
    }

    function Peek2(): (c: int)
      reads this
    {
      if pos + 1 < |pat| then pat[pos + 1] else 0
    }

    predicate AtSpecial(c: int)
      reads this
    {
      if extended then Peek() == c else Peek() == BACKSLASH && Peek2() == c
    }

    lemma SpecialHere(c: int)
      requires c != 0
      ensures AtSpecial(c) <==> Special(pos, c)
    {
    }

    method SkipSpecial(c: int)
      requires Valid() && AtSpecial(c) && c != 0
      modifies this`pos
      ensures Valid() && pos == old(pos) + Mark() && Special(old(pos), c)
    {
      pos := pos + if extended then 1 else 2;
    }

    method Alloc() returns (ok: bool)
      modifies this`grant
      ensures (ok <==> old(grant) > 0) && grant == old(grant) - if ok then 1 else 0
    {
      ok := grant > 0;
      if ok { grant := grant - 1; }
    }

    /** What every parsing step promises: it stays inside the pattern, and what
        it returns was built from the text it passed. */
    twostate predicate Stepped(n: Node)
      reads this
    {
      && Valid() && old(pos) <= pos
      && (if err == Ok then Built(n, old(nsub), nsub, old(nclasses), nclasses) && NoEmpty(n) else n == Null)
      && (err == Ok && !starved ==> !old(starved) && Spells(n, old(pos), pos))
    }

    /** The tree of `goal` is spelled here and can be built. */
    ghost predicate Wanted(goal: Goal)
      reads this
    {
      goal.Tree? ==> Fits(goal.n, nsub, nclasses, grant) && Spells(goal.n, pos, goal.end)
    }

    /** It was built, and as much allocated as that takes. */
    twostate predicate Met(goal: Goal, n: Node)
      reads this
    {
      goal.Tree? ==>
        err == Ok && n == goal.n && pos == goal.end && grant == old(grant) - Nodes(n) && starved == old(starved)
    }

    method ParseAtom(ghost goal: Goal) returns (n: Node)
      requires Valid() && err == Ok && pos < |pat| && !AtSpecial(BAR) && !AtSpecial(RPAREN)
      requires Wanted(goal) && (goal.Tree? ==> goal.n.Atom? || goal.n.Group?)
      modifies this
      ensures Stepped(n) && old(pos) < pos && !n.Cat? && !n.Alt?
      ensures Met(goal, n)
      decreases |pat| - pos, 1
    {
      var c := Peek();
      if AtSpecial(LPAREN) {
        n := ParseGroup(goal);
        return;
      }
      if c == LBRACKET {
        n := ParseClass(goal);
        return;
      }
      n := ParseChar(goal);
    }

    method ParseChar(ghost goal: Goal) returns (n: Node)
      requires Valid() && err == Ok && pos < |pat| && !AtSpecial(BAR) && !AtSpecial(RPAREN)
      requires !AtSpecial(LPAREN) && Peek() != LBRACKET
      requires Wanted(goal) && (goal.Tree? ==> goal.n.Atom? || goal.n.Group?)
      modifies this
      ensures Stepped(n) && old(pos) < pos && !n.Cat? && !n.Alt?
      ensures Met(goal, n)
    {
      var c := Peek();
      pos := pos + 1;
      if c == DOT { n := Leaf(Any); return; }
      if c == CARET { n := Leaf(Bol); return; }
      if c == DOLLAR { n := Leaf(Eol); return; }
      if c == BACKSLASH && pos < |pat| {
        c := pat[pos];
        pos := pos + 1;
      }
      var ok := Alloc();
      if !ok { err := ESpace; return Null; }
      return Atom(Char(if icase then ToLower(c) else c));
    }

    /** A node without a check for a failed allocation. */
    method Leaf(t: Test) returns (n: Node)
      requires !t.Class?
      modifies this`grant, this`starved
      ensures if old(grant) > 0 then n == Atom(t) && starved == old(starved) else n == Null && starved
      ensures grant == old(grant) - Nodes(n)
    {
      var ok := Alloc();
      if !ok { starved := true; }
      return if ok then Atom(t) else Null;
    }

    method ParseClass(ghost goal: Goal) returns (n: Node)
      requires Valid() && err == Ok && Peek() == LBRACKET && !AtSpecial(LPAREN)
      requires Wanted(goal) && (goal.Tree? ==> goal.n.Atom? || goal.n.Group?)
      modifies this
      ensures Stepped(n) && old(pos) < pos && !n.Cat? && !n.Alt?
      ensures Met(goal, n)
    {
      pos := pos + 1;
      var end := classEnd(pos);
      if end.None? { err := EBrack; return Null; }
      var cls := nclasses;
      nclasses := nclasses + 1;
      pos := end.value;
      var ok := Alloc();
      if !ok { err := ESpace; return Null; }
      return Atom(Class(cls));
    }

    /** A group gets its number when it closes; there are at most eight. */
    method ParseGroup(ghost goal: Goal) returns (n: Node)
      requires Valid() && err == Ok && pos < |pat| && AtSpecial(LPAREN)
      requires Wanted(goal) && (goal.Tree? ==> goal.n.Atom? || goal.n.Group?)
      modifies this
      ensures Stepped(n) && old(pos) < pos && !n.Cat? && !n.Alt?
      ensures Met(goal, n)
      decreases |pat| - pos, 0
    {
      hide Built, Spells, Fits, Special;
      SpecialHere(LPAREN);
      ghost var part := GroupInner(goal, pos, nsub, nclasses, grant);
      SkipSpecial(LPAREN);
      var inner := ParseAlt(part);
      if err != Ok { return Null; }
      SpecialHere(RPAREN);
      if !AtSpecial(RPAREN) { err := EParen; return Null; }
      ghost var k := pos;
      BuiltCounts(inner, old(nsub), nsub, old(nclasses), nclasses);
      SkipSpecial(RPAREN);
      if nsub >= MAX_SUB { err := ESpace; return Null; }
      var ok := Alloc();
      if !ok { err := ESpace; return Null; }
      nsub := nsub + 1;
      BuiltGroup(inner, old(nsub), nsub, old(nclasses), nclasses);
      if !starved { SpellsGroup(inner, nsub, old(pos), k, pos); }
      return Group(inner, nsub);
    }

    /** What stands between the parentheses of the goal. */
    lemma {:induction false} GroupInner(goal: Goal, i: nat, m: nat, c: nat, g: nat) returns (r: Goal)
      requires Special(i, LPAREN) && (goal.Tree? ==> Fits(goal.n, m, c, g) && Spells(goal.n, i, goal.end))
      requires goal.Tree? ==> goal.n.Atom? || goal.n.Group?
      ensures r.Tree? <==> goal.Tree?
      ensures r.Tree? ==> Fits(r.n, m, c, g) && Spells(r.n, i + Mark(), r.end)
      ensures r.Tree? ==> Edge(r.end) && !Special(r.end, BAR) && Special(r.end, RPAREN)
      ensures r.Tree? ==> goal.end == r.end + Mark() && Nodes(r.n) < g && m + GroupCount(r.n) < MAX_SUB
      ensures r.Tree? ==> goal.n == Group(r.n, m + GroupCount(r.n) + 1) && Nodes(goal.n) == Nodes(r.n) + 1
    {
      r := Open;
      if goal.Tree? {
        var k: nat :| Spells(goal.n.a, i + Mark(), k) && Special(k, RPAREN) && goal.end == k + Mark();
        r := Tree(goal.n.a, k);
      }
    }

    lemma {:induction false} SpellsGroup(a: Node, g: nat, i: nat, k: nat, j: nat)
      requires Special(i, LPAREN) && Spells(a, i + Mark(), k) && Special(k, RPAREN) && j == k + Mark()
      ensures Spells(Group(a, g), i, j)
    {
    }

    /** One repetition operator, if there is one here. */
    method Suffix() returns (got: bool, min: nat, max: int)
      requires Valid() && err == Ok
      modifies this`pos, this`err
      ensures Valid() && (got ==> err == Ok && old(pos) < pos && SpellsSuffix(old(pos), pos, min, max))
      ensures !got ==> pos == old(pos) && (err == Ok ==> !SuffixAt(pos))
      ensures !SuffixAt(old(pos)) ==> !got && err == Ok
      ensures forall j: nat, a: nat, b: int :: SpellsSuffix(old(pos), j, a, b) ==> got
    {
      got, min, max := false, 0, -1;
      var c := Peek();
      if c == STAR {
        pos, got := pos + 1, true;
      } else if AtSpecial(PLUS) {
        SkipSpecial(PLUS);
        min, got := 1, true;
      } else if AtSpecial(QUESTION) {
        SkipSpecial(QUESTION);
        max, got := 1, true;
      } else if AtSpecial(LBRACE) {
        match brace(pos)
        case Malformed => err := BadBr;
        case Interval(next, lo, hi) => pos, min, max, got := next, lo, hi, true;
        case Literal =>
      }
    }

    method ParseRep(ghost goal: Goal) returns (n: Node)
      requires Valid() && err == Ok && pos < |pat| && !AtSpecial(BAR) && !AtSpecial(RPAREN)
      requires Wanted(goal)
      requires goal.Tree? ==> !goal.n.Null? && !goal.n.Cat? && !goal.n.Alt? && !SuffixAt(goal.end)
      modifies this
      ensures Stepped(n) && old(pos) < pos && !n.Cat? && !n.Alt? && (n != Null ==> !SuffixAt(pos))
      ensures Met(goal, n)
      decreases |pat| - pos, 2
    {
      hide Built, Spells, Fits, SuffixAt, SpellsSuffix, RepFrom;
      ghost var first := RepFirst(goal, pos, nsub, nclasses, grant);
      n := ParseAtom(first);
      if n == Null { return; }
      while true
        invariant Stepped(n) && old(pos) < pos && err == Ok && n != Null && !n.Cat? && !n.Alt?
        invariant goal.Tree? ==> RepFrom(n, pos, goal.n, goal.end) && Spent(n)
        decreases |pat| - pos
      {
        ghost var k, a, subs, classes := pos, n, nsub, nclasses;
        ghost var more, i, lo, hi := RepMore(goal, n, pos, old(nsub), old(nclasses), old(grant));
        var got, min, max := Suffix();
        if err != Ok { return Null; }
        if !got { return; }
        if more { SuffixUnique(k, pos, min, max, i, lo, hi); }
        var ok := Alloc();
        if !ok { err := ESpace; return Null; }
        n := Rep(n, min, max);
        BuiltRep(a, min, max, old(nsub), nsub, old(nclasses), nclasses);
        if !starved { SpellsRep(a, min, max, old(pos), k, pos); }
      }
    }

    /** So far exactly the nodes of `n` were allocated. */
    twostate predicate Spent(n: Node)
      reads this
    {
      grant == old(grant) - Nodes(n) && starved == old(starved)
    }

    /** The atom the repetitions of the goal apply to. */
    lemma RepFirst(goal: Goal, i: nat, m: nat, c: nat, g: nat) returns (r: Goal)
      requires goal.Tree? ==> Fits(goal.n, m, c, g) && Spells(goal.n, i, goal.end)
      requires goal.Tree? ==> !goal.n.Null? && !goal.n.Cat? && !goal.n.Alt?
      ensures r.Tree? <==> goal.Tree?
      ensures r.Tree? ==> (r.n.Atom? || r.n.Group?) && Fits(r.n, m, c, g) && Spells(r.n, i, r.end)
      ensures r.Tree? ==> RepFrom(r.n, r.end, goal.n, goal.end)
    {
      r := Open;
      if goal.Tree? {
        var a, k := RepBase(goal.n, i, goal.end);
        RepPart(a, k, goal.n, goal.end, m, c, g);
        r := Tree(a, k);
      }
    }

    /** Whether the goal has a repetition more than `n`, and which. */
    lemma RepMore(goal: Goal, n: Node, i: nat, m: nat, c: nat, g: nat)
      returns (more: bool, k: nat, min: nat, max: int)
      requires goal.Tree? ==> Fits(goal.n, m, c, g) && RepFrom(n, i, goal.n, goal.end) && !SuffixAt(goal.end)
      ensures more <==> goal.Tree? && n != goal.n
      ensures more ==> SpellsSuffix(i, k, min, max) && RepFrom(Rep(n, min, max), k, goal.n, goal.end)
      ensures more ==> Nodes(n) < g
      ensures goal.Tree? && !more ==> i == goal.end && !SuffixAt(i)
    {
      more, k, min, max := goal.Tree? && n != goal.n, 0, 0, 0;
      if more {
        min, max, k := RepNext(n, i, goal.n, goal.end);
        RepPart(Rep(n, min, max), k, goal.n, goal.end, m, c, g);
      } else if goal.Tree? {
        RepPart(n, i, goal.n, goal.end, m, c, g);
      }
    }

    lemma {:induction false} SpellsRep(a: Node, min: nat, max: int, i: nat, k: nat, j: nat)
      requires Spells(a, i, k) && SpellsSuffix(k, j, min, max)
      ensures Spells(Rep(a, min, max), i, j)
    {
    }

    method ParseCat(ghost goal: Goal) returns (n: Node)
      requires Valid() && err == Ok
      requires Wanted(goal) && (goal.Tree? ==> !goal.n.Alt? && Edge(goal.end))
      modifies this
      ensures Stepped(n) && !n.Alt?
      ensures Met(goal, n)
      decreases |pat| - pos, 3
    {
      hide Built, Spells, Fits, CatFrom, SuffixAt;
      n := Null;
      BuiltNull(nsub, nsub, nclasses, nclasses);
      SpellsNull(pos, pos);
      if goal.Tree? && goal.n.Null? { SpellsNull(pos, goal.end); }
      while Peek() != 0 && !AtSpecial(BAR) && !AtSpecial(RPAREN)
        invariant Stepped(n) && err == Ok && !n.Alt? && (n != Null ==> !SuffixAt(pos))
        invariant n == Null ==> pos == old(pos) && nsub == old(nsub) && nclasses == old(nclasses)
        invariant goal.Tree? ==> Spent(n) && CatTo(n, old(pos), pos, goal)
        decreases |pat| - pos
      {
        ghost var k, subs, classes := pos, nsub, nclasses;
        BuiltCounts(n, old(nsub), nsub, old(nclasses), nclasses);
        ghost var part := CatMore(goal, n, old(pos), pos, old(nsub), old(nclasses), old(grant));
        var m := ParseRep(part);
        if err != Ok { return Null; }
        if m == Null {
          BuiltNull(subs, nsub, classes, nclasses);
          SpellsNull(k, pos);
          return;
        }
        if n == Null {
          n := m;
        } else {
          var ok := Alloc();
          if !ok { err := ESpace; return Null; }
          BuiltCat(n, m, old(nsub), subs, nsub, old(nclasses), classes, nclasses);
          if !starved { SpellsCat(n, m, old(pos), k, pos); }
          n := Cat(n, m);
        }
      }
      CatStops(goal, n, old(pos), pos, old(nsub), old(nclasses), old(grant));
    }

    /** The goal, begun at `from`, is `n` with more after `i`; nothing of it yet if
        `n` is null. */
    ghost predicate CatTo(n: Node, from: nat, i: nat, goal: Goal)
      requires goal.Tree?
    {
      if n == Null then i == from && (goal.n.Null? ==> i == goal.end) else CatFrom(n, i, goal.n, goal.end)
    }

    /** The next part of the goal, which there is unless a branch ends here. */
    lemma CatMore(goal: Goal, n: Node, from: nat, i: nat, m: nat, c: nat, g: nat) returns (r: Goal)
      requires Textual()
      requires goal.Tree? ==> Fits(goal.n, m, c, g) && Spells(goal.n, from, goal.end) && !goal.n.Alt? && Edge(goal.end)
      requires goal.Tree? ==> CatTo(n, from, i, goal) && !Edge(i)
      ensures r.Tree? <==> goal.Tree?
      ensures r.Tree? ==> !r.n.Null? && !r.n.Cat? && !r.n.Alt? && Spells(r.n, i, r.end) && !SuffixAt(r.end)
      ensures r.Tree? && n == Null ==> Fits(r.n, m, c, g) && CatFrom(r.n, r.end, goal.n, goal.end)
      ensures r.Tree? && n != Null ==>
                && CatFrom(Cat(n, r.n), r.end, goal.n, goal.end) && Nodes(n) + Nodes(r.n) < g
                && Fits(r.n, m + GroupCount(n), c + ClassCount(n), g - Nodes(n))
    {
      hide Spells, Fits, CatFrom, SuffixAt;
      r := Open;
      if goal.Tree? {
        if n == Null {
          NotNull(goal, i);
          r := CatFirst(goal, i, m, c, g);
        } else {
          CatOnce(n, i, goal.n, goal.end);
          var b, k := CatNext(n, i, goal.n, goal.end);
          CatPart(Cat(n, b), k, goal.n, goal.end, m, c, g);
          CatRests(Cat(n, b), k, goal);
          FitsCat(n, b, m, c, g);
          r := Tree(b, k);
        }
      }
    }

    lemma {:induction false} NotNull(goal: Goal, i: nat)
      requires goal.Tree? && Spells(goal.n, i, goal.end) && Edge(goal.end) && !Edge(i)
      ensures !goal.n.Null?
    {
    }

    lemma {:induction false} CatFirst(goal: Goal, i: nat, m: nat, c: nat, g: nat) returns (r: Goal)
      requires Textual() && goal.Tree? && Fits(goal.n, m, c, g) && Spells(goal.n, i, goal.end)
      requires !goal.n.Null? && !goal.n.Alt? && Edge(goal.end)
      ensures r.Tree? && !r.n.Null? && !r.n.Cat? && !r.n.Alt? && Spells(r.n, i, r.end) && !SuffixAt(r.end)
      ensures Fits(r.n, m, c, g) && CatFrom(r.n, r.end, goal.n, goal.end)
    {
      hide Spells, CatFrom, SuffixAt;
      var a, k := CatBase(goal.n, i, goal.end);
      CatPart(a, k, goal.n, goal.end, m, c, g);
      CatRests(a, k, goal);
      r := Tree(a, k);
    }

    /** Between two parts, and at the end, no repetition operator stands. */
    lemma CatRests(n: Node, i: nat, goal: Goal)
      requires Textual() && goal.Tree? && CatFrom(n, i, goal.n, goal.end) && Edge(goal.end)
      ensures !SuffixAt(i)
    {
      if n == goal.n {
        CatOnce(n, i, goal.n, goal.end);
        EdgeEnds(i);
      } else {
        var b, k := CatNext(n, i, goal.n, goal.end);
      }
    }

    lemma FitBegins(n: Node, i: nat, j: nat, m: nat, c: nat, g: nat)
      requires Textual() && Spells(n, i, j) && Fits(n, m, c, g) && !n.Null? && !n.Alt?
      ensures !Edge(i)
    {
      Begins(n, i, j);
    }

    /** Where a branch ends the goal is complete. */
    lemma CatStops(goal: Goal, n: Node, from: nat, i: nat, m: nat, c: nat, g: nat)
      requires Textual()
      requires goal.Tree? ==> Fits(goal.n, m, c, g) && Spells(goal.n, from, goal.end) && !goal.n.Alt?
      requires goal.Tree? ==> CatTo(n, from, i, goal) && Edge(i)
      ensures goal.Tree? ==> n == goal.n && i == goal.end
    {
      hide Spells, Fits, CatFrom, SuffixAt;
      if goal.Tree? {
        if n == Null {
          if !goal.n.Null? { FitBegins(goal.n, i, goal.end, m, c, g); }
        } else if n != goal.n {
          var b, k := CatNext(n, i, goal.n, goal.end);
          CatPart(Cat(n, b), k, goal.n, goal.end, m, c, g);
          FitsCat(n, b, m, c, g);
          FitBegins(b, i, k, m + GroupCount(n), c + ClassCount(n), g - Nodes(n));
        } else {
          CatOnce(n, i, goal.n, goal.end);
        }
      }
    }

    method ParseAlt(ghost goal: Goal) returns (n: Node)
      requires Valid() && err == Ok
      requires Wanted(goal) && (goal.Tree? ==> Edge(goal.end) && !Special(goal.end, BAR))
      modifies this
      ensures Stepped(n)
      ensures Met(goal, n)
      decreases |pat| - pos, 4
    {
      hide Built, Spells, Fits, AltFrom;
      ghost var part := AltFirst(goal, pos, nsub, nclasses, grant);
      n := ParseCat(part);
      if err != Ok { return; }
      while AtSpecial(BAR)
        invariant Stepped(n) && err == Ok
        invariant goal.Tree? ==> AltFrom(n, pos, goal.n, goal.end) && Spent(n)
        decreases |pat| - pos
      {
        ghost var k, subs, classes := pos, nsub, nclasses;
        BuiltCounts(n, old(nsub), nsub, old(nclasses), nclasses);
        part := AltMore(goal, n, pos, old(nsub), old(nclasses), old(grant));
        SkipSpecial(BAR);
        var b := ParseCat(part);
        if err != Ok { return Null; }
        var ok := Alloc();
        if !ok { err := ESpace; return Null; }
        BuiltAlt(n, b, old(nsub), subs, nsub, old(nclasses), classes, nclasses);
        if !starved { SpellsAlt(n, b, old(pos), k, pos); }
        n := Alt(n, b);
      }
      AltStops(goal, n, pos);
    }

    lemma AltFirst(goal: Goal, i: nat, m: nat, c: nat, g: nat) returns (r: Goal)
      requires goal.Tree? ==> Fits(goal.n, m, c, g) && Spells(goal.n, i, goal.end) && Edge(goal.end)
      ensures r.Tree? <==> goal.Tree?
      ensures r.Tree? ==> !r.n.Alt? && Fits(r.n, m, c, g) && Spells(r.n, i, r.end) && Edge(r.end)
      ensures r.Tree? ==> AltFrom(r.n, r.end, goal.n, goal.end)
    {
      r := Open;
      if goal.Tree? {
        var a, k := AltBase(goal.n, i, goal.end);
        AltPart(a, k, goal.n, goal.end, m, c, g);
        AltRests(a, k, goal);
        r := Tree(a, k);
      }
    }

    lemma AltRests(n: Node, i: nat, goal: Goal)
      requires goal.Tree? && AltFrom(n, i, goal.n, goal.end) && Edge(goal.end)
      ensures Edge(i)
    {
      if n == goal.n {
        AltOnce(n, i, goal.n, goal.end);
      } else {
        var b, k := AltNext(n, i, goal.n, goal.end);
      }
    }

    lemma AltMore(goal: Goal, n: Node, i: nat, m: nat, c: nat, g: nat) returns (r: Goal)
      requires goal.Tree? ==> Fits(goal.n, m, c, g) && Edge(goal.end) && !Special(goal.end, BAR)
      requires goal.Tree? ==> AltFrom(n, i, goal.n, goal.end) && Special(i, BAR)
      ensures r.Tree? <==> goal.Tree?
      ensures r.Tree? ==> !r.n.Alt? && Spells(r.n, i + Mark(), r.end) && Edge(r.end)
      ensures r.Tree? ==>
                && AltFrom(Alt(n, r.n), r.end, goal.n, goal.end) && Nodes(n) + Nodes(r.n) < g
                && Fits(r.n, m + GroupCount(n), c + ClassCount(n), g - Nodes(n))
    {
      hide Spells, Fits, AltFrom;
      r := Open;
      if goal.Tree? {
        AltOnce(n, i, goal.n, goal.end);
        var b, k := AltNext(n, i, goal.n, goal.end);
        AltPart(Alt(n, b), k, goal.n, goal.end, m, c, g);
        AltRests(Alt(n, b), k, goal);
        FitsAlt(n, b, m, c, g);
        r := Tree(b, k);
      }
    }

    lemma AltStops(goal: Goal, n: Node, i: nat)
      requires goal.Tree? ==> AltFrom(n, i, goal.n, goal.end) && !Special(i, BAR)
      ensures goal.Tree? ==> n == goal.n && i == goal.end
    {
      if goal.Tree? {
        if n == goal.n {
          AltOnce(n, i, goal.n, goal.end);
        } else {
          var b, k := AltNext(n, i, goal.n, goal.end);
        }
      }
    }

    /** The whole pattern. The tree of an accepted pattern numbers its groups 1,
        2, ... in closing order, at most eight, and its bracket expressions 0,
        1, ...; only the root is patched when it is null. A text that some tree
        spells is accepted with that tree, if it has at most eight groups and
        there are nodes enough. */
    method Parse(ghost goal: Goal) returns (n: Node)
      requires Valid() && err == Ok && pos == 0 && nsub == 0 && nclasses == 0
      requires Wanted(goal) && (goal.Tree? ==> goal.end == |pat| && !goal.n.Null?)
      modifies this
      ensures goal.Tree? ==> err == Ok && n == goal.n && starved == old(starved)
      ensures err == Ok ==> !n.Null? && Built(n, 0, nsub, 0, nclasses) && nsub <= MAX_SUB && pos == |pat|
      ensures err == Ok ==> DistinctGroups(n) && GroupsBelow(n, MAX_SUB + 1)
      ensures err == Ok && !starved ==> Spells(n, 0, |pat|) && (pat != [] ==> (NoNull(n) <==> !Hollow(0, true)))
    {
      n := ParseAlt(goal);
      if err != Ok { return; }
      if Peek() != 0 { err := BadPat; return Null; }
      if n == Null {
        var ok := Alloc();
        if !ok { err := ESpace; return; }
        n := Empty;
      }
      NumberedGroups(n, 0);
      NumberedBelow(n, 0, MAX_SUB + 1);
      if !starved && pat != [] { HollowNode(n, 0, |pat|, true); }
    }
  }

  // ---- regcomp ---------------------------------------------------------------------------------------

  /** An error, a null child the emitter would follow, or a program. */
  datatype Regex = Rejected(err: Error) | NullChild(n: Node) | Program(n: Node, inst: seq<Inst>, nsub: nat)

  /** Parse and emit. Every program produced is the code of its tree, has all
      its jumps and slots in range, and numbers its groups without repetition,
      which is what running it and reporting its captures rely on. */
  method Regcomp(parser: Parser, emitter: Emitter, ghost goal: Goal) returns (r: Regex)
    requires parser.Valid() && parser.err == Ok && parser.pos == 0 && parser.nsub == 0 && parser.nclasses == 0
    requires emitter.Valid() && emitter.inst == []
    requires parser.Wanted(goal) && (goal.Tree? ==> goal.end == |parser.pat| && !goal.n.Null?)
    modifies parser, emitter
    ensures r.Program? ==>
              && Runnable(r.inst, r.n, r.nsub) && NoNull(r.n) && r.nsub == GroupCount(r.n)
              && (!parser.starved ==> parser.Spells(r.n, 0, |parser.pat|))
    ensures goal.Tree? && !NoNull(goal.n) ==> r == NullChild(goal.n)
    ensures goal.Tree? && NoNull(goal.n) ==> if r.Program? then r.n == goal.n else emitter.Refused()
    ensures r.NullChild? ==> !NoNull(r.n) && NullsOnlyInBranches(r.n) && !r.n.Null?
    ensures !parser.starved && parser.pat != [] ==>
              (r.NullChild? ==> parser.Hollow(0, true)) && (r.Program? ==> !parser.Hollow(0, true))
  {
    var n := parser.Parse(goal);
    if parser.err != Ok { return Rejected(parser.err); }
    if !NoNull(n) { return NullChild(n); }
    var ok := emitter.Compile(n);
    if !ok { return Rejected(ESpace); }
    CompiledWellFormed(n, emitter.inst, MAX_SUB + 1);
    NumberedGroups(n, 0);
    return Program(n, emitter.inst, parser.nsub);
  }

  /** The shortest pattern with a null child: an empty group is accepted, and its
      child is null. */
  method EmptyGroup(parser: Parser, emitter: Emitter) returns (r: Regex)
    requires parser.Valid() && parser.err == Ok && parser.pos == 0 && parser.nsub == 0 && parser.nclasses == 0
    requires parser.extended && parser.pat == [LPAREN, RPAREN] && 0 < parser.grant
    requires emitter.Valid() && emitter.inst == []
    modifies parser, emitter
    ensures r == NullChild(Group(Null, 1)) && parser.Hollow(0, true)
  {
    parser.EmptyGroupSpelled();
    parser.EmptyGroupIsHollow();
    r := Regcomp(parser, emitter, Tree(Group(Null, 1), 2));
  }
}
