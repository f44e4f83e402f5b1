/** The explicit evaluator that stands in for Python's eval of the joined token
    stream: recursive descent over the resolved tokens with the grammar
      expr   := term ("or" term)*
      term   := factor ("and" factor)*
      factor := "not" factor | "(" ")" | "(" expr ")" | "True" | "False"
    which gives not > and > or, parentheses overriding, and/or grouping to the left.
    The parser builds the formula it reads; its value is the stream's value. */
module Evaluator {
  import opened Tokens

  /** The formula of a phrase and the position of the first token after it, or Stuck
      when no phrase of the wanted kind starts here. */
  datatype Parse = Parsed(tree: Formula, next: nat) | Stuck

  /** expr := term ("or" term)*, read from position i of ts. */
  function ParseExpr(ts: seq<string>, i: nat): (r: Parse)
    requires i <= |ts|
    ensures r.Parsed? ==> i < r.next <= |ts|
    decreases |ts| - i, 2
  {
    match ParseTerm(ts, i)
    case Stuck => Stuck
    case Parsed(t, j) => ParseOrTail(t, ts, j)
  }

  /** The ("or" term)* loop, folding to the left from acc. */
  function ParseOrTail(acc: Formula, ts: seq<string>, i: nat): (r: Parse)
    requires i <= |ts|
    ensures r.Parsed? ==> i <= r.next <= |ts|
    decreases |ts| - i, 3
  {
    if i < |ts| && ts[i] == "or" then
      match ParseTerm(ts, i + 1)
      case Stuck => Stuck
      case Parsed(t, j) => ParseOrTail(Or(acc, t), ts, j)
    else
      Parsed(acc, i)
  }

  /** term := factor ("and" factor)* */
  function ParseTerm(ts: seq<string>, i: nat): (r: Parse)
    requires i <= |ts|
    ensures r.Parsed? ==> i < r.next <= |ts|
    decreases |ts| - i, 1
  {
    match ParseFactor(ts, i)
    case Stuck => Stuck
    case Parsed(t, j) => ParseAndTail(t, ts, j)
  }

  /** The ("and" factor)* loop, folding to the left from acc. */
  function ParseAndTail(acc: Formula, ts: seq<string>, i: nat): (r: Parse)
    requires i <= |ts|
    ensures r.Parsed? ==> i <= r.next <= |ts|
    decreases |ts| - i, 3
  {
    if i < |ts| && ts[i] == "and" then
      match ParseFactor(ts, i + 1)
      case Stuck => Stuck
      case Parsed(t, j) => ParseAndTail(And(acc, t), ts, j)
    else
      Parsed(acc, i)
  }

  /** factor := "not" factor | "(" ")" | "(" expr ")" | "True" | "False", where "( )" is
      Python's empty tuple, which is false wherever and, or, not and bool look at it. */
  function ParseFactor(ts: seq<string>, i: nat): (r: Parse)
    requires i <= |ts|
    ensures r.Parsed? ==> i < r.next <= |ts|
    decreases |ts| - i, 0
  {
    if i == |ts| then Stuck
    else if ts[i] == "not" then
      match ParseFactor(ts, i + 1)
      case Stuck => Stuck
      case Parsed(t, j) => Parsed(Not(t), j)
    else if ts[i] == "(" then
      if i + 1 < |ts| && ts[i + 1] == ")" then Parsed(EmptyTuple, i + 2)
      else match ParseExpr(ts, i + 1)
      case Stuck => Stuck
      case Parsed(t, j) => if j < |ts| && ts[j] == ")" then Parsed(Paren(t), j + 1) else Stuck
    else if ts[i] == "True" || ts[i] == "False" then Parsed(Atom(ts[i]), i + 1)
    else Stuck
  }

  /** The value of a whole resolved token stream; anything that is not exactly one
      expression is Malformed. */
  function Eval(ts: seq<string>): (r: Result<bool>)
    ensures r.Err? ==> r.error == Malformed
  {
    match ParseExpr(ts, 0)
    case Stuck => Err(Malformed)
    case Parsed(t, n) => if n == |ts| then Ok(LiteralOf(t)) else Err(Malformed)
  }

  // ---------------------------------------------------------------------------
  // Reference semantics: formulas, their standard value and their printed tokens

  /** A boolean formula as written: Paren is a pair of parentheses written around a
      formula, EmptyTuple the empty pair "( )". */
  datatype Formula =
    | Atom(name: string)
    | Not(arg: Formula)
    | And(left: Formula, right: Formula)
    | Or(left: Formula, right: Formula)
    | Paren(body: Formula)
    | EmptyTuple

  /** The standard boolean value of f under an assignment of its atoms; the empty
      tuple is false. */
  function Value(f: Formula, env: string -> bool): bool {
    match f
    case Atom(name) => env(name)
    case Not(a) => !Value(a, env)
    case And(a, b) => Value(a, env) && Value(b, env)
    case Or(a, b) => Value(a, env) || Value(b, env)
    case Paren(a) => Value(a, env)
    case EmptyTuple => false
  }

  /** The atoms of f. */
  function Atoms(f: Formula): set<string> {
    match f
    case Atom(name) => {name}
    case Not(a) => Atoms(a)
    case And(a, b) => Atoms(a) + Atoms(b)
    case Or(a, b) => Atoms(a) + Atoms(b)
    case Paren(a) => Atoms(a)
    case EmptyTuple => {}
  }

  function Group(wrap: bool, ts: seq<string>): seq<string> {
    if wrap then ["("] + ts + [")"] else ts
  }

  /** f printed as tokens for a position of the given binding strength (0: operand
      of or, 1: operand of and, 2: operand of not). Parentheses appear where
      precedence needs them, and where f writes them; a chain of and/or is printed
      without parentheses when it groups to the left. */
  function Render(f: Formula, level: nat): seq<string> {
    match f
    case Atom(name) => [name]
    case Not(a) => ["not"] + Render(a, 2)
    case And(a, b) => Group(level > 1, Render(a, 1) + ["and"] + Render(b, 2))
    case Or(a, b) => Group(level > 0, Render(a, 0) + ["or"] + Render(b, 1))
    case Paren(a) => ["("] + Render(a, 0) + [")"]
    case EmptyTuple => ["(", ")"]
  }

  /** The truth of a boolean literal token. */
  function LiteralValue(t: string): bool {
    t == "True"
  }

  /** The value of f when each atom is read as a literal: Value(f, LiteralValue)
      without the function argument, for the proofs about printed formulas. */
  function LiteralOf(f: Formula): bool {
    match f
    case Atom(name) => name == "True"
    case Not(a) => !LiteralOf(a)
    case And(a, b) => LiteralOf(a) && LiteralOf(b)
    case Or(a, b) => LiteralOf(a) || LiteralOf(b)
    case Paren(a) => LiteralOf(a)
    case EmptyTuple => false
  }

  lemma {:induction false} LiteralOfIsValue(f: Formula)
    ensures LiteralOf(f) == Value(f, LiteralValue)
  {
    match f
    case Atom(_) =>
    case Not(a) => LiteralOfIsValue(a);
    case And(a, b) => LiteralOfIsValue(a); LiteralOfIsValue(b);
    case Or(a, b) => LiteralOfIsValue(a); LiteralOfIsValue(b);
    case Paren(a) => LiteralOfIsValue(a);
    case EmptyTuple =>
  }

  /** Every atom is a boolean literal, as after resolution. */
  predicate Ground(f: Formula) {
    match f
    case Atom(name) => name == "True" || name == "False"
    case Not(a) => Ground(a)
    case And(a, b) => Ground(a) && Ground(b)
    case Or(a, b) => Ground(a) && Ground(b)
    case Paren(a) => Ground(a)
    case EmptyTuple => true
  }

  /** f with every pair of parentheses that Render prints at the given level written
      out as a Paren: the formula the evaluator builds when it reads Render(f, level). */
  function Explicit(f: Formula, level: nat): Formula {
    match f
    case Atom(_) => f
    case Not(a) => Not(Explicit(a, 2))
    case And(a, b) =>
      var g := And(Explicit(a, 1), Explicit(b, 2));
      if level > 1 then Paren(g) else g
    case Or(a, b) =>
      var g := Or(Explicit(a, 0), Explicit(b, 1));
      if level > 0 then Paren(g) else g
    case Paren(a) => Paren(Explicit(a, 0))
    case EmptyTuple => f
  }

  /** Writing out the parentheses changes neither the value nor the print. */
  lemma {:induction false} ExplicitPreserves(f: Formula, level: nat)
    ensures LiteralOf(Explicit(f, level)) == LiteralOf(f)
    ensures Render(Explicit(f, level), level) == Render(f, level)
    ensures Ground(Explicit(f, level)) == Ground(f)
  {
    match f
    case Atom(_) =>
    case Not(a) => ExplicitPreserves(a, 2);
    case And(a, b) => ExplicitPreserves(a, 1); ExplicitPreserves(b, 2);
    case Or(a, b) => ExplicitPreserves(a, 0); ExplicitPreserves(b, 1);
    case Paren(a) => ExplicitPreserves(a, 0);
    case EmptyTuple =>
  }

  /** ts holds the tokens w at position i. */
  predicate At(ts: seq<string>, i: nat, w: seq<string>): (r: bool)
    ensures r ==> i + |w| <= |ts|
    decreases |w|
  {
    if w == [] then i <= |ts| else i < |ts| && ts[i] == w[0] && At(ts, i + 1, w[1..])
  }

  lemma {:induction false} AtSplit(ts: seq<string>, i: nat, a: seq<string>, b: seq<string>)
    requires At(ts, i, a + b)
    ensures At(ts, i, a) && At(ts, i + |a|, b)
    decreases |a|
  {
    if a == [] {
      assert a + b == b;
    } else {
      assert (a + b)[1..] == a[1..] + b;
      AtSplit(ts, i + 1, a[1..], b);
    }
  }

  /** The rest of a stream from position i stands at position i. */
  lemma {:induction false} AtRest(ts: seq<string>, i: nat)
    requires i <= |ts|
    ensures At(ts, i, ts[i..])
    decreases |ts| - i
  {
    if i < |ts| {
      assert ts[i..][1..] == ts[i + 1..];
      AtRest(ts, i + 1);
    }
  }

  /** The token at position k, if any, is not op. */
  predicate NotAt(ts: seq<string>, k: nat, op: string) {
    k >= |ts| || ts[k] != op
  }

  // The three shapes of fact the proofs below pass around. Each names one parser
  // call, so that a proof about formulas sees the parser only through them.

  /** A factor read as t starts at i and ends before e. */
  predicate FactorIs(ts: seq<string>, i: nat, t: Formula, e: nat) {
    i <= |ts| && ParseFactor(ts, i) == Parsed(t, e)
  }

  /** Reading a term at i comes to the same as continuing the and-chain t at e. */
  predicate TermReaches(ts: seq<string>, i: nat, t: Formula, e: nat) {
    i <= e <= |ts| && ParseTerm(ts, i) == ParseAndTail(t, ts, e)
  }

  /** Reading an expression at i comes to the same as continuing the or-chain t at e. */
  predicate ExprReaches(ts: seq<string>, i: nat, t: Formula, e: nat) {
    i <= e <= |ts| && ParseExpr(ts, i) == ParseOrTail(t, ts, e)
  }

  // One-step facts about the parser: no formulas printed, so each unfolds little.

  lemma NegatedFactor(ts: seq<string>, i: nat, t: Formula, e: nat)
    requires i < |ts| && ts[i] == "not" && FactorIs(ts, i + 1, t, e)
    ensures FactorIs(ts, i, Not(t), e)
  {
  }

  lemma TermOfFactor(ts: seq<string>, i: nat, t: Formula, e: nat)
    requires FactorIs(ts, i, t, e)
    ensures TermReaches(ts, i, t, e)
  {
  }

  lemma ExprOfTerm(ts: seq<string>, i: nat, t: Formula, e: nat)
    requires TermReaches(ts, i, t, e) && NotAt(ts, e, "and")
    ensures ExprReaches(ts, i, t, e)
  {
    assert ParseAndTail(t, ts, e) == Parsed(t, e);
  }

  /** A term followed by "and" and a factor is a longer term. */
  lemma AndChain(ts: seq<string>, i: nat, j: nat, u: Formula, v: Formula, k: nat)
    requires TermReaches(ts, i, u, j) && j < |ts| && ts[j] == "and" && FactorIs(ts, j + 1, v, k)
    ensures TermReaches(ts, i, And(u, v), k)
  {
    assert ParseAndTail(u, ts, j) == ParseAndTail(And(u, v), ts, k);
  }

  /** An expression followed by "or" and a term that no "and" follows is a longer expression. */
  lemma OrChain(ts: seq<string>, i: nat, j: nat, u: Formula, v: Formula, k: nat)
    requires ExprReaches(ts, i, u, j) && j < |ts| && ts[j] == "or"
    requires TermReaches(ts, j + 1, v, k) && NotAt(ts, k, "and")
    ensures ExprReaches(ts, i, Or(u, v), k)
  {
    assert ParseAndTail(v, ts, k) == Parsed(v, k);
    assert ParseOrTail(u, ts, j) == ParseOrTail(Or(u, v), ts, k);
  }

  /** A term in parentheses is a factor. */
  lemma ParenTerm(ts: seq<string>, i: nat, t: Formula, e: nat)
    requires i < |ts| && ts[i] == "(" && TermReaches(ts, i + 1, t, e) && e < |ts| && ts[e] == ")"
    ensures FactorIs(ts, i, Paren(t), e + 1)
  {
    assert ParseAndTail(t, ts, e) == Parsed(t, e);
    assert ParseFactor(ts, i + 1).Parsed?;
    assert ParseOrTail(t, ts, e) == Parsed(t, e);
  }

  /** An expression in parentheses is a factor. */
  lemma ParenExpr(ts: seq<string>, i: nat, t: Formula, e: nat)
    requires i < |ts| && ts[i] == "(" && ExprReaches(ts, i + 1, t, e) && e < |ts| && ts[e] == ")"
    ensures FactorIs(ts, i, Paren(t), e + 1)
  {
    assert ParseOrTail(t, ts, e) == Parsed(t, e);
    assert ParseTerm(ts, i + 1).Parsed?;
    assert ParseFactor(ts, i + 1).Parsed?;
  }

  lemma FirstToken(ts: seq<string>, i: nat, t: string, w: seq<string>)
    requires At(ts, i, [t] + w)
    ensures i < |ts| && ts[i] == t && At(ts, i + 1, w)
  {
    assert ([t] + w)[1..] == w;
  }

  /** The tokens of p, op and q side by side. */
  lemma SplitOperands(ts: seq<string>, i: nat, p: seq<string>, op: string, q: seq<string>)
    requires At(ts, i, p + [op] + q)
    ensures At(ts, i, p) && i + |p| < |ts| && ts[i + |p|] == op && At(ts, i + |p| + 1, q)
  {
    AtSplit(ts, i, p + [op], q);
    AtSplit(ts, i, p, [op]);
  }

  /** The tokens of body between a pair of parentheses. */
  lemma SplitParens(ts: seq<string>, i: nat, body: seq<string>)
    requires At(ts, i, ["("] + body + [")"])
    ensures i < |ts| && ts[i] == "(" && At(ts, i + 1, body)
    ensures i + 1 + |body| < |ts| && ts[i + 1 + |body|] == ")"
  {
    AtSplit(ts, i, ["("] + body, [")"]);
    FirstToken(ts, i, "(", body);
  }

  // The printed formula read back, one lemma per grammar rule: reading Render(f, level)
  // builds Explicit(f, level).

  lemma {:induction false} FactorRender(f: Formula, ts: seq<string>, i: nat)
    requires Ground(f) && At(ts, i, Render(f, 2))
    ensures FactorIs(ts, i, Explicit(f, 2), i + |Render(f, 2)|)
    decreases f, 2
  {
    match f
    case Atom(name) =>
    case Not(a) =>
      FirstToken(ts, i, "not", Render(a, 2));
      FactorRender(a, ts, i + 1);
      NegatedFactor(ts, i, Explicit(a, 2), i + 1 + |Render(a, 2)|);
    case And(a, b) =>
      AndGroup(a, b, ts, i);
    case Or(a, b) =>
      OrGroup(a, b, ts, i);
    case Paren(a) =>
      ParenGroup(a, ts, i);
    case EmptyTuple =>
      FirstToken(ts, i, "(", [")"]);
      FirstToken(ts, i + 1, ")", []);
  }

  lemma {:induction false} AndGroup(a: Formula, b: Formula, ts: seq<string>, i: nat)
    requires Ground(a) && Ground(b) && At(ts, i, ["("] + (Render(a, 1) + ["and"] + Render(b, 2)) + [")"])
    ensures FactorIs(ts, i, Paren(And(Explicit(a, 1), Explicit(b, 2))),
                     i + 2 + |Render(a, 1) + ["and"] + Render(b, 2)|)
    decreases And(a, b), 1
  {
    var body := Render(a, 1) + ["and"] + Render(b, 2);
    SplitParens(ts, i, body);
    AndBody(a, b, ts, i + 1);
    ParenTerm(ts, i, And(Explicit(a, 1), Explicit(b, 2)), i + 1 + |body|);
  }

  lemma {:induction false} OrGroup(a: Formula, b: Formula, ts: seq<string>, i: nat)
    requires Ground(a) && Ground(b) && At(ts, i, ["("] + (Render(a, 0) + ["or"] + Render(b, 1)) + [")"])
    ensures FactorIs(ts, i, Paren(Or(Explicit(a, 0), Explicit(b, 1))),
                     i + 2 + |Render(a, 0) + ["or"] + Render(b, 1)|)
    decreases Or(a, b), 1
  {
    var body := Render(a, 0) + ["or"] + Render(b, 1);
    SplitParens(ts, i, body);
    OrBody(a, b, ts, i + 1);
    ParenExpr(ts, i, Or(Explicit(a, 0), Explicit(b, 1)), i + 1 + |body|);
  }

  lemma {:induction false} ParenGroup(a: Formula, ts: seq<string>, i: nat)
    requires Ground(a) && At(ts, i, ["("] + Render(a, 0) + [")"])
    ensures FactorIs(ts, i, Paren(Explicit(a, 0)), i + 2 + |Render(a, 0)|)
    decreases Paren(a), 1
  {
    SplitParens(ts, i, Render(a, 0));
    ExprRender(a, 0, ts, i + 1);
    ParenExpr(ts, i, Explicit(a, 0), i + 1 + |Render(a, 0)|);
  }

  /** The body of a printed conjunction, read as a term. */
  lemma {:induction false} AndBody(a: Formula, b: Formula, ts: seq<string>, i: nat)
    requires Ground(a) && Ground(b) && At(ts, i, Render(a, 1) + ["and"] + Render(b, 2))
    ensures TermReaches(ts, i, And(Explicit(a, 1), Explicit(b, 2)),
                        i + |Render(a, 1) + ["and"] + Render(b, 2)|)
    decreases And(a, b), 0
  {
    SplitOperands(ts, i, Render(a, 1), "and", Render(b, 2));
    var j := i + |Render(a, 1)|;
    var k := i + |Render(a, 1) + ["and"] + Render(b, 2)|;
    assert k == j + 1 + |Render(b, 2)|;
    TermRender(a, 1, ts, i);
    FactorRender(b, ts, j + 1);
    AndChain(ts, i, j, Explicit(a, 1), Explicit(b, 2), k);
  }

  /** The body of a printed disjunction, read as an expression, when no "and" follows it. */
  lemma {:induction false} OrBody(a: Formula, b: Formula, ts: seq<string>, i: nat)
    requires Ground(a) && Ground(b) && At(ts, i, Render(a, 0) + ["or"] + Render(b, 1))
    requires NotAt(ts, i + |Render(a, 0) + ["or"] + Render(b, 1)|, "and")
    ensures ExprReaches(ts, i, Or(Explicit(a, 0), Explicit(b, 1)),
                        i + |Render(a, 0) + ["or"] + Render(b, 1)|)
    decreases Or(a, b), 0
  {
    SplitOperands(ts, i, Render(a, 0), "or", Render(b, 1));
    var j := i + |Render(a, 0)|;
    var k := i + |Render(a, 0) + ["or"] + Render(b, 1)|;
    assert k == j + 1 + |Render(b, 1)|;
    assert NotAt(ts, j, "and") by {
      assert ts[j] == "or";
      assert |"or"| != |"and"|;
    }
    ExprRender(a, 0, ts, i);
    TermRender(b, 1, ts, j + 1);
    OrChain(ts, i, j, Explicit(a, 0), Explicit(b, 1), k);
  }

  lemma {:induction false} TermRender(f: Formula, level: nat, ts: seq<string>, i: nat)
    requires Ground(f) && level >= 1 && At(ts, i, Render(f, level))
    ensures TermReaches(ts, i, Explicit(f, level), i + |Render(f, level)|)
    decreases f, 3
  {
    if f.And? && level == 1 {
      AndBody(f.left, f.right, ts, i);
    } else {
      RenderStrongest(f, level);
      FactorRender(f, ts, i);
      TermOfFactor(ts, i, Explicit(f, level), i + |Render(f, level)|);
    }
  }

  /** Above the level of its own operator a formula prints, and is read, as a factor. */
  lemma RenderStrongest(f: Formula, level: nat)
    requires level >= 1 && !(f.And? && level == 1)
    ensures Render(f, level) == Render(f, 2) && Explicit(f, level) == Explicit(f, 2)
  {
  }

  lemma RenderAsTerm(f: Formula, level: nat)
    requires !(f.Or? && level == 0)
    ensures var level' := if level == 0 then 1 else level;
      Render(f, level) == Render(f, level') && Explicit(f, level) == Explicit(f, level')
  {
  }

  /** A printed formula read as an expression, when no "and" follows it. */
  lemma {:induction false} ExprRender(f: Formula, level: nat, ts: seq<string>, i: nat)
    requires Ground(f) && At(ts, i, Render(f, level))
    requires NotAt(ts, i + |Render(f, level)|, "and")
    ensures ExprReaches(ts, i, Explicit(f, level), i + |Render(f, level)|)
    decreases f, 4
  {
    if f.Or? && level == 0 {
      OrBody(f.left, f.right, ts, i);
    } else {
      var level' := if level == 0 then 1 else level;
      RenderAsTerm(f, level);
      TermRender(f, level', ts, i);
      ExprOfTerm(ts, i, Explicit(f, level), i + |Render(f, level)|);
    }
  }

  /** The evaluator reads every printed formula back as that formula with its
      parentheses made explicit, and so computes its standard boolean value: not binds
      tighter than and, and tighter than or, parentheses override, chains group to the
      left, redundant parentheses change nothing and "( )" is false. */
  lemma EvalRender(f: Formula)
    requires Ground(f)
    ensures ParseExpr(Render(f, 0), 0) == Parsed(Explicit(f, 0), |Render(f, 0)|)
    ensures Eval(Render(f, 0)) == Ok(Value(f, LiteralValue))
  {
    var ts := Render(f, 0);
    LiteralOfIsValue(f);
    ExplicitPreserves(f, 0);
    AtRest(ts, 0);
    ExprRender(f, 0, ts, 0);
    assert ParseOrTail(Explicit(f, 0), ts, |ts|) == Parsed(Explicit(f, 0), |ts|);
  }

  // ---------------------------------------------------------------------------
  // The converse: whatever the evaluator accepts is a printed formula

  /** A factor the parser reads is a ground formula, printed as the tokens it spans. */
  lemma {:induction false} FactorPrints(ts: seq<string>, i: nat)
    requires i <= |ts| && ParseFactor(ts, i).Parsed?
    ensures var p := ParseFactor(ts, i);
      Ground(p.tree) && !p.tree.And? && !p.tree.Or? && Render(p.tree, 2) == ts[i..p.next]
    decreases |ts| - i, 0
  {
    var p := ParseFactor(ts, i);
    if ts[i] == "not" {
      var q := ParseFactor(ts, i + 1);
      assert q.Parsed? && p == Parsed(Not(q.tree), q.next);
      FactorPrints(ts, i + 1);
      NotPrints(ts, i, q.tree, q.next);
    } else if ts[i] == "(" && i + 1 < |ts| && ts[i + 1] == ")" {
      assert p == Parsed(EmptyTuple, i + 2);
      assert ts[i..i + 2] == ["(", ")"];
    } else if ts[i] == "(" {
      var q := ParseExpr(ts, i + 1);
      assert q.Parsed? && q.next < |ts| && ts[q.next] == ")";
      assert p == Parsed(Paren(q.tree), q.next + 1);
      ExprPrints(ts, i + 1);
      ParenPrints(ts, i, q.tree, q.next);
    } else {
      assert p == Parsed(Atom(ts[i]), i + 1);
      assert ts[i..i + 1] == [ts[i]];
    }
  }

  lemma NotPrints(ts: seq<string>, i: nat, t: Formula, j: nat)
    requires i < j <= |ts| && ts[i] == "not" && Render(t, 2) == ts[i + 1..j]
    ensures Render(Not(t), 2) == ts[i..j]
  {
    assert ts[i..j] == [ts[i]] + ts[i + 1..j];
  }

  lemma ParenPrints(ts: seq<string>, i: nat, t: Formula, j: nat)
    requires i < j < |ts| && ts[i] == "(" && ts[j] == ")" && Render(t, 0) == ts[i + 1..j]
    ensures Render(Paren(t), 2) == ts[i..j + 1]
  {
    assert ts[i..j] == [ts[i]] + ts[i + 1..j];
    assert ts[i..j + 1] == ts[i..j] + [ts[j]];
  }

  /** The tokens from s to j, cut around position i. */
  lemma SliceAround(ts: seq<string>, s: nat, i: nat, j: nat)
    requires s <= i < j <= |ts|
    ensures ts[s..j] == ts[s..i] + [ts[i]] + ts[i + 1..j]
  {
  }

  /** An and-chain continued from acc, printed as ts[s..i], prints as the tokens from s. */
  lemma {:induction false} AndTailPrints(acc: Formula, ts: seq<string>, s: nat, i: nat)
    requires s <= i <= |ts| && ParseAndTail(acc, ts, i).Parsed?
    requires Ground(acc) && !acc.Or? && Render(acc, 1) == ts[s..i]
    ensures var p := ParseAndTail(acc, ts, i);
      Ground(p.tree) && !p.tree.Or? && Render(p.tree, 1) == ts[s..p.next]
    decreases |ts| - i, 1
  {
    var p := ParseAndTail(acc, ts, i);
    if i < |ts| && ts[i] == "and" {
      var next := ParseFactor(ts, i + 1);
      assert next.Parsed?;
      var u := And(acc, next.tree);
      assert p == ParseAndTail(u, ts, next.next);
      FactorPrints(ts, i + 1);
      assert Render(u, 1) == Render(acc, 1) + ["and"] + Render(next.tree, 2);
      SliceAround(ts, s, i, next.next);
      AndTailPrints(u, ts, s, next.next);
    } else {
      assert p == Parsed(acc, i);
    }
  }

  lemma {:induction false} TermPrints(ts: seq<string>, i: nat)
    requires i <= |ts| && ParseTerm(ts, i).Parsed?
    ensures var p := ParseTerm(ts, i);
      Ground(p.tree) && !p.tree.Or? && Render(p.tree, 1) == ts[i..p.next]
    decreases |ts| - i, 2
  {
    var first := ParseFactor(ts, i);
    FactorPrints(ts, i);
    AndTailPrints(first.tree, ts, i, first.next);
  }

  /** An or-chain continued from acc, printed as ts[s..i], prints as the tokens from s. */
  lemma {:induction false} OrTailPrints(acc: Formula, ts: seq<string>, s: nat, i: nat)
    requires s <= i <= |ts| && ParseOrTail(acc, ts, i).Parsed?
    requires Ground(acc) && Render(acc, 0) == ts[s..i]
    ensures var p := ParseOrTail(acc, ts, i);
      Ground(p.tree) && Render(p.tree, 0) == ts[s..p.next]
    decreases |ts| - i, 3
  {
    var p := ParseOrTail(acc, ts, i);
    if i < |ts| && ts[i] == "or" {
      var next := ParseTerm(ts, i + 1);
      assert next.Parsed?;
      var u := Or(acc, next.tree);
      assert p == ParseOrTail(u, ts, next.next);
      TermPrints(ts, i + 1);
      assert Render(u, 0) == Render(acc, 0) + ["or"] + Render(next.tree, 1);
      SliceAround(ts, s, i, next.next);
      OrTailPrints(u, ts, s, next.next);
    } else {
      assert p == Parsed(acc, i);
    }
  }

  lemma {:induction false} ExprPrints(ts: seq<string>, i: nat)
    requires i <= |ts| && ParseExpr(ts, i).Parsed?
    ensures var p := ParseExpr(ts, i);
      Ground(p.tree) && Render(p.tree, 0) == ts[i..p.next]
    decreases |ts| - i, 4
  {
    var first := ParseTerm(ts, i);
    TermPrints(ts, i);
    OrTailPrints(first.tree, ts, i, first.next);
  }

  /** Exactly the streams that print a ground formula are accepted, and each with
      that formula's standard value. */
  lemma EvalAccepts(ts: seq<string>, v: bool)
    ensures Eval(ts) == Ok(v) <==>
      exists f :: Ground(f) && Render(f, 0) == ts && Value(f, LiteralValue) == v
  {
    if Eval(ts) == Ok(v) {
      var p := ParseExpr(ts, 0);
      ExprPrints(ts, 0);
      assert ts[0..p.next] == ts;
      LiteralOfIsValue(p.tree);
      assert Ground(p.tree) && Render(p.tree, 0) == ts && Value(p.tree, LiteralValue) == v;
    }
    if exists f :: Ground(f) && Render(f, 0) == ts && Value(f, LiteralValue) == v {
      var f :| Ground(f) && Render(f, 0) == ts && Value(f, LiteralValue) == v;
      EvalRender(f);
    }
  }

  // ---------------------------------------------------------------------------
  // Parentheses: a stream the evaluator accepts is balanced

  function Delta(t: string): int {
    if t == "(" then 1 else if t == ")" then -1 else 0
  }

  /** Open parentheses minus close parentheses. */
  function Depth(ts: seq<string>): int {
    if ts == [] then 0 else Delta(ts[0]) + Depth(ts[1..])
  }

  /** Every prefix opens at least as many parentheses as it closes, and the whole closes them all. */
  predicate Balanced(ts: seq<string>) {
    Depth(ts) == 0 && forall k :: 0 <= k <= |ts| ==> Depth(ts[..k]) >= 0
  }

  lemma {:induction false} DepthAppend(a: seq<string>, b: seq<string>)
    ensures Depth(a + b) == Depth(a) + Depth(b)
    decreases |a|
  {
    if a == [] {
      assert a + b == b;
    } else {
      assert (a + b)[1..] == a[1..] + b;
      DepthAppend(a[1..], b);
    }
  }

  lemma BalancedAppend(a: seq<string>, b: seq<string>)
    requires Balanced(a) && Balanced(b)
    ensures Balanced(a + b)
  {
    DepthAppend(a, b);
    forall k | 0 <= k <= |a + b| ensures Depth((a + b)[..k]) >= 0 {
      if k <= |a| {
        assert (a + b)[..k] == a[..k];
      } else {
        assert (a + b)[..k] == a + b[..k - |a|];
        DepthAppend(a, b[..k - |a|]);
      }
    }
  }

  lemma BalancedGroup(a: seq<string>)
    requires Balanced(a)
    ensures Balanced(["("] + a + [")"])
  {
    var g := ["("] + a + [")"];
    DepthAppend(["("] + a, [")"]);
    forall k | 0 <= k <= |g| ensures Depth(g[..k]) >= 0 {
      if 0 < k <= |a| + 1 {
        assert g[..k] == ["("] + a[..k - 1];
      } else if k == |g| {
        assert g[..k] == g;
      }
    }
  }

  lemma BalancedSlices(ts: seq<string>, i: nat, j: nat, k: nat)
    requires i <= j <= k <= |ts| && Balanced(ts[i..j]) && Balanced(ts[j..k])
    ensures Balanced(ts[i..k])
  {
    assert ts[i..k] == ts[i..j] + ts[j..k];
    BalancedAppend(ts[i..j], ts[j..k]);
  }

  lemma BalancedSingle(t: string)
    requires Delta(t) == 0
    ensures Balanced([t])
  {
    assert Depth([t]) == Delta(t) + Depth([]);
    assert [t][..0] == [] && [t][..1] == [t];
  }

  lemma {:induction false} FactorBalanced(ts: seq<string>, i: nat)
    requires i <= |ts| && ParseFactor(ts, i).Parsed?
    ensures Balanced(ts[i..ParseFactor(ts, i).next])
    decreases |ts| - i, 0
  {
    var j := ParseFactor(ts, i).next;
    if ts[i] == "not" {
      FactorBalanced(ts, i + 1);
      BalancedSingle("not");
      assert ts[i..i + 1] == ["not"];
      BalancedSlices(ts, i, i + 1, j);
    } else if ts[i] == "(" && i + 1 < |ts| && ts[i + 1] == ")" {
      assert ts[i..j] == ["("] + [] + [")"];
      BalancedGroup([]);
    } else if ts[i] == "(" {
      var inner := ParseExpr(ts, i + 1).next;
      ExprBalanced(ts, i + 1);
      assert ts[i..j] == ["("] + ts[i + 1..inner] + [")"];
      BalancedGroup(ts[i + 1..inner]);
    } else {
      assert ts[i..j] == [ts[i]];
      BalancedSingle(ts[i]);
    }
  }

  lemma {:induction false} AndTailBalanced(acc: Formula, ts: seq<string>, i: nat)
    requires i <= |ts| && ParseAndTail(acc, ts, i).Parsed?
    ensures Balanced(ts[i..ParseAndTail(acc, ts, i).next])
    decreases |ts| - i, 1
  {
    var k := ParseAndTail(acc, ts, i).next;
    if i < |ts| && ts[i] == "and" {
      var next := ParseFactor(ts, i + 1);
      FactorBalanced(ts, i + 1);
      AndTailBalanced(And(acc, next.tree), ts, next.next);
      BalancedSingle("and");
      assert ts[i..i + 1] == ["and"];
      BalancedSlices(ts, i, i + 1, next.next);
      BalancedSlices(ts, i, next.next, k);
    } else {
      assert ts[i..k] == [];
    }
  }

  lemma {:induction false} TermBalanced(ts: seq<string>, i: nat)
    requires i <= |ts| && ParseTerm(ts, i).Parsed?
    ensures Balanced(ts[i..ParseTerm(ts, i).next])
    decreases |ts| - i, 2
  {
    var first := ParseFactor(ts, i);
    FactorBalanced(ts, i);
    AndTailBalanced(first.tree, ts, first.next);
    BalancedSlices(ts, i, first.next, ParseTerm(ts, i).next);
  }

  lemma {:induction false} OrTailBalanced(acc: Formula, ts: seq<string>, i: nat)
    requires i <= |ts| && ParseOrTail(acc, ts, i).Parsed?
    ensures Balanced(ts[i..ParseOrTail(acc, ts, i).next])
    decreases |ts| - i, 3
  {
    var k := ParseOrTail(acc, ts, i).next;
    if i < |ts| && ts[i] == "or" {
      var next := ParseTerm(ts, i + 1);
      TermBalanced(ts, i + 1);
      OrTailBalanced(Or(acc, next.tree), ts, next.next);
      BalancedSingle("or");
      assert ts[i..i + 1] == ["or"];
      BalancedSlices(ts, i, i + 1, next.next);
      BalancedSlices(ts, i, next.next, k);
    } else {
      assert ts[i..k] == [];
    }
  }

  lemma {:induction false} ExprBalanced(ts: seq<string>, i: nat)
    requires i <= |ts| && ParseExpr(ts, i).Parsed?
    ensures Balanced(ts[i..ParseExpr(ts, i).next])
    decreases |ts| - i, 4
  {
    var first := ParseTerm(ts, i);
    TermBalanced(ts, i);
    OrTailBalanced(first.tree, ts, first.next);
    BalancedSlices(ts, i, first.next, ParseExpr(ts, i).next);
  }

  /** Unbalanced parentheses are always Malformed: any stream the evaluator accepts is balanced. */
  lemma EvalBalanced(ts: seq<string>)
    ensures Eval(ts).Ok? ==> Balanced(ts)
  {
    if Eval(ts).Ok? {
      ExprBalanced(ts, 0);
      assert ts[0..|ts|] == ts;
    }
  }
}
