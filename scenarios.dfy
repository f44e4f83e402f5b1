/** Worked expressions: what evaluate gives for particular strings, each derived from
    the general lemmas about the lexer, the resolver and the evaluator. The lemmas
    with name parameters hold for any operand names and any callback; the examples
    instantiate them with the default callback. */
module Scenarios {
  import opened Tokens
  import opened Lexer
  import opened Evaluator
  import opened BoolParse

  // ---------------------------------------------------------------------------
  // Tools

  /** The words of e, split at whitespace, scan to the tokens of a formula over names
      the callback answers: then e evaluates to the formula's value. */
  lemma PrintedWith(f: Formula, words: seq<string>, e: string, callback: string -> Returned)
    requires forall n :: n in Atoms(f) ==> IsName(n) && callback(n).Boolean?
    requires forall i :: 0 <= i < |words| ==> words[i] != [] && NoSpace(words[i])
    requires Join(words, " ") == e && Scan(words) == Render(f, 0)
    ensures Evaluate(e, callback) == Ok(Value(f, n => Truth(callback, n)))
  {
    RawTokensOfWords(words, " ");
    PrintedTokens(f, e, callback);
  }

  /** An expression whose raw tokens are those of a formula over names the callback
      answers evaluates to the formula's value. */
  lemma PrintedTokens(f: Formula, e: string, callback: string -> Returned)
    requires forall n :: n in Atoms(f) ==> IsName(n) && callback(n).Boolean?
    requires RawTokens(e) == Render(f, 0)
    ensures Evaluate(e, callback) == Ok(Value(f, n => Truth(callback, n)))
  {
    RenderScansBack(f);
    SameTokens(e, Join(Render(f, 0), " "), callback);
    EvaluateRender(f, callback);
  }

  lemma ResolveName(n: string, callback: string -> Returned)
    requires IsName(n) && callback(n).Boolean?
    ensures ResolveAll([n], callback) == Ok([Literal(callback(n).value)])
  {
    NameIsOperand(n);
    ResolveAllSnoc([], n, callback);
    assert [] + [n] == [n];
    assert ResolveAll([n], callback) == Ok([] + [Literal(callback(n).value)]);
    assert [] + [Literal(callback(n).value)] == [Literal(callback(n).value)];
  }

  /** The same under the default callback, which answers every name. */
  lemma Printed(f: Formula, words: seq<string>, e: string, v: bool)
    requires forall n :: n in Atoms(f) ==> IsName(n)
    requires Value(f, n => Truth(DefaultCallback, n)) == v
    requires forall i :: 0 <= i < |words| ==> words[i] != [] && NoSpace(words[i])
    requires Join(words, " ") == e && Scan(words) == Render(f, 0)
    ensures Evaluate(e, DefaultCallback) == Ok(v)
  {
    forall n | n in Atoms(f)
      ensures DefaultCallback(n).Boolean?
    {
      DefaultCallbackTruth(n);
    }
    PrintedWith(f, words, e, DefaultCallback);
  }

  lemma NameTrue() ensures IsName("true") {}
  lemma NameFalse() ensures IsName("false") {}

  lemma OperatorWords()
    ensures WordLike("and") && WordLike("or") && WordLike("not") && WordLike("(") && WordLike(")")
  {
  }

  /** Words that are already tokens: their scan is themselves. */
  lemma Plain(ws: seq<string>)
    requires forall i :: 0 <= i < |ws| ==> WordLike(ws[i])
    ensures forall i :: 0 <= i < |ws| ==> ws[i] != [] && NoSpace(ws[i])
    ensures Scan(ws) == ws
  {
    ScanOfWordLike(ws);
  }

  lemma NoSpaceAround(x: string, y: string)
    requires NoSpace(x) && NoSpace(y)
    ensures NoSpace(x + y)
  {
  }

  lemma CutStep(ws: seq<string>, ws': seq<string>, pre: seq<string>, u: string, p: char, v: string, post: seq<string>)
    requires IsParen(p) && ws == pre + [u + [p] + v] + post && ws' == pre + [u, [p], v] + post
    ensures Scan(ws) == Scan(ws')
  {
    ScanCutsAtParen(pre, u, p, v, post);
  }

  lemma DropStep(ws: seq<string>, ws': seq<string>, pre: seq<string>, post: seq<string>)
    requires ws == pre + [[]] + post && ws' == pre + post
    ensures Scan(ws) == Scan(ws')
  {
    ScanDropsEmpty(pre, post);
  }

  // ---------------------------------------------------------------------------
  // "true and false"

  lemma ConjunctionFacts(f: Formula, ws: seq<string>)
    requires f == And(Atom("true"), Atom("false")) && ws == ["true", "and", "false"]
    ensures forall n :: n in Atoms(f) ==> IsName(n)
    ensures !Value(f, n => Truth(DefaultCallback, n))
    ensures forall i :: 0 <= i < |ws| ==> WordLike(ws[i])
    ensures Render(f, 0) == ws
  {
    NameTrue();
    NameFalse();
    OperatorWords();
    DefaultCallbackExamples();
  }

  lemma ConjunctionText()
    ensures Join(["true", "and", "false"], " ") == "true and false"
  {
    JoinCons("and", ["false"], " ");
    JoinCons("true", ["and", "false"], " ");
  }

  /** "and" of the two literals the default callback understands. */
  lemma Conjunction()
    ensures Evaluate("true and false", DefaultCallback) == Ok(false)
  {
    var f := And(Atom("true"), Atom("false"));
    var ws := ["true", "and", "false"];
    ConjunctionFacts(f, ws);
    ConjunctionText();
    Plain(ws);
    Printed(f, ws, "true and false", false);
  }

  // ---------------------------------------------------------------------------
  // "true or false and false"

  lemma AndFirstFacts(f: Formula, ws: seq<string>)
    requires f == Or(Atom("true"), And(Atom("false"), Atom("false")))
    requires ws == ["true", "or", "false", "and", "false"]
    ensures forall n :: n in Atoms(f) ==> IsName(n)
    ensures Value(f, n => Truth(DefaultCallback, n))
    ensures forall i :: 0 <= i < |ws| ==> WordLike(ws[i])
    ensures Render(f, 0) == ws
  {
    NameTrue();
    NameFalse();
    OperatorWords();
    DefaultCallbackExamples();
  }

  lemma AndFirstText()
    ensures Join(["true", "or", "false", "and", "false"], " ") == "true or false and false"
  {
    JoinCons("and", ["false"], " ");
    JoinCons("false", ["and", "false"], " ");
    JoinCons("or", ["false", "and", "false"], " ");
    JoinCons("true", ["or", "false", "and", "false"], " ");
  }

  /** "and" binds tighter than "or": the expression is true or (false and false). */
  lemma AndBindsTighter()
    ensures Evaluate("true or false and false", DefaultCallback) == Ok(true)
  {
    var f := Or(Atom("true"), And(Atom("false"), Atom("false")));
    var ws := ["true", "or", "false", "and", "false"];
    AndFirstFacts(f, ws);
    AndFirstText();
    Plain(ws);
    Printed(f, ws, "true or false and false", true);
  }

  // ---------------------------------------------------------------------------
  // "not false and false"

  lemma NotFirstFacts(f: Formula, ws: seq<string>)
    requires f == And(Not(Atom("false")), Atom("false"))
    requires ws == ["not", "false", "and", "false"]
    ensures forall n :: n in Atoms(f) ==> IsName(n)
    ensures !Value(f, n => Truth(DefaultCallback, n))
    ensures forall i :: 0 <= i < |ws| ==> WordLike(ws[i])
    ensures Render(f, 0) == ws
  {
    NameFalse();
    OperatorWords();
    DefaultCallbackExamples();
  }

  lemma NotFirstText()
    ensures Join(["not", "false", "and", "false"], " ") == "not false and false"
  {
    JoinCons("and", ["false"], " ");
    JoinCons("false", ["and", "false"], " ");
    JoinCons("not", ["false", "and", "false"], " ");
  }

  /** "not" binds tighter than "and": the expression is (not false) and false. */
  lemma NotBindsTighter()
    ensures Evaluate("not false and false", DefaultCallback) == Ok(false)
  {
    var f := And(Not(Atom("false")), Atom("false"));
    var ws := ["not", "false", "and", "false"];
    NotFirstFacts(f, ws);
    NotFirstText();
    Plain(ws);
    Printed(f, ws, "not false and false", false);
  }

  // ---------------------------------------------------------------------------
  // "not (a or b)": parentheses written against the names

  lemma NegatedGroupText(a: string, b: string)
    ensures Join(["not", "(" + a, "or", b + ")"], " ") == "not (" + a + " or " + b + ")"
  {
    JoinCons("or", [b + ")"], " ");
    JoinCons("(" + a, ["or", b + ")"], " ");
    JoinCons("not", ["(" + a, "or", b + ")"], " ");
    assert ["not"] + ["(" + a, "or", b + ")"] == ["not", "(" + a, "or", b + ")"];
    assert ["(" + a] + ["or", b + ")"] == ["(" + a, "or", b + ")"];
    assert ["or"] + [b + ")"] == ["or", b + ")"];
    assert "not" + " " + ("(" + a) + " " + "or" + " " + (b + ")") == "not (" + a + " or " + b + ")";
  }

  lemma NegatedGroupWords(a: string, b: string, ws: seq<string>)
    requires IsName(a) && IsName(b) && ws == ["not", "(" + a, "or", b + ")"]
    ensures forall i :: 0 <= i < |ws| ==> ws[i] != [] && NoSpace(ws[i])
  {
    NoSpaceAround("(", a);
    NoSpaceAround(b, ")");
  }

  lemma NegatedGroupCutOpen(a: string, b: string)
    ensures Scan(["not", "(" + a, "or", b + ")"]) == Scan(["not", "(", a, "or", b + ")"])
  {
    assert [] + ['('] + a == "(" + a;
    CutStep(["not", "(" + a, "or", b + ")"], ["not", [], "(", a, "or", b + ")"], ["not"], [], '(', a, ["or", b + ")"]);
    DropStep(["not", [], "(", a, "or", b + ")"], ["not", "(", a, "or", b + ")"], ["not"], ["(", a, "or", b + ")"]);
  }

  lemma NegatedGroupCutClose(a: string, b: string)
    ensures Scan(["not", "(", a, "or", b + ")"]) == Scan(["not", "(", a, "or", b, ")"])
  {
    assert b + [')'] + [] == b + ")";
    CutStep(["not", "(", a, "or", b + ")"], ["not", "(", a, "or", b, ")", []], ["not", "(", a, "or"], b, ')', [], []);
    DropStep(["not", "(", a, "or", b, ")", []], ["not", "(", a, "or", b, ")"], ["not", "(", a, "or", b, ")"], []);
  }

  lemma NegatedGroupTokens(a: string, b: string)
    requires IsName(a) && IsName(b)
    ensures Scan(["not", "(", a, "or", b, ")"]) == ["not", "(", a, "or", b, ")"]
  {
    OperatorWords();
    ScanOfWordLike(["not", "(", a, "or", b, ")"]);
  }

  lemma NegatedGroupScan(a: string, b: string)
    requires IsName(a) && IsName(b)
    ensures Scan(["not", "(" + a, "or", b + ")"]) == ["not", "(", a, "or", b, ")"]
  {
    NegatedGroupCutOpen(a, b);
    NegatedGroupCutClose(a, b);
    NegatedGroupTokens(a, b);
  }

  lemma NegatedGroupRender(a: string, b: string, callback: string -> Returned)
    ensures Render(Not(Or(Atom(a), Atom(b))), 0) == ["not", "(", a, "or", b, ")"]
    ensures Atoms(Not(Or(Atom(a), Atom(b)))) == {a, b}
    ensures Value(Not(Or(Atom(a), Atom(b))), n => Truth(callback, n))
         == !(Truth(callback, a) || Truth(callback, b))
  {
    assert Render(Or(Atom(a), Atom(b)), 2) == ["(", a, "or", b, ")"];
    assert Atoms(Or(Atom(a), Atom(b))) == {a, b};
    assert Value(Or(Atom(a), Atom(b)), n => Truth(callback, n)) == (Truth(callback, a) || Truth(callback, b));
  }

  /** Parentheses attached to the names they enclose group as usual, and "not" applies
      to the whole group. */
  lemma NegatedGroup(a: string, b: string, callback: string -> Returned)
    requires IsName(a) && IsName(b) && callback(a).Boolean? && callback(b).Boolean?
    ensures Evaluate("not (" + a + " or " + b + ")", callback)
         == Ok(!(Truth(callback, a) || Truth(callback, b)))
  {
    var f := Not(Or(Atom(a), Atom(b)));
    var ws := ["not", "(" + a, "or", b + ")"];
    NegatedGroupText(a, b);
    NegatedGroupWords(a, b, ws);
    NegatedGroupScan(a, b);
    NegatedGroupRender(a, b, callback);
    PrintedWith(f, ws, "not (" + a + " or " + b + ")", callback);
  }

  lemma NegatedGroupExampleText()
    ensures "not (" + "true" + " or " + "false" + ")" == "not (true or false)"
  {
  }

  lemma NegatedGroupExample()
    ensures Evaluate("not (true or false)", DefaultCallback) == Ok(false)
  {
    NameTrue();
    NameFalse();
    DefaultCallbackExamples();
    NegatedGroupExampleText();
    NegatedGroup("true", "false", DefaultCallback);
  }

  // ---------------------------------------------------------------------------
  // "not (a and (b or c))": nested groups

  lemma NestedText(a: string, b: string, c: string)
    ensures Join(["not", "(" + a, "and", "(" + b, "or", c + "))"], " ")
         == "not (" + a + " and (" + b + " or " + c + "))"
  {
    JoinCons("or", [c + "))"], " ");
    JoinCons("(" + b, ["or", c + "))"], " ");
    JoinCons("and", ["(" + b, "or", c + "))"], " ");
    JoinCons("(" + a, ["and", "(" + b, "or", c + "))"], " ");
    JoinCons("not", ["(" + a, "and", "(" + b, "or", c + "))"], " ");
    assert ["not"] + ["(" + a, "and", "(" + b, "or", c + "))"] == ["not", "(" + a, "and", "(" + b, "or", c + "))"];
    assert ["(" + a] + ["and", "(" + b, "or", c + "))"] == ["(" + a, "and", "(" + b, "or", c + "))"];
    assert ["and"] + ["(" + b, "or", c + "))"] == ["and", "(" + b, "or", c + "))"];
    assert ["(" + b] + ["or", c + "))"] == ["(" + b, "or", c + "))"];
    assert ["or"] + [c + "))"] == ["or", c + "))"];
    NestedConcat(a, b, c);
  }

  lemma NestedConcat(a: string, b: string, c: string)
    ensures "not" + " " + (("(" + a) + " " + ("and" + " " + (("(" + b) + " " + ("or" + " " + (c + "))")))))
         == "not (" + a + " and (" + b + " or " + c + "))"
  {
  }

  lemma NestedWords(a: string, b: string, c: string, ws: seq<string>)
    requires IsName(a) && IsName(b) && IsName(c)
    requires ws == ["not", "(" + a, "and", "(" + b, "or", c + "))"]
    ensures forall i :: 0 <= i < |ws| ==> ws[i] != [] && NoSpace(ws[i])
  {
    NoSpaceAround("(", a);
    NoSpaceAround("(", b);
    NoSpaceAround(c, "))");
  }

  lemma NestedCutFirst(a: string, b: string, c: string)
    ensures Scan(["not", "(" + a, "and", "(" + b, "or", c + "))"])
         == Scan(["not", "(", a, "and", "(" + b, "or", c + "))"])
  {
    assert [] + ['('] + a == "(" + a;
    CutStep(["not", "(" + a, "and", "(" + b, "or", c + "))"], ["not", [], "(", a, "and", "(" + b, "or", c + "))"],
            ["not"], [], '(', a, ["and", "(" + b, "or", c + "))"]);
    DropStep(["not", [], "(", a, "and", "(" + b, "or", c + "))"], ["not", "(", a, "and", "(" + b, "or", c + "))"],
             ["not"], ["(", a, "and", "(" + b, "or", c + "))"]);
  }

  lemma NestedCutSecond(a: string, b: string, c: string)
    ensures Scan(["not", "(", a, "and", "(" + b, "or", c + "))"])
         == Scan(["not", "(", a, "and", "(", b, "or", c + "))"])
  {
    assert [] + ['('] + b == "(" + b;
    CutStep(["not", "(", a, "and", "(" + b, "or", c + "))"], ["not", "(", a, "and", [], "(", b, "or", c + "))"],
            ["not", "(", a, "and"], [], '(', b, ["or", c + "))"]);
    DropStep(["not", "(", a, "and", [], "(", b, "or", c + "))"], ["not", "(", a, "and", "(", b, "or", c + "))"],
             ["not", "(", a, "and"], ["(", b, "or", c + "))"]);
  }

  lemma NestedCutClose(a: string, b: string, c: string)
    ensures Scan(["not", "(", a, "and", "(", b, "or", c + "))"])
         == Scan(["not", "(", a, "and", "(", b, "or", c, ")", ")"])
  {
    assert c + [')'] + ")" == c + "))";
    CutStep(["not", "(", a, "and", "(", b, "or", c + "))"], ["not", "(", a, "and", "(", b, "or", c, ")", ")"],
            ["not", "(", a, "and", "(", b, "or"], c, ')', ")", []);
  }

  lemma NestedTokens(a: string, b: string, c: string)
    requires IsName(a) && IsName(b) && IsName(c)
    ensures Scan(["not", "(", a, "and", "(", b, "or", c, ")", ")"])
         == ["not", "(", a, "and", "(", b, "or", c, ")", ")"]
  {
    OperatorWords();
    ScanOfWordLike(["not", "(", a, "and", "(", b, "or", c, ")", ")"]);
  }

  lemma NestedScan(a: string, b: string, c: string)
    requires IsName(a) && IsName(b) && IsName(c)
    ensures Scan(["not", "(" + a, "and", "(" + b, "or", c + "))"])
         == ["not", "(", a, "and", "(", b, "or", c, ")", ")"]
  {
    NestedCutFirst(a, b, c);
    NestedCutSecond(a, b, c);
    NestedCutClose(a, b, c);
    NestedTokens(a, b, c);
  }

  lemma NestedRender(a: string, b: string, c: string, callback: string -> Returned)
    ensures Render(Not(And(Atom(a), Or(Atom(b), Atom(c)))), 0)
         == ["not", "(", a, "and", "(", b, "or", c, ")", ")"]
    ensures Atoms(Not(And(Atom(a), Or(Atom(b), Atom(c))))) == {a, b, c}
    ensures Value(Not(And(Atom(a), Or(Atom(b), Atom(c)))), n => Truth(callback, n))
         == !(Truth(callback, a) && (Truth(callback, b) || Truth(callback, c)))
  {
    var g := Or(Atom(b), Atom(c));
    assert Render(g, 2) == ["(", b, "or", c, ")"];
    assert Render(And(Atom(a), g), 2) == ["(", a, "and", "(", b, "or", c, ")", ")"];
    assert Atoms(g) == {b, c};
    assert Atoms(And(Atom(a), g)) == {a, b, c};
    assert Value(g, n => Truth(callback, n)) == (Truth(callback, b) || Truth(callback, c));
    assert Value(And(Atom(a), g), n => Truth(callback, n))
        == (Truth(callback, a) && (Truth(callback, b) || Truth(callback, c)));
  }

  /** Groups nest: the inner group is an operand of "and", the outer one of "not". */
  lemma NestedGroups(a: string, b: string, c: string, callback: string -> Returned)
    requires IsName(a) && IsName(b) && IsName(c)
    requires callback(a).Boolean? && callback(b).Boolean? && callback(c).Boolean?
    ensures Evaluate("not (" + a + " and (" + b + " or " + c + "))", callback)
         == Ok(!(Truth(callback, a) && (Truth(callback, b) || Truth(callback, c))))
  {
    var f := Not(And(Atom(a), Or(Atom(b), Atom(c))));
    var ws := ["not", "(" + a, "and", "(" + b, "or", c + "))"];
    NestedText(a, b, c);
    NestedWords(a, b, c, ws);
    NestedScan(a, b, c);
    NestedRender(a, b, c, callback);
    PrintedWith(f, ws, "not (" + a + " and (" + b + " or " + c + "))", callback);
  }

  lemma NestedExampleText()
    ensures "not (" + "true" + " and (" + "false" + " or " + "true" + "))" == "not (true and (false or true))"
  {
  }

  /** The inner group is true, so the conjunction is true and its negation false. */
  lemma NestedExample()
    ensures Evaluate("not (true and (false or true))", DefaultCallback) == Ok(false)
  {
    NameTrue();
    NameFalse();
    DefaultCallbackExamples();
    NestedExampleText();
    NestedGroups("true", "false", "true", DefaultCallback);
  }

  // ---------------------------------------------------------------------------
  // "( a and b ) or c" and "( a )": parentheses that precedence does not need

  lemma RedundantGroupRender(a: string, b: string, c: string, callback: string -> Returned)
    ensures Render(Or(Paren(And(Atom(a), Atom(b))), Atom(c)), 0) == ["(", a, "and", b, ")", "or", c]
    ensures Atoms(Or(Paren(And(Atom(a), Atom(b))), Atom(c))) == {a, b, c}
    ensures Value(Or(Paren(And(Atom(a), Atom(b))), Atom(c)), n => Truth(callback, n))
         == ((Truth(callback, a) && Truth(callback, b)) || Truth(callback, c))
  {
    assert Render(And(Atom(a), Atom(b)), 0) == [a, "and", b];
    assert Render(Paren(And(Atom(a), Atom(b))), 0) == ["(", a, "and", b, ")"];
    assert Atoms(Paren(And(Atom(a), Atom(b)))) == Atoms(And(Atom(a), Atom(b))) == {a, b};
    assert Value(Paren(And(Atom(a), Atom(b))), n => Truth(callback, n))
        == Value(And(Atom(a), Atom(b)), n => Truth(callback, n))
        == (Truth(callback, a) && Truth(callback, b));
  }

  lemma RedundantGroupText(a: string, b: string, c: string)
    ensures Join(["(", a, "and", b, ")", "or", c], " ") == "( " + a + " and " + b + " ) or " + c
  {
    JoinCons("or", [c], " ");
    JoinCons(")", ["or", c], " ");
    JoinCons(b, [")", "or", c], " ");
    JoinCons("and", [b, ")", "or", c], " ");
    JoinCons(a, ["and", b, ")", "or", c], " ");
    JoinCons("(", [a, "and", b, ")", "or", c], " ");
    assert ["("] + [a, "and", b, ")", "or", c] == ["(", a, "and", b, ")", "or", c];
    assert [a] + ["and", b, ")", "or", c] == [a, "and", b, ")", "or", c];
    assert ["and"] + [b, ")", "or", c] == ["and", b, ")", "or", c];
    assert [b] + [")", "or", c] == [b, ")", "or", c];
    assert [")"] + ["or", c] == [")", "or", c];
    assert ["or"] + [c] == ["or", c];
    RedundantGroupConcat(a, b, c);
  }

  lemma RedundantGroupConcat(a: string, b: string, c: string)
    ensures "(" + " " + (a + " " + ("and" + " " + (b + " " + (")" + " " + ("or" + " " + c)))))
         == "( " + a + " and " + b + " ) or " + c
  {
  }

  /** Parentheses around a conjunction that binds tighter anyway change nothing. */
  lemma RedundantGroup(a: string, b: string, c: string, callback: string -> Returned)
    requires IsName(a) && IsName(b) && IsName(c)
    requires callback(a).Boolean? && callback(b).Boolean? && callback(c).Boolean?
    ensures Evaluate("( " + a + " and " + b + " ) or " + c, callback)
         == Ok((Truth(callback, a) && Truth(callback, b)) || Truth(callback, c))
  {
    RedundantGroupText(a, b, c);
    RedundantGroupRender(a, b, c, callback);
    EvaluateRender(Or(Paren(And(Atom(a), Atom(b))), Atom(c)), callback);
  }

  lemma SingleGroupText(a: string)
    ensures Join(["(", a, ")"], " ") == "( " + a + " )"
  {
    JoinCons(a, [")"], " ");
    JoinCons("(", [a, ")"], " ");
    assert ["("] + [a, ")"] == ["(", a, ")"];
    assert [a] + [")"] == [a, ")"];
  }

  /** A single operand in parentheses is that operand. */
  lemma SingleGroup(a: string, callback: string -> Returned)
    requires IsName(a) && callback(a).Boolean?
    ensures Evaluate("( " + a + " )", callback) == Ok(Truth(callback, a))
  {
    SingleGroupText(a);
    assert Render(Paren(Atom(a)), 0) == ["(", a, ")"];
    assert Atoms(Paren(Atom(a))) == {a};
    EvaluateRender(Paren(Atom(a)), callback);
  }

  // ---------------------------------------------------------------------------
  // Spacing around parentheses and between words

  lemma AttachedText(a: string, b: string)
    ensures Join([a, "and", "(" + b + ")"], " ") == a + " and (" + b + ")"
  {
    JoinCons("and", ["(" + b + ")"], " ");
    JoinCons(a, ["and", "(" + b + ")"], " ");
    assert [a] + ["and", "(" + b + ")"] == [a, "and", "(" + b + ")"];
    assert ["and"] + ["(" + b + ")"] == ["and", "(" + b + ")"];
    assert a + " " + ("and" + " " + ("(" + b + ")")) == a + " and (" + b + ")";
  }

  lemma AttachedWords(a: string, b: string, ws: seq<string>)
    requires IsName(a) && IsName(b) && ws == [a, "and", "(" + b + ")"]
    ensures forall i :: 0 <= i < |ws| ==> ws[i] != [] && NoSpace(ws[i])
  {
    NoSpaceAround("(", b);
    NoSpaceAround("(" + b, ")");
  }

  lemma AttachedCutOpen(a: string, b: string)
    ensures Scan([a, "and", "(" + b + ")"]) == Scan([a, "and", "(", b + ")"])
  {
    assert [] + ['('] + (b + ")") == "(" + b + ")";
    CutStep([a, "and", "(" + b + ")"], [a, "and", [], "(", b + ")"], [a, "and"], [], '(', b + ")", []);
    DropStep([a, "and", [], "(", b + ")"], [a, "and", "(", b + ")"], [a, "and"], ["(", b + ")"]);
  }

  lemma AttachedCutClose(a: string, b: string)
    ensures Scan([a, "and", "(", b + ")"]) == Scan([a, "and", "(", b, ")"])
  {
    assert b + [')'] + [] == b + ")";
    CutStep([a, "and", "(", b + ")"], [a, "and", "(", b, ")", []], [a, "and", "("], b, ')', [], []);
    DropStep([a, "and", "(", b, ")", []], [a, "and", "(", b, ")"], [a, "and", "(", b, ")"], []);
  }

  lemma GroupedTokens(a: string, b: string, ws: seq<string>)
    requires IsName(a) && IsName(b) && ws == [a, "and", "(", b, ")"]
    ensures forall i :: 0 <= i < |ws| ==> WordLike(ws[i])
  {
    OperatorWords();
  }

  /** "a and (b)" scans to the tokens a, and, (, b, ). */
  lemma AttachedTokens(a: string, b: string)
    requires IsName(a) && IsName(b)
    ensures RawTokens(a + " and (" + b + ")") == [a, "and", "(", b, ")"]
  {
    var ws := [a, "and", "(" + b + ")"];
    AttachedText(a, b);
    AttachedWords(a, b, ws);
    RawTokensOfWords(ws, " ");
    AttachedCutOpen(a, b);
    AttachedCutClose(a, b);
    GroupedTokens(a, b, [a, "and", "(", b, ")"]);
    ScanOfWordLike([a, "and", "(", b, ")"]);
  }

  lemma SpacedText(a: string, b: string)
    ensures Join([a, "and", "(", b, ")"], " ") == a + " and ( " + b + " )"
  {
    JoinCons(b, [")"], " ");
    JoinCons("(", [b, ")"], " ");
    JoinCons("and", ["(", b, ")"], " ");
    JoinCons(a, ["and", "(", b, ")"], " ");
    assert [a] + ["and", "(", b, ")"] == [a, "and", "(", b, ")"];
    assert ["and"] + ["(", b, ")"] == ["and", "(", b, ")"];
    assert ["("] + [b, ")"] == ["(", b, ")"];
    assert [b] + [")"] == [b, ")"];
    assert a + " " + ("and" + " " + ("(" + " " + (b + " " + ")"))) == a + " and ( " + b + " )";
  }

  /** "a and ( b )" scans to the same tokens. */
  lemma SpacedTokens(a: string, b: string)
    requires IsName(a) && IsName(b)
    ensures RawTokens(a + " and ( " + b + " )") == [a, "and", "(", b, ")"]
  {
    SpacedText(a, b);
    GroupedTokens(a, b, [a, "and", "(", b, ")"]);
    RawTokensOfJoin([a, "and", "(", b, ")"], " ");
  }

  /** A parenthesis may be written against the word next to it or apart from it: both
      spellings give the same token stream. */
  lemma ParenSpacing(a: string, b: string, callback: string -> Returned)
    requires IsName(a) && IsName(b)
    ensures RawTokens(a + " and (" + b + ")") == RawTokens(a + " and ( " + b + " )")
    ensures Stream(a + " and (" + b + ")", callback) == Stream(a + " and ( " + b + " )", callback)
  {
    AttachedTokens(a, b);
    SpacedTokens(a, b);
  }

  lemma PaddedLast(s2: string, b: string)
    requires IsName(b) && s2 != [] && AllSpace(s2)
    ensures Words(s2 + b) == [b]
  {
    WordsSkipSpace(s2, b);
    assert b + [] == b;
    WordsCons(b, []);
  }

  lemma PaddedMiddle(s1: string, s2: string, b: string)
    requires IsName(b) && s1 != [] && AllSpace(s1) && s2 != [] && AllSpace(s2)
    ensures Words(s1 + ("and" + (s2 + b))) == ["and", b]
  {
    assert IsSpace((s2 + b)[0]);
    WordsCons("and", s2 + b);
    PaddedLast(s2, b);
    WordsSkipSpace(s1, "and" + (s2 + b));
  }

  lemma PaddedWords(a: string, s1: string, s2: string, b: string)
    requires IsName(a) && IsName(b)
    requires s1 != [] && AllSpace(s1) && s2 != [] && AllSpace(s2)
    ensures Words(a + (s1 + ("and" + (s2 + b)))) == [a, "and", b]
  {
    assert IsSpace((s1 + ("and" + (s2 + b)))[0]);
    WordsCons(a, s1 + ("and" + (s2 + b)));
    PaddedMiddle(s1, s2, b);
  }

  /** The tokens, atoms and value of "a and b". */
  lemma ConjunctionOf(a: string, b: string, callback: string -> Returned)
    ensures Render(And(Atom(a), Atom(b)), 0) == [a, "and", b]
    ensures Atoms(And(Atom(a), Atom(b))) == {a, b}
    ensures Value(And(Atom(a), Atom(b)), n => Truth(callback, n)) == (Truth(callback, a) && Truth(callback, b))
  {
  }

  lemma ConjunctionWords(a: string, b: string, ws: seq<string>)
    requires IsName(a) && IsName(b) && ws == [a, "and", b]
    ensures forall i :: 0 <= i < |ws| ==> WordLike(ws[i])
  {
    OperatorWords();
  }

  lemma PaddedScan(a: string, b: string)
    requires IsName(a) && IsName(b)
    ensures Scan([a, "and", b]) == [a, "and", b]
  {
    ConjunctionWords(a, b, [a, "and", b]);
    ScanOfWordLike([a, "and", b]);
  }

  /** Whitespace of any kind and amount before, between and after the words only
      separates them. */
  lemma PaddedTokens(lead: string, a: string, s1: string, s2: string, b: string, trail: string)
    requires IsName(a) && IsName(b) && AllSpace(lead) && AllSpace(trail)
    requires s1 != [] && AllSpace(s1) && s2 != [] && AllSpace(s2)
    ensures RawTokens(lead + (a + (s1 + ("and" + (s2 + b)))) + trail) == Render(And(Atom(a), Atom(b)), 0)
  {
    var mid := a + (s1 + ("and" + (s2 + b)));
    RawTokensOfPadded(lead, mid, trail);
    WordsOfStrip(mid);
    PaddedWords(a, s1, s2, b);
    PaddedScan(a, b);
    ConjunctionOf(a, b, n => Other);
  }

  lemma PaddedConjunction(lead: string, a: string, s1: string, s2: string, b: string, trail: string,
                          callback: string -> Returned)
    requires IsName(a) && IsName(b) && callback(a).Boolean? && callback(b).Boolean?
    requires AllSpace(lead) && AllSpace(trail) && s1 != [] && AllSpace(s1) && s2 != [] && AllSpace(s2)
    ensures Evaluate(lead + (a + (s1 + ("and" + (s2 + b)))) + trail, callback)
         == Ok(Truth(callback, a) && Truth(callback, b))
  {
    var f, e := And(Atom(a), Atom(b)), lead + (a + (s1 + ("and" + (s2 + b)))) + trail;
    ConjunctionOf(a, b, callback);
    PaddedTokens(lead, a, s1, s2, b, trail);
    PrintedTokens(f, e, callback);
    assert Value(f, n => Truth(callback, n)) == (Truth(callback, a) && Truth(callback, b));
  }

  lemma PaddedExampleText()
    ensures "  " + ("true" + ("   " + ("and" + ("\t" + "false")))) + " " == "  true   and\tfalse "
  {
  }

  lemma PaddedExampleSpaces()
    ensures AllSpace("  ") && AllSpace("   ") && AllSpace("\t") && AllSpace(" ")
  {
  }

  lemma PaddedExample()
    ensures Evaluate("  true   and\tfalse ", DefaultCallback) == Ok(false)
  {
    NameTrue();
    NameFalse();
    DefaultCallbackExamples();
    PaddedExampleSpaces();
    PaddedExampleText();
    PaddedConjunction("  ", "true", "   ", "\t", "false", " ", DefaultCallback);
  }

  lemma ParenSpacingExampleText()
    ensures "true" + " and (" + "false" + ")" == "true and (false)"
    ensures "true" + " and ( " + "false" + " )" == "true and ( false )"
  {
  }

  /** The stream for "true and (false)" is the one for "true and ( false )", whatever
      the callback. */
  lemma ParenSpacingExample(callback: string -> Returned)
    ensures Stream("true and (false)", callback) == Stream("true and ( false )", callback)
  {
    NameTrue();
    NameFalse();
    ParenSpacingExampleText();
    ParenSpacing("true", "false", callback);
  }

  // ---------------------------------------------------------------------------
  // Operands that look like keywords, and the strict callback check

  lemma InfixText(a: string, op: string, b: string)
    ensures Join([a, op, b], " ") == a + " " + op + " " + b
  {
    JoinCons(op, [b], " ");
    JoinCons(a, [op, b], " ");
    assert [a] + [op, b] == [a, op, b];
    assert [op] + [b] == [op, b];
  }

  lemma InfixWords(a: string, op: string, b: string, ws: seq<string>)
    requires IsName(a) && IsName(b) && op in Keywords && ws == [a, op, b]
    ensures forall i :: 0 <= i < |ws| ==> WordLike(ws[i])
  {
    OperatorWords();
  }

  /** "a op b" scans to its three words. */
  lemma InfixTokens(a: string, op: string, b: string)
    requires IsName(a) && IsName(b) && op in Keywords
    ensures RawTokens(a + " " + op + " " + b) == [a, op, b]
  {
    InfixText(a, op, b);
    InfixWords(a, op, b, [a, op, b]);
    RawTokensOfJoin([a, op, b], " ");
  }

  lemma ResolveInfixNames(a: string, op: string, b: string, callback: string -> Returned)
    requires IsName(a) && IsName(b) && op in Keywords
    ensures ResolveAll([a, op, b], callback).Ok? <==> callback(a).Boolean? && callback(b).Boolean?
    ensures ResolveAll([a, op, b], callback).Ok? ==>
      ResolveAll([a, op, b], callback).value == [Literal(callback(a).value), op, Literal(callback(b).value)]
  {
    NameIsOperand(a);
    NameIsOperand(b);
    assert [] + [a] == [a];
    assert [a] + [op] == [a, op];
    assert [a, op] + [b] == [a, op, b];
    ResolveAllSnoc([], a, callback);
    ResolveAllSnoc([a], op, callback);
    ResolveAllSnoc([a, op], b, callback);
  }

  /** Both operands of an infix operator go to the callback, and the stream is resolved
      exactly when both answers are booleans. */
  lemma OperandsResolved(a: string, op: string, b: string, callback: string -> Returned)
    requires IsName(a) && IsName(b) && op in Keywords
    ensures Stream(a + " " + op + " " + b, callback).Ok? <==> callback(a).Boolean? && callback(b).Boolean?
    ensures Stream(a + " " + op + " " + b, callback).Ok? ==>
      Stream(a + " " + op + " " + b, callback).value
        == [Literal(callback(a).value), op, Literal(callback(b).value)]
  {
    InfixTokens(a, op, b);
    ResolveInfixNames(a, op, b, callback);
  }

  lemma LookalikeNames()
    ensures IsName("sandbox") && IsName("AND")
  {
  }

  lemma LookalikeText()
    ensures "sandbox" + " " + "and" + " " + "AND" == "sandbox and AND"
  {
  }

  /** Keywords are matched as whole, lower-case words: "sandbox" contains "and" and
      "AND" spells it in capitals, yet both are operands for the callback. */
  lemma KeywordLookalikes(callback: string -> Returned)
    ensures Stream("sandbox and AND", callback).Ok? <==>
      callback("sandbox").Boolean? && callback("AND").Boolean?
    ensures Stream("sandbox and AND", callback).Ok? ==>
      Stream("sandbox and AND", callback).value
        == [Literal(callback("sandbox").value), "and", Literal(callback("AND").value)]
  {
    LookalikeNames();
    LookalikeText();
    OperandsResolved("sandbox", "and", "AND", callback);
  }

  /** Every operand is resolved before anything is evaluated: a non-boolean answer for
      the right operand of "or" raises SecurityError even when the left one is true. */
  lemma NoShortCircuit(a: string, b: string, callback: string -> Returned)
    requires IsName(a) && IsName(b) && !callback(b).Boolean?
    ensures Evaluate(a + " or " + b, callback) == Err(SecurityError)
  {
    assert a + " or " + b == a + " " + "or" + " " + b;
    InfixTokens(a, "or", b);
    NameIsOperand(b);
    assert b in RawTokens(a + " or " + b);
    EvaluateErrors(a + " or " + b, callback);
  }

  // ---------------------------------------------------------------------------
  // Malformed expressions

  lemma DepthCons(t: string, ts: seq<string>)
    ensures Depth([t] + ts) == Delta(t) + Depth(ts)
  {
    assert ([t] + ts)[1..] == ts;
  }

  /** A resolved stream that is not balanced is rejected as malformed. */
  lemma RejectsUnbalanced(e: string, ts: seq<string>, callback: string -> Returned)
    requires Stream(e, callback) == Ok(ts) && !Balanced(ts)
    ensures Evaluate(e, callback) == Err(Malformed)
  {
    EvalBalanced(ts);
  }

  lemma UnclosedText(a: string, b: string)
    ensures Join(["(" + a, "and", b], " ") == "(" + a + " and " + b
  {
    InfixText("(" + a, "and", b);
  }

  lemma UnclosedWords(a: string, b: string, ws: seq<string>)
    requires IsName(a) && IsName(b) && ws == ["(" + a, "and", b]
    ensures forall i :: 0 <= i < |ws| ==> ws[i] != [] && NoSpace(ws[i])
  {
    NoSpaceAround("(", a);
  }

  lemma UnclosedCut(a: string, b: string)
    ensures Scan(["(" + a, "and", b]) == Scan(["(", a, "and", b])
  {
    assert [] + ['('] + a == "(" + a;
    CutStep(["(" + a, "and", b], [[], "(", a, "and", b], [], [], '(', a, ["and", b]);
    DropStep([[], "(", a, "and", b], ["(", a, "and", b], [], ["(", a, "and", b]);
  }

  lemma UnclosedWordLike(a: string, b: string, ws: seq<string>)
    requires IsName(a) && IsName(b) && ws == ["(", a, "and", b]
    ensures forall i :: 0 <= i < |ws| ==> WordLike(ws[i])
  {
    OperatorWords();
  }

  lemma UnclosedScan(a: string, b: string)
    requires IsName(a) && IsName(b)
    ensures Scan(["(" + a, "and", b]) == ["("] + [a, "and", b]
  {
    UnclosedCut(a, b);
    UnclosedWordLike(a, b, ["(", a, "and", b]);
    ScanOfWordLike(["(", a, "and", b]);
    assert ["(", a, "and", b] == ["("] + [a, "and", b];
  }

  lemma UnclosedResolved(a: string, b: string, callback: string -> Returned)
    requires IsName(a) && IsName(b) && callback(a).Boolean? && callback(b).Boolean?
    ensures ResolveAll(["("] + [a, "and", b], callback)
         == Ok(["("] + [Literal(callback(a).value), "and", Literal(callback(b).value)])
  {
    ResolveOperator("(", callback);
    ResolveInfixNames(a, "and", b, callback);
    ResolveAllAppend(["("], [a, "and", b], callback);
  }

  lemma UnclosedDepth(x: string, y: string)
    requires (x == "True" || x == "False") && (y == "True" || y == "False")
    ensures Depth(["("] + [x, "and", y]) == 1
  {
    DepthCons("(", [x, "and", y]);
    DepthCons(x, ["and", y]);
    DepthCons("and", [y]);
    DepthCons(y, []);
    assert [y] + [] == [y];
    assert ["and"] + [y] == ["and", y];
    assert [x] + ["and", y] == [x, "and", y];
  }

  /** An opening parenthesis that is never closed. */
  lemma Unclosed(a: string, b: string, callback: string -> Returned)
    requires IsName(a) && IsName(b) && callback(a).Boolean? && callback(b).Boolean?
    ensures Evaluate("(" + a + " and " + b, callback) == Err(Malformed)
  {
    var ws := ["(" + a, "and", b];
    UnclosedText(a, b);
    UnclosedWords(a, b, ws);
    RawTokensOfWords(ws, " ");
    UnclosedScan(a, b);
    UnclosedResolved(a, b, callback);
    UnclosedDepth(Literal(callback(a).value), Literal(callback(b).value));
    RejectsUnbalanced("(" + a + " and " + b,
                      ["("] + [Literal(callback(a).value), "and", Literal(callback(b).value)], callback);
  }

  lemma UnopenedCut(a: string)
    ensures Scan([a + ")"]) == Scan([a, ")"])
  {
    assert a + [')'] + [] == a + ")";
    CutStep([a + ")"], [a, ")", []], [], a, ')', [], []);
    DropStep([a, ")", []], [a, ")"], [a, ")"], []);
  }

  lemma PairWordLike(a: string, b: string, ws: seq<string>)
    requires WordLike(a) && WordLike(b) && ws == [a, b]
    ensures forall i :: 0 <= i < |ws| ==> WordLike(ws[i])
  {
  }

  lemma UnopenedScan(a: string)
    requires IsName(a)
    ensures Scan([a + ")"]) == [a, ")"]
  {
    UnopenedCut(a);
    OperatorWords();
    PairWordLike(a, ")", [a, ")"]);
    ScanOfWordLike([a, ")"]);
  }

  lemma UnopenedResolved(a: string, callback: string -> Returned)
    requires IsName(a) && callback(a).Boolean?
    ensures ResolveAll([a, ")"], callback) == Ok([Literal(callback(a).value), ")"])
  {
    ResolveName(a, callback);
    ResolveOperator(")", callback);
    ResolveAllAppend([a], [")"], callback);
    assert [a] + [")"] == [a, ")"];
    assert [Literal(callback(a).value)] + [")"] == [Literal(callback(a).value), ")"];
  }

  lemma UnopenedDepth(x: string)
    requires x == "True" || x == "False"
    ensures Depth([x, ")"]) == -1
  {
    DepthCons(x, [")"]);
    DepthCons(")", []);
    assert [")"] + [] == [")"];
    assert [x] + [")"] == [x, ")"];
  }

  /** A closing parenthesis with nothing to close. */
  lemma Unopened(a: string, callback: string -> Returned)
    requires IsName(a) && callback(a).Boolean?
    ensures Evaluate(a + ")", callback) == Err(Malformed)
  {
    NoSpaceAround(a, ")");
    RawTokensOfWords([a + ")"], " ");
    UnopenedScan(a);
    UnopenedResolved(a, callback);
    UnopenedDepth(Literal(callback(a).value));
    RejectsUnbalanced(a + ")", [Literal(callback(a).value), ")"], callback);
  }

  lemma AdjacentParse(x: string, y: string)
    requires (x == "True" || x == "False") && (y == "True" || y == "False")
    ensures Eval([x, y]) == Err(Malformed)
  {
    var ts := [x, y];
    assert ParseFactor(ts, 0) == Parsed(Atom(x), 1);
    assert ParseAndTail(Atom(x), ts, 1) == Parsed(Atom(x), 1);
    assert ParseTerm(ts, 0) == Parsed(Atom(x), 1);
    assert ParseOrTail(Atom(x), ts, 1) == Parsed(Atom(x), 1);
  }

  lemma AdjacentTokens(a: string, b: string)
    requires IsName(a) && IsName(b)
    ensures RawTokens(a + " " + b) == [a, b]
  {
    JoinCons(a, [b], " ");
    assert [a] + [b] == [a, b];
    PairWordLike(a, b, [a, b]);
    RawTokensOfJoin([a, b], " ");
  }

  lemma AdjacentResolved(a: string, b: string, callback: string -> Returned)
    requires IsName(a) && IsName(b) && callback(a).Boolean? && callback(b).Boolean?
    ensures ResolveAll([a, b], callback) == Ok([Literal(callback(a).value), Literal(callback(b).value)])
  {
    ResolveName(a, callback);
    ResolveName(b, callback);
    ResolveAllAppend([a], [b], callback);
    assert [a] + [b] == [a, b];
    assert [Literal(callback(a).value)] + [Literal(callback(b).value)]
        == [Literal(callback(a).value), Literal(callback(b).value)];
  }

  /** Two operands with no operator between them. */
  lemma Adjacent(a: string, b: string, callback: string -> Returned)
    requires IsName(a) && IsName(b) && callback(a).Boolean? && callback(b).Boolean?
    ensures Evaluate(a + " " + b, callback) == Err(Malformed)
  {
    AdjacentTokens(a, b);
    AdjacentResolved(a, b, callback);
    AdjacentParse(Literal(callback(a).value), Literal(callback(b).value));
  }

  /** An expression of nothing but whitespace, the empty one included, has no tokens
      and is malformed. */
  lemma Blank(sp: string, callback: string -> Returned)
    requires AllSpace(sp)
    ensures Evaluate(sp, callback) == Err(Malformed)
  {
    BlankTokens(sp);
    assert Stream(sp, callback) == Ok([]);
    EvalEmpty();
  }

  lemma BlankTokens(sp: string)
    requires AllSpace(sp)
    ensures RawTokens(sp) == []
  {
    WordsOfStrip(sp);
    WordsSkipSpace(sp, []);
    assert sp + [] == sp;
    assert Words([]) == [];
  }

  lemma EvalEmpty()
    ensures Eval([]) == Err(Malformed)
  {
    assert ParseFactor([], 0) == Stuck;
  }

  lemma MalformedExamplesText()
    ensures "(" + "true" + " and " + "false" == "(true and false"
    ensures "true" + ")" == "true)"
    ensures "true" + " " + "false" == "true false"
  {
  }

  lemma MalformedExamples()
    ensures Evaluate("(true and false", DefaultCallback) == Err(Malformed)
    ensures Evaluate("true)", DefaultCallback) == Err(Malformed)
    ensures Evaluate("true false", DefaultCallback) == Err(Malformed)
    ensures Evaluate("", DefaultCallback) == Err(Malformed)
  {
    NameTrue();
    NameFalse();
    DefaultCallbackExamples();
    MalformedExamplesText();
    Unclosed("true", "false", DefaultCallback);
    Unopened("true", DefaultCallback);
    Adjacent("true", "false", DefaultCallback);
    Blank("", DefaultCallback);
  }

  // ---------------------------------------------------------------------------
  // The empty group

  lemma EmptyGroupScan()
    ensures Scan(["()"]) == ["(", ")"]
  {
    assert [] + ['('] + ")" == "()";
    CutStep(["()"], [[], "(", ")"], [], [], '(', ")", []);
    DropStep([[], "(", ")"], ["(", ")"], [], ["(", ")"]);
    OperatorWords();
    ScanOfWordLike(["(", ")"]);
  }

  lemma EmptyGroupResolved(callback: string -> Returned)
    ensures ResolveAll(["(", ")"], callback) == Ok(["(", ")"])
  {
    ResolveOperator("(", callback);
    ResolveOperator(")", callback);
    ResolveAllAppend(["("], [")"], callback);
    assert ["("] + [")"] == ["(", ")"];
  }

  /** "()" is Python's empty tuple, which bool() reads as false; no operand is resolved. */
  lemma EmptyGroup(callback: string -> Returned)
    ensures Evaluate("()", callback) == Ok(false)
  {
    assert NoSpace("()");
    RawTokensOfWords(["()"], " ");
    EmptyGroupScan();
    EmptyGroupResolved(callback);
    assert Stream("()", callback) == Ok(Render(EmptyTuple, 0));
    EvalRender(EmptyTuple);
  }
}
