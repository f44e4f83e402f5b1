/** The public half of boolparse: resolving operands through the caller's callback
    (bool_val), the token generator boolexpr, the default callback and evaluate. */
module BoolParse {
  import opened Tokens
  import opened Lexer
  import opened Evaluator

  /** What a callback hands back: a Python bool, or an object of any other type. */
  datatype Returned = Boolean(value: bool) | Other

  /** True when the callback answers with the bool true. */
  predicate Truth(callback: string -> Returned, name: string) {
    callback(name).Boolean? && callback(name).value
  }

  /** A literal reads back, through the evaluator, as the boolean it was printed from. */
  lemma LiteralReadsBack(b: bool)
    ensures Eval([Literal(b)]) == Ok(b)
  {
    EvalRender(Atom(Literal(b)));
  }

  /** bool_val: the callback's answer printed with str(), or SecurityError when the
      answer is not a bool. */
  function BoolVal(token: string, callback: string -> Returned): (r: Result<string>)
    ensures r.Ok? <==> callback(token).Boolean?
    ensures r.Err? ==> r.error == SecurityError
    ensures r.Ok? ==> r.value == Literal(callback(token).value)
  {
    match callback(token)
    case Boolean(b) => Ok(Literal(b))
    case Other => Err(SecurityError)
  }

  /** The element boolexpr yields for one non-empty piece: a keyword or parenthesis
      unchanged, anything else resolved through the callback. */
  function ResolveToken(token: string, callback: string -> Returned): Result<string> {
    if IsOperator(token) then Ok(token) else BoolVal(token, callback)
  }

  /** An operator passes through; an operand is resolved exactly when the callback
      answers it with a bool, and fails with SecurityError otherwise; whatever is
      yielded is one of the seven resolved tokens. */
  lemma ResolveTokenCases(token: string, callback: string -> Returned)
    ensures IsOperator(token) ==> ResolveToken(token, callback) == Ok(token)
    ensures !IsOperator(token) ==> (ResolveToken(token, callback).Ok? <==> callback(token).Boolean?)
    ensures ResolveToken(token, callback).Err? ==> ResolveToken(token, callback).error == SecurityError
    ensures ResolveToken(token, callback).Ok? ==> IsResolved(ResolveToken(token, callback).value)
  {
  }

  /** The resolution of a whole raw stream, stopping at the first SecurityError. */
  function ResolveAll(ts: seq<string>, callback: string -> Returned): (r: Result<seq<string>>)
    ensures r.Err? ==> r.error == SecurityError
  {
    if ts == [] then Ok([])
    else
      var head :- ResolveAll(ts[..|ts| - 1], callback);
      var last :- ResolveToken(ts[|ts| - 1], callback);
      Ok(head + [last])
  }

  /** The resolved stream succeeds exactly when every operand gets a bool, and then it is
      the raw stream position by position: operators unchanged, each operand replaced by
      the literal of its answer. */
  lemma {:induction false} ResolveAllPositions(ts: seq<string>, callback: string -> Returned)
    ensures ResolveAll(ts, callback).Ok? <==>
      forall k :: 0 <= k < |ts| ==> IsOperator(ts[k]) || callback(ts[k]).Boolean?
    ensures ResolveAll(ts, callback).Ok? ==>
      var out := ResolveAll(ts, callback).value;
      |out| == |ts| &&
      forall k :: 0 <= k < |ts| ==>
        if IsOperator(ts[k]) then out[k] == ts[k] else out[k] == Literal(callback(ts[k]).value)
    decreases |ts|
  {
    if ts != [] {
      var init := ts[..|ts| - 1];
      assert forall k :: 0 <= k < |init| ==> init[k] == ts[k];
      ResolveAllPositions(init, callback);
    }
  }

  /** Resolution works token by token, so it distributes over concatenation. */
  lemma {:induction false} ResolveAllAppend(a: seq<string>, b: seq<string>, callback: string -> Returned)
    requires ResolveAll(a, callback).Ok? && ResolveAll(b, callback).Ok?
    ensures ResolveAll(a + b, callback)
         == Ok(ResolveAll(a, callback).value + ResolveAll(b, callback).value)
    decreases |b|
  {
    if b == [] {
      assert a + b == a;
      assert ResolveAll(a, callback).value + [] == ResolveAll(a, callback).value;
    } else {
      var b' := b[..|b| - 1];
      var t := b[|b| - 1];
      assert b == b' + [t];
      assert a + b == (a + b') + [t];
      ResolveAllSnoc(b', t, callback);
      ResolveAllAppend(a, b', callback);
      ResolveAllSnoc(a + b', t, callback);
      var x := ResolveAll(a, callback).value;
      var y := ResolveAll(b', callback).value;
      var l := ResolveToken(t, callback).value;
      assert (x + y) + [l] == x + (y + [l]);
    }
  }

  /** Once a prefix of the stream fails, the whole stream fails. */
  lemma ResolveAllFails(a: seq<string>, b: seq<string>, callback: string -> Returned)
    requires ResolveAll(a, callback).Err?
    ensures ResolveAll(a + b, callback) == Err(SecurityError)
  {
    ResolveAllPositions(a, callback);
    ResolveAllPositions(a + b, callback);
    var k :| 0 <= k < |a| && !IsOperator(a[k]) && !callback(a[k]).Boolean?;
    assert (a + b)[k] == a[k];
  }

  lemma ResolveAllSnoc(a: seq<string>, t: string, callback: string -> Returned)
    ensures ResolveAll(a + [t], callback)
         == match ResolveAll(a, callback)
            case Err(e) => Err(e)
            case Ok(x) => match ResolveToken(t, callback)
              case Err(e) => Err(e)
              case Ok(y) => Ok(x + [y])
  {
    assert (a + [t])[..|a|] == a;
  }

  /** The stream boolexpr yields for an expression, or the SecurityError it raises on the way. */
  function Stream(expression: string, callback: string -> Returned): (r: Result<seq<string>>)
    ensures r.Err? ==> r.error == SecurityError
  {
    ResolveAll(RawTokens(expression), callback)
  }

  /** Every element boolexpr yields is one of the seven resolved tokens, and so never empty. */
  lemma StreamResolved(expression: string, callback: string -> Returned)
    requires Stream(expression, callback).Ok?
    ensures forall t :: t in Stream(expression, callback).value ==> IsResolved(t) && t != []
  {
    ResolvedTokens(RawTokens(expression), callback);
  }

  lemma ResolvedTokens(ts: seq<string>, callback: string -> Returned)
    requires ResolveAll(ts, callback).Ok?
    ensures forall t :: t in ResolveAll(ts, callback).value ==> IsResolved(t) && t != []
  {
    ResolveAllPositions(ts, callback);
    var out := ResolveAll(ts, callback).value;
    forall t | t in out ensures IsResolved(t) && t != [] {
      var k :| 0 <= k < |out| && out[k] == t;
      if !IsOperator(ts[k]) {
        assert t == Literal(callback(ts[k]).value);
      }
    }
  }

  /** One more piece of the current word: an empty piece changes nothing, any other
      is resolved and appended. */
  lemma PieceStep(done: seq<string>, ps: seq<string>, j: nat, out: seq<string>, callback: string -> Returned)
    requires j < |ps| && ResolveAll(done + NonEmpty(ps[..j]), callback) == Ok(out)
    ensures ps[j] == [] ==> ResolveAll(done + NonEmpty(ps[..j + 1]), callback) == Ok(out)
    ensures ps[j] != [] ==>
      ResolveAll(done + NonEmpty(ps[..j + 1]), callback)
        == match ResolveToken(ps[j], callback)
           case Err(e) => Err(e)
           case Ok(y) => Ok(out + [y])
  {
    assert ps[..j + 1][..j] == ps[..j];
    if ps[j] == [] {
      assert NonEmpty(ps[..j + 1]) == NonEmpty(ps[..j]);
    } else {
      assert NonEmpty(ps[..j + 1]) == NonEmpty(ps[..j]) + [ps[j]];
      assert done + NonEmpty(ps[..j + 1]) == (done + NonEmpty(ps[..j])) + [ps[j]];
      ResolveAllSnoc(done + NonEmpty(ps[..j]), ps[j], callback);
    }
  }

  /** A failure on the first j + 1 pieces is a failure on all of them. */
  lemma PieceFails(done: seq<string>, ps: seq<string>, j: nat, callback: string -> Returned)
    requires j < |ps| && ResolveAll(done + NonEmpty(ps[..j + 1]), callback).Err?
    ensures ResolveAll(done + NonEmpty(ps), callback) == Err(SecurityError)
  {
    assert ps == ps[..j + 1] + ps[j + 1..];
    NonEmptyAppend(ps[..j + 1], ps[j + 1..]);
    assert done + NonEmpty(ps) == (done + NonEmpty(ps[..j + 1])) + NonEmpty(ps[j + 1..]);
    ResolveAllFails(done + NonEmpty(ps[..j + 1]), NonEmpty(ps[j + 1..]), callback);
  }

  /** A failure on the first i + 1 words is a failure on the whole expression. */
  lemma WordFails(words: seq<string>, i: nat, callback: string -> Returned)
    requires i < |words| && ResolveAll(Scan(words[..i]) + NonEmpty(Pieces(words[i])), callback).Err?
    ensures ResolveAll(Scan(words), callback) == Err(SecurityError)
  {
    ScanAround(words, i);
    ResolveAllFails(Scan(words[..i]) + NonEmpty(Pieces(words[i])), Scan(words[i + 1..]), callback);
  }

  /** One pass of the outer loop of boolexpr: what the inner loop gives for word i is
      the resolution of the first i + 1 words or, when it fails, of the whole expression. */
  lemma WordStep(words: seq<string>, i: nat, r: Result<seq<string>>, callback: string -> Returned)
    requires i < |words|
    requires r == ResolveAll(Scan(words[..i]) + NonEmpty(Pieces(words[i])), callback)
    ensures r.Ok? ==> ResolveAll(Scan(words[..i + 1]), callback) == r
    ensures r.Err? ==> ResolveAll(Scan(words), callback) == r
  {
    ScanSnoc(words, i);
    if r.Err? {
      WordFails(words, i, callback);
    }
  }

  /** The inner loop of boolexpr: the non-empty pieces of one word, resolved in order
      and appended to what the earlier words gave. */
  method ResolvePieces(ghost done: seq<string>, pieces: seq<string>, out: seq<string>,
                       callback: string -> Returned) returns (r: Result<seq<string>>)
    requires ResolveAll(done, callback) == Ok(out)
    ensures r == ResolveAll(done + NonEmpty(pieces), callback)
  {
    var acc := out;
    assert pieces[..0] == [] && done + [] == done;
    for j := 0 to |pieces|
      invariant ResolveAll(done + NonEmpty(pieces[..j]), callback) == Ok(acc)
    {
      var token := pieces[j];
      PieceStep(done, pieces, j, acc, callback);
      if token != [] {
        if IsOperator(token) {
          acc := acc + [token];
        } else {
          var literal := BoolVal(token, callback);
          if literal.Err? {
            PieceFails(done, pieces, j, callback);
            return Err(literal.error);
          }
          acc := acc + [literal.value];
        }
      }
    }
    assert pieces[..|pieces|] == pieces;
    return Ok(acc);
  }

  /** boolexpr: split the stripped expression on whitespace, cut each word at its
      parentheses, drop the empty pieces, pass operators through and resolve the rest. */
  method BoolExpr(expression: string, callback: string -> Returned) returns (r: Result<seq<string>>)
    ensures r == Stream(expression, callback)
  {
    var words := Words(Strip(expression));
    var out: seq<string> := [];
    for i := 0 to |words|
      invariant ResolveAll(Scan(words[..i]), callback) == Ok(out)
    {
      var pieces := Tokenize(words[i]);
      var next := ResolvePieces(Scan(words[..i]), pieces, out, callback);
      WordStep(words, i, next, callback);
      if next.Err? {
        return next;
      }
      out := next.value;
    }
    assert words[..|words|] == words;
    return Ok(out);
  }

  /** evaluate: the value of the resolved stream. */
  function Evaluate(expression: string, callback: string -> Returned): Result<bool> {
    var ts :- Stream(expression, callback);
    Eval(ts)
  }

  // ---------------------------------------------------------------------------
  // The default callback

  /** ASCII lower-casing of one character. */
  function LowerChar(c: char): char {
    if 'A' <= c <= 'Z' then (c as int + 32) as char else c
  }

  /** str.casefold, restricted to ASCII letters. */
  function CaseFold(s: string): (r: string)
    ensures |r| == |s|
    ensures forall k :: 0 <= k < |r| ==> !('A' <= r[k] <= 'Z')
    ensures forall k :: 0 <= k < |r| && 'A' <= s[k] <= 'Z' ==> r[k] as int == s[k] as int + 32
    ensures forall k :: 0 <= k < |r| && !('A' <= s[k] <= 'Z') ==> r[k] == s[k]
  {
    seq(|s|, k requires 0 <= k < |s| => LowerChar(s[k]))
  }

  /** The default callback: the operand, case-folded, equals "true". */
  function DefaultCallback(s: string): (r: Returned)
    ensures r.Boolean?
  {
    Boolean(CaseFold(s) == "true")
  }

  /** The default callback always returns a bool, and it is true exactly for the
      sixteen spellings of "true" in upper and lower case. */
  lemma DefaultCallbackTruth(s: string)
    ensures DefaultCallback(s).Boolean?
    ensures DefaultCallback(s).value <==>
      |s| == 4 && s[0] in "tT" && s[1] in "rR" && s[2] in "uU" && s[3] in "eE"
  {
    if |s| == 4 {
      var f := CaseFold(s);
      assert f == "true" <==> f[0] == 't' && f[1] == 'r' && f[2] == 'u' && f[3] == 'e';
    }
  }

  lemma DefaultCallbackExamples()
    ensures Truth(DefaultCallback, "true") && Truth(DefaultCallback, "TRUE") && Truth(DefaultCallback, "True")
    ensures !Truth(DefaultCallback, "false") && !Truth(DefaultCallback, "yes") && !Truth(DefaultCallback, "")
    ensures !Truth(DefaultCallback, "truee") && !Truth(DefaultCallback, "1")
  {
    DefaultCallbackTruth("true");
    DefaultCallbackTruth("TRUE");
    DefaultCallbackTruth("True");
    DefaultCallbackTruth("false");
    DefaultCallbackTruth("yes");
    DefaultCallbackTruth("");
    DefaultCallbackTruth("truee");
    DefaultCallbackTruth("1");
  }

  // ---------------------------------------------------------------------------
  // Errors

  /** evaluate raises SecurityError exactly when some operand of the raw stream gets a
      non-bool answer from the callback; every other failure is a malformed expression. */
  lemma EvaluateErrors(expression: string, callback: string -> Returned)
    ensures Evaluate(expression, callback) == Err(SecurityError) <==>
      exists t :: t in RawTokens(expression) && !IsOperator(t) && !callback(t).Boolean?
    ensures Evaluate(expression, callback) == Err(Malformed) <==>
      Stream(expression, callback).Ok? && Eval(Stream(expression, callback).value).Err?
  {
    var ts := RawTokens(expression);
    ResolveAllPositions(ts, callback);
    if !ResolveAll(ts, callback).Ok? {
      var k :| 0 <= k < |ts| && !IsOperator(ts[k]) && !callback(ts[k]).Boolean?;
      assert ts[k] in ts;
    }
  }

  /** evaluate returns a value exactly when the stream boolexpr yields is the print of
      a formula over the literals (with any redundant parentheses), and the value is
      that formula's. */
  lemma EvaluateAccepts(expression: string, callback: string -> Returned, v: bool)
    ensures Evaluate(expression, callback) == Ok(v) <==>
      && Stream(expression, callback).Ok?
      && exists f :: Ground(f) && Render(f, 0) == Stream(expression, callback).value
                     && Value(f, LiteralValue) == v
  {
    if Stream(expression, callback).Ok? {
      EvalAccepts(Stream(expression, callback).value, v);
    }
  }

  /** The default callback never causes a SecurityError. */
  lemma DefaultCallbackIsSafe(expression: string)
    ensures Evaluate(expression, DefaultCallback) != Err(SecurityError)
  {
    EvaluateErrors(expression, DefaultCallback);
  }

  // ---------------------------------------------------------------------------
  // End to end: a printed formula evaluates to its value

  /** A word the library hands to the callback: non-empty, without whitespace or
      parentheses, and not a keyword. */
  predicate IsName(t: string) {
    t != [] && NoSpace(t) && NoParen(t) && t !in Keywords
  }

  /** f with every atom replaced by the literal of the callback's answer. */
  function Resolved(f: Formula, callback: string -> Returned): Formula {
    match f
    case Atom(name) => Atom(Literal(Truth(callback, name)))
    case Not(a) => Not(Resolved(a, callback))
    case And(a, b) => And(Resolved(a, callback), Resolved(b, callback))
    case Or(a, b) => Or(Resolved(a, callback), Resolved(b, callback))
    case Paren(a) => Paren(Resolved(a, callback))
    case EmptyTuple => EmptyTuple
  }

  /** The resolution is ground and, read with literal atoms, has the value the
      formula has when each name means the callback's answer. */
  lemma {:induction false} ResolvedValue(f: Formula, callback: string -> Returned)
    ensures Ground(Resolved(f, callback))
    ensures Value(Resolved(f, callback), LiteralValue) == Value(f, n => Truth(callback, n))
  {
    match f
    case Atom(name) =>
    case Not(a) => ResolvedValue(a, callback);
    case And(a, b) => ResolvedValue(a, callback); ResolvedValue(b, callback);
    case Or(a, b) => ResolvedValue(a, callback); ResolvedValue(b, callback);
    case Paren(a) => ResolvedValue(a, callback);
    case EmptyTuple =>
  }

  /** Every token of a formula over names is a word the scanner passes on whole. */
  lemma {:induction false} RenderWordLike(f: Formula, level: nat)
    requires forall n :: n in Atoms(f) ==> IsName(n)
    ensures forall k :: 0 <= k < |Render(f, level)| ==> WordLike(Render(f, level)[k])
  {
    assert WordLike("not") && WordLike("and") && WordLike("or") && WordLike("(") && WordLike(")");
    match f
    case Atom(name) =>
      assert name in Atoms(f);
    case Not(a) =>
      RenderWordLike(a, 2);
    case And(a, b) =>
      RenderWordLike(a, 1);
      RenderWordLike(b, 2);
    case Or(a, b) =>
      RenderWordLike(a, 0);
      RenderWordLike(b, 1);
    case Paren(a) =>
      RenderWordLike(a, 0);
    case EmptyTuple =>
  }

  /** A name is never a keyword or a parenthesis, so it always goes to the callback. */
  lemma NameIsOperand(t: string)
    requires IsName(t)
    ensures !IsOperator(t)
  {
    assert !IsParen(t[0]);
    assert t != "(" && t != ")";
  }

  lemma ResolveOperator(op: string, callback: string -> Returned)
    requires IsOperator(op)
    ensures ResolveAll([op], callback) == Ok([op])
  {
    ResolveAllSnoc([], op, callback);
    assert [] + [op] == [op];
  }

  lemma ResolveInfix(x: seq<string>, op: string, y: seq<string>, rx: seq<string>, ry: seq<string>,
                     callback: string -> Returned)
    requires IsOperator(op)
    requires ResolveAll(x, callback) == Ok(rx) && ResolveAll(y, callback) == Ok(ry)
    ensures ResolveAll(x + [op] + y, callback) == Ok(rx + [op] + ry)
  {
    ResolveOperator(op, callback);
    ResolveAllAppend(x, [op], callback);
    ResolveAllAppend(x + [op], y, callback);
  }

  lemma ResolveGroup(wrap: bool, body: seq<string>, rbody: seq<string>, callback: string -> Returned)
    requires ResolveAll(body, callback) == Ok(rbody)
    ensures ResolveAll(Group(wrap, body), callback) == Ok(Group(wrap, rbody))
  {
    if wrap {
      ResolveOperator("(", callback);
      ResolveInfix([], "(", body, [], rbody, callback);
      ResolveOperator(")", callback);
      ResolveAllAppend(["("] + body, [")"], callback);
      assert [] + ["("] + body == ["("] + body;
      assert [] + ["("] + rbody == ["("] + rbody;
    }
  }

  lemma ResolveWrapped(wrap: bool, x: seq<string>, op: string, y: seq<string>, rx: seq<string>,
                       ry: seq<string>, callback: string -> Returned)
    requires IsOperator(op)
    requires ResolveAll(x, callback) == Ok(rx) && ResolveAll(y, callback) == Ok(ry)
    ensures ResolveAll(Group(wrap, x + [op] + y), callback) == Ok(Group(wrap, rx + [op] + ry))
  {
    ResolveInfix(x, op, y, rx, ry, callback);
    ResolveGroup(wrap, x + [op] + y, rx + [op] + ry, callback);
  }

  /** Resolving the tokens of a formula over names gives the tokens of its resolution. */
  lemma {:induction false} RenderResolves(f: Formula, level: nat, callback: string -> Returned)
    requires forall n :: n in Atoms(f) ==> IsName(n) && callback(n).Boolean?
    ensures ResolveAll(Render(f, level), callback) == Ok(Render(Resolved(f, callback), level))
    decreases f, 1
  {
    match f
    case Atom(name) => AtomResolves(name, level, callback);
    case Not(a) => NotResolves(a, level, callback);
    case And(a, b) => AndResolves(a, b, level, callback);
    case Or(a, b) => OrResolves(a, b, level, callback);
    case Paren(a) => ParenResolves(a, level, callback);
    case EmptyTuple => EmptyTupleResolves(level, callback);
  }

  lemma AtomResolves(name: string, level: nat, callback: string -> Returned)
    requires forall n :: n in Atoms(Atom(name)) ==> IsName(n) && callback(n).Boolean?
    ensures ResolveAll(Render(Atom(name), level), callback)
         == Ok(Render(Resolved(Atom(name), callback), level))
  {
    assert name in Atoms(Atom(name));
    NameIsOperand(name);
    ResolveAllSnoc([], name, callback);
    assert [] + [name] == [name];
    assert ResolveToken(name, callback) == Ok(Literal(Truth(callback, name)));
    var lit := Literal(Truth(callback, name));
    assert ResolveAll([name], callback) == Ok([] + [lit]);
    assert [] + [lit] == [lit];
  }

  lemma EmptyTupleResolves(level: nat, callback: string -> Returned)
    ensures ResolveAll(Render(EmptyTuple, level), callback)
         == Ok(Render(Resolved(EmptyTuple, callback), level))
  {
    ResolveGroup(true, [], [], callback);
    assert ["("] + [] + [")"] == ["(", ")"];
  }

  lemma {:induction false} NotResolves(a: Formula, level: nat, callback: string -> Returned)
    requires forall n :: n in Atoms(Not(a)) ==> IsName(n) && callback(n).Boolean?
    ensures ResolveAll(Render(Not(a), level), callback)
         == Ok(Render(Resolved(Not(a), callback), level))
    decreases Not(a), 0
  {
    RenderResolves(a, 2, callback);
    ResolveOperator("not", callback);
    ResolveAllAppend(["not"], Render(a, 2), callback);
  }

  lemma {:induction false} ParenResolves(a: Formula, level: nat, callback: string -> Returned)
    requires forall n :: n in Atoms(Paren(a)) ==> IsName(n) && callback(n).Boolean?
    ensures ResolveAll(Render(Paren(a), level), callback)
         == Ok(Render(Resolved(Paren(a), callback), level))
    decreases Paren(a), 0
  {
    RenderResolves(a, 0, callback);
    ResolveGroup(true, Render(a, 0), Render(Resolved(a, callback), 0), callback);
  }

  lemma {:induction false} AndResolves(a: Formula, b: Formula, level: nat, callback: string -> Returned)
    requires forall n :: n in Atoms(And(a, b)) ==> IsName(n) && callback(n).Boolean?
    ensures ResolveAll(Render(And(a, b), level), callback)
         == Ok(Render(Resolved(And(a, b), callback), level))
    decreases And(a, b), 0
  {
    RenderResolves(a, 1, callback);
    RenderResolves(b, 2, callback);
    var ra, rb := Render(Resolved(a, callback), 1), Render(Resolved(b, callback), 2);
    ResolveWrapped(level > 1, Render(a, 1), "and", Render(b, 2), ra, rb, callback);
  }

  lemma {:induction false} OrResolves(a: Formula, b: Formula, level: nat, callback: string -> Returned)
    requires forall n :: n in Atoms(Or(a, b)) ==> IsName(n) && callback(n).Boolean?
    ensures ResolveAll(Render(Or(a, b), level), callback)
         == Ok(Render(Resolved(Or(a, b), callback), level))
    decreases Or(a, b), 0
  {
    RenderResolves(a, 0, callback);
    RenderResolves(b, 1, callback);
    var ra, rb := Render(Resolved(a, callback), 0), Render(Resolved(b, callback), 1);
    ResolveWrapped(level > 0, Render(a, 0), "or", Render(b, 1), ra, rb, callback);
  }

  /** A formula over names, printed with the usual precedence and spaces between its
      tokens, evaluates to the formula's value when each name means the callback's answer. */
  lemma EvaluateRender(f: Formula, callback: string -> Returned)
    requires forall n :: n in Atoms(f) ==> IsName(n) && callback(n).Boolean?
    ensures Evaluate(Join(Render(f, 0), " "), callback) == Ok(Value(f, n => Truth(callback, n)))
  {
    var e := Join(Render(f, 0), " ");
    var r := Resolved(f, callback);
    RenderWordLike(f, 0);
    RawTokensOfJoin(Render(f, 0), " ");
    RenderResolves(f, 0, callback);
    assert Stream(e, callback) == Ok(Render(r, 0));
    ResolvedValue(f, callback);
    EvalRender(r);
    assert Evaluate(e, callback) == Eval(Render(r, 0));
  }

  /** A formula over names, printed with spaces, scans back to its own tokens. */
  lemma RenderScansBack(f: Formula)
    requires forall n :: n in Atoms(f) ==> IsName(n)
    ensures RawTokens(Join(Render(f, 0), " ")) == Render(f, 0)
  {
    RenderWordLike(f, 0);
    RawTokensOfJoin(Render(f, 0), " ");
  }

  /** Whitespace is not significant: an expression with any whitespace around it and
      any non-empty whitespace in each gap between its words evaluates as its words
      joined by single spaces. */
  lemma EvaluateSpacing(lead: string, ws: seq<string>, gaps: seq<string>, trail: string,
                        callback: string -> Returned)
    requires |ws| == |gaps| + 1
    requires forall i :: 0 <= i < |ws| ==> ws[i] != [] && NoSpace(ws[i])
    requires forall i :: 0 <= i < |gaps| ==> gaps[i] != [] && AllSpace(gaps[i])
    requires AllSpace(lead) && AllSpace(trail)
    ensures Evaluate(lead + JoinWith(ws, gaps) + trail, callback) == Evaluate(Join(ws, " "), callback)
  {
    RawTokensOfGaps(lead, ws, gaps, trail);
    assert IsSpace(' ');
    RawTokensOfWords(ws, " ");
  }

  /** evaluate depends on the expression only through its raw tokens. */
  lemma SameTokens(e: string, e': string, callback: string -> Returned)
    requires RawTokens(e) == RawTokens(e')
    ensures Evaluate(e, callback) == Evaluate(e', callback)
  {
  }
}
