/** The scanning half of boolparse: the whitespace split of the expression
    (str.strip followed by str.split) and the parenthesis splitter tokenize. */
module Lexer {
  import opened Tokens

  /** str.isspace for one character: the code points CPython treats as whitespace. */
  predicate IsSpace(c: char) {
    || c == ' '
    || '\t' <= c <= '\r'
    || '\U{1C}' <= c <= '\U{1F}'
    || c == '\U{85}'
    || c == '\U{A0}'
    || c == '\U{1680}'
    || '\U{2000}' <= c <= '\U{200A}'
    || c == '\U{2028}'
    || c == '\U{2029}'
    || c == '\U{202F}'
    || c == '\U{205F}'
    || c == '\U{3000}'
  }

  /** Within ASCII, the whitespace characters are exactly the space, the six controls
      tab, line feed, vertical tab, form feed and carriage return, and the four
      information separators 0x1C to 0x1F. */
  lemma IsSpaceAscii(c: char)
    requires c < '\U{80}'
    ensures IsSpace(c) <==>
      c in [' ', '\t', '\n', '\U{B}', '\U{C}', '\r', '\U{1C}', '\U{1D}', '\U{1E}', '\U{1F}']
  {
  }

  predicate AllSpace(s: string) {
    forall i :: 0 <= i < |s| ==> IsSpace(s[i])
  }

  predicate NoSpace(s: string) {
    forall i :: 0 <= i < |s| ==> !IsSpace(s[i])
  }

  /** "(" or ")": a character that is a member of PARENTHESES. */
  predicate IsParen(c: char) {
    [c] in Parentheses
  }

  predicate NoParen(s: string) {
    forall i :: 0 <= i < |s| ==> !IsParen(s[i])
  }

  // ---------------------------------------------------------------------------
  // str.strip() and str.split()

  /** s without its leading whitespace. */
  function TrimLeft(s: string): (r: string)
    ensures |r| <= |s| && (r == [] || !IsSpace(r[0]))
  {
    if s != [] && IsSpace(s[0]) then TrimLeft(s[1..]) else s
  }

  /** What TrimLeft removes is a run of whitespace, and what it keeps is the rest of s. */
  lemma {:induction false} TrimLeftSplits(s: string)
    ensures s == s[..|s| - |TrimLeft(s)|] + TrimLeft(s)
    ensures AllSpace(s[..|s| - |TrimLeft(s)|])
    decreases |s|
  {
    if s != [] && IsSpace(s[0]) {
      var t := s[1..];
      TrimLeftSplits(t);
      var k := |s| - |TrimLeft(s)|;
      assert s[..k] == [s[0]] + t[..k - 1];
      assert s == [s[0]] + t;
    } else {
      assert s[..0] == [];
    }
  }

  /** s without its trailing whitespace. */
  function TrimRight(s: string): (r: string)
    ensures |r| <= |s| && r == s[..|r|]
    ensures AllSpace(s[|r|..])
    ensures r == [] || !IsSpace(r[|r| - 1])
  {
    if s != [] && IsSpace(s[|s| - 1]) then
      var r := TrimRight(s[..|s| - 1]);
      TrimRightStep(s, r);
      r
    else
      s
  }

  lemma TrimRightStep(s: string, r: string)
    requires s != [] && IsSpace(s[|s| - 1])
    requires |r| <= |s| - 1 && r == s[..|s| - 1][..|r|]
    requires AllSpace(s[..|s| - 1][|r|..])
    ensures r == s[..|r|] && AllSpace(s[|r|..])
  {
    var n := |r|;
    forall i | n <= i < |s| - 1 ensures IsSpace(s[i]) {
      assert s[i] == s[..|s| - 1][n..][i - n];
    }
  }

  /** str.strip() with no argument. */
  function Strip(s: string): (r: string)
    ensures |r| <= |s|
    ensures r == [] || (!IsSpace(r[0]) && !IsSpace(r[|r| - 1]))
  {
    TrimRight(TrimLeft(s))
  }

  /** Length of the run of non-whitespace characters that starts s. */
  function WordEnd(s: string): (n: nat)
    ensures n <= |s| && NoSpace(s[..n])
    ensures n == |s| || IsSpace(s[n])
  {
    if s == [] || IsSpace(s[0]) then 0 else 1 + WordEnd(s[1..])
  }

  /** str.split() with no argument: the maximal runs of non-whitespace characters, in order. */
  function Words(s: string): (ws: seq<string>)
    ensures forall i :: 0 <= i < |ws| ==> ws[i] != [] && NoSpace(ws[i])
    decreases |s|
  {
    if s == [] then []
    else if IsSpace(s[0]) then Words(s[1..])
    else
      var n := WordEnd(s);
      [s[..n]] + Words(s[n..])
  }

  /** The words joined with a separator, as str.join does. */
  function Join(ws: seq<string>, sep: string): string {
    if ws == [] then []
    else if |ws| == 1 then ws[0]
    else ws[0] + sep + Join(ws[1..], sep)
  }

  lemma JoinCons(w: string, ws: seq<string>, sep: string)
    requires ws != []
    ensures Join([w] + ws, sep) == w + sep + Join(ws, sep)
  {
    assert ([w] + ws)[1..] == ws;
  }

  /** The characters of s that are not whitespace, in order. */
  function Visible(s: string): string {
    if s == [] then []
    else (if IsSpace(s[0]) then [] else [s[0]]) + Visible(s[1..])
  }

  lemma Reassociate<T>(a: seq<T>, b: seq<T>, c: seq<T>, d: seq<T>)
    requires b == c + d
    ensures a + b == (a + c) + d
  {}

  function Concat(ps: seq<string>): string {
    if ps == [] then [] else ps[0] + Concat(ps[1..])
  }

  lemma {:induction false} ConcatAppend(a: seq<string>, b: seq<string>)
    ensures Concat(a + b) == Concat(a) + Concat(b)
    decreases |a|
  {
    if a == [] {
      assert a + b == b;
    } else {
      assert (a + b)[1..] == a[1..] + b;
      ConcatAppend(a[1..], b);
    }
  }

  lemma {:induction false} VisibleAppend(a: string, b: string)
    ensures Visible(a + b) == Visible(a) + Visible(b)
    decreases |a|
  {
    if a == [] {
      assert a + b == b;
    } else {
      assert (a + b)[1..] == a[1..] + b;
      VisibleAppend(a[1..], b);
    }
  }

  lemma {:induction false} VisibleOfNoSpace(s: string)
    requires NoSpace(s)
    ensures Visible(s) == s
    decreases |s|
  {
    if s != [] {
      VisibleOfNoSpace(s[1..]);
    }
  }

  /** Splitting loses exactly the whitespace: the words, concatenated, are the
      non-whitespace characters of the input. */
  lemma {:induction false} WordsKeepVisible(s: string)
    ensures Concat(Words(s)) == Visible(s)
    decreases |s|
  {
    if s != [] {
      if IsSpace(s[0]) {
        WordsKeepVisible(s[1..]);
      } else {
        var n := WordEnd(s);
        WordsKeepVisible(s[n..]);
        assert s == s[..n] + s[n..];
        VisibleAppend(s[..n], s[n..]);
        VisibleOfNoSpace(s[..n]);
        assert ([s[..n]] + Words(s[n..]))[1..] == Words(s[n..]);
      }
    }
  }

  /** Leading whitespace does not change the split. */
  lemma {:induction false} WordsSkipSpace(sp: string, s: string)
    requires AllSpace(sp)
    ensures Words(sp + s) == Words(s)
    decreases |sp|
  {
    if sp == [] {
      assert sp + s == s;
    } else {
      assert (sp + s)[1..] == sp[1..] + s;
      WordsSkipSpace(sp[1..], s);
    }
  }

  /** Trailing whitespace does not change the split. */
  lemma {:induction false} WordsDropSpace(s: string, sp: string)
    requires AllSpace(sp)
    ensures Words(s + sp) == Words(s)
    decreases |s|
  {
    if s == [] {
      assert sp + [] == sp;
      WordsSkipSpace(sp, []);
      assert s + sp == sp + [];
    } else if IsSpace(s[0]) {
      assert (s + sp)[1..] == s[1..] + sp;
      WordsDropSpace(s[1..], sp);
    } else {
      var n := WordEnd(s);
      WordEndUnique(s + sp, n);
      assert (s + sp)[..n] == s[..n];
      assert (s + sp)[n..] == s[n..] + sp;
      WordsDropSpace(s[n..], sp);
    }
  }

  lemma WordEndUnique(s: string, n: nat)
    requires n <= |s| && NoSpace(s[..n])
    requires n == |s| || IsSpace(s[n])
    ensures WordEnd(s) == n
  {
    var m := WordEnd(s);
    assert forall k :: 0 <= k < n ==> s[..n][k] == s[k];
    assert forall k :: 0 <= k < m ==> s[..m][k] == s[k];
  }

  lemma WordsOfTrimLeft(s: string)
    ensures Words(TrimLeft(s)) == Words(s)
  {
    var l := TrimLeft(s);
    var lead := s[..|s| - |l|];
    TrimLeftSplits(s);
    WordsSkipSpace(lead, l);
  }

  lemma WordsOfTrimRight(s: string)
    ensures Words(TrimRight(s)) == Words(s)
  {
    var r := TrimRight(s);
    var trail := s[|r|..];
    assert s == r + trail;
    WordsDropSpace(r, trail);
  }

  /** The strip before the split is redundant: split alone discards the outer whitespace. */
  lemma WordsOfStrip(s: string)
    ensures Words(Strip(s)) == Words(s)
  {
    WordsOfTrimLeft(s);
    WordsOfTrimRight(TrimLeft(s));
  }

  /** A word followed by whitespace (or nothing) is split off whole. */
  lemma WordsCons(w: string, t: string)
    requires w != [] && NoSpace(w)
    requires t == [] || IsSpace(t[0])
    ensures Words(w + t) == [w] + Words(t)
  {
    WordEndUnique(w + t, |w|);
    assert (w + t)[..|w|] == w;
    assert (w + t)[|w|..] == t;
  }

  /** Splitting undoes joining with any non-empty whitespace separator, so the
      amount and kind of whitespace between words is not significant. */
  lemma {:induction false} WordsOfJoin(ws: seq<string>, sep: string)
    requires forall i :: 0 <= i < |ws| ==> ws[i] != [] && NoSpace(ws[i])
    requires sep != [] && AllSpace(sep)
    ensures Words(Join(ws, sep)) == ws
    decreases |ws|
  {
    if ws == [] {
    } else if |ws| == 1 {
      WordsCons(ws[0], []);
      assert ws[0] + [] == ws[0];
      assert ws == [ws[0]];
    } else {
      var rest := Join(ws[1..], sep);
      WordsOfJoin(ws[1..], sep);
      WordsSkipSpace(sep, rest);
      assert ws[0] + sep + rest == ws[0] + (sep + rest);
      WordsCons(ws[0], sep + rest);
      assert ws == [ws[0]] + ws[1..];
    }
  }

  /** ws with gaps[k] written between ws[k] and ws[k + 1]. */
  function JoinWith(ws: seq<string>, gaps: seq<string>): string
    requires |ws| == |gaps| + 1
  {
    if gaps == [] then ws[0] else ws[0] + gaps[0] + JoinWith(ws[1..], gaps[1..])
  }

  /** Splitting undoes joining with any non-empty whitespace in each gap, each gap
      its own: no gap's amount or kind of whitespace is significant. */
  lemma {:induction false} WordsOfJoinWith(ws: seq<string>, gaps: seq<string>)
    requires |ws| == |gaps| + 1
    requires forall i :: 0 <= i < |ws| ==> ws[i] != [] && NoSpace(ws[i])
    requires forall i :: 0 <= i < |gaps| ==> gaps[i] != [] && AllSpace(gaps[i])
    ensures Words(JoinWith(ws, gaps)) == ws
    decreases |gaps|
  {
    if gaps == [] {
      WordsCons(ws[0], []);
      assert ws[0] + [] == ws[0];
      assert ws == [ws[0]];
    } else {
      var rest := JoinWith(ws[1..], gaps[1..]);
      WordsOfJoinWith(ws[1..], gaps[1..]);
      WordsSkipSpace(gaps[0], rest);
      assert ws[0] + gaps[0] + rest == ws[0] + (gaps[0] + rest);
      WordsCons(ws[0], gaps[0] + rest);
      assert ws == [ws[0]] + ws[1..];
    }
  }

  // ---------------------------------------------------------------------------
  // tokenize

  /** Index of the first parenthesis in w, or |w| when there is none (the for loop's else branch). */
  function ParenIndex(w: string): (n: nat)
    ensures n <= |w| && NoParen(w[..n])
    ensures n == |w| || IsParen(w[n])
  {
    if w == [] || IsParen(w[0]) then 0 else 1 + ParenIndex(w[1..])
  }

  lemma ParenIndexUnique(w: string, n: nat)
    requires n <= |w| && NoParen(w[..n])
    requires n == |w| || IsParen(w[n])
    ensures ParenIndex(w) == n
  {
    var m := ParenIndex(w);
    assert forall k :: 0 <= k < n ==> w[..n][k] == w[k];
    assert forall k :: 0 <= k < m ==> w[..m][k] == w[k];
  }

  /** The pieces tokenize(word) yields: the text before the first parenthesis, the
      parenthesis itself, then the pieces of the rest of the word. The pieces
      alternate: parenthesis-free text at even positions, a lone parenthesis at odd ones. */
  function Pieces(word: string): seq<string>
    decreases |word|
  {
    var n := ParenIndex(word);
    if n == |word| then [word]
    else [word[..n], [word[n]]] + Pieces(word[n + 1..])
  }

  /** The alternating shape of a parenthesis split. */
  predicate Alternating(ps: seq<string>) {
    && |ps| % 2 == 1
    && forall i :: 0 <= i < |ps| ==> if i % 2 == 0 then NoParen(ps[i]) else ps[i] in Parentheses
  }

  /** Every piece is a lone parenthesis or free of parentheses, and the two kinds alternate. */
  lemma {:induction false} PiecesAlternate(word: string)
    ensures Alternating(Pieces(word))
    decreases |word|
  {
    var n := ParenIndex(word);
    if n < |word| {
      var rest := Pieces(word[n + 1..]);
      PiecesAlternate(word[n + 1..]);
      var ps := Pieces(word);
      forall i | 0 <= i < |ps|
        ensures if i % 2 == 0 then NoParen(ps[i]) else ps[i] in Parentheses
      {
        if i >= 2 {
          assert ps[i] == rest[i - 2];
        }
      }
    }
  }

  /** Nothing is lost or reordered: the pieces concatenate back to the word. */
  lemma {:induction false} PiecesConcat(word: string)
    ensures Concat(Pieces(word)) == word
    decreases |word|
  {
    var n := ParenIndex(word);
    if n == |word| {
      ConcatSingle(word);
    } else {
      var head, p, rest := word[..n], [word[n]], word[n + 1..];
      assert Pieces(word) == [head, p] + Pieces(rest);
      PiecesConcat(rest);
      ConcatAppend([head, p], Pieces(rest));
      ConcatPair(head, p);
      assert word == head + p + rest;
    }
  }

  lemma ConcatSingle(x: string)
    ensures Concat([x]) == x
  {
    assert Concat([x]) == x + Concat([]);
  }

  lemma ConcatPair(x: string, y: string)
    ensures Concat([x, y]) == x + y
  {
    assert [x, y][1..] == [y];
    ConcatSingle(y);
  }

  /** The split is the only alternating sequence of pieces that concatenates to the word. */
  lemma {:induction false} PiecesUnique(word: string, ps: seq<string>)
    requires Alternating(ps) && Concat(ps) == word
    ensures ps == Pieces(word)
    decreases |ps|
  {
    if |ps| == 1 {
      assert Concat(ps) == ps[0] + Concat([]);
      assert ps[0] == word && NoParen(word);
      ParenIndexUnique(word, |word|);
      assert ps == [word];
    } else {
      var a, p, rest := ps[0], ps[1], ps[2..];
      assert ps == [a, p] + rest;
      assert Alternating(rest) by {
        forall i | 0 <= i < |rest|
          ensures if i % 2 == 0 then NoParen(rest[i]) else rest[i] in Parentheses
        {
          assert rest[i] == ps[i + 2];
        }
      }
      ConcatAppend([a, p], rest);
      assert Concat([a, p]) == a + (p + Concat([]));
      assert word == a + p + Concat(rest);
      assert |p| == 1 && IsParen(p[0]);
      assert word[..|a|] == a;
      assert word[|a|] == p[0];
      ParenIndexUnique(word, |a|);
      assert word[|a| + 1..] == Concat(rest);
      PiecesUnique(Concat(rest), rest);
      assert [word[|a|]] == p;
    }
  }

  /** A word without parentheses is one piece, the word itself; any parenthesis splits it. */
  lemma PiecesOfPlainWord(word: string)
    ensures Pieces(word) == [word] <==> NoParen(word)
  {
    if NoParen(word) {
      ParenIndexUnique(word, |word|);
    }
  }

  /** tokenize: the indexed for loop with break/else, recursing on the rest of the
      word after the first parenthesis. */
  method Tokenize(word: string) returns (pieces: seq<string>)
    ensures pieces == Pieces(word)
    decreases |word|
  {
    for index := 0 to |word|
      invariant NoParen(word[..index])
    {
      if [word[index]] in Parentheses {
        ParenIndexUnique(word, index);
        var rest := Tokenize(word[index + 1..]);
        return [word[..index], [word[index]]] + rest;
      }
      assert word[..index + 1] == word[..index] + [word[index]];
    }
    ParenIndexUnique(word, |word|);
    return [word];
  }

  // ---------------------------------------------------------------------------
  // filter(None, ...) and the raw token stream

  /** filter(None, ps): the non-empty pieces, in order. */
  function NonEmpty(ps: seq<string>): (r: seq<string>)
    ensures forall i :: 0 <= i < |r| ==> r[i] != []
  {
    if ps == [] then []
    else NonEmpty(ps[..|ps| - 1]) + (if ps[|ps| - 1] == [] then [] else [ps[|ps| - 1]])
  }

  /** filter keeps exactly the non-empty pieces. */
  lemma {:induction false} NonEmptyMembers(ps: seq<string>)
    ensures forall t :: t in NonEmpty(ps) <==> t in ps && t != []
    decreases |ps|
  {
    if ps != [] {
      NonEmptyMembers(ps[..|ps| - 1]);
      assert ps == ps[..|ps| - 1] + [ps[|ps| - 1]];
    }
  }

  lemma {:induction false} NonEmptyAppend(a: seq<string>, b: seq<string>)
    ensures NonEmpty(a + b) == NonEmpty(a) + NonEmpty(b)
    decreases |b|
  {
    if b == [] {
      assert a + b == a;
    } else {
      var b' := b[..|b| - 1];
      assert (a + b)[..|a + b| - 1] == a + b';
      NonEmptyAppend(a, b');
    }
  }

  /** The tokens of the words before resolution: each word's non-empty pieces, word after word. */
  function Scan(words: seq<string>): seq<string> {
    if words == [] then []
    else Scan(words[..|words| - 1]) + NonEmpty(Pieces(words[|words| - 1]))
  }

  /** One more word adds its non-empty pieces at the end. */
  lemma ScanPush(init: seq<string>, w: string)
    ensures Scan(init + [w]) == Scan(init) + NonEmpty(Pieces(w))
  {
    assert (init + [w])[..|init|] == init;
  }

  lemma {:induction false} ScanAppend(a: seq<string>, b: seq<string>)
    ensures Scan(a + b) == Scan(a) + Scan(b)
    decreases |b|
  {
    if b == [] {
      assert a + b == a;
    } else {
      var b', w := b[..|b| - 1], b[|b| - 1];
      var x, y := NonEmpty(Pieces(w)), Scan(b');
      assert b == b' + [w];
      assert a + b == (a + b') + [w];
      ScanPush(b', w);
      ScanPush(a + b', w);
      ScanAppend(a, b');
      calc {
        Scan(a + b);
        Scan(a + b') + x;
        (Scan(a) + y) + x;
        Scan(a) + (y + x);
      }
    }
  }

  lemma ScanSnoc(words: seq<string>, i: nat)
    requires i < |words|
    ensures Scan(words[..i + 1]) == Scan(words[..i]) + NonEmpty(Pieces(words[i]))
  {
    assert words[..i + 1][..i] == words[..i];
  }

  /** The tokens of a word list around its word i. */
  lemma ScanAround(words: seq<string>, i: nat)
    requires i < |words|
    ensures Scan(words) == Scan(words[..i]) + NonEmpty(Pieces(words[i])) + Scan(words[i + 1..])
  {
    SplitAt(words, i);
    ScanOfParts(words[..i], words[i], words[i + 1..]);
  }

  lemma SplitAt<T>(s: seq<T>, i: nat)
    requires i < |s|
    ensures s == s[..i] + [s[i]] + s[i + 1..]
  {
  }

  lemma ScanOfParts(pre: seq<string>, w: string, post: seq<string>)
    ensures Scan(pre + [w] + post) == Scan(pre) + NonEmpty(Pieces(w)) + Scan(post)
  {
    ScanAppend(pre + [w], post);
    ScanAppend(pre, [w]);
    ScanSingle(w);
  }

  /** The raw token stream boolexpr resolves: the expression stripped, split on
      whitespace, each word cut at its parentheses, empty pieces dropped. */
  function RawTokens(expression: string): seq<string> {
    Scan(Words(Strip(expression)))
  }

  /** The pieces of a word without whitespace have no whitespace either. */
  lemma {:induction false} PiecesNoSpace(w: string)
    requires NoSpace(w)
    ensures forall i :: 0 <= i < |Pieces(w)| ==> NoSpace(Pieces(w)[i])
    decreases |w|
  {
    var n := ParenIndex(w);
    if n < |w| {
      var head, rest := w[..n], w[n + 1..];
      NoSpaceSlice(w, 0, n);
      NoSpaceSlice(w, n + 1, |w|);
      assert w[0..n] == head && w[n + 1..|w|] == rest;
      assert NoSpace([w[n]]);
      PiecesNoSpace(rest);
      var ps := Pieces(w);
      assert ps == [head, [w[n]]] + Pieces(rest);
      forall i | 2 <= i < |ps| ensures NoSpace(ps[i]) {
        assert ps[i] == Pieces(rest)[i - 2];
      }
    }
  }

  lemma NoSpaceSlice(w: string, lo: nat, hi: nat)
    requires NoSpace(w) && lo <= hi <= |w|
    ensures NoSpace(w[lo..hi])
  {
    forall k | 0 <= k < hi - lo ensures !IsSpace(w[lo..hi][k]) {
      assert w[lo..hi][k] == w[lo + k];
    }
  }

  /** The shape of a raw token, and of a word the scanner hands on whole:
      non-empty, no whitespace, and either a lone parenthesis or free of
      parentheses. */
  predicate WordLike(t: string) {
    t != [] && NoSpace(t) && (t in Parentheses || NoParen(t))
  }

  /** The non-empty pieces of a word without whitespace are word-like. */
  lemma PiecesShaped(w: string)
    requires NoSpace(w)
    ensures forall t :: t in NonEmpty(Pieces(w)) ==> WordLike(t)
  {
    var ps := Pieces(w);
    PiecesAlternate(w);
    PiecesNoSpace(w);
    NonEmptyMembers(ps);
    forall t | t in NonEmpty(ps) ensures WordLike(t) {
      var i :| 0 <= i < |ps| && ps[i] == t;
    }
  }

  /** Every raw token is non-empty and is either a lone parenthesis or a run of
      characters with neither whitespace nor parentheses. */
  lemma {:induction false} RawTokensShape(words: seq<string>)
    requires forall i :: 0 <= i < |words| ==> NoSpace(words[i])
    ensures forall t :: t in Scan(words) ==> WordLike(t)
    decreases |words|
  {
    if words != [] {
      var init, w := words[..|words| - 1], words[|words| - 1];
      assert words == init + [w];
      RawTokensShape(init);
      ScanPush(init, w);
      PiecesShaped(w);
    }
  }

  /** The pieces of a word whose first parenthesis is at index n. */
  lemma PiecesAt(w: string, n: nat)
    requires n < |w| && NoParen(w[..n]) && IsParen(w[n])
    ensures Pieces(w) == [w[..n], [w[n]]] + Pieces(w[n + 1..])
  {
    ParenIndexUnique(w, n);
  }

  lemma PiecesOfParen(p: char)
    requires IsParen(p)
    ensures NonEmpty(Pieces([p])) == [[p]]
  {
    PiecesAt([p], 0);
    PiecesAlternate([p]);
    assert [p][1..] == [];
    PiecesOfPlainWord([]);
    NonEmptyAppend([[], [p]], [[]]);
    assert [[], [p]][..1] == [[]];
  }

  lemma ScanSingle(w: string)
    ensures Scan([w]) == NonEmpty(Pieces(w))
  {
    assert [w][..0] == [];
  }

  lemma NonEmptyPiecesSplitPlain(u: string, p: char, v: string)
    requires IsParen(p) && NoParen(u)
    ensures NonEmpty(Pieces(u + [p] + v)) == NonEmpty(Pieces(u)) + [[p]] + NonEmpty(Pieces(v))
  {
    var w := u + [p] + v;
    assert w[..|u|] == u;
    PiecesAt(w, |u|);
    assert w[|u| + 1..] == v;
    PiecesOfPlainWord(u);
    NonEmptyAppend([u, [p]], Pieces(v));
    assert [u, [p]][..1] == [u];
  }

  /** Cutting a word at a parenthesis, at the non-empty-piece level. */
  lemma {:induction false} NonEmptyPiecesSplit(u: string, p: char, v: string)
    requires IsParen(p)
    ensures NonEmpty(Pieces(u + [p] + v)) == NonEmpty(Pieces(u)) + ([[p]] + NonEmpty(Pieces(v)))
    decreases |u|
  {
    var m := ParenIndex(u);
    if m == |u| {
      NonEmptyPiecesSplitPlain(u, p, v);
    } else {
      var u' := u[m + 1..];
      var head := [u[..m], [u[m]]];
      PiecesOfExtended(u, m, p, v);
      PiecesAt(u, m);
      NonEmptyPiecesSplit(u', p, v);
      NonEmptyPrefixed(head, Pieces(u' + [p] + v), Pieces(u'), [[p]] + NonEmpty(Pieces(v)));
    }
  }

  /** Text after a word's first parenthesis does not move that parenthesis. */
  lemma PiecesOfExtended(u: string, m: nat, p: char, v: string)
    requires m == ParenIndex(u) < |u|
    ensures Pieces(u + [p] + v) == [u[..m], [u[m]]] + Pieces(u[m + 1..] + [p] + v)
  {
    var w := u + [p] + v;
    var head, rest := u[..m], u[m + 1..] + [p] + v;
    assert w == head + [u[m]] + rest;
    assert w[..m] == head && w[m] == u[m] && w[m + 1..] == rest;
    PiecesAt(w, m);
  }

  lemma NonEmptyPrefixed(head: seq<string>, x: seq<string>, y: seq<string>, z: seq<string>)
    requires NonEmpty(x) == NonEmpty(y) + z
    ensures NonEmpty(head + x) == NonEmpty(head + y) + z
  {
    NonEmptyAppend(head, x);
    NonEmptyAppend(head, y);
    Reassociate(NonEmpty(head), NonEmpty(x), NonEmpty(y), z);
  }

  /** A parenthesis inside a word separates exactly as whitespace would: "(false)"
      scans like the three words "(", "false", ")". */
  lemma ParenSeparates(u: string, p: char, v: string)
    requires IsParen(p)
    ensures Scan([u + [p] + v]) == Scan([u, [p], v])
  {
    ScanSingle(u + [p] + v);
    NonEmptyPiecesSplit(u, p, v);
    ScanAppend([u, [p]], [v]);
    ScanAppend([u], [[p]]);
    assert [u] + [[p]] == [u, [p]] && [u, [p]] + [v] == [u, [p], v];
    ScanSingle(u);
    ScanSingle([p]);
    ScanSingle(v);
    PiecesOfParen(p);
    Reassociate(NonEmpty(Pieces(u)), [[p]] + NonEmpty(Pieces(v)), [[p]], NonEmpty(Pieces(v)));
  }

  // ---------------------------------------------------------------------------
  // Words that are already tokens, and spacing around parentheses

  /** A word that is already a token is its own only non-empty piece. */
  lemma PiecesOfWordLike(w: string)
    requires WordLike(w)
    ensures NonEmpty(Pieces(w)) == [w]
  {
    if w in Parentheses {
      assert w == [w[0]] && IsParen(w[0]);
      PiecesOfParen(w[0]);
    } else {
      PiecesOfPlainWord(w);
      var one: seq<string> := [w];
      assert one[..0] == [];
    }
  }

  /** Words that are already tokens scan to themselves. */
  lemma {:induction false} ScanOfWordLike(ws: seq<string>)
    requires forall i :: 0 <= i < |ws| ==> WordLike(ws[i])
    ensures Scan(ws) == ws
    decreases |ws|
  {
    if ws != [] {
      var init, w := ws[..|ws| - 1], ws[|ws| - 1];
      assert ws == init + [w];
      assert forall i :: 0 <= i < |init| ==> init[i] == ws[i];
      ScanOfWordLike(init);
      ScanPush(init, w);
      PiecesOfWordLike(w);
    }
  }

  /** Words joined by whitespace are scanned word by word. */
  lemma RawTokensOfWords(ws: seq<string>, sep: string)
    requires forall i :: 0 <= i < |ws| ==> ws[i] != [] && NoSpace(ws[i])
    requires sep != [] && AllSpace(sep)
    ensures RawTokens(Join(ws, sep)) == Scan(ws)
  {
    WordsOfStrip(Join(ws, sep));
    WordsOfJoin(ws, sep);
  }

  /** Tokens joined by whitespace scan back to the same tokens. */
  lemma RawTokensOfJoin(ws: seq<string>, sep: string)
    requires forall i :: 0 <= i < |ws| ==> WordLike(ws[i])
    requires sep != [] && AllSpace(sep)
    ensures RawTokens(Join(ws, sep)) == ws
  {
    RawTokensOfWords(ws, sep);
    ScanOfWordLike(ws);
  }

  /** Whitespace around the expression is not significant. */
  lemma RawTokensOfPadded(lead: string, e: string, trail: string)
    requires AllSpace(lead) && AllSpace(trail)
    ensures RawTokens(lead + e + trail) == RawTokens(e)
  {
    WordsOfStrip(lead + e + trail);
    WordsOfStrip(e);
    WordsDropSpace(lead + e, trail);
    WordsSkipSpace(lead, e);
  }

  /** The amount and kind of whitespace between words is not significant. */
  lemma RawTokensOfSeparator(ws: seq<string>, sep: string, sep': string)
    requires forall i :: 0 <= i < |ws| ==> ws[i] != [] && NoSpace(ws[i])
    requires sep != [] && AllSpace(sep) && sep' != [] && AllSpace(sep')
    ensures RawTokens(Join(ws, sep)) == RawTokens(Join(ws, sep'))
  {
    RawTokensOfWords(ws, sep);
    RawTokensOfWords(ws, sep');
  }

  /** Words with any whitespace around them and any non-empty whitespace in each gap
      are scanned word by word. */
  lemma RawTokensOfGaps(lead: string, ws: seq<string>, gaps: seq<string>, trail: string)
    requires |ws| == |gaps| + 1
    requires forall i :: 0 <= i < |ws| ==> ws[i] != [] && NoSpace(ws[i])
    requires forall i :: 0 <= i < |gaps| ==> gaps[i] != [] && AllSpace(gaps[i])
    requires AllSpace(lead) && AllSpace(trail)
    ensures RawTokens(lead + JoinWith(ws, gaps) + trail) == Scan(ws)
  {
    RawTokensOfPadded(lead, JoinWith(ws, gaps), trail);
    WordsOfStrip(JoinWith(ws, gaps));
    WordsOfJoinWith(ws, gaps);
  }

  /** A parenthesis inside one word of a list scans as if it stood alone. */
  lemma ScanCutsAtParen(pre: seq<string>, u: string, p: char, v: string, post: seq<string>)
    requires IsParen(p)
    ensures Scan(pre + [u + [p] + v] + post) == Scan(pre + [u, [p], v] + post)
  {
    ScanAppend(pre + [u + [p] + v], post);
    ScanAppend(pre, [u + [p] + v]);
    ScanAppend(pre + [u, [p], v], post);
    ScanAppend(pre, [u, [p], v]);
    ParenSeparates(u, p, v);
  }

  /** An empty word contributes no tokens. */
  lemma ScanDropsEmpty(pre: seq<string>, post: seq<string>)
    ensures Scan(pre + [[]] + post) == Scan(pre + post)
  {
    ScanAppend(pre + [[]], post);
    ScanAppend(pre, [[]]);
    ScanAppend(pre, post);
    ScanSingle([]);
    PiecesOfPlainWord([]);
    var empty: seq<string> := [[]];
    assert empty[..0] == [];
    assert Scan([[]]) == [];
  }
}
