// S-expression trees, their token sequences, and a reference parser that works
// on tokens.  The character-level parser of tools/z3-bench/sexpr.h is proved
// equal to this reference in SExprTheorems.dfy.
module SExprs {
  import opened Common

  datatype SExpr = Atom(text: string) | List(elements: seq<SExpr>)

  predicate IsAsciiWhitespace(c: char) {
    c == ' ' || c == '\t' || c == '\n' || c == '\r'
  }

  predicate IsDelimiter(c: char) {
    IsAsciiWhitespace(c) || c == '(' || c == ')'
  }

  // A text that the parser can produce as an atom inside a tree.
  predicate IsWord(s: string) {
    s != "" && forall i | 0 <= i < |s| :: !IsDelimiter(s[i])
  }

  predicate WellFormed(e: SExpr) {
    match e
    case Atom(text) => IsWord(text)
    case List(es) => forall i | 0 <= i < |es| :: WellFormed(es[i])
  }

  predicate AllWellFormed(es: seq<SExpr>) {
    forall i | 0 <= i < |es| :: WellFormed(es[i])
  }

  // ---------- Tokens ----------

  datatype Token = Open | Close | Word(text: string)

  // Length of the longest delimiter-free prefix.
  function WordLength(s: string): (n: nat)
    ensures n <= |s|
    ensures forall i | 0 <= i < n :: !IsDelimiter(s[i])
    ensures n < |s| ==> IsDelimiter(s[n])
  {
    if s == "" || IsDelimiter(s[0]) then 0 else 1 + WordLength(s[1..])
  }

  function Tokens(s: string): seq<Token>
    decreases |s|
  {
    if s == "" then []
    else if IsAsciiWhitespace(s[0]) then Tokens(s[1..])
    else if s[0] == '(' then [Open] + Tokens(s[1..])
    else if s[0] == ')' then [Close] + Tokens(s[1..])
    else
      var n := WordLength(s);
      assert n > 0;
      [Word(s[..n])] + Tokens(s[n..])
  }

  // The in-order atoms and parentheses of a tree.
  function Flatten(e: SExpr): seq<Token>
    decreases e
  {
    match e
    case Atom(text) => [Word(text)]
    case List(es) => [Open] + FlattenAll(es) + [Close]
  }

  function FlattenAll(es: seq<SExpr>): seq<Token>
    decreases es
  {
    if es == [] then [] else Flatten(es[0]) + FlattenAll(es[1..])
  }

  // Opening minus closing parentheses.
  function Depth(ts: seq<Token>): int {
    if ts == [] then 0
    else (match ts[0] case Open => 1 case Close => -1 case Word(_) => 0) + Depth(ts[1..])
  }

  // How many tokens precede the first closing parenthesis that has no partner,
  // when d parentheses are already open.
  function Matched(ts: seq<Token>, d: nat): (n: nat)
    ensures n <= |ts|
  {
    if ts == [] then 0
    else match ts[0]
      case Open => 1 + Matched(ts[1..], d + 1)
      case Close => if d == 0 then 0 else 1 + Matched(ts[1..], d - 1)
      case Word(_) => 1 + Matched(ts[1..], d)
  }

  ghost predicate HasStray(ts: seq<Token>) {
    Matched(ts, 0) < |ts|
  }

  ghost predicate Balanced(ts: seq<Token>) {
    !HasStray(ts) && Depth(ts) == 0
  }

  function Closers(n: nat): seq<Token> {
    seq(n, _ => Close)
  }

  // ---------- The reference parser ----------

  // Parses trees until the tokens run out or a closing parenthesis has no
  // partner; missing closing parentheses at the end are supplied.
  function ParseTokens(ts: seq<Token>): (r: (seq<SExpr>, seq<Token>))
    ensures |r.1| <= |ts|
    ensures r.1 != [] ==> r.1[0] == Close
    decreases |ts|
  {
    if ts == [] || ts[0].Close? then ([], ts)
    else if ts[0].Word? then
      var (es, rest) := ParseTokens(ts[1..]);
      ([Atom(ts[0].text)] + es, rest)
    else
      var (inner, r1) := ParseTokens(ts[1..]);
      var (es, rest) := ParseTokens(if r1 == [] then [] else r1[1..]);
      ([List(inner)] + es, rest)
  }

  // ---------- Small facts about the definitions ----------

  lemma FlattenAllCons(e: SExpr, es: seq<SExpr>)
    ensures FlattenAll([e] + es) == Flatten(e) + FlattenAll(es)
  {
    assert ([e] + es)[1..] == es;
  }

  lemma {:induction false} FlattenAllAppend(a: seq<SExpr>, b: seq<SExpr>)
    ensures FlattenAll(a + b) == FlattenAll(a) + FlattenAll(b)
  {
    if a == [] {
      assert a + b == b;
    } else {
      FlattenAllAppend(a[1..], b);
      Uncons(a);
      Assoc([a[0]], a[1..], b);
      FlattenAllCons(a[0], a[1..] + b);
      Assoc(Flatten(a[0]), FlattenAll(a[1..]), FlattenAll(b));
    }
  }

  lemma {:induction false} DepthAppend(a: seq<Token>, b: seq<Token>)
    ensures Depth(a + b) == Depth(a) + Depth(b)
  {
    if a == [] {
      assert a + b == b;
    } else {
      DepthAppend(a[1..], b);
      assert (a + b)[1..] == a[1..] + b;
    }
  }

  // Matched over a concatenation: scanning continues at the depth reached.
  lemma {:induction false} MatchedAppend(a: seq<Token>, b: seq<Token>, d: nat)
    ensures Matched(a, d) < |a| ==> Matched(a + b, d) == Matched(a, d)
    ensures Matched(a, d) == |a| ==> d + Depth(a) >= 0
                                     && Matched(a + b, d) == |a| + Matched(b, d + Depth(a))
  {
    if a == [] {
      assert a + b == b;
    } else {
      assert (a + b)[1..] == a[1..] + b;
      match a[0]
      case Open => MatchedAppend(a[1..], b, d + 1);
      case Close => if d > 0 { MatchedAppend(a[1..], b, d - 1); }
      case Word(_) => MatchedAppend(a[1..], b, d);
    }
  }

  // ---------- Token conservation ----------

  // The trees es spell the tokens in used; closing parentheses may be missing
  // only when nothing is left over.
  ghost predicate Spells(used: seq<Token>, es: seq<SExpr>, atEnd: bool) {
    && Depth(used) >= 0
    && FlattenAll(es) == used + Closers(Depth(used))
    && (!atEnd ==> Depth(used) == 0)
  }

  lemma {:induction false} ParseTokensScan(ts: seq<Token>) returns (used: seq<Token>)
    ensures ts == used + ParseTokens(ts).1
    ensures Spells(used, ParseTokens(ts).0, ParseTokens(ts).1 == [])
    decreases |ts|
  {
    var rest := ParseTokens(ts).1;
    if ts == [] || ts[0].Close? {
      return [];
    }
    var u := ParseTokensScan(ts[1..]);
    var (inner, r1) := ParseTokens(ts[1..]);
    Uncons(ts);
    if ts[0].Word? {
      SpellWord(ts[0].text, u, inner, rest == []);
      Assoc([ts[0]], u, rest);
      return [ts[0]] + u;
    }
    if r1 == [] {
      SpellUnclosed(u, inner);
      assert ParseTokens([]) == ([], []);
      assert [List(inner)] + [] == [List(inner)];
      return [Open] + u;
    }
    var u2 := ParseTokensScan(r1[1..]);
    SpellClosed(u, inner, u2, ParseTokens(r1[1..]).0, rest == []);
    Uncons(r1);
    Regroup([Open], u, [Close], u2, rest);
    used := ([Open] + u + [Close]) + u2;
  }

  lemma Regroup<T>(a: seq<T>, b: seq<T>, c: seq<T>, d: seq<T>, e: seq<T>)
    ensures a + (b + (c + (d + e))) == (a + b + c + d) + e
  {
  }

  lemma SpellWord(w: string, used: seq<Token>, es: seq<SExpr>, atEnd: bool)
    requires Spells(used, es, atEnd)
    ensures Spells([Word(w)] + used, [Atom(w)] + es, atEnd)
  {
    DepthAppend([Word(w)], used);
    FlattenAllCons(Atom(w), es);
  }

  // The input ended inside the list.
  lemma SpellUnclosed(used: seq<Token>, inner: seq<SExpr>)
    requires Spells(used, inner, true)
    ensures Spells([Open] + used, [List(inner)], true)
  {
    DepthAppend([Open], used);
    FlattenAllCons(List(inner), []);
    assert [List(inner)] + [] == [List(inner)];
    assert Closers(Depth(used)) + [Close] == Closers(Depth(used) + 1);
  }

  lemma SpellClosed(used: seq<Token>, inner: seq<SExpr>, used2: seq<Token>, es: seq<SExpr>, atEnd: bool)
    requires Spells(used, inner, false) && Spells(used2, es, atEnd)
    ensures Spells(([Open] + used + [Close]) + used2, [List(inner)] + es, atEnd)
  {
    var front := [Open] + used + [Close];
    assert Depth(front) == 0 by {
      DepthAppend([Open] + used, [Close]);
      DepthAppend([Open], used);
    }
    DepthAppend(front, used2);
    FlattenAllCons(List(inner), es);
    assert used + Closers(0) == used;
    assert Flatten(List(inner)) == front;
  }

  // Flattened trees never meet an unmatched closing parenthesis.
  lemma {:induction false} FlattenMatched(e: SExpr, d: nat)
    ensures Matched(Flatten(e), d) == |Flatten(e)| && Depth(Flatten(e)) == 0
    decreases e
  {
    if e.List? {
      var inner := FlattenAll(e.elements);
      FlattenAllMatched(e.elements, d + 1);
      MatchedAppend(inner, [Close], d + 1);
      DepthAppend(inner, [Close]);
      assert Flatten(e) == [Open] + (inner + [Close]);
      assert Flatten(e)[1..] == inner + [Close];
    }
  }

  lemma {:induction false} FlattenAllMatched(es: seq<SExpr>, d: nat)
    ensures Matched(FlattenAll(es), d) == |FlattenAll(es)| && Depth(FlattenAll(es)) == 0
    decreases es
  {
    if es != [] {
      FlattenMatched(es[0], d);
      FlattenAllMatched(es[1..], d);
      MatchedAppend(Flatten(es[0]), FlattenAll(es[1..]), d);
      DepthAppend(Flatten(es[0]), FlattenAll(es[1..]));
    }
  }

  // The reference parser consumes exactly the tokens before the first unmatched
  // closing parenthesis, and its trees spell those tokens followed by the
  // missing closing parentheses.
  lemma ParseTokensConserves(ts: seq<Token>)
    ensures var (es, rest) := ParseTokens(ts);
            var used := Matched(ts, 0);
            && rest == ts[used..]
            && Depth(ts[..used]) >= 0
            && FlattenAll(es) == ts[..used] + Closers(Depth(ts[..used]))
            && (HasStray(ts) ==> Depth(ts[..used]) == 0)
  {
    var used := ParseTokensScan(ts);
    var (es, rest) := ParseTokens(ts);
    SpelledAreMatched(used, es, rest);
    Cut(used, rest);
  }

  // Tokens spelled by trees, up to the end or a closing parenthesis, are all matched.
  lemma SpelledAreMatched(used: seq<Token>, es: seq<SExpr>, rest: seq<Token>)
    requires Spells(used, es, rest == [])
    requires rest != [] ==> rest[0] == Close
    ensures Matched(used + rest, 0) == |used|
  {
    FlattenAllMatched(es, 0);
    PrefixMatched(used, Closers(Depth(used)));
    StopsAfter(used, rest);
  }

  lemma StopsAfter(used: seq<Token>, rest: seq<Token>)
    requires Matched(used, 0) == |used|
    requires rest != [] ==> rest[0] == Close && Depth(used) == 0
    ensures Matched(used + rest, 0) == |used|
  {
    MatchedAppend(used, rest, 0);
  }

  lemma PrefixMatched(a: seq<Token>, b: seq<Token>)
    requires Matched(a + b, 0) == |a + b|
    ensures Matched(a, 0) == |a|
  {
    MatchedAppend(a, b, 0);
  }

  // ---------- Parsing inverts flattening ----------

  lemma ParseWordStep(w: string, more: seq<Token>)
    ensures ParseTokens([Word(w)] + more) == ([Atom(w)] + ParseTokens(more).0, ParseTokens(more).1)
  {
    assert ([Word(w)] + more)[1..] == more;
  }

  lemma ParseListStep(ts: seq<Token>, inner: seq<SExpr>, more: seq<Token>)
    requires ParseTokens(ts) == (inner, [Close] + more)
    ensures ParseTokens([Open] + ts) == ([List(inner)] + ParseTokens(more).0, ParseTokens(more).1)
  {
    assert ([Open] + ts)[1..] == ts;
    assert ([Close] + more)[1..] == more;
  }

  lemma ParseUnclosedStep(ts: seq<Token>, inner: seq<SExpr>)
    requires ParseTokens(ts) == (inner, [])
    ensures ParseTokens([Open] + ts) == ([List(inner)], [])
  {
    assert ([Open] + ts)[1..] == ts;
    assert ParseTokens([]) == ([], []);
    assert [List(inner)] + [] == [List(inner)];
  }

  // Flattened trees in front of any tokens are parsed back as themselves.
  lemma {:induction false} ParseFlattened(es: seq<SExpr>, ts: seq<Token>)
    ensures ParseTokens(FlattenAll(es) + ts) == (es + ParseTokens(ts).0, ParseTokens(ts).1)
    decreases es, 1
  {
    var forms := ParseTokens(ts).0;
    if es == [] {
      assert FlattenAll(es) + ts == ts;
      assert es + forms == forms;
    } else {
      var more := FlattenAll(es[1..]) + ts;
      ParseFlattened(es[1..], ts);
      Uncons(es);
      Assoc([es[0]], es[1..], forms);
      Assoc(Flatten(es[0]), FlattenAll(es[1..]), ts);
      if es[0].Atom? {
        ParseWordStep(es[0].text, more);
      } else {
        ParseFlattenedList(es[0], more);
      }
    }
  }

  lemma {:induction false} ParseFlattenedList(e: SExpr, more: seq<Token>)
    requires e.List?
    ensures ParseTokens(Flatten(e) + more) == ([e] + ParseTokens(more).0, ParseTokens(more).1)
    decreases e, 0
  {
    var inner := e.elements;
    var stop := [Close] + more;
    ParseFlattened(inner, stop);
    assert ParseTokens(stop) == ([], stop);
    assert inner + [] == inner;
    Assoc([Open] + FlattenAll(inner), [Close], more);
    Assoc([Open], FlattenAll(inner), stop);
    ParseListStep(FlattenAll(inner) + stop, inner, more);
  }

  // A token sequence is balanced exactly when it spells a sequence of trees.
  lemma BalancedIsFlattened(ts: seq<Token>)
    ensures Balanced(ts) <==> exists es :: FlattenAll(es) == ts
    ensures Balanced(ts) ==> FlattenAll(ParseTokens(ts).0) == ts && ParseTokens(ts).1 == []
  {
    ParseTokensConserves(ts);
    if Balanced(ts) {
      assert ts[..Matched(ts, 0)] == ts;
      assert FlattenAll(ParseTokens(ts).0) == ts;
    }
    if es :| FlattenAll(es) == ts {
      ParseFlattened(es, []);
      assert ts + [] == ts && es + [] == es;
      assert ParseTokens(ts) == (es, []);
      var used := Matched(ts, 0);
      assert ts == ts[..used] && |ts| == |ts + Closers(Depth(ts))|;
    }
  }

  // Parsing distributes over concatenation after a balanced prefix.
  lemma ParseAfterBalanced(a: seq<Token>, b: seq<Token>)
    requires Balanced(a)
    ensures ParseTokens(a + b) == (ParseTokens(a).0 + ParseTokens(b).0, ParseTokens(b).1)
  {
    BalancedIsFlattened(a);
    ParseFlattened(ParseTokens(a).0, b);
  }

  // Nothing after a stray closing parenthesis matters.
  lemma ParseAfterStray(a: seq<Token>, b: seq<Token>)
    requires HasStray(a)
    ensures ParseTokens(a + b) == (ParseTokens(a).0, ParseTokens(a).1 + b)
  {
    ParseTokensConserves(a);
    var (es, rest) := ParseTokens(a);
    var used := Matched(a, 0);
    assert Closers(0) == [];
    assert a == FlattenAll(es) + rest;
    Assoc(FlattenAll(es), rest, b);
    ParseFlattened(es, rest + b);
    var stop := rest + b;
    assert stop[0] == Close;
    assert ParseTokens(stop) == ([], stop);
    assert es + [] == es;
  }
}
