// Which characters separate atoms for the parser of tools/z3-bench/sexpr.h, and
// what each of them does.
module SExprCharacters {
  import opened SExprs
  import opened SExprParsing
  import opened SExprTheorems

  // One character between two words: a space, tab, line feed or carriage return
  // makes two atoms of them, an opening parenthesis starts a list with the second,
  // a closing one ends the trees that are read, and any other character joins
  // them into one atom.
  lemma BetweenWords(x: string, c: char, y: string)
    requires x != "" && y != ""
    requires forall i :: 0 <= i < |x| ==> x[i] !in {' ', '\t', '\n', '\r', '(', ')'}
    requires forall i :: 0 <= i < |y| ==> y[i] !in {' ', '\t', '\n', '\r', '(', ')'}
    ensures c in {' ', '\t', '\n', '\r'} ==> ParseElements(x + [c] + y) == ([Atom(x), Atom(y)], "")
    ensures c == '(' ==> ParseElements(x + [c] + y) == ([Atom(x), List([Atom(y)])], "")
    ensures c == ')' ==> ParseElements(x + [c] + y) == ([Atom(x)], [c] + y)
    ensures c !in {' ', '\t', '\n', '\r', '(', ')'} ==> ParseElements(x + [c] + y) == ([Atom(x + [c] + y)], "")
  {
    if c in {' ', '\t', '\n', '\r'} {
      SpacedWords(x, c, y);
    } else if c == '(' {
      OpenedWords(x, y);
    } else if c == ')' {
      ClosedWords(x, y);
    } else {
      JoinedWords(x + [c] + y);
    }
  }

  // Two atoms come back exactly when the character is one of those four.
  lemma SeparatorsExactly(x: string, c: char, y: string)
    requires x != "" && y != ""
    requires forall i :: 0 <= i < |x| ==> x[i] !in {' ', '\t', '\n', '\r', '(', ')'}
    requires forall i :: 0 <= i < |y| ==> y[i] !in {' ', '\t', '\n', '\r', '(', ')'}
    ensures ParseElements(x + [c] + y) == ([Atom(x), Atom(y)], "") <==> c in {' ', '\t', '\n', '\r'}
  {
    BetweenWords(x, c, y);
  }

  lemma JoinedWords(w: string)
    requires IsWord(w)
    ensures ParseElements(w) == ([Atom(w)], "")
  {
    OneWord(w);
    assert FlattenAll([Atom(w)]) == [Word(w)] + FlattenAll([Atom(w)][1..]);
    SpelledIsRead(w, [Atom(w)]);
  }

  lemma SpacedWords(x: string, c: char, y: string)
    requires IsWord(x) && IsWord(y) && IsAsciiWhitespace(c)
    ensures ParseElements(x + [c] + y) == ([Atom(x), Atom(y)], "")
  {
    OneWord(y);
    WordTokens(x, [c] + y);
    assert ([c] + y)[1..] == y;
    assert x + [c] + y == x + ([c] + y);
    assert [Atom(x), Atom(y)][1..] == [Atom(y)] && [Atom(y)][1..] == [];
    assert FlattenAll([Atom(y)]) == [Word(y)] + [];
    SpelledIsRead(x + [c] + y, [Atom(x), Atom(y)]);
  }

  lemma OpenedWords(x: string, y: string)
    requires IsWord(x) && IsWord(y)
    ensures ParseElements(x + ['('] + y) == ([Atom(x), List([Atom(y)])], "")
  {
    var s := x + ['('] + y;
    OpenedText(x, y);
    OpenedTokens(x, y);
    ParseElementsRefines(s);
    assert Tokens(ParseElements(s).1) == [];
    assert ParseElements(s).1 == "";
  }

  lemma OpenedText(x: string, y: string)
    requires IsWord(x) && IsWord(y)
    ensures Tokens(x + ['('] + y) == [Word(x)] + ([Open] + [Word(y)])
  {
    OneWord(y);
    WordTokens(x, ['('] + y);
    assert (['('] + y)[1..] == y;
    assert Tokens(['('] + y) == [Open] + Tokens(y);
    assert x + ['('] + y == x + (['('] + y);
  }

  lemma OneWord(w: string)
    requires IsWord(w)
    ensures Tokens(w) == [Word(w)]
  {
    WordTokens(w, "");
    assert w + "" == w && Tokens("") == [];
    assert [Word(w)] + [] == [Word(w)];
  }

  lemma OpenedTokens(x: string, y: string)
    ensures ParseTokens([Word(x)] + ([Open] + [Word(y)])) == ([Atom(x), List([Atom(y)])], [])
  {
    ParseWordStep(y, []);
    assert [Word(y)] + [] == [Word(y)] && [Atom(y)] + [] == [Atom(y)];
    assert ([Open] + [Word(y)])[1..] == [Word(y)];
    assert [List([Atom(y)])] + [] == [List([Atom(y)])];
    assert ParseTokens([Open] + [Word(y)]) == ([List([Atom(y)])], []);
    ParseWordStep(x, [Open] + [Word(y)]);
    assert [Atom(x)] + [List([Atom(y)])] == [Atom(x), List([Atom(y)])];
  }

  lemma ClosedWords(x: string, y: string)
    requires IsWord(x)
    ensures ParseElements(x + [')'] + y) == ([Atom(x)], [')'] + y)
  {
    var s, r := x + [')'] + y, [')'] + y;
    assert s == x + r;
    WordLengthAppend(x, r);
    assert WordLength(x) == |x|;
    assert s[..|x|] == x && s[|x|..] == r;
    assert SkipWhitespace(s) == s && SkipWhitespace(r) == r;
    assert ParseOne(s) == (Atom(x), r);
    assert ParseElements(r) == ([], r);
    assert [Atom(x)] + [] == [Atom(x)];
  }
}
