// What the character-level parser promises for every text.
module SExprTheorems {
  import opened Common
  import opened SExprs
  import opened SExprParsing

  lemma {:induction false} SkipKeepsTokens(s: string)
    ensures Tokens(SkipWhitespace(s)) == Tokens(s)
  {
    if s != "" && IsAsciiWhitespace(s[0]) {
      SkipKeepsTokens(s[1..]);
    }
  }

  lemma {:induction false} SkipIsSuffix(s: string)
    ensures SkipWhitespace(s) == s[|s| - |SkipWhitespace(s)|..]
  {
    if s != "" && IsAsciiWhitespace(s[0]) {
      SkipIsSuffix(s[1..]);
    }
  }

  ghost predicate IsSuffix(r: string, s: string) {
    |r| <= |s| && r == s[|s| - |r|..]
  }

  lemma SuffixOfSuffix(s: string, t: string, r: string)
    requires IsSuffix(t, s) && IsSuffix(r, t)
    ensures IsSuffix(r, s)
  {
  }

  lemma {:induction false} WordLengthAppend(a: string, b: string)
    requires b == "" || IsDelimiter(b[0])
    ensures WordLength(a + b) == WordLength(a)
  {
    if a == "" {
      assert a + b == b;
    } else {
      assert (a + b)[1..] == a[1..] + b;
      WordLengthAppend(a[1..], b);
    }
  }

  // A text may be cut in front of any delimiter without changing its tokens.
  lemma {:induction false} TokensAppend(a: string, b: string)
    requires b == "" || IsDelimiter(b[0])
    ensures Tokens(a + b) == Tokens(a) + Tokens(b)
    decreases |a|
  {
    if a == "" {
      assert a + b == b;
    } else if IsDelimiter(a[0]) {
      assert (a + b)[1..] == a[1..] + b;
      TokensAppend(a[1..], b);
    } else {
      WordLengthAppend(a, b);
      var n := WordLength(a);
      assert (a + b)[..n] == a[..n] && (a + b)[n..] == a[n..] + b;
      TokensAppend(a[n..], b);
      Assoc([Word(a[..n])], Tokens(a[n..]), Tokens(b));
    }
  }

  // ---------- The parser depends on the tokens only ----------

  lemma {:induction false} ParseOneTokens(s: string)
    requires var t := SkipWhitespace(s); t != "" && t[0] != ')'
    ensures var (e, r) := ParseOne(s);
            ParseTokens(Tokens(s)) == ([e] + ParseTokens(Tokens(r)).0, ParseTokens(Tokens(r)).1)
    decreases |s|, 1
  {
    var t := SkipWhitespace(s);
    SkipKeepsTokens(s);
    if t[0] == '(' {
      var (es, rest) := ParseElements(t[1..]);
      ParseElementsTokens(t[1..]);
      assert Tokens(t) == [Open] + Tokens(t[1..]);
      if rest == "" {
        ParseUnclosedStep(Tokens(t[1..]), es);
      } else {
        assert Tokens(rest) == [Close] + Tokens(rest[1..]);
        ParseListStep(Tokens(t[1..]), es, Tokens(rest[1..]));
      }
    } else {
      var n := WordLength(t);
      assert Tokens(t) == [Word(t[..n])] + Tokens(t[n..]);
      ParseWordStep(t[..n], Tokens(t[n..]));
    }
  }

  lemma {:induction false} ParseElementsTokens(s: string)
    ensures ParseTokens(Tokens(s)) == (ParseElements(s).0, Tokens(ParseElements(s).1))
    decreases |s|, 2
  {
    var t := SkipWhitespace(s);
    SkipKeepsTokens(s);
    if t == "" {
    } else if t[0] == ')' {
      assert Tokens(t)[0] == Close;
    } else {
      SkipIdempotent(s);
      ParseOneTokens(t);
      ParseElementsTokens(ParseOne(t).1);
    }
  }

  // ---------- Atoms and the text left over ----------

  lemma {:induction false} ParseOneSuffix(s: string)
    ensures IsSuffix(ParseOne(s).1, s)
    decreases |s|, 1
  {
    var t := SkipWhitespace(s);
    SkipIsSuffix(s);
    if t != "" && t[0] == '(' {
      var rest := ParseElements(t[1..]).1;
      ParseElementsSuffix(t[1..]);
      SuffixOfSuffix(t, t[1..], rest);
      SuffixOfSuffix(s, t, rest);
      if rest != "" {
        SuffixOfSuffix(s, rest, rest[1..]);
      }
    } else if t != "" {
      SuffixOfSuffix(s, t, t[WordLength(t)..]);
    }
  }

  lemma {:induction false} ParseElementsSuffix(s: string)
    ensures IsSuffix(ParseElements(s).1, s)
    decreases |s|, 2
  {
    var t := SkipWhitespace(s);
    SkipIsSuffix(s);
    if t != "" && t[0] != ')' {
      SkipIdempotent(s);
      ParseOneSuffix(t);
      var r := ParseOne(t).1;
      ParseElementsSuffix(r);
      SuffixOfSuffix(t, r, ParseElements(r).1);
      SuffixOfSuffix(s, t, ParseElements(r).1);
    }
  }

  lemma {:induction false} ParseOneWellFormed(s: string)
    requires var t := SkipWhitespace(s); t != "" && t[0] != ')'
    ensures WellFormed(ParseOne(s).0)
    decreases |s|, 1
  {
    var t := SkipWhitespace(s);
    if t[0] == '(' {
      ParseElementsWellFormed(t[1..]);
    }
  }

  lemma {:induction false} ParseElementsWellFormed(s: string)
    ensures AllWellFormed(ParseElements(s).0)
    decreases |s|, 2
  {
    var t := SkipWhitespace(s);
    if t != "" && t[0] != ')' {
      SkipIdempotent(s);
      var (e, r) := ParseOne(t);
      ParseOneWellFormed(t);
      ParseElementsWellFormed(r);
      WellFormedCons(e, ParseElements(r).0);
    }
  }

  lemma WellFormedCons(e: SExpr, es: seq<SExpr>)
    requires WellFormed(e) && AllWellFormed(es)
    ensures AllWellFormed([e] + es)
  {
  }

  // The character-level parser computes what the reference parser computes on
  // the tokens; all its atoms are proper, and what it leaves is an end of the text.
  lemma ParseElementsRefines(s: string)
    ensures ParseTokens(Tokens(s)) == (ParseElements(s).0, Tokens(ParseElements(s).1))
    ensures AllWellFormed(ParseElements(s).0)
    ensures IsSuffix(ParseElements(s).1, s)
  {
    ParseElementsTokens(s);
    ParseElementsSuffix(s);
    ParseElementsWellFormed(s);
  }

  lemma WordTokens(w: string, s: string)
    requires IsWord(w) && (s == "" || IsDelimiter(s[0]))
    ensures Tokens(w + s) == [Word(w)] + Tokens(s)
  {
    WordLengthAppend(w, s);
    assert WordLength(w) == |w|;
    assert (w + s)[..|w|] == w && (w + s)[|w|..] == s;
  }

  // A text that spells trees is read as those trees, to its end.
  lemma SpelledIsRead(s: string, es: seq<SExpr>)
    requires Tokens(s) == FlattenAll(es)
    ensures ParseElements(s) == (es, "")
  {
    ParseFlattened(es, []);
    assert FlattenAll(es) + [] == FlattenAll(es) && es + [] == es;
    ParseElementsRefines(s);
    assert Tokens(ParseElements(s).1) == [];
  }

  // Two texts with the same tokens have the same trees, however they are laid out.
  lemma ParseDependsOnTokens(s: string, s': string)
    requires Tokens(s) == Tokens(s')
    ensures ParseElements(s).0 == ParseElements(s').0
  {
    ParseElementsRefines(s);
    ParseElementsRefines(s');
  }

  // Arbitrary text: the trees have proper atoms, the text is consumed up to its
  // end or to the first ')' without a partner, and the trees spell the tokens of
  // the consumed text followed by its missing closing parentheses.
  lemma ParseConserves(s: string)
    ensures var (es, rest) := ParseElements(s);
            var used := s[..|s| - |rest|];
            var missing := Depth(Tokens(used));
            && s == used + rest
            && AllWellFormed(es)
            && missing >= 0
            && FlattenAll(es) == Tokens(used) + Closers(missing)
            && Matched(Tokens(s), 0) == |Tokens(used)|
            && (rest == "" <==> !HasStray(Tokens(s)))
            && (rest != "" ==> rest[0] == ')' && missing == 0)
  {
    var (es, rest) := ParseElements(s);
    var used := s[..|s| - |rest|];
    ParseElementsRefines(s);
    assert s == used + rest;
    TokensAppend(used, rest);
    ParseTokensConserves(Tokens(s));
    assert |Tokens(rest)| == |Tokens(s)| - Matched(Tokens(s), 0);
    assert Tokens(used) == Tokens(s)[..Matched(Tokens(s), 0)];
    if rest != "" {
      assert Tokens(rest)[0] == Close;
    }
  }
}

// The indenting printer of tools/z3-bench/sexpr.h.
module SExprPrinting {
  import opened Common
  import opened SExprs
  import opened SExprParsing
  import opened SExprTheorems

  function Print(e: SExpr, indent: nat): string
    decreases e
  {
    match e
    case Atom(text) => Spaces(indent) + text + "\n"
    case List(es) => Spaces(indent) + "(\n" + PrintAll(es, indent + 2) + Spaces(indent) + ")\n"
  }

  function PrintAll(es: seq<SExpr>, indent: nat): string
    decreases es
  {
    if es == [] then "" else Print(es[0], indent) + PrintAll(es[1..], indent)
  }

  lemma {:induction false} PrintAllSnoc(es: seq<SExpr>, e: SExpr, indent: nat)
    ensures PrintAll(es + [e], indent) == PrintAll(es, indent) + Print(e, indent)
  {
    if es == [] {
      assert es + [e] == [e];
      assert PrintAll([e][1..], indent) == "";
    } else {
      assert (es + [e])[1..] == es[1..] + [e];
      PrintAllSnoc(es[1..], e, indent);
    }
  }

  lemma ListOutput(before: string, margin: string, open: string, body: string, close: string)
    ensures before + (margin + open) + body + (margin + close)
         == before + (margin + open + body + margin + close)
  {
  }

  // The output buffer that formatting appends to.
  class FormatContext {
    var out: string

    constructor ()
      ensures out == ""
    {
      out := "";
    }

    method Format(e: SExpr, indent: nat)
      modifies this
      ensures out == old(out) + Print(e, indent)
      decreases e
    {
      match e
      case Atom(text) =>
        out := out + (Spaces(indent) + text + "\n");
      case List(list) =>
        out := out + (Spaces(indent) + "(\n");
        ghost var start := out;
        for i := 0 to |list|
          invariant out == start + PrintAll(list[..i], indent + 2)
        {
          Format(list[i], indent + 2);
          Assoc(start, PrintAll(list[..i], indent + 2), Print(list[i], indent + 2));
          PrintAllSnoc(list[..i], list[i], indent + 2);
          assert list[..i] + [list[i]] == list[..i + 1];
        }
        assert list[..|list|] == list;
        out := out + (Spaces(indent) + ")\n");
        ListOutput(old(out), Spaces(indent), "(\n", PrintAll(list, indent + 2), ")\n");
    }
  }

  // ---------- Printing spells exactly the flattened tree ----------

  lemma {:induction false} SpacesHaveNoTokens(n: nat, s: string)
    ensures Tokens(Spaces(n) + s) == Tokens(s)
  {
    if n == 0 {
      assert Spaces(n) + s == s;
    } else {
      assert (Spaces(n) + s)[1..] == Spaces(n - 1) + s;
      SpacesHaveNoTokens(n - 1, s);
    }
  }

  lemma AtomText(margin: string, text: string, s: string)
    ensures margin + text + "\n" + s == margin + (text + ("\n" + s))
  {
  }

  lemma ListText(margin: string, body: string, s: string)
    ensures margin + "(\n" + body + margin + ")\n" + s == margin + ("(\n" + (body + (margin + (")\n" + s))))
  {
  }

  lemma {:induction false} PrintTokens(e: SExpr, indent: nat, s: string)
    requires WellFormed(e)
    ensures Tokens(Print(e, indent) + s) == Flatten(e) + Tokens(s)
    decreases e
  {
    match e
    case Atom(text) =>
      var line := "\n" + s;
      AtomText(Spaces(indent), text, s);
      SpacesHaveNoTokens(indent, text + line);
      WordTokens(text, line);
      assert line[1..] == s;
    case List(es) =>
      var last := ")\n" + s;
      var tail := Spaces(indent) + last;
      var body := PrintAll(es, indent + 2) + tail;
      ListText(Spaces(indent), PrintAll(es, indent + 2), s);
      SpacesHaveNoTokens(indent, "(\n" + body);
      assert ("(\n" + body)[1..][1..] == body;
      PrintAllTokens(es, indent + 2, tail);
      SpacesHaveNoTokens(indent, last);
      assert last[1..][1..] == s;
  }

  lemma {:induction false} PrintAllTokens(es: seq<SExpr>, indent: nat, s: string)
    requires AllWellFormed(es)
    ensures Tokens(PrintAll(es, indent) + s) == FlattenAll(es) + Tokens(s)
    decreases es
  {
    if es == [] {
      assert PrintAll(es, indent) + s == s;
    } else {
      var rest := PrintAll(es[1..], indent) + s;
      Assoc(Print(es[0], indent), PrintAll(es[1..], indent), s);
      PrintTokens(es[0], indent, rest);
      PrintAllTokens(es[1..], indent, s);
      Assoc(Flatten(es[0]), FlattenAll(es[1..]), Tokens(s));
    }
  }

  // ---------- Round trip ----------

  // Each tree printed at its own indent, one after the other.
  function PrintEach(es: seq<SExpr>, indents: seq<nat>): string
    requires |es| == |indents|
  {
    if es == [] then "" else Print(es[0], indents[0]) + PrintEach(es[1..], indents[1..])
  }

  lemma {:induction false} PrintEachTokens(es: seq<SExpr>, indents: seq<nat>)
    requires |es| == |indents| && AllWellFormed(es)
    ensures Tokens(PrintEach(es, indents)) == FlattenAll(es)
  {
    if es != [] {
      PrintTokens(es[0], indents[0], PrintEach(es[1..], indents[1..]));
      PrintEachTokens(es[1..], indents[1..]);
    }
  }

  // Printing any proper trees at any indents and parsing the result to the
  // sentinel returns exactly those trees and leaves nothing unread.
  lemma RoundTrip(es: seq<SExpr>, indents: seq<nat>)
    requires |es| == |indents| && AllWellFormed(es)
    ensures ParseElements(PrintEach(es, indents)) == (es, "")
  {
    PrintEachTokens(es, indents);
    SpelledIsRead(PrintEach(es, indents), es);
  }

  // Whatever the text was, printing its trees and parsing again changes nothing.
  lemma ReprintStable(s: string, indents: seq<nat>)
    requires |indents| == |ParseElements(s).0|
    ensures ParseElements(PrintEach(ParseElements(s).0, indents)) == (ParseElements(s).0, "")
  {
    ParseElementsRefines(s);
    RoundTrip(ParseElements(s).0, indents);
  }

  // The round trip needs proper atoms: trees survive exactly when all their atoms are proper.
  lemma RoundTripExactly(es: seq<SExpr>, indents: seq<nat>)
    requires |es| == |indents|
    ensures ParseElements(PrintEach(es, indents)) == (es, "") <==> AllWellFormed(es)
  {
    if AllWellFormed(es) {
      RoundTrip(es, indents);
    }
    ParseElementsRefines(PrintEach(es, indents));
  }
}
