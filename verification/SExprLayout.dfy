// What the printer of tools/z3-bench/sexpr.h writes, line by line: one line for
// each atom and parenthesis, indented by two spaces for each open list around it.
module SExprLayout {
  import opened Common
  import opened SExprs
  import opened SExprPrinting

  function TokenText(t: Token): string {
    match t
    case Open => "("
    case Close => ")"
    case Word(text) => text
  }

  // The line of a token when `open` lists are open before it; a closing
  // parenthesis stands below its opening one.
  function Line(t: Token, indent: nat, open: int): string {
    var margin := indent + 2 * open - (if t == Close then 2 else 0);
    Spaces(if margin < 0 then 0 else margin) + TokenText(t) + "\n"
  }

  function Opened(t: Token): int {
    match t
    case Open => 1
    case Close => -1
    case Word(_) => 0
  }

  function Lines(ts: seq<Token>, indent: nat, open: int): string {
    if ts == [] then ""
    else Line(ts[0], indent, open) + Lines(ts[1..], indent, open + Opened(ts[0]))
  }

  lemma LinesCons(t: Token, ts: seq<Token>, indent: nat, open: int)
    ensures Lines([t] + ts, indent, open) == Line(t, indent, open) + Lines(ts, indent, open + Opened(t))
    ensures Depth([t] + ts) == Opened(t) + Depth(ts)
  {
    assert ([t] + ts)[1..] == ts;
  }

  lemma {:induction false} LinesAppend(a: seq<Token>, b: seq<Token>, indent: nat, open: int)
    ensures Lines(a + b, indent, open) == Lines(a, indent, open) + Lines(b, indent, open + Depth(a))
  {
    if a == [] {
      assert a + b == b;
    } else {
      var t, rest := a[0], a[1..];
      Uncons(a);
      LinesAppend(rest, b, indent, open + Opened(t));
      Assoc([t], rest, b);
      LinesCons(t, rest + b, indent, open);
      LinesCons(t, rest, indent, open);
      Assoc(Line(t, indent, open), Lines(rest, indent, open + Opened(t)), Lines(b, indent, open + Depth(a)));
    }
  }

  // Line k is that of token k, indented by the depth of the tokens before it.
  lemma LineAt(ts: seq<Token>, k: nat, indent: nat)
    requires k < |ts|
    ensures Lines(ts, indent, 0)
         == Lines(ts[..k], indent, 0) + Line(ts[k], indent, Depth(ts[..k]))
            + Lines(ts[k + 1..], indent, Depth(ts[..k + 1]))
  {
    assert ts == ts[..k] + [ts[k]] + ts[k + 1..] && ts[..k + 1] == ts[..k] + [ts[k]];
    LineBetween(ts[..k], ts[k], ts[k + 1..], indent);
  }

  lemma LineBetween(a: seq<Token>, t: Token, b: seq<Token>, indent: nat)
    ensures Lines(a + [t] + b, indent, 0)
         == Lines(a, indent, 0) + Line(t, indent, Depth(a)) + Lines(b, indent, Depth(a + [t]))
  {
    LinesAppend(a + [t], b, indent, 0);
    LinesAppend(a, [t], indent, 0);
    OneLine(t, indent, Depth(a));
  }

  lemma OneLine(t: Token, indent: nat, open: int)
    ensures Lines([t], indent, open) == Line(t, indent, open)
  {
    assert [t][1..] == [];
  }

  // ---------- The printed tree ----------

  lemma InsideLine(t: Token, indent: nat, open: int)
    ensures Line(t, indent + 2, open) == Line(t, indent, open + 1)
  {
  }

  // Indenting by two is being inside one more list.
  lemma {:induction false} Inside(ts: seq<Token>, indent: nat, open: int)
    ensures Lines(ts, indent + 2, open) == Lines(ts, indent, open + 1)
  {
    if ts != [] {
      InsideLine(ts[0], indent, open);
      Inside(ts[1..], indent, open + Opened(ts[0]));
    }
  }

  // For every tree and indentation, the printed text is the lines of its tokens in order.
  lemma {:induction false} PrintedLines(e: SExpr, indent: nat)
    ensures Print(e, indent) == Lines(Flatten(e), indent, 0)
    decreases e
  {
    match e
    case Atom(text) =>
      OneLine(Word(text), indent, 0);
    case List(es) =>
      AllPrintedLines(es, indent + 2);
      FlattenAllMatched(es, 0);
      LinesOfList(FlattenAll(es), indent);
      ListLines(Spaces(indent), PrintAll(es, indent + 2));
  }

  lemma LinesOfList(body: seq<Token>, indent: nat)
    requires Depth(body) == 0
    ensures Lines([Open] + body + [Close], indent, 0)
         == Spaces(indent) + "(" + "\n" + Lines(body, indent + 2, 0) + (Spaces(indent) + ")" + "\n")
  {
    OpenedBody(body, indent);
    LinesAppend([Open] + body, [Close], indent, 0);
    OneLine(Close, indent, 1);
  }

  lemma OpenedBody(body: seq<Token>, indent: nat)
    requires Depth(body) == 0
    ensures Lines([Open] + body, indent, 0) == Spaces(indent) + "(" + "\n" + Lines(body, indent + 2, 0)
    ensures Depth([Open] + body) == 1
  {
    LinesCons(Open, body, indent, 0);
    Inside(body, indent, 0);
  }

  lemma ListLines(margin: string, body: string)
    ensures margin + "(" + "\n" + body + (margin + ")" + "\n") == margin + "(\n" + body + margin + ")\n"
  {
  }

  lemma {:induction false} AllPrintedLines(es: seq<SExpr>, indent: nat)
    ensures PrintAll(es, indent) == Lines(FlattenAll(es), indent, 0)
    decreases es
  {
    if es != [] {
      PrintedLines(es[0], indent);
      AllPrintedLines(es[1..], indent);
      FlattenMatched(es[0], 0);
      LinesAppend(Flatten(es[0]), FlattenAll(es[1..]), indent, 0);
    }
  }

  // No line stands to the left of the tree.
  lemma MarginsInside(e: SExpr, k: nat)
    requires k < |Flatten(e)|
    ensures Depth(Flatten(e)[..k]) >= if Flatten(e)[k] == Close then 1 else 0
  {
    var f := Flatten(e);
    FlattenMatched(e, 0);
    MatchedStaysOpen(f, k, 0);
    MatchedStaysOpen(f, k + 1, 0);
    assert f[..k + 1] == f[..k] + [f[k]];
    DepthAppend(f[..k], [f[k]]);
    assert [f[k]][1..] == [];
  }

  // Where all tokens are matched, no prefix closes more than it opens.
  lemma {:induction false} MatchedStaysOpen(ts: seq<Token>, k: nat, d: nat)
    requires Matched(ts, d) == |ts| && k <= |ts|
    ensures d + Depth(ts[..k]) >= 0
  {
    if k > 0 {
      assert ts[..k][1..] == ts[1..][..k - 1];
      match ts[0]
      case Open => MatchedStaysOpen(ts[1..], k - 1, d + 1);
      case Close => MatchedStaysOpen(ts[1..], k - 1, d - 1);
      case Word(_) => MatchedStaysOpen(ts[1..], k - 1, d);
    }
  }

  // A list of an atom and an empty list, at indentation one.
  lemma PrintExample(e: SExpr)
    requires e == List([Atom("a"), List([])])
    ensures Print(e, 1) == " (\n   a\n   (\n   )\n )\n"
  {
    assert Spaces(1) == " ";
    PrintExampleElements(e.elements);
  }

  lemma PrintExampleElements(es: seq<SExpr>)
    requires es == [Atom("a"), List([])]
    ensures PrintAll(es, 3) == "   a\n   (\n   )\n"
  {
    assert es[1..] == [List([])] && es[1..][1..] == [];
    assert Spaces(3) == "   ";
    assert Print(Atom("a"), 3) == "   a\n";
    assert PrintAll([], 5) == "" && Print(List([]), 3) == "   (\n   )\n";
    assert PrintAll(es[1..], 3) == Print(List([]), 3) + PrintAll([], 3);
    assert PrintAll(es, 3) == Print(Atom("a"), 3) + PrintAll(es[1..], 3);
  }
}
