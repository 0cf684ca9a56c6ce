// The cursor-based parser of tools/z3-bench/sexpr.h and the loop in
// tools/z3-bench/z3-bench.cpp that calls it until the empty-atom sentinel.
module SExprParsing {
  import opened Common
  import opened SExprs

  // ---------- What each parser method computes, on the text still to be read ----------

  function SkipWhitespace(s: string): (r: string)
    ensures |r| <= |s|
    ensures r != "" ==> !IsAsciiWhitespace(r[0])
  {
    if s != "" && IsAsciiWhitespace(s[0]) then SkipWhitespace(s[1..]) else s
  }

  function ParseOne(s: string): (r: (SExpr, string))
    ensures |r.1| <= |SkipWhitespace(s)|
    ensures SkipWhitespace(s) != "" && SkipWhitespace(s)[0] != ')' ==> |r.1| < |SkipWhitespace(s)|
    decreases |s|, 1
  {
    var t := SkipWhitespace(s);
    if t == "" then (Atom(""), "")
    else if t[0] == '(' then
      var (es, rest) := ParseElements(t[1..]);
      (List(es), if rest == "" then rest else rest[1..])
    else
      (Atom(t[..WordLength(t)]), t[WordLength(t)..])
  }

  // The trees up to the end of the text or the first ')' without a partner.
  function ParseElements(s: string): (r: (seq<SExpr>, string))
    ensures |r.1| <= |s|
    ensures r.1 != "" ==> r.1[0] == ')'
    decreases |s|, 2
  {
    var t := SkipWhitespace(s);
    if t == "" || t[0] == ')' then ([], t)
    else
      var (e, r) := ParseOne(t);
      var (es, rest) := ParseElements(r);
      ([e] + es, rest)
  }

  lemma SkipIdempotent(s: string)
    ensures SkipWhitespace(SkipWhitespace(s)) == SkipWhitespace(s)
  {
  }

  // ---------- The parser object ----------

  class SExprParser {
    const input: string
    var pos: nat

    ghost predicate Valid()
      reads this
    {
      pos <= |input|
    }

    // The text still to be read.
    ghost function Rest(): string
      requires Valid()
      reads this
    {
      input[pos..]
    }

    constructor (text: string)
      ensures Valid() && input == text
      ensures Rest() == SkipWhitespace(text)
    {
      input := text;
      pos := 0;
      new;
      assert input[0..] == text;
      SkipBlanks();
    }

    predicate Eof()
      reads this
    {
      pos >= |input|
    }

    function Peek(): char
      requires pos < |input|
      reads this
    {
      input[pos]
    }

    method Get() returns (c: char)
      requires pos < |input|
      modifies this`pos
      ensures pos == old(pos) + 1 && c == input[old(pos)]
      ensures [c] + Rest() == old(Rest())
    {
      c := input[pos];
      pos := pos + 1;
    }

    method SkipBlanks()
      requires Valid()
      modifies this`pos
      ensures Valid() && Rest() == SkipWhitespace(old(Rest()))
    {
      while !Eof() && IsAsciiWhitespace(Peek())
        invariant Valid()
        invariant SkipWhitespace(Rest()) == SkipWhitespace(old(Rest()))
        decreases |input| - pos
      {
        pos := pos + 1;
        assert input[pos - 1..][1..] == input[pos..];
      }
    }

    method Parse() returns (e: SExpr)
      requires Valid()
      modifies this`pos
      ensures Valid() && (e, Rest()) == ParseOne(old(Rest()))
    {
      e := ParseExpr();
    }

    method ParseExpr() returns (e: SExpr)
      requires Valid()
      modifies this`pos
      ensures Valid() && (e, Rest()) == ParseOne(old(Rest()))
      decreases |input| - pos, 1
    {
      SkipBlanks();
      if Eof() {
        return Atom("");
      }
      if Peek() == '(' {
        e := ParseList();
      } else {
        e := ParseAtom();
      }
    }

    method ParseList() returns (e: SExpr)
      requires pos < |input| && Peek() == '('
      modifies this`pos
      ensures Valid() && (e, Rest()) == ParseOne(old(Rest()))
      decreases |input| - pos, 0
    {
      ghost var whole := Rest();
      var _ := Get();
      ghost var body := Rest();
      assert body == whole[1..];
      SkipBlanks();
      SkipIdempotent(body);
      var elements: seq<SExpr> := [];
      assert elements + ParseElements(Rest()).0 == ParseElements(body).0;
      while !Eof() && Peek() != ')'
        invariant old(pos) < pos && Valid()
        invariant Rest() == SkipWhitespace(Rest())
        invariant elements + ParseElements(Rest()).0 == ParseElements(body).0
        invariant ParseElements(Rest()).1 == ParseElements(body).1
        decreases |input| - pos
      {
        ghost var before := Rest();
        var next := ParseExpr();
        ghost var after := Rest();
        assert ParseElements(before) == ([next] + ParseElements(after).0, ParseElements(after).1);
        Assoc(elements, [next], ParseElements(after).0);
        elements := elements + [next];
        SkipBlanks();
        SkipIdempotent(after);
        assert ParseElements(Rest()) == ParseElements(after);
      }
      assert ParseElements(Rest()) == ([], Rest());
      assert elements + [] == elements;
      ghost var stop := Rest();
      if !Eof() && Peek() == ')' {
        var _ := Get();
      }
      assert Rest() == if stop == "" then stop else stop[1..];
      e := List(elements);
    }

    method ParseAtom() returns (e: SExpr)
      requires Valid()
      modifies this`pos
      ensures Valid()
      ensures var s := old(Rest()); e == Atom(s[..WordLength(s)]) && Rest() == s[WordLength(s)..]
    {
      var atom := "";
      ghost var s := Rest();
      while !Eof()
        invariant Valid() && old(pos) <= pos
        invariant atom == s[..pos - old(pos)]
        invariant pos - old(pos) + WordLength(Rest()) == WordLength(s)
        decreases |input| - pos
      {
        var c := Peek();
        if IsDelimiter(c) {
          break;
        }
        ghost var before := Rest();
        atom := atom + [c];
        var _ := Get();
        assert before[1..] == Rest();
      }
      e := Atom(atom);
    }
  }

  // The loop over top-level expressions: it stops at the first empty atom.
  method ParseProgram(text: string) returns (forms: seq<SExpr>, ghost rest: string)
    ensures forms == ParseElements(text).0
    ensures rest == ParseElements(text).1
  {
    var parser := new SExprParser(text);
    forms := [];
    SkipIdempotent(text);
    assert forms + ParseElements(parser.Rest()).0 == ParseElements(text).0;
    while true
      invariant parser.Valid() && fresh(parser)
      invariant forms + ParseElements(parser.Rest()).0 == ParseElements(text).0
      invariant ParseElements(parser.Rest()).1 == ParseElements(text).1
      decreases |parser.input| - parser.pos
    {
      ghost var before := parser.Rest();
      var expr := parser.Parse();
      ghost var after := parser.Rest();
      SentinelStops(before);
      if expr.Atom? && expr.text == "" {
        assert forms + [] == forms;
        rest := after;
        break;
      }
      Assoc(forms, [expr], ParseElements(after).0);
      forms := forms + [expr];
    }
  }

  // The empty atom is returned exactly at the end of the text and in front of an
  // unmatched ')', and then only whitespace has been consumed.
  lemma SentinelStops(s: string)
    ensures var t := SkipWhitespace(s);
            var (e, r) := ParseOne(s);
            && (e == Atom("") <==> t == "" || t[0] == ')')
            && (e == Atom("") ==> r == t && ParseElements(s) == ([], t))
            && (e != Atom("") ==> ParseElements(s) == ([e] + ParseElements(r).0, ParseElements(r).1))
  {
    SkipIdempotent(s);
  }
}
