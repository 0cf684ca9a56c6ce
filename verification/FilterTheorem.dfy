// Which trees the filter removes, and exactly when it removes nothing else.
module FilterTheorem {
  import opened Common
  import opened SExprs
  import opened SExprParsing
  import opened SExprTheorems
  import opened SmtFilter

  // The trees read from some lines.
  function Trees(lines: seq<string>): seq<SExpr> {
    ParseTokens(LineTokens(lines)).0
  }

  // A command line is one word in parentheses.
  function CommandName(line: string): string {
    if |line| < 2 then "" else line[1..|line| - 1]
  }

  function CommandForm(line: string): SExpr {
    List([Atom(CommandName(line))])
  }

  function CommandTokenList(line: string): seq<Token> {
    [Open, Word(CommandName(line)), Close]
  }

  lemma CommandIsWord(line: string, flags: Flags)
    requires IsCommand(line, flags)
    ensures line == "(" + (CommandName(line) + ")") && IsWord(CommandName(line))
  {
    if line == "(push)" {
      assert CommandName(line) == "push";
    } else if line == "(pop)" {
      assert CommandName(line) == "pop";
    } else {
      assert CommandName(line) == "check-sat";
    }
  }

  lemma ParenthesizedWord(w: string)
    requires IsWord(w)
    ensures Tokens("(" + (w + ")")) == [Open, Word(w), Close]
  {
    var tail := w + ")";
    assert ("(" + tail)[1..] == tail;
    WordLengthAppend(w, ")");
    WholeWord(w);
    assert tail[..|w|] == w && tail[|w|..] == ")";
    assert Tokens(")") == [Close] + Tokens(")"[1..]);
    assert Tokens("(" + tail) == [Open] + Tokens(tail);
  }

  lemma FlattenCommand(line: string)
    ensures FlattenAll([CommandForm(line)]) == Flatten(CommandForm(line)) == CommandTokenList(line)
  {
    var e := CommandForm(line);
    var inner := e.elements;
    assert FlattenAll([e]) == Flatten(e) + FlattenAll([]);
    assert FlattenAll(inner) == Flatten(inner[0]) + FlattenAll([]);
    assert Flatten(e) == [Open] + FlattenAll(inner) + [Close];
  }

  lemma CommandTokens(line: string, flags: Flags)
    requires IsCommand(line, flags)
    ensures Tokens(line) == FlattenAll([CommandForm(line)]) == Flatten(CommandForm(line)) == CommandTokenList(line)
    ensures Balanced(Tokens(line))
  {
    CommandIsWord(line, flags);
    ParenthesizedWord(CommandName(line));
    FlattenCommand(line);
    FlattenAllMatched([CommandForm(line)], 0);
  }

  lemma {:induction false} WholeWord(w: string)
    requires forall i | 0 <= i < |w| :: !IsDelimiter(w[i])
    ensures WordLength(w) == |w|
  {
    if w != "" {
      WholeWord(w[1..]);
    }
  }

  // ---------- The filtered lines, line by line ----------

  function Kept(lines: seq<string>, flags: Flags): seq<Token> {
    LineTokens(WithoutCommands(lines, flags))
  }

  lemma KeptSnoc(lines: seq<string>, ln: string, flags: Flags)
    ensures Kept(lines + [ln], flags)
         == Kept(lines, flags) + (if IsCommand(ln, flags) then [] else Tokens(ln))
    ensures LineTokens(lines + [ln]) == LineTokens(lines) + Tokens(ln)
  {
    assert (lines + [ln])[..|lines|] == lines;
    OneLineTokens(ln);
    LineTokensAppend(WithoutCommands(lines, flags), [ln]);
    assert WithoutCommands(lines, flags) + [] == WithoutCommands(lines, flags);
    assert Kept(lines, flags) + [] == Kept(lines, flags);
  }

  // The same depth, and an unmatched closing parenthesis in both or in neither.
  ghost predicate SameShape(a: seq<Token>, b: seq<Token>) {
    Depth(a) == Depth(b) && (HasStray(a) <==> HasStray(b))
  }

  lemma SameShapeAppend(a: seq<Token>, b: seq<Token>, t: seq<Token>)
    requires SameShape(a, b)
    ensures SameShape(a + t, b + t)
  {
    DepthAppend(a, t);
    DepthAppend(b, t);
    MatchedAppend(a, t, 0);
    MatchedAppend(b, t, 0);
  }

  lemma FormKeepsShape(a: seq<Token>, es: seq<SExpr>)
    ensures SameShape(a + FlattenAll(es), a)
  {
    DepthAppend(a, FlattenAll(es));
    MatchedAppend(a, FlattenAll(es), 0);
    FlattenAllMatched(es, if HasStray(a) then 0 else Depth(a));
  }

  // Removing command lines changes neither the depth nor whether some closing
  // parenthesis is unmatched.
  lemma {:induction false} KeptShape(lines: seq<string>, flags: Flags)
    ensures HasStray(Kept(lines, flags)) <==> HasStray(LineTokens(lines))
    ensures Depth(Kept(lines, flags)) == Depth(LineTokens(lines))
    ensures Balanced(Kept(lines, flags)) <==> Balanced(LineTokens(lines))
  {
    if lines != [] {
      var init, ln := lines[..|lines| - 1], lines[|lines| - 1];
      assert lines == init + [ln];
      KeptShape(init, flags);
      KeptSnoc(init, ln, flags);
      if IsCommand(ln, flags) {
        CommandTokens(ln, flags);
        FormKeepsShape(LineTokens(init), [CommandForm(ln)]);
        assert Kept(init, flags) + [] == Kept(init, flags);
      } else {
        SameShapeAppend(Kept(init, flags), LineTokens(init), Tokens(ln));
      }
    }
  }

  // ---------- Positions of the removed forms ----------

  // A command line is live when the parser reads that far, and at top level when
  // moreover no parenthesis is open there.
  ghost predicate Live(lines: seq<string>, i: nat, flags: Flags)
    requires i < |lines|
  {
    IsCommand(lines[i], flags) && !HasStray(LineTokens(lines[..i]))
  }

  ghost predicate AtTop(lines: seq<string>, i: nat, flags: Flags)
    requires i < |lines|
  {
    IsCommand(lines[i], flags) && Balanced(LineTokens(lines[..i]))
  }

  // Where the removed top-level forms stand among the trees of the unfiltered lines.
  ghost function Positions(lines: seq<string>, flags: Flags): set<nat> {
    if lines == [] then {}
    else
      var n := |lines| - 1;
      Positions(lines[..n], flags) + (if AtTop(lines, n, flags) then {|Trees(lines[..n])|} else {})
  }

  // The trees whose positions are not in ps.
  ghost function Without(es: seq<SExpr>, ps: set<nat>): seq<SExpr> {
    if es == [] then []
    else
      var n := |es| - 1;
      Without(es[..n], ps) + (if n in ps then [] else [es[n]])
  }

  lemma {:induction false} WithoutOutside(es: seq<SExpr>, ps: set<nat>, qs: set<nat>)
    requires forall p :: p < |es| ==> (p in ps <==> p in qs)
    ensures Without(es, ps) == Without(es, qs)
  {
    if es != [] {
      WithoutOutside(es[..|es| - 1], ps, qs);
    }
  }

  lemma {:induction false} WithoutAppend(a: seq<SExpr>, b: seq<SExpr>, ps: set<nat>)
    requires forall p :: p in ps ==> p < |a|
    ensures Without(a + b, ps) == Without(a, ps) + b
  {
    if b == [] {
      assert a + b == a;
      assert Without(a, ps) + b == Without(a, ps);
    } else {
      var n := |b| - 1;
      assert (a + b)[..|a| + n] == a + b[..n];
      WithoutAppend(a, b[..n], ps);
      assert b == b[..n] + [b[n]];
    }
  }

  // At a top-level command line the trees split around the removed form.
  lemma TreesAroundCommand(before: seq<string>, ln: string, after: seq<string>, flags: Flags)
    requires IsCommand(ln, flags) && Balanced(LineTokens(before))
    ensures Trees(before + [ln] + after) == Trees(before) + [CommandForm(ln)] + Trees(after)
  {
    var a, b := LineTokens(before), LineTokens(after);
    var t := Tokens(ln);
    LineTokensAppend(before + [ln], after);
    KeptSnoc(before, ln, flags);
    Assoc(a, t, b);
    ParseAfterBalanced(a, t + b);
    CommandTokens(ln, flags);
    ParseFlattened([CommandForm(ln)], b);
    Assoc(ParseTokens(a).0, [CommandForm(ln)], ParseTokens(b).0);
  }

  lemma SplitAtCommand(lines: seq<string>, i: nat, flags: Flags)
    requires i < |lines| && AtTop(lines, i, flags)
    ensures Trees(lines) == Trees(lines[..i]) + [CommandForm(lines[i])] + Trees(lines[i + 1..])
  {
    assert lines == lines[..i] + [lines[i]] + lines[i + 1..];
    TreesAroundCommand(lines[..i], lines[i], lines[i + 1..], flags);
  }

  lemma {:induction false} PositionsInside(lines: seq<string>, flags: Flags)
    ensures forall p :: p in Positions(lines, flags) ==>
              p < |Trees(lines)| && |Flatten(Trees(lines)[p])| == 3
  {
    forall p | p in Positions(lines, flags)
      ensures p < |Trees(lines)| && |Flatten(Trees(lines)[p])| == 3
    {
      var i := PositionSource(lines, p, flags);
      SplitAtCommand(lines, i, flags);
      CommandTokens(lines[i], flags);
      assert Trees(lines)[p] == CommandForm(lines[i]);
    }
  }

  // Every position comes from a top-level command line.
  lemma {:induction false} PositionSource(lines: seq<string>, p: nat, flags: Flags) returns (i: nat)
    requires p in Positions(lines, flags)
    ensures i < |lines| && AtTop(lines, i, flags) && p == |Trees(lines[..i])|
  {
    var n := |lines| - 1;
    if p in Positions(lines[..n], flags) {
      i := PositionSource(lines[..n], p, flags);
      assert lines[..n][..i] == lines[..i];
    } else {
      i := n;
    }
  }

  // ---------- When every live command line is at top level ----------

  ghost predicate CommandsAtTop(lines: seq<string>, flags: Flags) {
    forall i :: 0 <= i < |lines| && Live(lines, i, flags) ==> AtTop(lines, i, flags)
  }

  // Kept(lines), followed by lines that hold no command, parses to the trees
  // without the removed forms.
  ghost predicate RemovesForms(lines: seq<string>, more: seq<string>, flags: Flags) {
    ParseTokens(Kept(lines, flags) + LineTokens(more)).0
    == Without(Trees(lines + more), Positions(lines, flags))
  }

  lemma {:induction false} FilterRemovesForms(lines: seq<string>, more: seq<string>, flags: Flags)
    requires CommandsAtTop(lines, flags)
    ensures RemovesForms(lines, more, flags)
    decreases |lines|
  {
    if lines == [] {
      NothingToRemove(more, flags);
    } else {
      var init, ln := lines[..|lines| - 1], lines[|lines| - 1];
      assert lines == init + [ln];
      CommandsAtTopInit(init, ln, flags);
      if !IsCommand(ln, flags) {
        FilterRemovesForms(init, [ln] + more, flags);
        KeepLast(init, ln, more, flags);
      } else {
        FilterRemovesForms(init, [], flags);
        assert lines[..|init|] == init;
        assert Live(lines, |init|, flags) ==> AtTop(lines, |init|, flags);
        RemoveLast(init, ln, more, flags);
      }
    }
  }

  lemma CommandsAtTopInit(init: seq<string>, ln: string, flags: Flags)
    requires CommandsAtTop(init + [ln], flags)
    ensures CommandsAtTop(init, flags)
  {
    var lines := init + [ln];
    forall i | 0 <= i < |init| && Live(init, i, flags) ensures AtTop(init, i, flags) {
      assert init[..i] == lines[..i];
      assert Live(lines, i, flags);
    }
  }

  lemma NothingToRemove(more: seq<string>, flags: Flags)
    ensures RemovesForms([], more, flags)
  {
    assert [] + more == more;
    assert Kept([], flags) + LineTokens(more) == LineTokens(more);
    WithoutAppend([], Trees(more), {});
    assert [] + Trees(more) == Trees(more);
  }

  lemma KeepLast(init: seq<string>, ln: string, more: seq<string>, flags: Flags)
    requires !IsCommand(ln, flags) && RemovesForms(init, [ln] + more, flags)
    ensures RemovesForms(init + [ln], more, flags)
  {
    KeptSnoc(init, ln, flags);
    LineTokensAppend([ln], more);
    OneLineTokens(ln);
    assert (init + [ln])[..|init|] == init;
    assert Positions(init + [ln], flags) == Positions(init, flags) + {} == Positions(init, flags);
    Assoc(init, [ln], more);
    Assoc(Kept(init, flags), Tokens(ln), LineTokens(more));
  }

  // One more command line at the end of init, which is already treated.
  lemma RemoveLast(init: seq<string>, ln: string, more: seq<string>, flags: Flags)
    requires IsCommand(ln, flags)
    requires Live(init + [ln], |init|, flags) ==> AtTop(init + [ln], |init|, flags)
    requires RemovesForms(init, [], flags)
    ensures RemovesForms(init + [ln], more, flags)
  {
    var lines := init + [ln];
    assert lines[..|init|] == init;
    assert init + [] == init;
    assert Kept(init, flags) + LineTokens([]) == Kept(init, flags);
    KeptSnoc(init, ln, flags);
    assert Kept(lines, flags) == Kept(init, flags);
    KeptShape(init, flags);
    if AtTop(lines, |init|, flags) {
      RemoveTopCommand(init, ln, more, flags);
    } else {
      assert Positions(lines, flags) == Positions(init, flags) + {} == Positions(init, flags);
      Assoc(init, [ln], more);
      LineTokensAppend(init, [ln] + more);
      ParseAfterStray(LineTokens(init), LineTokens([ln] + more));
      ParseAfterStray(Kept(init, flags), LineTokens(more));
    }
  }

  lemma RemoveTopCommand(init: seq<string>, ln: string, more: seq<string>, flags: Flags)
    requires IsCommand(ln, flags) && Balanced(LineTokens(init))
    requires Kept(init + [ln], flags) == Kept(init, flags) && Balanced(Kept(init, flags))
    requires ParseTokens(Kept(init, flags)).0 == Without(Trees(init), Positions(init, flags))
    ensures RemovesForms(init + [ln], more, flags)
  {
    var lines := init + [ln];
    var ps := Positions(init, flags);
    assert lines[..|init|] == init;
    assert Positions(lines, flags) == ps + {|Trees(init)|};
    TreesAroundCommand(init, ln, more, flags);
    ParseAfterBalanced(Kept(init, flags), LineTokens(more));
    PositionsInside(init, flags);
    WithoutSplit(Trees(init), CommandForm(ln), Trees(more), ps);
  }

  lemma WithoutSplit(a: seq<SExpr>, e: SExpr, b: seq<SExpr>, ps: set<nat>)
    requires forall p :: p in ps ==> p < |a|
    ensures Without(a + [e] + b, ps + {|a|}) == Without(a, ps) + b
  {
    WithoutAppend(a + [e], b, ps + {|a|});
    assert (a + [e])[..|a|] == a;
    WithoutOutside(a, ps, ps + {|a|});
    assert Without(a, ps) + [] == Without(a, ps);
  }

  // ---------- Otherwise a nested form is lost: counting words ----------

  function WordCount(ts: seq<Token>): nat {
    if ts == [] then 0 else (if ts[0].Word? then 1 else 0) + WordCount(ts[1..])
  }

  lemma {:induction false} WordCountAppend(a: seq<Token>, b: seq<Token>)
    ensures WordCount(a + b) == WordCount(a) + WordCount(b)
  {
    if a == [] {
      assert a + b == b;
    } else {
      assert (a + b)[1..] == a[1..] + b;
      WordCountAppend(a[1..], b);
    }
  }

  lemma {:induction false} ClosersHaveNoWords(n: nat)
    ensures WordCount(Closers(n)) == 0
  {
    if n > 0 {
      assert Closers(n)[1..] == Closers(n - 1);
      ClosersHaveNoWords(n - 1);
    }
  }

  // The words the parser keeps from some tokens.
  function WordsRead(ts: seq<Token>): nat {
    WordCount(ts[..Matched(ts, 0)])
  }

  lemma WordsOfTrees(ts: seq<Token>)
    ensures WordCount(FlattenAll(ParseTokens(ts).0)) == WordsRead(ts)
  {
    ParseTokensConserves(ts);
    var used := ts[..Matched(ts, 0)];
    WordCountAppend(used, Closers(Depth(used)));
    ClosersHaveNoWords(Depth(used));
  }

  lemma WordsReadAppend(a: seq<Token>, t: seq<Token>)
    ensures HasStray(a) ==> WordsRead(a + t) == WordsRead(a)
    ensures !HasStray(a) ==> Depth(a) >= 0 && WordsRead(a + t) == WordCount(a) + WordCount(t[..Matched(t, Depth(a))])
    ensures !HasStray(a) ==> WordsRead(a) == WordCount(a)
  {
    MatchedAppend(a, t, 0);
    assert a[..|a|] == a;
    if HasStray(a) {
      assert (a + t)[..Matched(a, 0)] == a[..Matched(a, 0)];
    } else {
      WordsOfPrefix(a, t, Matched(t, Depth(a)));
    }
  }

  lemma WordsOfPrefix(a: seq<Token>, t: seq<Token>, k: nat)
    requires k <= |t|
    ensures WordCount((a + t)[..|a| + k]) == WordCount(a) + WordCount(t[..k])
  {
    assert (a + t)[..|a| + k] == a + t[..k];
    WordCountAppend(a, t[..k]);
  }

  ghost function LiveCount(lines: seq<string>, flags: Flags): nat {
    if lines == [] then 0
    else LiveCount(lines[..|lines| - 1], flags) + (if Live(lines, |lines| - 1, flags) then 1 else 0)
  }

  ghost function TopCount(lines: seq<string>, flags: Flags): nat {
    if lines == [] then 0
    else TopCount(lines[..|lines| - 1], flags) + (if AtTop(lines, |lines| - 1, flags) then 1 else 0)
  }

  // Each live command line takes one word out of what the parser reads.
  lemma {:induction false} KeptWords(lines: seq<string>, flags: Flags)
    ensures WordsRead(LineTokens(lines)) == WordsRead(Kept(lines, flags)) + LiveCount(lines, flags)
  {
    if lines != [] {
      var init, ln := lines[..|lines| - 1], lines[|lines| - 1];
      assert lines == init + [ln];
      KeptWords(init, flags);
      KeptSnoc(init, ln, flags);
      KeptShape(init, flags);
      WordsReadAppend(LineTokens(init), Tokens(ln));
      WordsReadAppend(Kept(init, flags), Tokens(ln));
      if IsCommand(ln, flags) {
        CommandTokens(ln, flags);
        CommandWords(ln, flags, if HasStray(LineTokens(init)) then 0 else Depth(LineTokens(init)));
        assert Kept(init, flags) + [] == Kept(init, flags);
      }
    }
  }

  lemma CommandWords(ln: string, flags: Flags, d: nat)
    requires IsCommand(ln, flags)
    ensures WordCount(Tokens(ln)[..Matched(Tokens(ln), d)]) == 1
  {
    CommandTokens(ln, flags);
    FlattenAllMatched([CommandForm(ln)], d);
    var t := Tokens(ln);
    assert t[..|t|] == t && t[1..] == [Word(CommandName(ln)), Close] && t[1..][1..] == [Close];
    assert WordCount([Close]) == 0;
  }

  ghost function TreeWords(es: seq<SExpr>): nat {
    WordCount(FlattenAll(es))
  }

  lemma OneWordEach(es: seq<SExpr>, ps: set<nat>)
    requires es != [] && forall p :: p in ps ==> p < |es| && WordCount(Flatten(es[p])) == 1
    ensures var n := |es| - 1;
            forall p :: p in ps - {n} ==> p < n && WordCount(Flatten(es[..n][p])) == 1
  {
  }

  // Removing forms of one word each.
  lemma {:induction false} WithoutWords(es: seq<SExpr>, ps: set<nat>)
    requires forall p :: p in ps ==> p < |es| && WordCount(Flatten(es[p])) == 1
    ensures TreeWords(Without(es, ps)) + |ps| == TreeWords(es)
    decreases |es|
  {
    if es == [] {
      assert ps == {};
      return;
    }
    var n := |es| - 1;
    OneWordEach(es, ps);
    WithoutWords(es[..n], ps - {n});
    WithoutOutside(es[..n], ps, ps - {n});
    Unsnoc(es);
    if n in ps {
      SkippedWords(es[..n], es[n], ps);
    } else {
      assert ps - {n} == ps;
      KeptTreeWords(es[..n], es[n], ps);
    }
  }

  lemma SkippedWords(init: seq<SExpr>, e: SExpr, ps: set<nat>)
    requires |init| in ps && WordCount(Flatten(e)) == 1
    requires TreeWords(Without(init, ps)) + |ps - {|init|}| == TreeWords(init)
    ensures TreeWords(Without(init + [e], ps)) + |ps| == TreeWords(init + [e])
  {
    assert (init + [e])[..|init|] == init;
    SnocWords(init, e);
    assert Without(init, ps) + [] == Without(init, ps);
    assert |ps - {|init|}| == |ps| - 1;
  }

  lemma KeptTreeWords(init: seq<SExpr>, e: SExpr, ps: set<nat>)
    requires |init| !in ps && TreeWords(Without(init, ps)) + |ps| == TreeWords(init)
    ensures TreeWords(Without(init + [e], ps)) + |ps| == TreeWords(init + [e])
  {
    assert (init + [e])[..|init|] == init;
    SnocWords(init, e);
    SnocWords(Without(init, ps), e);
  }

  lemma SnocWords(es: seq<SExpr>, e: SExpr)
    ensures TreeWords(es + [e]) == TreeWords(es) + WordCount(Flatten(e))
  {
    FlattenAllAppend(es, [e]);
    assert FlattenAll([e]) == Flatten(e) + FlattenAll([]);
    assert FlattenAll([e]) == Flatten(e);
    WordCountAppend(FlattenAll(es), Flatten(e));
  }

  lemma {:induction false} PositionsCount(lines: seq<string>, flags: Flags)
    ensures |Positions(lines, flags)| == TopCount(lines, flags)
  {
    if lines != [] {
      var n := |lines| - 1;
      PositionsCount(lines[..n], flags);
      PositionsInside(lines[..n], flags);
    }
  }

  lemma {:induction false} TopCountBelowLive(lines: seq<string>, flags: Flags)
    ensures TopCount(lines, flags) <= LiveCount(lines, flags)
    ensures TopCount(lines, flags) == LiveCount(lines, flags) ==> CommandsAtTop(lines, flags)
  {
    if lines != [] {
      var init := lines[..|lines| - 1];
      TopCountBelowLive(init, flags);
      if TopCount(lines, flags) == LiveCount(lines, flags) {
        forall i | 0 <= i < |lines| && Live(lines, i, flags) ensures AtTop(lines, i, flags) {
          if i < |init| {
            assert init[..i] == lines[..i];
            assert Live(init, i, flags);
          }
        }
      }
    }
  }

  lemma FormsRemovedOnlyIfAtTop(lines: seq<string>, flags: Flags)
    requires ParseTokens(Kept(lines, flags)).0 == Without(Trees(lines), Positions(lines, flags))
    ensures CommandsAtTop(lines, flags)
  {
    KeptWords(lines, flags);
    WordsOfTrees(LineTokens(lines));
    WordsOfTrees(Kept(lines, flags));
    PositionsInside(lines, flags);
    forall p | p in Positions(lines, flags) ensures WordCount(Flatten(Trees(lines)[p])) == 1 {
      var i := PositionSource(lines, p, flags);
      SplitAtCommand(lines, i, flags);
      CommandTokens(lines[i], flags);
      CommandWords(lines[i], flags, 0);
      FlattenAllMatched([CommandForm(lines[i])], 0);
      var t := Tokens(lines[i]);
      assert t[..|t|] == t;
      assert Trees(lines)[p] == CommandForm(lines[i]);
    }
    WithoutWords(Trees(lines), Positions(lines, flags));
    PositionsCount(lines, flags);
    TopCountBelowLive(lines, flags);
  }

  // ---------- The theorem ----------

  // Parsing the filtered text gives the trees of the uncommented lines with
  // exactly the removed command forms missing, if and only if every command line
  // that the parser reaches stands where no parenthesis is open.
  lemma FilterPreservesMeaning(smt: string, flags: Flags)
    ensures var lines := Uncommented(SplitLines(smt));
            var filtered := JoinLines(WithoutCommands(lines, flags));
            ParseElements(filtered).0 == Without(ParseElements(JoinLines(lines)).0, Positions(lines, flags))
            <==> CommandsAtTop(lines, flags)
  {
    var lines := Uncommented(SplitLines(smt));
    var filtered := WithoutCommands(lines, flags);
    JoinTokens(filtered);
    JoinTokens(lines);
    ParseElementsRefines(JoinLines(filtered));
    ParseElementsRefines(JoinLines(lines));
    if CommandsAtTop(lines, flags) {
      FilterRemovesForms(lines, [], flags);
      assert RemovesForms(lines, [], flags);
      assert lines + [] == lines;
      assert Kept(lines, flags) + LineTokens([]) == Kept(lines, flags);
    } else if ParseTokens(Kept(lines, flags)).0 == Without(Trees(lines), Positions(lines, flags)) {
      FormsRemovedOnlyIfAtTop(lines, flags);
    }
  }

  // Without comment lines, the trees compared above are those of the file itself.
  lemma UncommentedIsWholeText(smt: string)
    requires forall i :: 0 <= i < |SplitLines(smt)| ==> !IsComment(SplitLines(smt)[i])
    ensures ParseElements(JoinLines(Uncommented(SplitLines(smt)))).0 == ParseElements(smt).0
  {
    NoCommentKeepsAll(SplitLines(smt));
    JoinTokens(SplitLines(smt));
    SplitTokens(smt);
    ParseDependsOnTokens(JoinLines(SplitLines(smt)), smt);
  }

  lemma {:induction false} NoCommentKeepsAll(lines: seq<string>)
    requires forall i :: 0 <= i < |lines| ==> !IsComment(lines[i])
    ensures Uncommented(lines) == lines
  {
    if lines != [] {
      NoCommentKeepsAll(lines[..|lines| - 1]);
    }
  }

  // What stands at the removed positions: the form of a removed line, each
  // line at its own position.
  lemma RemovedForms(smt: string, flags: Flags, i: nat)
    requires var lines := Uncommented(SplitLines(smt)); i < |lines| && AtTop(lines, i, flags)
    ensures var lines := Uncommented(SplitLines(smt));
            var trees := ParseElements(JoinLines(lines)).0;
            var p := |ParseElements(JoinLines(lines[..i])).0|;
            && p in Positions(lines, flags)
            && p < |trees| && trees[p] == CommandForm(lines[i])
            && |Positions(lines, flags)| == TopCount(lines, flags)
  {
    var lines := Uncommented(SplitLines(smt));
    JoinTokens(lines);
    JoinTokens(lines[..i]);
    ParseElementsRefines(JoinLines(lines));
    ParseElementsRefines(JoinLines(lines[..i]));
    SplitAtCommand(lines, i, flags);
    PositionsCount(lines, flags);
    PositionListed(lines, i, flags);
  }

  lemma {:induction false} PositionListed(lines: seq<string>, i: nat, flags: Flags)
    requires i < |lines| && AtTop(lines, i, flags)
    ensures |Trees(lines[..i])| in Positions(lines, flags)
  {
    var n := |lines| - 1;
    if i < n {
      assert lines[..n][..i] == lines[..i];
      PositionListed(lines[..n], i, flags);
    }
  }

  // A command line inside an open list: the nested form is lost, although no
  // top-level form is removed.
  lemma NestedCommandIsLost(smt: string, flags: Flags)
    requires smt == "(\n(push)\n)" && flags == Flags(false, false)
    ensures var lines := Uncommented(SplitLines(smt));
            var filtered := JoinLines(WithoutCommands(lines, flags));
            && ParseElements(smt).0 == [List([List([Atom("push")])])]
            && ParseElements(filtered).0 == [List([])]
            && Positions(lines, flags) == {} && !CommandsAtTop(lines, flags)
  {
    var lines := ["(", "(push)", ")"];
    NestedLines(smt, flags);
    NestedTrees(lines, flags);
    UncommentedIsWholeText(smt);
    EmptyListTrees();
    NestedNotAtTop(lines, flags);
  }

  lemma NestedLines(smt: string, flags: Flags)
    requires smt == "(\n(push)\n)" && flags == Flags(false, false)
    ensures SplitLines(smt) == ["(", "(push)", ")"] == Uncommented(SplitLines(smt))
    ensures WithoutCommands(["(", "(push)", ")"], flags) == ["(", ")"]
  {
    var lines := ["(", "(push)", ")"];
    NestedSplit(smt);
    NoCommentKeepsAll(lines);
    NestedFiltered(lines, flags);
  }

  lemma NestedSplit(smt: string)
    requires smt == "(\n(push)\n)"
    ensures SplitLines(smt) == ["(", "(push)", ")"]
  {
    assert smt == "(" + "\n" + "(push)\n)" && "(push)\n)" == "(push)" + "\n" + ")";
    SplitLine("", "(", "(push)\n)");
    SplitLine("", "(push)", ")");
    assert "" + [')'] == ")" && ")"[1..] == "";
    assert SplitFrom(")", "") == [")"];
    assert SplitFrom("", ")") == [")"];
    assert SplitFrom("", "(push)\n)") == ["(push)"] + [")"] by { assert "" + "(push)" == "(push)"; }
    assert "" + "(" == "(";
    assert ["("] + (["(push)"] + [")"]) == ["(", "(push)", ")"];
  }

  lemma NestedFiltered(lines: seq<string>, flags: Flags)
    requires lines == ["(", "(push)", ")"] && flags == Flags(false, false)
    ensures WithoutCommands(lines, flags) == ["(", ")"]
  {
    assert lines[..2] == ["(", "(push)"] && lines[..2][..1] == ["("] && lines[..2][..1][..0] == [];
    assert WithoutCommands(lines[..2][..1], flags) == ["("];
  }

  lemma {:induction false} SplitLine(begun: string, line: string, text: string)
    requires '\n' !in line
    ensures SplitFrom(begun, line + "\n" + text) == [begun + line] + SplitFrom("", text)
    decreases |line|
  {
    var all := line + "\n" + text;
    if line == "" {
      assert all[1..] == text && begun + line == begun;
    } else {
      assert all[1..] == line[1..] + "\n" + text;
      SplitLine(begun + [line[0]], line[1..], text);
      assert begun + [line[0]] + line[1..] == begun + line;
    }
  }

  // The forms of the three commands.
  lemma CommandForms()
    ensures CommandForm("(push)") == List([Atom("push")])
    ensures CommandForm("(pop)") == List([Atom("pop")])
    ensures CommandForm("(check-sat)") == List([Atom("check-sat")])
  {
    assert "(push)"[1..5] == "push";
    assert "(pop)"[1..4] == "pop";
    assert "(check-sat)"[1..10] == "check-sat";
  }

  lemma NestedTrees(lines: seq<string>, flags: Flags)
    requires lines == ["(", "(push)", ")"] && flags == Flags(false, false)
    ensures ParseElements(JoinLines(lines)).0 == [List([List([Atom("push")])])]
  {
    CommandForms();
    CommandTokens("(push)", flags);
    ThreeLineTokens("(", "(push)", ")");
    assert FlattenAll([List([CommandForm("(push)")])]) == [Open] + FlattenAll([CommandForm("(push)")]) + [Close];
    LinesParseTo(lines, [List([CommandForm("(push)")])]);
  }

  lemma EmptyListTrees()
    ensures ParseElements(JoinLines(["(", ")"])).0 == [List([])]
  {
    assert ["(", ")"] == ["("] + [")"];
    LineTokensAppend(["("], [")"]);
    OneLineTokens("(");
    OneLineTokens(")");
    LinesParseTo(["(", ")"], [List([])]);
  }

  lemma ThreeLineTokens(a: string, b: string, c: string)
    ensures LineTokens([a, b, c]) == Tokens(a) + Tokens(b) + Tokens(c)
  {
    assert [a, b, c][..2] == [a, b] && [a, b][..1] == [a];
    OneLineTokens(a);
  }

  lemma LinesParseTo(lines: seq<string>, es: seq<SExpr>)
    requires LineTokens(lines) == FlattenAll(es)
    ensures ParseElements(JoinLines(lines)).0 == es
  {
    JoinTokens(lines);
    SpelledIsRead(JoinLines(lines), es);
  }

  lemma NestedNotAtTop(lines: seq<string>, flags: Flags)
    requires lines == ["(", "(push)", ")"] && flags == Flags(false, false)
    ensures Positions(lines, flags) == {} && !CommandsAtTop(lines, flags)
  {
    OneLineTokens("(");
    assert lines[..1] == ["("] && lines[..2][..1] == ["("] && lines[..1][..0] == [];
    assert LineTokens(lines[..1]) == [Open] && [Open][1..] == [];
    assert Depth([]) == 0 && Depth([Open]) == 1;
    assert Live(lines, 1, flags) && !AtTop(lines, 1, flags);
    assert !AtTop(lines[..2], 1, flags);
    assert Positions(lines[..1], flags) == {};
    assert Positions(lines[..2], flags) == {};
  }
}
