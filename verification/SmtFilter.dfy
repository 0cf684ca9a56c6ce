// The line filter of scripts/filter-out-get-model-smt-files.py and what it does
// to the trees that the S-expression parser reads from the filtered text.
module SmtFilter {
  import opened Common
  import opened SExprs
  import opened SExprTheorems

  // The command-line switches that keep push/pop and check-sat lines.
  datatype Flags = Flags(pushPop: bool, checkSat: bool)

  // ---------- Text and lines ----------

  predicate Contains(text: string, sub: string) {
    exists i | 0 <= i <= |text| :: sub <= text[i..]
  }

  // Splitting at line feeds; a final line feed ends the last line.
  function SplitLines(text: string): (lines: seq<string>)
    ensures text == "" ==> lines == []
  {
    SplitFrom("", text)
  }

  function SplitFrom(line: string, text: string): (lines: seq<string>)
    ensures line == "" && text == "" <==> lines == []
    decreases |text|
  {
    if text == "" then (if line == "" then [] else [line])
    else if text[0] == '\n' then [line] + SplitFrom("", text[1..])
    else SplitFrom(line + [text[0]], text[1..])
  }

  function JoinLines(lines: seq<string>): string {
    if lines == [] then ""
    else if |lines| == 1 then lines[0]
    else lines[0] + "\n" + JoinLines(lines[1..])
  }

  predicate IsComment(line: string) {
    line != "" && line[0] == ';'
  }

  // The commands that are removed unless a flag asks to keep them.
  predicate IsCommand(line: string, flags: Flags) {
    || (line == "(push)" && !flags.pushPop)
    || (line == "(pop)" && !flags.pushPop)
    || (line == "(check-sat)" && !flags.checkSat)
  }

  function Uncommented(lines: seq<string>): seq<string> {
    if lines == [] then []
    else Uncommented(lines[..|lines| - 1])
         + (if IsComment(lines[|lines| - 1]) then [] else [lines[|lines| - 1]])
  }

  function WithoutCommands(lines: seq<string>, flags: Flags): seq<string> {
    if lines == [] then []
    else
      var last := lines[|lines| - 1];
      WithoutCommands(lines[..|lines| - 1], flags)
      + (if last == "" || IsCommand(last, flags) then [] else [last])
  }

  lemma FilterSnoc(lines: seq<string>, ln: string, flags: Flags)
    ensures WithoutCommands(Uncommented(lines + [ln]), flags)
         == if IsComment(ln) || ln == "" || IsCommand(ln, flags) then WithoutCommands(Uncommented(lines), flags)
            else WithoutCommands(Uncommented(lines), flags) + [ln]
  {
    assert (lines + [ln])[..|lines|] == lines;
    var before := Uncommented(lines);
    assert before + [] == before;
    assert WithoutCommands(before, flags) + [] == WithoutCommands(before, flags);
    assert (before + [ln])[..|before|] == before;
  }

  // The tests of one line, in order.
  method Keeps(ln: string, flags: Flags) returns (keep: bool)
    ensures keep <==> !IsComment(ln) && ln != "" && !IsCommand(ln, flags)
  {
    if IsComment(ln) {
      return false;
    }
    if ln == "" {
      return false;
    }
    if ln == "(push)" && !flags.pushPop {
      return false;
    }
    if ln == "(pop)" && !flags.pushPop {
      return false;
    }
    if ln == "(check-sat)" && !flags.checkSat {
      return false;
    }
    return true;
  }

  method KeepLines(all: seq<string>, flags: Flags) returns (lines: seq<string>)
    ensures lines == WithoutCommands(Uncommented(all), flags)
  {
    lines := [];
    for i := 0 to |all|
      invariant lines == WithoutCommands(Uncommented(all[..i]), flags)
    {
      var ln := all[i];
      FilterSnoc(all[..i], ln, flags);
      assert all[..i + 1] == all[..i] + [ln];
      var keep := Keeps(ln, flags);
      if keep {
        lines := lines + [ln];
      }
    }
    assert all[..|all|] == all;
  }

  // The filter: no output for a file that asks for a model, otherwise the kept
  // lines joined by line feeds.
  method FilterText(smt: string, flags: Flags) returns (tf: Option<string>)
    ensures Contains(smt, "(get-model)") ==> tf == None
    ensures !Contains(smt, "(get-model)") ==>
              tf == Some(JoinLines(WithoutCommands(Uncommented(SplitLines(smt)), flags)))
  {
    if Contains(smt, "(get-model)") {
      return None;
    }
    var lines := KeepLines(SplitLines(smt), flags);
    return Some(JoinLines(lines));
  }

  // ---------- Which lines are kept ----------

  // A line that is neither blank nor a comment is kept as often as it occurs,
  // unless it is a push, pop or check-sat command whose switch is off.
  lemma {:induction false} KeptLine(lines: seq<string>, ln: string, flags: Flags)
    ensures multiset(WithoutCommands(Uncommented(lines), flags))[ln]
         == if ln != "" && ln[0] != ';'
               && (ln == "(push)" || ln == "(pop)" ==> flags.pushPop)
               && (ln == "(check-sat)" ==> flags.checkSat)
            then multiset(lines)[ln] else 0
  {
    if lines != [] {
      var init, last := lines[..|lines| - 1], lines[|lines| - 1];
      Unsnoc(lines);
      KeptLine(init, ln, flags);
      FilterSnoc(init, last, flags);
      CountSnoc(init, last, ln);
      CountSnoc(WithoutCommands(Uncommented(init), flags), last, ln);
    }
  }

  lemma CountSnoc(lines: seq<string>, last: string, ln: string)
    ensures multiset(lines + [last])[ln] == multiset(lines)[ln] + (if last == ln then 1 else 0)
  {
  }

  // Lines keep their order: those kept of two parts are those kept of the first,
  // then those kept of the second.
  lemma {:induction false} KeptInOrder(a: seq<string>, b: seq<string>, flags: Flags)
    ensures WithoutCommands(Uncommented(a + b), flags)
         == WithoutCommands(Uncommented(a), flags) + WithoutCommands(Uncommented(b), flags)
  {
    var kept := WithoutCommands(Uncommented(a), flags);
    if b == [] {
      assert a + b == a && kept + [] == kept;
    } else {
      var init, last := b[..|b| - 1], b[|b| - 1];
      Unsnoc(b);
      Assoc(a, init, [last]);
      KeptInOrder(a, init, flags);
      FilterSnoc(a + init, last, flags);
      FilterSnoc(init, last, flags);
      Assoc(kept, WithoutCommands(Uncommented(init), flags), [last]);
    }
  }

  // One text contains another exactly when it can be cut around it.
  lemma ContainsExactly(text: string, sub: string)
    ensures Contains(text, sub) <==> exists a, b :: text == a + sub + b
  {
    if Contains(text, sub) {
      var i :| 0 <= i <= |text| && sub <= text[i..];
      assert text == text[..i] + sub + text[i + |sub|..];
    }
    if a, b :| text == a + sub + b {
      assert text[|a|..] == sub + b;
      assert sub <= text[|a|..];
    }
  }

  // ---------- Tokens of lines ----------

  function LineTokens(lines: seq<string>): seq<Token> {
    if lines == [] then [] else LineTokens(lines[..|lines| - 1]) + Tokens(lines[|lines| - 1])
  }

  lemma {:induction false} LineTokensAppend(a: seq<string>, b: seq<string>)
    ensures LineTokens(a + b) == LineTokens(a) + LineTokens(b)
  {
    if b == [] {
      assert a + b == a;
    } else {
      var init, last := b[..|b| - 1], b[|b| - 1];
      Unsnoc(b);
      Assoc(a, init, [last]);
      LineTokensAppend(a, init);
      LineTokensSnoc(a + init, last);
      LineTokensSnoc(init, last);
      Assoc(LineTokens(a), LineTokens(init), Tokens(last));
    }
  }

  lemma LineTokensSnoc(lines: seq<string>, last: string)
    ensures LineTokens(lines + [last]) == LineTokens(lines) + Tokens(last)
  {
    assert (lines + [last])[..|lines|] == lines;
  }

  lemma OneLineTokens(line: string)
    ensures LineTokens([line]) == Tokens(line)
  {
    assert LineTokens([line][..0]) == [];
  }

  lemma BreakTokens(a: string, b: string)
    ensures Tokens(a + "\n" + b) == Tokens(a) + Tokens(b)
  {
    Assoc(a, "\n", b);
    TokensAppend(a, "\n" + b);
    assert ("\n" + b)[1..] == b;
  }

  // Joining lines keeps their tokens apart.
  lemma {:induction false} JoinTokens(lines: seq<string>)
    ensures Tokens(JoinLines(lines)) == LineTokens(lines)
  {
    if |lines| == 1 {
      OneLineTokens(lines[0]);
      assert lines == [lines[0]];
    } else if |lines| > 1 {
      BreakTokens(lines[0], JoinLines(lines[1..]));
      JoinTokens(lines[1..]);
      assert lines == [lines[0]] + lines[1..];
      LineTokensAppend([lines[0]], lines[1..]);
      OneLineTokens(lines[0]);
    }
  }

  lemma {:induction false} SplitFromTokens(line: string, text: string)
    ensures LineTokens(SplitFrom(line, text)) == Tokens(line + text)
    decreases |text|
  {
    if text == "" {
      assert line + text == line;
      OneLineTokens(line);
    } else if text[0] == '\n' {
      var tail := text[1..];
      SplitFromTokens("", tail);
      assert "" + tail == tail;
      LineTokensAppend([line], SplitFrom("", tail));
      OneLineTokens(line);
      BreakTokens(line, tail);
      assert line + text == line + "\n" + tail;
    } else {
      SplitFromTokens(line + [text[0]], text[1..]);
      assert (line + [text[0]]) + text[1..] == line + text;
    }
  }

  // Splitting a text into lines loses no token.
  lemma SplitTokens(text: string)
    ensures LineTokens(SplitLines(text)) == Tokens(text)
  {
    SplitFromTokens("", text);
    assert "" + text == text;
  }

  // ---------- Splitting and joining ----------

  function FinalBreak(text: string): string {
    if text != "" && text[|text| - 1] == '\n' then "\n" else ""
  }

  // Joining the lines of a text gives it back, up to a final line feed, and no
  // line contains a line feed.
  lemma SplitThenJoin(text: string)
    ensures JoinLines(SplitLines(text)) + FinalBreak(text) == text
    ensures forall i :: 0 <= i < |SplitLines(text)| ==> '\n' !in SplitLines(text)[i]
  {
    var lines := SplitFromJoins("", text);
    assert "" + text == text;
  }

  lemma {:induction false} SplitFromJoins(line: string, text: string) returns (lines: seq<string>)
    requires '\n' !in line
    ensures lines == SplitFrom(line, text)
    ensures JoinLines(lines) + FinalBreak(text) == line + text
    ensures forall i :: 0 <= i < |lines| ==> '\n' !in lines[i]
    decreases |text|
  {
    if text == "" {
      lines := if line == "" then [] else [line];
      assert line + text == line;
    } else if text[0] == '\n' {
      var tail := text[1..];
      var rest := SplitFromJoins("", tail);
      lines := [line] + rest;
      assert "" + tail == tail;
      Uncons(text);
      PrependLine(line, tail, rest);
    } else {
      lines := SplitFromJoins(line + [text[0]], text[1..]);
      Assoc(line, [text[0]], text[1..]);
      Uncons(text);
      FinalBreakTail(text);
    }
  }

  lemma FinalBreakTail(text: string)
    requires text != "" && text[0] != '\n'
    ensures FinalBreak(text) == FinalBreak(text[1..])
  {
  }

  lemma PrependLine(line: string, tail: string, lines: seq<string>)
    requires JoinLines(lines) + FinalBreak(tail) == tail && (lines == [] <==> tail == "")
    ensures JoinLines([line] + lines) + FinalBreak("\n" + tail) == line + ("\n" + tail)
  {
    if lines == [] {
      assert [line] + lines == [line];
      assert "\n" + tail == "\n";
    } else {
      assert ([line] + lines)[1..] == lines;
      assert FinalBreak("\n" + tail) == FinalBreak(tail);
      Assoc(line + "\n", JoinLines(lines), FinalBreak(tail));
      Assoc(line, "\n", tail);
    }
  }
}
