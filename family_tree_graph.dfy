/**
 * components/visualizations/FamilyTreeGraph.tsx: the label wrapper `wrapText` and the
 * ECharts tree built around a scholar (an optional parent above, grouper nodes for the
 * spouses, children and siblings below).
 */
module FamilyTreeGraph {
  import opened Wrappers
  import opened Text

  /** The default `maxLen` of `wrapText`. */
  const DefaultMaxLen: nat := 15

  // wrapText

  /** `currentLine` once the words `g` have been added to it: each word and one space. */
  function Spaced(g: seq<string>): string
    decreases |g|
  {
    if g == [] then [] else Spaced(g[..|g| - 1]) + g[|g| - 1] + " "
  }

  /**
   * Whether `word` starts a new line after `current`. The script tests only the width;
   * `guardEmpty` adds the test that the line being closed is not empty.
   */
  predicate Breaks(current: string, word: string, maxLen: nat, guardEmpty: bool)
  {
    (!guardEmpty || current != []) && |current + word| > maxLen
  }

  /** One word of the `forEach`: it opens a new line, or joins the line still open. */
  function Step(gs: seq<seq<string>>, w: string, maxLen: nat, guardEmpty: bool): (r: seq<seq<string>>)
    requires gs != []
    ensures r != []
  {
    var m := |gs| - 1;
    if Breaks(Spaced(gs[m]), w, maxLen, guardEmpty) then gs + [[w]]
    else gs[..m] + [gs[m] + [w]]
  }

  /** The words of each output line, in order; the last group is the line still open. */
  function Groups(words: seq<string>, maxLen: nat, guardEmpty: bool): (gs: seq<seq<string>>)
    ensures gs != []
    decreases |words|
  {
    if words == [] then [[]]
    else Step(Groups(words[..|words| - 1], maxLen, guardEmpty), words[|words| - 1], maxLen, guardEmpty)
  }

  /** `Groups` one word further. */
  lemma GroupsSnoc(words: seq<string>, k: nat, maxLen: nat, guardEmpty: bool)
    requires k < |words|
    ensures Groups(words[..k + 1], maxLen, guardEmpty) == Step(Groups(words[..k], maxLen, guardEmpty), words[k], maxLen, guardEmpty)
  {
    assert words[..k + 1][..k] == words[..k];
  }

  /** The pushed lines: each group's `currentLine`, trimmed. */
  function Lines(gs: seq<seq<string>>): seq<string>
  {
    seq(|gs|, i requires 0 <= i < |gs| => JsTrim(Spaced(gs[i])))
  }

  function WrapWith(str: string, maxLen: nat, guardEmpty: bool): string
  {
    if str == [] then [] else Join(Lines(Groups(Split(str, " "), maxLen, guardEmpty)), "\n")
  }

  /** `wrapText` as the component has it. */
  function WrapAsWritten(str: string, maxLen: nat): string
  {
    WrapWith(str, maxLen, false)
  }

  /** `wrapText` with the first line never closed while still empty. */
  function Wrap(str: string, maxLen: nat): string
  {
    WrapWith(str, maxLen, true)
  }

  /** The `forEach` over the words of `wrapText`. */
  method WrapText(str: string, maxLen: nat) returns (r: string)
    ensures r == WrapAsWritten(str, maxLen)
  {
    if str == [] {
      return "";
    }
    var words := Split(str, " ");
    var currentLine := "";
    var lines: seq<string> := [];
    for k := 0 to |words|
      invariant var gs := Groups(words[..k], maxLen, false);
                lines == Lines(gs[..|gs| - 1]) && currentLine == Spaced(gs[|gs| - 1])
    {
      ghost var gs := Groups(words[..k], maxLen, false);
      GroupsSnoc(words, k, maxLen, false);
      lines, currentLine := AddWord(lines, currentLine, words[k], maxLen, gs);
    }
    ghost var gs := Groups(words, maxLen, false);
    assert words[..|words|] == words;
    LinesSnoc(gs[..|gs| - 1], gs[|gs| - 1]);
    assert gs[..|gs| - 1] + [gs[|gs| - 1]] == gs;
    r := Join(lines + [JsTrim(currentLine)], "\n");
  }

  lemma LinesSnoc(gs: seq<seq<string>>, g: seq<string>)
    ensures Lines(gs + [g]) == Lines(gs) + [JsTrim(Spaced(g))]
  {
  }

  /** The body of the `forEach` on one word. */
  method AddWord(lines: seq<string>, currentLine: string, word: string, maxLen: nat, ghost gs: seq<seq<string>>)
    returns (lines': seq<string>, currentLine': string)
    requires gs != [] && lines == Lines(gs[..|gs| - 1]) && currentLine == Spaced(gs[|gs| - 1])
    ensures var gs' := Step(gs, word, maxLen, false);
            lines' == Lines(gs'[..|gs'| - 1]) && currentLine' == Spaced(gs'[|gs'| - 1])
  {
    var m := |gs| - 1;
    if |currentLine + word| > maxLen {
      lines' := lines + [JsTrim(currentLine)];
      currentLine' := word + " ";
      assert Spaced([word]) == word + " " by {
        assert [word][..0] == [];
      }
      assert (gs + [[word]])[..|gs|] == gs;
      LinesSnoc(gs[..m], gs[m]);
      assert gs[..m] + [gs[m]] == gs;
    } else {
      lines' := lines;
      currentLine' := currentLine + word + " ";
      assert (gs[m] + [word])[..|gs[m]|] == gs[m];
      assert (gs[..m] + [gs[m] + [word]])[..m] == gs[..m];
    }
  }

  /** The words of the groups, in order. */
  function Flatten(gs: seq<seq<string>>): seq<string>
    decreases |gs|
  {
    if gs == [] then [] else Flatten(gs[..|gs| - 1]) + gs[|gs| - 1]
  }

  lemma FlattenSnoc(gs: seq<seq<string>>, g: seq<string>)
    ensures Flatten(gs + [g]) == Flatten(gs) + g
  {
    assert (gs + [g])[..|gs|] == gs;
  }

  lemma StepKeepsWords(gs: seq<seq<string>>, w: string, maxLen: nat, guardEmpty: bool)
    requires gs != []
    ensures Flatten(Step(gs, w, maxLen, guardEmpty)) == Flatten(gs) + [w]
  {
    var m := |gs| - 1;
    assert gs == gs[..m] + [gs[m]];
    FlattenSnoc(gs[..m], gs[m]);
    if Breaks(Spaced(gs[m]), w, maxLen, guardEmpty) {
      FlattenSnoc(gs, [w]);
    } else {
      FlattenSnoc(gs[..m], gs[m] + [w]);
    }
  }

  /** No word is lost, added or moved: the lines hold the words of the input in order. */
  lemma {:induction false} GroupsKeepWords(words: seq<string>, maxLen: nat, guardEmpty: bool)
    ensures Flatten(Groups(words, maxLen, guardEmpty)) == words
    decreases |words|
  {
    if words != [] {
      var init := words[..|words| - 1];
      GroupsKeepWords(init, maxLen, guardEmpty);
      StepKeepsWords(Groups(init, maxLen, guardEmpty), words[|words| - 1], maxLen, guardEmpty);
      assert init + [words[|words| - 1]] == words;
    }
  }

  /** Every word counts its characters and one space. */
  lemma {:induction false} SpacedLength(g: seq<string>)
    ensures |Spaced(g)| >= |g|
    ensures forall j :: 0 <= j < |g| ==> |Spaced(g)| >= |g[j]| + |g|
    decreases |g|
  {
    if g != [] {
      var init := g[..|g| - 1];
      SpacedLength(init);
      forall j | 0 <= j < |g| ensures |Spaced(g)| >= |g[j]| + |g| {
        if j < |init| {
          assert g[j] == init[j];
        }
      }
    }
  }

  /** A line of two or more words has at most `maxLen + 1` characters before trimming. */
  predicate Fits(g: seq<string>, maxLen: nat)
  {
    |g| >= 2 ==> |Spaced(g)| <= maxLen + 1
  }

  lemma StepFits(gs: seq<seq<string>>, w: string, maxLen: nat, guardEmpty: bool)
    requires gs != [] && forall i :: 0 <= i < |gs| ==> Fits(gs[i], maxLen)
    ensures forall i :: 0 <= i < |Step(gs, w, maxLen, guardEmpty)| ==> Fits(Step(gs, w, maxLen, guardEmpty)[i], maxLen)
  {
    var m := |gs| - 1;
    var g := gs[m];
    var r := Step(gs, w, maxLen, guardEmpty);
    if Breaks(Spaced(g), w, maxLen, guardEmpty) {
      assert r == gs + [[w]];
      assert Fits([w], maxLen);
    } else {
      assert r == gs[..m] + [g + [w]];
      assert (g + [w])[..|g|] == g;
      assert Spaced(g + [w]) == Spaced(g) + w + " ";
      SpacedLength(g);
      if Spaced(g) == [] {
        assert g + [w] == [w];
      }
      assert Fits(g + [w], maxLen);
      forall i | 0 <= i < |r| ensures Fits(r[i], maxLen) {
        if i < m {
          assert r[i] == gs[i];
        }
      }
    }
  }

  lemma {:induction false} GroupsFit(words: seq<string>, maxLen: nat, guardEmpty: bool)
    ensures forall i :: 0 <= i < |Groups(words, maxLen, guardEmpty)| ==> Fits(Groups(words, maxLen, guardEmpty)[i], maxLen)
    decreases |words|
  {
    if words != [] {
      var init := words[..|words| - 1];
      GroupsFit(init, maxLen, guardEmpty);
      StepFits(Groups(init, maxLen, guardEmpty), words[|words| - 1], maxLen, guardEmpty);
    }
  }

  /** Trimming a string that ends in a space removes at least that space. */
  lemma TrimDropsFinalSpace(s: string)
    requires s != [] && s[|s| - 1] == ' '
    ensures |JsTrim(s)| < |s|
  {
    var t := TrimStart(Js, s);
    TrimStartSuffix(Js, s);
    if t != [] {
      assert t[|t| - 1] == ' ';
      assert TrimEnd(Js, t) == TrimEnd(Js, t[..|t| - 1]);
    }
  }

  /**
   * Line widths: a line of two or more words is at most `maxLen` long, and a word longer
   * than `maxLen` is the only word of its line.
   */
  lemma LineWidths(words: seq<string>, maxLen: nat, guardEmpty: bool, i: nat)
    requires i < |Groups(words, maxLen, guardEmpty)|
    ensures var g := Groups(words, maxLen, guardEmpty)[i];
            |g| >= 2 ==> |Lines(Groups(words, maxLen, guardEmpty))[i]| <= maxLen
    ensures var g := Groups(words, maxLen, guardEmpty)[i];
            forall j :: 0 <= j < |g| && |g[j]| > maxLen ==> |g| == 1
  {
    var g := Groups(words, maxLen, guardEmpty)[i];
    GroupsFit(words, maxLen, guardEmpty);
    assert Fits(g, maxLen);
    SpacedLength(g);
    if |g| >= 2 {
      TrimDropsFinalSpace(Spaced(g));
    }
  }

  // The leading empty line

  predicate AllNonEmpty(gs: seq<seq<string>>)
  {
    forall i :: 0 <= i < |gs| ==> gs[i] != []
  }

  /** A non-empty group leaves a non-empty `currentLine`. */
  lemma SpacedNonEmpty(g: seq<string>)
    requires g != []
    ensures Spaced(g) != []
  {
  }

  lemma StepNonEmpty(gs: seq<seq<string>>, w: string, maxLen: nat)
    requires gs == [[]] || (gs != [] && AllNonEmpty(gs))
    ensures AllNonEmpty(Step(gs, w, maxLen, true))
  {
    var m := |gs| - 1;
    if gs == [[]] {
      assert Spaced(gs[0]) == [];
      assert !Breaks(Spaced(gs[0]), w, maxLen, true);
      assert gs[0] + [w] == [w];
      assert gs[..0] + [gs[0] + [w]] == [[w]];
    } else {
      SpacedNonEmpty(gs[m]);
    }
  }

  /** For a non-empty list of words every group holds a word. */
  lemma {:induction false} GuardedGroupsNonEmpty(words: seq<string>, maxLen: nat)
    requires words != []
    ensures AllNonEmpty(Groups(words, maxLen, true))
    decreases |words|
  {
    var init := words[..|words| - 1];
    if init != [] {
      GuardedGroupsNonEmpty(init, maxLen);
    }
    StepNonEmpty(Groups(init, maxLen, true), words[|words| - 1], maxLen);
  }

  /** An empty first group does not change how later words are placed. */
  lemma StepPastEmpty(gt: seq<seq<string>>, w: string, maxLen: nat)
    requires gt != [] && AllNonEmpty(gt)
    ensures Step([[]] + gt, w, maxLen, false) == [[]] + Step(gt, w, maxLen, true)
  {
    var gf := [[]] + gt;
    var m := |gt| - 1;
    assert gf[|gf| - 1] == gt[m];
    SpacedNonEmpty(gt[m]);
    if Breaks(Spaced(gt[m]), w, maxLen, true) {
      assert gf + [[w]] == [[]] + (gt + [[w]]);
    } else {
      assert gf[..|gf| - 1] == [[]] + gt[..m];
    }
  }

  /** The guard matters only for an empty open line. */
  lemma StepGuardIdle(gs: seq<seq<string>>, w: string, maxLen: nat)
    requires gs != [] && gs[|gs| - 1] != []
    ensures Step(gs, w, maxLen, false) == Step(gs, w, maxLen, true)
  {
    SpacedNonEmpty(gs[|gs| - 1]);
  }

  /**
   * When the first word is longer than `maxLen`, the script closes the still empty first
   * line: its groups are one empty group followed by those of the guarded test.
   */
  lemma {:induction false} GroupsLongFirst(words: seq<string>, maxLen: nat)
    requires words != [] && |words[0]| > maxLen
    ensures Groups(words, maxLen, false) == [[]] + Groups(words, maxLen, true)
    decreases |words|
  {
    var init := words[..|words| - 1];
    var w := words[|words| - 1];
    if init == [] {
      var e: seq<seq<string>> := [[]];
      assert Groups(init, maxLen, false) == e && Groups(init, maxLen, true) == e;
      assert Spaced(e[0]) == [];
      assert w == words[0];
      assert Step(e, w, maxLen, false) == e + [[w]];
      assert Step(e, w, maxLen, true) == e[..0] + [e[0] + [w]];
      assert e[0] + [w] == [w];
      assert e[..0] + [e[0] + [w]] == [[w]];
    } else {
      assert init[0] == words[0];
      GroupsLongFirst(init, maxLen);
      GuardedGroupsNonEmpty(init, maxLen);
      StepPastEmpty(Groups(init, maxLen, true), w, maxLen);
    }
  }

  /** When the first word fits, the guard never matters. */
  lemma {:induction false} GroupsShortFirst(words: seq<string>, maxLen: nat)
    requires words != [] && |words[0]| <= maxLen
    ensures Groups(words, maxLen, false) == Groups(words, maxLen, true)
    decreases |words|
  {
    var init := words[..|words| - 1];
    var w := words[|words| - 1];
    if init == [] {
      var e: seq<seq<string>> := [[]];
      assert Groups(init, maxLen, false) == e && Groups(init, maxLen, true) == e;
      assert Spaced(e[0]) == [];
      assert w == words[0];
    } else {
      assert init[0] == words[0];
      GroupsShortFirst(init, maxLen);
      GuardedGroupsNonEmpty(init, maxLen);
      StepGuardIdle(Groups(init, maxLen, true), w, maxLen);
    }
  }

  /** A first piece longer than `maxLen` gives a label that starts with a line break. */
  lemma WrapLongFirstWord(str: string, maxLen: nat)
    requires str != [] && |Split(str, " ")[0]| > maxLen
    ensures WrapAsWritten(str, maxLen) == "\n" + Wrap(str, maxLen)
  {
    var words := Split(str, " ");
    GroupsLongFirst(words, maxLen);
    var gt := Groups(words, maxLen, true);
    var lf := Lines([[]] + gt);
    assert lf == [JsTrim([])] + Lines(gt);
    assert JsTrim([]) == [];
    assert lf[1..] == Lines(gt);
  }

  /** Otherwise the script and the guarded test agree. */
  lemma WrapShortFirstWord(str: string, maxLen: nat)
    requires str == [] || |Split(str, " ")[0]| <= maxLen
    ensures WrapAsWritten(str, maxLen) == Wrap(str, maxLen)
  {
    if str != [] {
      GroupsShortFirst(Split(str, " "), maxLen);
    }
  }

  // Joining the lines back

  /** A name made of words separated by single spaces, with no other whitespace. */
  predicate PlainWord(w: string)
  {
    w != [] && forall k :: 0 <= k < |w| ==> !IsJsSpace(w[k])
  }

  predicate PlainWords(ws: seq<string>)
  {
    forall i :: 0 <= i < |ws| ==> PlainWord(ws[i])
  }

  /** A piece without the separator ends at the separator. */
  lemma {:induction false} SplitAfterPiece(w: string, rest: string, c: char)
    requires c !in w
    ensures Split(w + [c] + rest, [c]) == [w] + Split(rest, [c])
    decreases |w|
  {
    var s := w + [c] + rest;
    if w == [] {
      assert s[..1] == [c] && s[1..] == rest;
    } else {
      assert s[..1] != [c] by {
        assert s[0] == w[0] != c;
      }
      assert s[1..] == w[1..] + [c] + rest;
      SplitAfterPiece(w[1..], rest, c);
      assert [w[0]] + w[1..] == w;
    }
  }

  /** Splitting words joined by a character they do not contain gives the words back. */
  lemma {:induction false} SplitJoin(ws: seq<string>, c: char)
    requires ws != [] && forall i :: 0 <= i < |ws| ==> c !in ws[i]
    ensures Split(Join(ws, [c]), [c]) == ws
    decreases |ws|
  {
    if |ws| == 1 {
      SplitWithoutSep(ws[0], c);
    } else {
      SplitJoin(ws[1..], c);
      SplitAfterPiece(ws[0], Join(ws[1..], [c]), c);
      assert [ws[0]] + ws[1..] == ws;
    }
  }

  lemma {:induction false} JoinAppend(a: seq<string>, b: seq<string>, sep: string)
    requires a != [] && b != []
    ensures Join(a + b, sep) == Join(a, sep) + sep + Join(b, sep)
    decreases |a|
  {
    if |a| == 1 {
      assert (a + b)[1..] == b;
    } else {
      JoinAppend(a[1..], b, sep);
      assert (a + b)[1..] == a[1..] + b;
    }
  }

  /** `currentLine` of a non-empty group is its words joined by spaces, and one space. */
  lemma {:induction false} SpacedJoin(g: seq<string>)
    requires g != []
    ensures Spaced(g) == Join(g, " ") + " "
    decreases |g|
  {
    var init := g[..|g| - 1];
    if init == [] {
      assert g == [g[0]];
    } else {
      SpacedJoin(init);
      JoinAppend(init, [g[|g| - 1]], " ");
      assert init + [g[|g| - 1]] == g;
    }
  }

  lemma {:induction false} JoinFirstLast(ws: seq<string>, sep: string)
    requires ws != [] && forall i :: 0 <= i < |ws| ==> ws[i] != []
    ensures Join(ws, sep) != []
    ensures Join(ws, sep)[0] == ws[0][0]
    ensures Join(ws, sep)[|Join(ws, sep)| - 1] == ws[|ws| - 1][|ws[|ws| - 1]| - 1]
    decreases |ws|
  {
    if |ws| > 1 {
      JoinFirstLast(ws[1..], sep);
    }
  }

  /** Each character of the joined words is a character of a word or of the separator. */
  lemma {:induction false} JoinNoChar(ws: seq<string>, sep: string, c: char)
    requires c !in sep && forall i :: 0 <= i < |ws| ==> c !in ws[i]
    ensures c !in Join(ws, sep)
    decreases |ws|
  {
    if |ws| > 1 {
      JoinNoChar(ws[1..], sep, c);
    }
  }

  /** The trimmed line of a group of plain words is those words joined by single spaces. */
  lemma PlainLine(g: seq<string>)
    requires g != [] && PlainWords(g)
    ensures JsTrim(Spaced(g)) == Join(g, " ")
  {
    SpacedJoin(g);
    var x := Join(g, " ");
    JoinFirstLast(g, " ");
    assert !IsJsSpace(x[0]) && !IsJsSpace(x[|x| - 1]);
    var s := x + " ";
    assert TrimStart(Js, s) == s;
    assert s[..|s| - 1] == x;
    assert TrimEnd(Js, s) == TrimEnd(Js, x);
    assert TrimEnd(Js, x) == x;
  }

  /** Replacing a one-character pattern skips a prefix that does not contain it. */
  lemma {:induction false} ReplacePastPrefix(a: string, t: string, c: char, r: string)
    requires c !in a
    ensures ReplaceAll(a + t, [c], r) == a + ReplaceAll(t, [c], r)
    decreases |a|
  {
    if a != [] {
      assert a + t != [];
      assert !StartsWith(a + t, [c]) by {
        assert (a + t)[0] == a[0];
      }
      assert (a + t)[1..] == a[1..] + t;
      assert c !in a[1..];
      ReplacePastPrefix(a[1..], t, c, r);
      assert ReplaceAll(a + t, [c], r) == [a[0]] + ReplaceAll(a[1..] + t, [c], r);
      assert [a[0]] + a[1..] == a;
    } else {
      assert a + t == t;
    }
  }

  /** Turning the line breaks of the joined lines back into spaces joins them by spaces. */
  lemma {:induction false} ReplaceLineBreaks(ls: seq<string>)
    requires forall i :: 0 <= i < |ls| ==> '\n' !in ls[i]
    ensures ReplaceAll(Join(ls, "\n"), "\n", " ") == Join(ls, " ")
    decreases |ls|
  {
    if |ls| == 1 {
      ReplaceAbsentChar(ls[0], '\n', " ");
    } else if |ls| > 1 {
      ReplaceLineBreaks(ls[1..]);
      var rest := Join(ls[1..], "\n");
      assert Join(ls, "\n") == ls[0] + ("\n" + rest);
      ReplacePastPrefix(ls[0], "\n" + rest, '\n', " ");
      assert StartsWith("\n" + rest, "\n");
      assert ("\n" + rest)[1..] == rest;
    }
  }

  lemma {:induction false} ReplaceAbsentChar(s: string, c: char, r: string)
    requires c !in s
    ensures ReplaceAll(s, [c], r) == s
  {
    ReplacePastPrefix(s, [], c, r);
    assert s + [] == s;
  }

  /** Joining the lines of non-empty groups by spaces joins all their words by spaces. */
  lemma {:induction false} JoinGroups(gs: seq<seq<string>>)
    requires gs != [] && AllNonEmpty(gs)
    ensures Join(seq(|gs|, i requires 0 <= i < |gs| => Join(gs[i], " ")), " ") == Join(Flatten(gs), " ")
    decreases |gs|
  {
    var m := |gs| - 1;
    var init := gs[..m];
    var ls := seq(|gs|, i requires 0 <= i < |gs| => Join(gs[i], " "));
    assert gs == init + [gs[m]];
    FlattenSnoc(init, gs[m]);
    if init == [] {
      assert ls == [Join(gs[m], " ")];
      assert Flatten(init) == [];
      assert Flatten(gs) == gs[m];
    } else {
      JoinGroups(init);
      var lsInit := seq(|init|, i requires 0 <= i < |init| => Join(init[i], " "));
      assert ls == lsInit + [Join(gs[m], " ")];
      JoinAppend(lsInit, [Join(gs[m], " ")], " ");
      FlattenNonEmpty(init);
      JoinAppend(Flatten(init), gs[m], " ");
    }
  }

  lemma {:induction false} FlattenNonEmpty(gs: seq<seq<string>>)
    requires gs != [] && gs[0] != []
    ensures Flatten(gs) != []
    decreases |gs|
  {
    if |gs| > 1 {
      FlattenNonEmpty(gs[..|gs| - 1]);
    }
  }

  /** The words of the groups are words of the flattened list. */
  lemma {:induction false} FlattenHolds(gs: seq<seq<string>>, i: nat, j: nat)
    requires i < |gs| && j < |gs[i]|
    ensures gs[i][j] in Flatten(gs)
    decreases |gs|
  {
    var m := |gs| - 1;
    if i < m {
      FlattenHolds(gs[..m], i, j);
    } else {
      assert Flatten(gs) == Flatten(gs[..m]) + gs[m];
      assert Flatten(gs)[|Flatten(gs[..m])| + j] == gs[m][j];
    }
  }

  /**
   * For a name of plain words separated by single spaces, the tooltip's replacement of the
   * line breaks by spaces gives the name back: the wrapper only turns some spaces into
   * line breaks.
   */
  /** One line of groups of plain words. */
  lemma PlainGroupLine(gs: seq<seq<string>>, ws: seq<string>, i: nat)
    requires i < |gs| && gs[i] != [] && Flatten(gs) == ws && PlainWords(ws)
    ensures JsTrim(Spaced(gs[i])) == Join(gs[i], " ") && '\n' !in Join(gs[i], " ")
  {
    var g := gs[i];
    forall j | 0 <= j < |g| ensures PlainWord(g[j]) {
      FlattenHolds(gs, i, j);
    }
    PlainLine(g);
    forall j | 0 <= j < |g| ensures '\n' !in g[j] {
      assert PlainWord(g[j]);
    }
    JoinNoChar(g, " ", '\n');
  }

  /** The lines of groups of plain words are the groups joined by spaces, with no line break. */
  lemma PlainLines(gs: seq<seq<string>>, ws: seq<string>)
    requires AllNonEmpty(gs) && Flatten(gs) == ws && PlainWords(ws)
    ensures Lines(gs) == seq(|gs|, i requires 0 <= i < |gs| => Join(gs[i], " "))
    ensures forall i :: 0 <= i < |gs| ==> '\n' !in Lines(gs)[i]
  {
    forall i | 0 <= i < |gs| ensures Lines(gs)[i] == Join(gs[i], " ") && '\n' !in Join(gs[i], " ") {
      PlainGroupLine(gs, ws, i);
    }
  }

  /** Splitting a name of plain words on spaces gives its words. */
  lemma SplitPlain(ws: seq<string>)
    requires ws != [] && PlainWords(ws)
    ensures Split(Join(ws, " "), " ") == ws && Join(ws, " ") != []
  {
    forall i | 0 <= i < |ws| ensures ' ' !in ws[i] && ws[i] != [] {
      assert PlainWord(ws[i]);
    }
    JoinFirstLast(ws, " ");
    SplitJoin(ws, ' ');
  }

  /**
   * For a name of plain words separated by single spaces, the tooltip's replacement of the
   * line breaks by spaces gives the name back: the wrapper only turns some spaces into
   * line breaks.
   */
  lemma WrapRoundTrip(ws: seq<string>, maxLen: nat)
    requires ws != [] && PlainWords(ws)
    ensures ReplaceAll(Wrap(Join(ws, " "), maxLen), "\n", " ") == Join(ws, " ")
  {
    SplitPlain(ws);
    var gs := Groups(ws, maxLen, true);
    GuardedGroupsNonEmpty(ws, maxLen);
    GroupsKeepWords(ws, maxLen, true);
    PlainLines(gs, ws);
    ReplaceLineBreaks(Lines(gs));
    JoinGroups(gs);
  }

  /**
   * As the component has it, a plain name whose first word is longer than `maxLen` gets a
   * label that starts with an empty line, so turning its line breaks back into spaces gives
   * the name with a leading space. The tooltip shows the original name instead, so only the
   * unwrapping fallback, which a non-empty name never reaches, would show that space.
   */
  lemma AsWrittenRoundTrip(ws: seq<string>, maxLen: nat)
    requires ws != [] && PlainWords(ws) && |ws[0]| > maxLen
    ensures ReplaceAll(WrapAsWritten(Join(ws, " "), maxLen), "\n", " ") == " " + Join(ws, " ")
  {
    SplitPlain(ws);
    WrapLongFirstWord(Join(ws, " "), maxLen);
    WrapRoundTrip(ws, maxLen);
    var x := Wrap(Join(ws, " "), maxLen);
    assert StartsWith("\n" + x, "\n");
    assert ("\n" + x)[1..] == x;
  }

  /** `wrapText` gives "" for the empty name. */
  lemma WrapEmpty(maxLen: nat)
    ensures WrapAsWritten("", maxLen) == "" && Wrap("", maxLen) == ""
  {
  }

  // The tree

  datatype Person = Person(id: string, name: string, grade: Option<string>)

  datatype Scholar = Scholar(id: string, name: string, grade: string)

  /**
   * One node of the ECharts tree: the wrapped label, the name shown by the tooltip, the
   * relation shown as the value, and the child nodes. Grouper nodes have neither a name
   * of their own nor a value. Colours and label styles are not modelled.
   */
  datatype TreeItem = TreeItem(name: string, originalName: Option<string>, value: Option<string>, children: seq<TreeItem>)

  /** A relative's leaf node. */
  function Leaf(p: Person, relation: string): TreeItem
  {
    TreeItem(WrapAsWritten(p.name, DefaultMaxLen), Some(p.name), Some(relation), [])
  }

  /** `people.map(...)`: one leaf per person, in order. */
  function Leaves(people: seq<Person>, relation: string): (r: seq<TreeItem>)
    ensures |r| == |people|
    ensures forall i :: 0 <= i < |r| ==> r[i] == Leaf(people[i], relation)
  {
    seq(|people|, i requires 0 <= i < |people| => Leaf(people[i], relation))
  }

  /**
   * A relative's label is `wrapText(name)` with the default width: joined back it is the
   * name, preceded by a space exactly when the first word is longer than 15 characters.
   */
  lemma LeafLabel(ws: seq<string>, id: string, grade: Option<string>, relation: string)
    requires ws != [] && PlainWords(ws)
    ensures ReplaceAll(Leaf(Person(id, Join(ws, " "), grade), relation).name, "\n", " ") ==
              if |ws[0]| > DefaultMaxLen then " " + Join(ws, " ") else Join(ws, " ")
  {
    if |ws[0]| > DefaultMaxLen {
      AsWrittenRoundTrip(ws, DefaultMaxLen);
    } else {
      SplitPlain(ws);
      WrapShortFirstWord(Join(ws, " "), DefaultMaxLen);
      WrapRoundTrip(ws, DefaultMaxLen);
    }
  }

  /** The invisible grouper node, present only when it has leaves. */
  function Grouper(title: string, leaves: seq<TreeItem>): seq<TreeItem>
  {
    if |leaves| > 0 then [TreeItem(title, None, None, leaves)] else []
  }

  function ScholarItem(s: Scholar, spouses: seq<Person>, children: seq<Person>, siblings: seq<Person>): TreeItem
  {
    TreeItem(WrapAsWritten(s.name, DefaultMaxLen), Some(s.name), None,
      Grouper("Spouses", Leaves(spouses, "Spouse")) +
      Grouper("Children", Leaves(children, "Child")) +
      Grouper("Siblings", Leaves(siblings, "Sibling")))
  }

  /** `rootData`: the first parent above the scholar, or the scholar alone. */
  function RootData(s: Scholar, parents: seq<Person>, spouses: seq<Person>, children: seq<Person>,
                    siblings: seq<Person>): TreeItem
  {
    var scholarItem := ScholarItem(s, spouses, children, siblings);
    if |parents| > 0 then
      TreeItem(WrapAsWritten(parents[0].name, DefaultMaxLen), Some(parents[0].name), Some("Parent"), [scholarItem])
    else scholarItem
  }

  /** The tooltip formatter: the original name when it is not empty, else the label unwrapped. */
  function Tooltip(item: TreeItem): string
  {
    if item.originalName.Some? && item.originalName.value != [] then item.originalName.value
    else ReplaceAll(item.name, "\n", " ")
  }

  /**
   * With any parents the root is the first parent, holding the scholar as its only child,
   * and the other parents are dropped; with none the scholar is the root.
   */
  lemma RootFacts(s: Scholar, parents: seq<Person>, spouses: seq<Person>, children: seq<Person>,
                  siblings: seq<Person>)
    ensures var root := RootData(s, parents, spouses, children, siblings);
            |parents| > 0 ==>
              && root.originalName == Some(parents[0].name) && root.value == Some("Parent")
              && root.children == [ScholarItem(s, spouses, children, siblings)]
              && root == RootData(s, parents[..1], spouses, children, siblings)
    ensures |parents| == 0 ==> RootData(s, parents, spouses, children, siblings) == ScholarItem(s, spouses, children, siblings)
    ensures ScholarItem(s, spouses, children, siblings).originalName == Some(s.name)
  {
  }

  /** The titles of the grouper nodes under the scholar, in order. */
  function Titles(items: seq<TreeItem>): (r: seq<string>)
    ensures |r| == |items|
  {
    seq(|items|, i requires 0 <= i < |items| => items[i].name)
  }

  /** The titles and the grouper nodes of three optional groups. */
  lemma {:induction false} ThreeGroupers(ta: string, a: seq<TreeItem>, tb: string, b: seq<TreeItem>, tc: string, c: seq<TreeItem>)
    ensures var all := Grouper(ta, a) + Grouper(tb, b) + Grouper(tc, c);
            Titles(all) == (if a != [] then [ta] else []) + (if b != [] then [tb] else []) + (if c != [] then [tc] else [])
    ensures var all := Grouper(ta, a) + Grouper(tb, b) + Grouper(tc, c);
            forall k :: 0 <= k < |all| ==> all[k].originalName.None? && all[k].value.None? && |all[k].children| > 0
    ensures var all := Grouper(ta, a) + Grouper(tb, b) + Grouper(tc, c);
            && (a != [] ==> all[0].children == a)
            && (b != [] ==> all[if a != [] then 1 else 0].children == b)
            && (c != [] ==> all[|all| - 1].children == c)
  {
    var all := Grouper(ta, a) + Grouper(tb, b) + Grouper(tc, c);
    assert Titles(all) == Titles(Grouper(ta, a)) + Titles(Grouper(tb, b)) + Titles(Grouper(tc, c));
  }

  /**
   * Grouper nodes appear only for non-empty lists, in the order Spouses, Children,
   * Siblings; each has no tooltip name or value of its own and one leaf per person, in order.
   */
  lemma GroupFacts(s: Scholar, spouses: seq<Person>, children: seq<Person>, siblings: seq<Person>)
    ensures var item := ScholarItem(s, spouses, children, siblings);
            Titles(item.children) ==
              (if spouses != [] then ["Spouses"] else []) +
              (if children != [] then ["Children"] else []) +
              (if siblings != [] then ["Siblings"] else [])
    ensures var item := ScholarItem(s, spouses, children, siblings);
            forall k :: 0 <= k < |item.children| ==>
              item.children[k].originalName.None? && item.children[k].value.None? &&
              |item.children[k].children| > 0
    ensures var item := ScholarItem(s, spouses, children, siblings);
            spouses != [] ==> item.children[0].children == Leaves(spouses, "Spouse")
    ensures var item := ScholarItem(s, spouses, children, siblings);
            var k := if spouses != [] then 1 else 0;
            children != [] ==> item.children[k].children == Leaves(children, "Child")
    ensures var item := ScholarItem(s, spouses, children, siblings);
            siblings != [] ==> item.children[|item.children| - 1].children == Leaves(siblings, "Sibling")
  {
    ThreeGroupers("Spouses", Leaves(spouses, "Spouse"), "Children", Leaves(children, "Child"),
                  "Siblings", Leaves(siblings, "Sibling"));
  }

  /**
   * A relative's tooltip is their name when it is not empty; a grouper's tooltip is its
   * title; an empty name gives an empty tooltip.
   */
  lemma TooltipFacts(p: Person, relation: string, title: string, leaves: seq<TreeItem>)
    ensures p.name != [] ==> Tooltip(Leaf(p, relation)) == p.name
    ensures p.name == [] ==> Tooltip(Leaf(p, relation)) == []
    ensures '\n' !in title && |leaves| > 0 ==> Tooltip(Grouper(title, leaves)[0]) == title
  {
    if '\n' !in title && |leaves| > 0 {
      ReplaceAbsentChar(title, '\n', " ");
    }
  }
}
