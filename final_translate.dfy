/**
 * final_translate.py: give every row whose English text is missing or a placeholder a text,
 * either a manual translation for its row index or a phrase-by-phrase rendering of its
 * Arabic chain of narrators.
 */
module FinalTranslate {
  import opened Wrappers
  import opened Text
  import opened HadithTable

  predicate PatternsNonEmpty(ps: seq<(string, string)>)
  {
    forall i :: 0 <= i < |ps| ==> ps[i].0 != ""
  }

  /** A list of (pattern, replacement) pairs; `str.replace` needs non-empty patterns here. */
  type Pairs = ps: seq<(string, string)> | PatternsNonEmpty(ps) witness []

  /** `for ar, en in ps: t = t.replace(ar, en)`. */
  function ApplyPairs(t: string, ps: Pairs): string
    decreases |ps|
  {
    if ps == [] then t
    else
      var p := ps[|ps| - 1];
      ReplaceAll(ApplyPairs(t, ps[..|ps| - 1]), p.0, p.1)
  }

  lemma ApplyPairsSnoc(t: string, ps: Pairs, i: nat)
    requires i < |ps|
    ensures ApplyPairs(t, ps[..i + 1]) == ReplaceAll(ApplyPairs(t, ps[..i]), ps[i].0, ps[i].1)
  {
    assert ps[..i + 1][..i] == ps[..i];
  }

  /**
   * `translate_isnad(text)` with the replacement list `ps`: the replacements, then
   * `" ".join(t.split())`. 
   */
  function Rendering(text: string, ps: Pairs): string
  {
    CollapseSpaces(ApplyPairs(text, ps))
  }

  method TranslateIsnad(text: string, ps: Pairs) returns (t: string)
    ensures t == Rendering(text, ps)
  {
    t := text;
    for i := 0 to |ps|
      invariant t == ApplyPairs(text, ps[..i])
    {
      ApplyPairsSnoc(text, ps, i);
      var (ar, en) := ps[i];
      t := ReplaceAll(t, ar, en);
    }
    assert ps[..|ps|] == ps;
    t := CollapseSpaces(t);
  }

  /** The rendering has no surrounding, repeated or non-space whitespace. */
  lemma RenderingCollapsed(text: string, ps: Pairs)
    ensures Collapsed(Rendering(text, ps))
  {
    CollapseSpacesCollapsed(ApplyPairs(text, ps));
  }

  // Which replacements can still fire.

  /**
   * No occurrence of `p` is left after replacing it by `r` when the first letter of each is
   * absent from the other: a letter of `r` cannot start `p`, and no later letter of `p` can
   * start `r`, so no new occurrence can straddle a replacement.
   */
  lemma ForeignReplacementRemoves(s: string, p: string, r: string)
    requires p != [] && r != [] && p[0] !in r && r[0] !in p
    ensures !Contains(ReplaceAll(s, p, r), p)
  {
    forall k | 0 <= k < |r| ensures !Overlaps(r[k..], p) {
      var n := if |r[k..]| < |p| then |r[k..]| else |p|;
      assert r[k..][..n][0] == r[k] != p[0] == p[..n][0];
    }
    forall k | 1 <= k < |p| ensures !Overlaps(p[k..], r) {
      var n := if |p[k..]| < |r| then |p[k..]| else |r|;
      assert p[k..][..n][0] == p[k] != r[0] == r[..n][0];
    }
    ReplaceAllRemoves(s, p, r);
  }

  /**
   * A pair whose pattern contains the pattern of the pair just before it never fires, when
   * that pair's pattern and replacement share no first letter: no occurrence of the shorter pattern, and so of the longer, is left.
   */
  lemma ShadowedPair(t: string, ps: Pairs, i: nat)
    requires i + 1 < |ps|
    requires ps[i].0[0] !in ps[i].1 && ps[i].1 != [] && ps[i].1[0] !in ps[i].0
    requires Contains(ps[i + 1].0, ps[i].0)
    ensures ApplyPairs(t, ps[..i + 2]) == ApplyPairs(t, ps[..i + 1])
  {
    ApplyPairsSnoc(t, ps, i);
    ApplyPairsSnoc(t, ps, i + 1);
    var before := ApplyPairs(t, ps[..i]);
    var after := ApplyPairs(t, ps[..i + 1]);
    ForeignReplacementRemoves(before, ps[i].0, ps[i].1);
    if Contains(after, ps[i + 1].0) {
      ContainsTransitive(after, ps[i + 1].0, ps[i].0);
    }
    ReplaceAbsent(after, ps[i + 1].0, ps[i + 1].1);
  }

  /** A character in neither the text nor the replacement is not in the result. */
  lemma {:induction false} ReplaceAllLacks(s: string, p: string, r: string, c: char)
    requires |p| > 0 && c !in s && c !in r
    ensures c !in ReplaceAll(s, p, r)
    decreases |s|
  {
    if s != [] {
      if StartsWith(s, p) {
        assert c !in s[|p|..];
        ReplaceAllLacks(s[|p|..], p, r, c);
      } else {
        assert c !in s[1..];
        ReplaceAllLacks(s[1..], p, r, c);
      }
    }
  }

  /** Collapsing whitespace adds no character other than the space. */
  lemma CollapseLacks(s: string, c: char)
    requires c !in s && !IsPySpace(c)
    ensures c !in CollapseSpaces(s)
  {
    CollapseKeepsContent(s);
    FilterHas(CollapseSpaces(s), NotPySpace, c);
    FilterHas(s, NotPySpace, c);
  }

  /**
   * When the last-but-one pair replaces a single letter by a text without it and the last pair's
   * replacement lacks that letter, the rendering has none left.
   */
  lemma LetterRemoved(t: string, ps: Pairs, c: char)
    requires |ps| >= 2
    requires ps[|ps| - 2].0 == [c] && !IsPySpace(c)
    requires ps[|ps| - 2].1 != [] && c !in ps[|ps| - 2].1
    requires c !in ps[|ps| - 1].1
    ensures c !in Rendering(t, ps)
  {
    var n := |ps| - 2;
    ApplyPairsSnoc(t, ps, n);
    ApplyPairsSnoc(t, ps, n + 1);
    assert ps[..n + 2] == ps;
    var before := ApplyPairs(t, ps[..n]);
    var mid := ApplyPairs(t, ps[..n + 1]);
    ForeignReplacementRemoves(before, [c], ps[n].1);
    assert c !in mid by {
      if c in mid {
        var k :| 0 <= k < |mid| && mid[k] == c;
        assert mid == mid[..k] + [c] + mid[k + 1..];
        ContainsInfix(mid[..k], [c], mid[k + 1..]);
      }
    }
    ReplaceAllLacks(mid, ps[n + 1].0, ps[n + 1].1, c);
    CollapseLacks(ApplyPairs(t, ps), c);
  }

  // The filling loop.

  /** `needs_translation`: missing, the text "nan", or one of the four placeholder markers. */
  predicate NeedsTranslation(v: Option<string>)
  {
    match v
    case None => true
    case Some(s) =>
      s == "nan" || Contains(s, "AI-Generated") || Contains(s, "AI Translation") ||
      Contains(s, "Narrated through chain") || Contains(s, "Translation needed")
  }

  /** What the loop writes into row `i`; `manual` is the `TRANSLATIONS` table by row index. */
  function FinalWrite(manual: map<int, string>, ps: Pairs, i: nat, r: HadithRow): Option<HadithRow>
  {
    if NeedsTranslation(r.textEn) && r.textAr.Some? then
      Some(r.(textEn := Some(if i in manual then manual[i] else Rendering(r.textAr.value, ps))))
    else None
  }

  function FinalStep(manual: map<int, string>, ps: Pairs): RowStep
  {
    (i: nat, r: HadithRow) => FinalWrite(manual, ps, i, r)
  }

  /**
   * A row is written exactly when it needs a translation and has an Arabic text; only its
   * English changes, to the manual entry for its index when there is one and otherwise to
   * the rendering of its Arabic. A row with a finished English text is never touched.
   */
  lemma FinalWriteFacts(manual: map<int, string>, ps: Pairs, i: nat, r: HadithRow)
    ensures FinalWrite(manual, ps, i, r).Some? <==> NeedsTranslation(r.textEn) && r.textAr.Some?
    ensures FinalWrite(manual, ps, i, r).Some? && i in manual ==>
              FinalWrite(manual, ps, i, r).value == r.(textEn := Some(manual[i]))
    ensures FinalWrite(manual, ps, i, r).Some? && i !in manual ==>
              && FinalWrite(manual, ps, i, r).value == r.(textEn := Some(Rendering(r.textAr.value, ps)))
              && Collapsed(FinalWrite(manual, ps, i, r).value.textEn.value)
  {
    if r.textAr.Some? {
      RenderingCollapsed(r.textAr.value, ps);
    }
  }

  /**
   * The loop body of `main` on row `i`: the new row when it needs a translation and has an
   * Arabic text, with the manual entry for `i` or else the rendering of its Arabic.
   */
  method TranslateRow(manual: map<int, string>, ps: Pairs, i: nat, row: HadithRow)
    returns (w: Option<HadithRow>)
    ensures w == FinalWrite(manual, ps, i, row)
  {
    w := None;
    if NeedsTranslation(row.textEn) && row.textAr.Some? {
      var english;
      if i in manual {
        english := manual[i];
      } else {
        english := TranslateIsnad(row.textAr.value, ps);
      }
      w := Some(row.(textEn := Some(english)));
    }
  }

  /**
   * The loop of `main` with the replacement list `ps`: the rows that need a translation are
   * chosen before the loop, and each iteration writes only its own row, so choosing them as
   * the loop meets them is the same. `filledCount` is the number of rows written.
   */
  method FillTargets(table: array<HadithRow>, manual: map<int, string>, ps: Pairs)
    returns (filledCount: nat)
    modifies table
    ensures forall i :: 0 <= i < table.Length ==> table[i] == Rewritten(FinalStep(manual, ps), i, old(table[i]))
    ensures filledCount == Rewrites(FinalStep(manual, ps), old(table[..]))
  {
    ghost var rows := table[..];
    ghost var step := FinalStep(manual, ps);
    filledCount := 0;
    for idx := 0 to table.Length
      invariant forall i :: 0 <= i < idx ==> table[..][i] == Rewritten(step, i, rows[i])
      invariant forall i :: idx <= i < table.Length ==> table[..][i] == rows[i]
      invariant filledCount == Rewrites(step, rows[..idx])
    {
      RewritesSnoc(step, rows, idx);
      ghost var before := table[..];
      var w := TranslateRow(manual, ps, idx, table[idx]);
      assert w == step(idx, rows[idx]);
      if w.Some? {
        table[idx] := w.value;
        filledCount := filledCount + 1;
      }
      assert table[..] == before[idx := Rewritten(step, idx, rows[idx])];
      RewriteOne(step, rows, idx, before, table[..]);
    }
    assert rows[..table.Length] == rows;
  }
}
