/**
 * HadithList.tsx: the hadiths a scholar narrated, five more per "Load More" click. An empty
 * or missing list shows the empty state; otherwise the first `5 * page` hadiths are shown,
 * each as a card, and the button is offered while some are still hidden.
 */
module HadithList {
  import opened Wrappers
  import opened Text

  /** A hadith as the page receives it; `chain` may be absent. */
  datatype Hadith = Hadith(
    hadithNo: string, source: string, chapter: string, chapterNo: string,
    textAr: string, textEn: string, chain: Option<seq<string>>)

  const ItemsPerPage: nat := 5

  /** `useState(1)`: the first page. */
  const FirstPage: nat := 1

  const ChainLabel: string := "Isnad Chain ID: "

  /** The arrow the chain separator is meant to carry. */
  const Arrow: char := '\U{2192}'

  /** The separator as intended: a space, the arrow, a space. */
  const ChainSeparator: string := [' ', Arrow, ' ']

  /**
   * The separator as the component's text has it: the UTF-8 bytes of the arrow read back as
   * Windows-1252, that is `â`, `†` and `’` between the spaces.
   */
  const ChainSeparatorAsWritten: string := [' ', '\U{E2}', '\U{2020}', '\U{2019}', ' ']

  /** One card of the list: badges, texts and the optional chain line. */
  datatype HadithCard = HadithCard(
    sourceBadge: string, numberBadge: string, chapter: string,
    arabic: string, english: string, chainLine: Option<string>)

  datatype View = EmptyState | Listing(total: nat, cards: seq<HadithCard>, hasMore: bool)

  function Min(a: nat, b: nat): nat
  {
    if a <= b then a else b
  }

  /** `xs.slice(0, n)` for `n >= 0`. */
  function Slice<T>(xs: seq<T>, n: nat): (r: seq<T>)
    ensures |r| == Min(n, |xs|) && r == xs[..|r|]
  {
    if n <= |xs| then xs[..n] else xs
  }

  /** The chain line joined with `sep`; there is none for a missing or empty chain. */
  function ChainLineWith(chain: Option<seq<string>>, sep: string): (r: Option<string>)
    ensures r.Some? <==> chain.Some? && |chain.value| > 0
    ensures r.Some? ==> StartsWith(r.value, ChainLabel)
  {
    if chain.Some? && |chain.value| > 0 then
      var line := ChainLabel + Join(chain.value, sep);
      assert line[..|ChainLabel|] == ChainLabel;
      Some(line)
    else None
  }

  function ChainLine(chain: Option<seq<string>>): Option<string>
  {
    ChainLineWith(chain, ChainSeparator)
  }

  function ChainLineAsWritten(chain: Option<seq<string>>): Option<string>
  {
    ChainLineWith(chain, ChainSeparatorAsWritten)
  }

  /**
   * One card; the source badge is trimmed and the chain line appears only for a non-empty
   * chain. The chain line is joined with the separator as the component's text has it.
   */
  function CardOf(h: Hadith): (c: HadithCard)
    ensures c.sourceBadge == [] || (!IsSpace(Js, c.sourceBadge[0]) && !IsSpace(Js, c.sourceBadge[|c.sourceBadge| - 1]))
    ensures c.chainLine.Some? <==> h.chain.Some? && |h.chain.value| > 0
  {
    HadithCard(JsTrim(h.source), "Hadith " + h.hadithNo, h.chapter, h.textAr, h.textEn, ChainLineAsWritten(h.chain))
  }

  function Cards(hs: seq<Hadith>): seq<HadithCard>
  {
    seq(|hs|, i requires 0 <= i < |hs| => CardOf(hs[i]))
  }

  /**
   * The component at a given `page`: the empty state exactly for a missing or empty list;
   * otherwise the cards of the first `min(5 * page, n)` hadiths in order, and `hasMore`
   * exactly when `5 * page < n`.
   */
  function Render(hadiths: Option<seq<Hadith>>, page: nat): (r: View)
    ensures r.EmptyState? <==> hadiths.None? || |hadiths.value| == 0
    ensures r.Listing? ==>
              && r.total == |hadiths.value|
              && |r.cards| == Min(page * ItemsPerPage, |hadiths.value|)
              && (forall i :: 0 <= i < |r.cards| ==> r.cards[i] == CardOf(hadiths.value[i]))
              && (r.hasMore <==> page * ItemsPerPage < |hadiths.value|)
  {
    if hadiths.None? || |hadiths.value| == 0 then EmptyState
    else
      var shown := Slice(hadiths.value, page * ItemsPerPage);
      Listing(|hadiths.value|, Cards(shown), |shown| < |hadiths.value|)
  }

  /** `setPage(p => p + 1)`. */
  function LoadMore(page: nat): nat
  {
    page + 1
  }

  /**
   * A click on "Load More" keeps every card shown and adds at most five more; it adds at least
   * one whenever the button was offered, and changes nothing once all are shown.
   */
  lemma LoadMoreReveals(hadiths: Option<seq<Hadith>>, page: nat)
    requires Render(hadiths, page).Listing?
    ensures var before := Render(hadiths, page); var after := Render(hadiths, LoadMore(page));
            && after.Listing?
            && |before.cards| <= |after.cards| <= |before.cards| + ItemsPerPage
            && after.cards[..|before.cards|] == before.cards
            && (before.hasMore ==> |after.cards| > |before.cards|)
            && (!before.hasMore ==> after == before)
  {
    var before := Render(hadiths, page);
    var after := Render(hadiths, LoadMore(page));
    assert LoadMore(page) * ItemsPerPage == page * ItemsPerPage + ItemsPerPage;
    assert after.cards[..|before.cards|] == before.cards;
    if !before.hasMore {
      assert after.cards == before.cards;
    }
  }

  /**
   * Starting from the first page, clicks `0 .. (n - 1) / 5 - 1` each find the button offered,
   * and after `(n - 1) / 5` clicks every hadith is shown and the button is gone.
   */
  lemma ClicksToShowAll(hs: seq<Hadith>, clicks: nat)
    requires hs != []
    ensures clicks < (|hs| - 1) / ItemsPerPage ==> Render(Some(hs), FirstPage + clicks).hasMore
    ensures clicks >= (|hs| - 1) / ItemsPerPage ==>
              && !Render(Some(hs), FirstPage + clicks).hasMore
              && Render(Some(hs), FirstPage + clicks).cards == Cards(hs)
  {
    var n := |hs|;
    var q := (n - 1) / ItemsPerPage;
    assert n - 1 == q * ItemsPerPage + (n - 1) % ItemsPerPage;
    var r := Render(Some(hs), FirstPage + clicks);
    if clicks >= q {
      assert (FirstPage + clicks) * ItemsPerPage >= n;
      assert r.cards == Cards(hs);
    } else {
      assert (FirstPage + clicks) * ItemsPerPage <= q * ItemsPerPage;
    }
  }

  // ---------------------------------------------------------------------
  // The chain separator

  lemma {:induction false} CountCharAppend(a: string, b: string, c: char)
    ensures CountChar(a + b, c) == CountChar(a, c) + CountChar(b, c)
    decreases |a|
  {
    if a != [] {
      assert (a + b)[1..] == a[1..] + b;
      CountCharAppend(a[1..], b, c);
    } else {
      assert a + b == b;
    }
  }

  lemma {:induction false} CountCharAbsent(s: string, c: char)
    requires forall k :: 0 <= k < |s| ==> s[k] != c
    ensures CountChar(s, c) == 0
    decreases |s|
  {
    if s != [] {
      CountCharAbsent(s[1..], c);
    }
  }

  /** Joining pieces without `c` gives one copy of the separator's count per gap. */
  lemma {:induction false} JoinCount(ws: seq<string>, sep: string, c: char)
    requires ws != []
    requires forall i :: 0 <= i < |ws| ==> CountChar(ws[i], c) == 0
    ensures CountChar(Join(ws, sep), c) == (|ws| - 1) * CountChar(sep, c)
    decreases |ws|
  {
    if |ws| > 1 {
      JoinCount(ws[1..], sep, c);
      CountCharAppend(ws[0] + sep, Join(ws[1..], sep), c);
      CountCharAppend(ws[0], sep, c);
      assert (|ws| - 1) * CountChar(sep, c) == (|ws| - 2) * CountChar(sep, c) + CountChar(sep, c);
    }
  }

  lemma LabelHasNoArrow()
    ensures CountChar(ChainLabel, Arrow) == 0
  {
    var s := ChainLabel;
    assert forall k :: 0 <= k < |s| ==> s[k] != Arrow;
    CountCharAbsent(s, Arrow);
  }

  lemma SeparatorArrows()
    ensures CountChar(ChainSeparator, Arrow) == 1
    ensures CountChar(ChainSeparatorAsWritten, Arrow) == 0
  {
    var s := ChainSeparator;
    CountCharAppend([s[0], s[1]], [s[2]], Arrow);
    CountCharAppend([s[0]], [s[1]], Arrow);
    assert s == [s[0], s[1]] + [s[2]];
    var w := ChainSeparatorAsWritten;
    assert forall k :: 0 <= k < |w| ==> w[k] != Arrow;
    CountCharAbsent(w, Arrow);
  }

  /**
   * With the intended separator, a chain of ids that contain no arrow shows exactly one arrow
   * between each two neighbouring ids.
   */
  lemma ChainArrows(ids: seq<string>)
    requires ids != []
    requires forall i :: 0 <= i < |ids| ==> CountChar(ids[i], Arrow) == 0
    ensures ChainLine(Some(ids)).Some?
    ensures CountChar(ChainLine(Some(ids)).value, Arrow) == |ids| - 1
  {
    LabelHasNoArrow();
    SeparatorArrows();
    JoinCount(ids, ChainSeparator, Arrow);
    CountCharAppend(ChainLabel, Join(ids, ChainSeparator), Arrow);
  }

  /** Two or more pieces joined after any head show the separator. */
  lemma JoinShowsSeparator(head: string, ids: seq<string>, sep: string)
    requires |ids| >= 2
    ensures Contains(head + Join(ids, sep), sep)
  {
    var rest := Join(ids[1..], sep);
    assert head + Join(ids, sep) == (head + ids[0]) + sep + rest;
    ContainsInfix(head + ids[0], sep, rest);
  }

  /**
   * As written, the separator holds no arrow at all: such a chain shows none, whatever its
   * length, and instead three unrelated characters between each two ids.
   */
  lemma AsWrittenChainHasNoArrow(ids: seq<string>)
    requires ids != []
    requires forall i :: 0 <= i < |ids| ==> CountChar(ids[i], Arrow) == 0
    ensures ChainLineAsWritten(Some(ids)).Some?
    ensures CountChar(ChainLineAsWritten(Some(ids)).value, Arrow) == 0
    ensures |ids| >= 2 ==> Contains(ChainLineAsWritten(Some(ids)).value, ChainSeparatorAsWritten)
  {
    LabelHasNoArrow();
    SeparatorArrows();
    JoinCount(ids, ChainSeparatorAsWritten, Arrow);
    CountCharAppend(ChainLabel, Join(ids, ChainSeparatorAsWritten), Arrow);
    if |ids| >= 2 {
      JoinShowsSeparator(ChainLabel, ids, ChainSeparatorAsWritten);
    }
  }

  /**
   * So a card of a hadith with two or more narrators shows the mojibake separator and no
   * arrow, for ids that hold none.
   */
  lemma CardShowsNoArrow(h: Hadith)
    requires h.chain.Some? && h.chain.value != []
    requires forall i :: 0 <= i < |h.chain.value| ==> CountChar(h.chain.value[i], Arrow) == 0
    ensures CardOf(h).chainLine.Some?
    ensures CountChar(CardOf(h).chainLine.value, Arrow) == 0
    ensures |h.chain.value| >= 2 ==> Contains(CardOf(h).chainLine.value, ChainSeparatorAsWritten)
  {
    AsWrittenChainHasNoArrow(h.chain.value);
  }
}
