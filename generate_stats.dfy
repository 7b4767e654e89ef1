/**
 * The statistics build (scripts/generate-stats.js): the number of scholars, the number of
 * hadiths, and the number of hadiths per book.
 */
module GenerateStats {
  import opened Wrappers
  import opened Text
  import opened OrderedMaps
  import opened Counters

  /** The `book` field of a hadith-index entry; None is a missing or null field. */
  datatype IndexedHadith = IndexedHadith(book: Option<string>)

  datatype Stats = Stats(totalScholars: nat, totalHadiths: nat, hadithsByBook: OrderedMap<string, nat>)

  /** `h.book ? h.book.trim() : 'Unknown'`: a missing or empty book is "Unknown". */
  function BookKey(h: IndexedHadith): string
  {
    if h.book.None? || h.book.value == "" then "Unknown" else JsTrim(h.book.value)
  }

  function BookKeys(hadiths: seq<IndexedHadith>): (keys: seq<string>)
    ensures |keys| == |hadiths|
    ensures forall i :: 0 <= i < |hadiths| ==> keys[i] == BookKey(hadiths[i])
  {
    seq(|hadiths|, i requires 0 <= i < |hadiths| => BookKey(hadiths[i]))
  }

  /** The `forEach` that fills `hadithsByBook`. */
  method CountByBook(hadiths: seq<IndexedHadith>) returns (counts: OrderedMap<string, nat>)
    ensures counts == Tally(BookKeys(hadiths))
  {
    ghost var keys := BookKeys(hadiths);
    counts := Empty();
    var i := 0;
    while i < |hadiths|
      invariant 0 <= i <= |hadiths|
      invariant counts == Tally(keys[..i])
    {
      var book := BookKey(hadiths[i]);
      TallySnoc(keys, i);
      counts := Increment(counts, book);
      i := i + 1;
    }
    TallyWhole(keys);
  }

  /**
   * The script after reading its two files; None for a file that could not be read or
   * parsed, in which case nothing is written. `scholars` is the length of the search index.
   */
  method GenerateStats(hadiths: Option<seq<IndexedHadith>>, scholars: Option<nat>) returns (stats: Option<Stats>)
    ensures stats.Some? <==> hadiths.Some? && scholars.Some?
    ensures stats.Some? ==>
              && stats.value.totalScholars == scholars.value
              && stats.value.totalHadiths == |hadiths.value|
              && stats.value.hadithsByBook == Tally(BookKeys(hadiths.value))
  {
    if hadiths.None? || scholars.None? {
      return None;
    }
    var byBook := CountByBook(hadiths.value);
    stats := Some(Stats(scholars.value, |hadiths.value|, byBook));
  }

  /** The per-book counts add up to the total. */
  lemma ByBookSumsToTotal(hadiths: seq<IndexedHadith>)
    ensures var m := Tally(BookKeys(hadiths)); SumCounts(m.keys, m.values) == |hadiths|
  {
    TallySum(BookKeys(hadiths));
  }

  /** A book's count is the number of hadiths whose trimmed book is that key. */
  lemma ByBookCounts(hadiths: seq<IndexedHadith>, book: string)
    ensures var m := Tally(BookKeys(hadiths));
            (book in m.values <==> exists i :: 0 <= i < |hadiths| && BookKey(hadiths[i]) == book) &&
            (book in m.values ==> m.values[book] == Occurrences(BookKeys(hadiths), book))
  {
    var keys := BookKeys(hadiths);
    TallyCounts(keys);
    if book in keys {
      var i :| 0 <= i < |keys| && keys[i] == book;
      assert BookKey(hadiths[i]) == book;
    }
  }

  /** A hadith with no book, or an empty one, is counted under "Unknown". */
  lemma MissingBookIsUnknown(h: IndexedHadith)
    requires h.book.None? || h.book == Some("")
    ensures BookKey(h) == "Unknown"
  {
  }

  /** A book made only of spaces is truthy in JavaScript: it is counted under the empty key. */
  lemma BlankBookIsEmptyKey()
    ensures BookKey(IndexedHadith(Some("  "))) == ""
  {
    assert IsJsSpace(' ');
    TrimOfBlank(Js, "  ");
  }
}
