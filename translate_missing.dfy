/**
 * translate_missing.py: give each hadith listed as missing its English a rule-based text,
 * a manual translation by hadith number when there is one and otherwise a label chosen by
 * the phrases of its Arabic chain of narrators.
 */
module TranslateMissing {
  import opened Wrappers
  import opened Text
  import opened HadithTable
  import FinalTranslate

  /** One entry of the list of hadiths missing their English. */
  datatype MissingItem = MissingItem(csvIndex: int, textAr: Option<string>, hadithNo: string, source: Option<string>)

  const Mithlihi: string := "مثله"
  const Bimithlihi: string := "بمثله"
  const Bihadha: string := "بهذا"
  const Haddathana: string := "حدثنا"
  const Akhbarana: string := "أخبرنا"

  const ThroughChain: string := "Narrated through chain"
  const NeededMarker: string := "Translation needed"

  /** The label for a chain of narrators that says "similarly" (the 100-character preview of `text`). */
  function SimilarLabel(text: string): string
  {
    "Narrated similarly. [Chain: " + Head(text, 100) + "...]"
  }

  function WithThisLabel(text: string): string
  {
    "Narrated with this (chain). [Chain: " + Head(text, 100) + "...]"
  }

  function ChainLabel(text: string): string
  {
    ThroughChain + " of transmission. [Arabic: " + text + "]"
  }

  function DefaultLabel(text: string): string
  {
    "[" + NeededMarker + " - Arabic text]: " + text
  }

  /**
   * `translate_arabic`: `manual` is the `TRANSLATIONS` table by hadith number; the number
   * is `int(str(hadith_no).strip())` when that parses.
   */
  function TranslateArabic(manual: map<int, string>, arabic: string, hadithNo: string): string
  {
    var num := ParseInt(PyStrip(hadithNo));
    if num.Some? && num.value in manual then manual[num.value]
    else
      var text := PyStrip(arabic);
      if Contains(text, Mithlihi) || Contains(text, Bimithlihi) then SimilarLabel(text)
      else if Contains(text, Bihadha) then WithThisLabel(text)
      else if |text| < 200 && (Contains(text, Haddathana) || Contains(text, Akhbarana)) then ChainLabel(text)
      else DefaultLabel(text)
  }

  /** The hadith number the manual table is consulted under. */
  function ManualKey(manual: map<int, string>, hadithNo: string): Option<int>
  {
    var num := ParseInt(PyStrip(hadithNo));
    if num.Some? && num.value in manual then num else None
  }

  /** "بمثله" contains "مثله", so the second test of the first branch never decides anything. */
  lemma BimithlihiRedundant(text: string)
    ensures Contains(text, Bimithlihi) ==> Contains(text, Mithlihi)
  {
    ContainsInfix("ب", Mithlihi, "");
    assert "ب" + Mithlihi + "" == Bimithlihi;
    if Contains(text, Bimithlihi) {
      ContainsTransitive(text, Bimithlihi, Mithlihi);
    }
  }

  /**
   * The outcome of `translate_arabic`: a manual hit wins whatever the Arabic says; otherwise
   * the trimmed Arabic decides, "similarly" before "with this" before a short plain chain,
   * and the labels that are not final carry the markers that make final_translate.py
   * translate the row again.
   */
  lemma TranslateArabicFacts(manual: map<int, string>, arabic: string, hadithNo: string)
    ensures ManualKey(manual, hadithNo).Some? ==>
              TranslateArabic(manual, arabic, hadithNo) == manual[ManualKey(manual, hadithNo).value]
    ensures ManualKey(manual, hadithNo).None? && Contains(PyStrip(arabic), Mithlihi) ==>
              TranslateArabic(manual, arabic, hadithNo) == SimilarLabel(PyStrip(arabic))
    ensures ManualKey(manual, hadithNo).None? && !Contains(PyStrip(arabic), Mithlihi) &&
            Contains(PyStrip(arabic), Bihadha) ==>
              TranslateArabic(manual, arabic, hadithNo) == WithThisLabel(PyStrip(arabic))
    ensures ManualKey(manual, hadithNo).None? && !Contains(PyStrip(arabic), Mithlihi) &&
            !Contains(PyStrip(arabic), Bihadha) ==>
              && FinalTranslate.NeedsTranslation(Some(TranslateArabic(manual, arabic, hadithNo)))
              && Contains(TranslateArabic(manual, arabic, hadithNo), PyStrip(arabic))
  {
    var text := PyStrip(arabic);
    BimithlihiRedundant(text);
    LabelContains("", ThroughChain, " of transmission. [Arabic: ", text, "]");
    assert "" + ThroughChain == ThroughChain;
    LabelContains("[", NeededMarker, " - Arabic text]: ", text, "");
    assert DefaultLabel(text) + "" == DefaultLabel(text);
  }

  /** A label built around a marker `p` and a text `t` contains both. */
  lemma LabelContains(a: string, p: string, b: string, t: string, c: string)
    ensures Contains(a + p + b + t + c, p) && Contains(a + p + b + t + c, t)
  {
    ContainsInfix(a, p, b + t + c);
    assert a + p + (b + t + c) == a + p + b + t + c;
    ContainsInfix(a + p + b, t, c);
  }

  /** What an item writes: its row index and English, or nothing when its Arabic is empty. */
  function ItemWrite(manual: map<int, string>, item: MissingItem): Option<(int, string)>
  {
    if Truthy(item.textAr) then Some((item.csvIndex, TranslateArabic(manual, item.textAr.value, item.hadithNo)))
    else None
  }

  function ItemWrites(manual: map<int, string>): MissingItem -> Option<(int, string)>
  {
    item => ItemWrite(manual, item)
  }

  /** The English each row index ends with: that of the last item for it, items without Arabic aside. */
  function Written(manual: map<int, string>, items: seq<MissingItem>): map<int, string>
  {
    LastWins(items, ItemWrites(manual))
  }

  /** A row after the loop: its English replaced when some item wrote it. */
  function Translated(w: map<int, string>, i: int, r: HadithRow): HadithRow
  {
    if i in w then r.(textEn := Some(w[i])) else r
  }

  /**
   * A row is written exactly when some item with a non-empty Arabic text names its index, and
   * then it holds the translation of the last such item.
   */
  lemma WrittenFacts(manual: map<int, string>, items: seq<MissingItem>, k: int) returns (j: nat)
    ensures k in Written(manual, items) <==>
              exists i :: 0 <= i < |items| && items[i].csvIndex == k && Truthy(items[i].textAr)
    ensures k in Written(manual, items) ==>
              && j < |items| && items[j].csvIndex == k && Truthy(items[j].textAr)
              && Written(manual, items)[k] == TranslateArabic(manual, items[j].textAr.value, items[j].hadithNo)
              && forall i :: j < i < |items| && items[i].csvIndex == k ==> !Truthy(items[i].textAr)
  {
    j := LastWinsFacts(items, ItemWrites(manual), k);
    if k in Written(manual, items) {
      assert Winner(items, ItemWrites(manual), k, j);
    }
    forall i | 0 <= i < |items| && items[i].csvIndex == k && Truthy(items[i].textAr)
      ensures ItemWrites(manual)(items[i]).Some? && ItemWrites(manual)(items[i]).value.0 == k
    {
    }
  }

  /**
   * `main`: the items in order, each with a non-empty Arabic text translated into the row at
   * its `csv_index`; only the English column of those rows changes.
   */
  method TranslateItems(table: array<HadithRow>, manual: map<int, string>, items: seq<MissingItem>)
    modifies table
    ensures forall i :: 0 <= i < table.Length ==> table[i] == Translated(Written(manual, items), i, old(table[i]))
  {
    ghost var rows := table[..];
    for n := 0 to |items|
      invariant forall i :: 0 <= i < table.Length ==> table[i] == Translated(Written(manual, items[..n]), i, rows[i])
    {
      LastWinsSnoc(items, ItemWrites(manual), n);
      var item := items[n];
      if Truthy(item.textAr) {
        var english := TranslateArabic(manual, item.textAr.value, item.hadithNo);
        if 0 <= item.csvIndex < table.Length {
          table[item.csvIndex] := table[item.csvIndex].(textEn := Some(english));
        }
      }
    }
    assert items[..|items|] == items;
  }
}
