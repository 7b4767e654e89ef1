/**
 * fill_missing_english.py: fill missing English texts of the hadith table from the JSON
 * editions, first by hadith number and then, for the rows still missing, by the normal form
 * of the Arabic text.
 */
module FillMissingEnglish {
  import opened Wrappers
  import opened Text
  import opened HadithTable
  import opened ArabicText

  /** This script's `ARABIC_SOURCE_MAP`: an Arabic edition for each of the six collections. */
  function ArabicEdition(name: string): (f: Option<string>)
    ensures f.Some? <==> name in SourceNames
  {
    if name == SahihBukhari then Some("ara-bukhari.min.json")
    else if name == SahihMuslim then Some("ara-muslim.min.json")
    else if name == AbuDawud then Some("ara-abudawud.min.json")
    else if name == Tirmidhi then Some("ara-tirmidhi.min.json")
    else if name == Nasai then Some("ara-nasai.min.json")
    else if name == IbnMajah then Some("ara-ibnmajah.min.json")
    else None
  }

  /** An English entry with a truthy number and a truthy text. */
  function NumberEntry(h: JsonHadith): (e: Option<(int, string)>)
    ensures e.Some? ==> e.value.0 != 0 && e.value.1 != ""
  {
    if h.hadithNumber.Some? && h.hadithNumber.value != 0 && Truthy(h.text) then
      Some((h.hadithNumber.value, h.text.value))
    else None
  }

  function NumberEntries(): JsonHadith -> Option<(int, string)>
  {
    h => NumberEntry(h)
  }

  /** `load_translations_by_number(name)`: empty for an unknown collection or a missing file. */
  function ByNumber(files: JsonFiles, name: string): map<int, string>
  {
    match EnglishEdition(name)
    case None => map[]
    case Some(f) => if f in files then LastWins(files[f], NumberEntries()) else map[]
  }

  method LoadTranslationsByNumber(files: JsonFiles, name: string) returns (byNumber: map<int, string>)
    ensures byNumber == ByNumber(files, name)
  {
    var path := EnglishEdition(name);
    if path.None? || path.value !in files {
      return map[];
    }
    var hadiths := files[path.value];
    byNumber := map[];
    for i := 0 to |hadiths|
      invariant byNumber == LastWins(hadiths[..i], NumberEntries())
    {
      LastWinsSnoc(hadiths, NumberEntries(), i);
      var e := NumberEntry(hadiths[i]);
      if e.Some? {
        byNumber := byNumber[e.value.0 := e.value.1];
      }
    }
    assert hadiths[..|hadiths|] == hadiths;
  }

  /** Every number maps to the non-empty text of the last English entry with that number. */
  lemma ByNumberFacts(files: JsonFiles, name: string, n: int) returns (i: nat)
    requires n in ByNumber(files, name)
    ensures var f := EnglishEdition(name).value;
            && f in files && i < |files[f]|
            && files[f][i].hadithNumber == Some(n) && files[f][i].text == Some(ByNumber(files, name)[n])
            && ByNumber(files, name)[n] != ""
            && forall j :: i < j < |files[f]| ==> files[f][j].hadithNumber != Some(n) || !Truthy(files[f][j].text)
  {
    var f := EnglishEdition(name).value;
    i := LastWinsFacts(files[f], NumberEntries(), n);
  }

  /** `{h.get('hadithnumber'): h.get('text', '') for h in eng_hadiths}`. */
  function NumberedText(h: JsonHadith): Option<(Option<int>, Option<string>)>
  {
    Some((h.hadithNumber, h.text))
  }

  function EngByNum(hs: seq<JsonHadith>): map<Option<int>, Option<string>>
  {
    LastWins(hs, h => NumberedText(h))
  }

  /**
   * An Arabic entry with a truthy text and number whose number has a truthy English text:
   * its normal form, when not empty, and that English text.
   */
  function AraEntry(engByNum: map<Option<int>, Option<string>>, h: JsonHadith): (e: Option<(string, string)>)
    ensures e.Some? ==> e.value.0 != "" && e.value.1 != ""
  {
    if Truthy(h.text) && h.hadithNumber.Some? && h.hadithNumber.value != 0 &&
       h.hadithNumber in engByNum && Truthy(engByNum[h.hadithNumber]) then
      var norm := NormalizeArabic(h.text);
      if norm != "" then Some((norm, engByNum[h.hadithNumber].value)) else None
    else None
  }

  function AraEntries(engByNum: map<Option<int>, Option<string>>): JsonHadith -> Option<(string, string)>
  {
    h => AraEntry(engByNum, h)
  }

  /** `load_arabic_to_english_map(name)`: empty unless both edition files exist. */
  function AraToEng(files: JsonFiles, name: string): map<string, string>
  {
    if ArabicEdition(name).None? || EnglishEdition(name).None? then map[]
    else
      var ara := ArabicEdition(name).value;
      var eng := EnglishEdition(name).value;
      if ara !in files || eng !in files then map[]
      else LastWins(files[ara], AraEntries(EngByNum(files[eng])))
  }

  method LoadArabicToEnglishMap(files: JsonFiles, name: string) returns (araToEng: map<string, string>)
    ensures araToEng == AraToEng(files, name)
  {
    var ara := ArabicEdition(name);
    var eng := EnglishEdition(name);
    if ara.None? || eng.None? || ara.value !in files || eng.value !in files {
      return map[];
    }
    var araHadiths := files[ara.value];
    var engByNum := EngByNum(files[eng.value]);
    araToEng := map[];
    for i := 0 to |araHadiths|
      invariant araToEng == LastWins(araHadiths[..i], AraEntries(engByNum))
    {
      LastWinsSnoc(araHadiths, AraEntries(engByNum), i);
      var e := AraEntry(engByNum, araHadiths[i]);
      if e.Some? {
        araToEng := araToEng[e.value.0 := e.value.1];
      }
    }
    assert araHadiths[..|araHadiths|] == araHadiths;
  }

  /** Method 1 on one row: a missing English text of the collection, found by hadith number. */
  function ByNumberWrite(name: string, byNumber: map<int, string>, r: HadithRow): Option<HadithRow>
  {
    if r.source == Some(name) && r.textEn.None? then
      match ParseInt(PyStrip(r.hadithNo))
      case Some(n) => if n in byNumber then Some(r.(textEn := Some(byNumber[n]))) else None
      case None => None
    else None
  }

  /** Method 2 on one row: a missing English text of the collection, found by its Arabic text. */
  function ByArabicWrite(name: string, araToEng: map<string, string>, r: HadithRow): Option<HadithRow>
  {
    if r.source == Some(name) && r.textEn.None? && r.textAr.Some? && NormalizeArabic(r.textAr) in araToEng then
      Some(r.(textEn := Some(araToEng[NormalizeArabic(r.textAr)])))
    else None
  }

  function ByNumberStep(name: string, byNumber: map<int, string>): RowStep
  {
    (i, r) => ByNumberWrite(name, byNumber, r)
  }

  function ByArabicStep(name: string, araToEng: map<string, string>): RowStep
  {
    (i, r) => ByArabicWrite(name, araToEng, r)
  }

  /** Both methods on one row: the second only when the first found nothing. */
  function FillWrite(name: string, byNumber: map<int, string>, araToEng: map<string, string>, r: HadithRow): Option<HadithRow>
  {
    var first := ByNumberWrite(name, byNumber, r);
    if first.Some? then first else ByArabicWrite(name, araToEng, r)
  }

  function FillStep(name: string, byNumber: map<int, string>, araToEng: map<string, string>): RowStep
  {
    (i, r) => FillWrite(name, byNumber, araToEng, r)
  }

  /** Method 2 where method 1 found nothing. */
  function ByArabicAfterStep(name: string, byNumber: map<int, string>, araToEng: map<string, string>): RowStep
  {
    (i, r) => if ByNumberWrite(name, byNumber, r).None? then ByArabicWrite(name, araToEng, r) else None
  }

  /**
   * Running method 1 over the table and then method 2 over the result is one pass of both
   * methods: a row filled by number has an English text, so method 2 skips it, and the two
   * counts add up to the rows filled.
   */
  lemma BothMethods(name: string, byNumber: map<int, string>, araToEng: map<string, string>,
                    before: seq<HadithRow>, mid: seq<HadithRow>, after: seq<HadithRow>, c1: nat, c2: nat)
    requires |before| == |mid| == |after|
    requires forall i :: 0 <= i < |before| ==> mid[i] == Rewritten(ByNumberStep(name, byNumber), i, before[i])
    requires forall i :: 0 <= i < |before| ==> after[i] == Rewritten(ByArabicStep(name, araToEng), i, mid[i])
    requires c1 == Rewrites(ByNumberStep(name, byNumber), before)
    requires c2 == Rewrites(ByArabicStep(name, araToEng), mid)
    ensures forall i :: 0 <= i < |before| ==> after[i] == Rewritten(FillStep(name, byNumber, araToEng), i, before[i])
    ensures c1 + c2 == Rewrites(FillStep(name, byNumber, araToEng), before)
  {
    var m1 := ByNumberStep(name, byNumber);
    var m2 := ByArabicStep(name, araToEng);
    var m2After := ByArabicAfterStep(name, byNumber, araToEng);
    var both := FillStep(name, byNumber, araToEng);
    forall i | 0 <= i < |before|
      ensures m2(i, mid[i]).Some? == m2After(i, before[i]).Some?
      ensures after[i] == Rewritten(both, i, before[i])
      ensures both(i, before[i]).Some? == (m1(i, before[i]).Some? || m2After(i, before[i]).Some?)
      ensures !(m1(i, before[i]).Some? && m2After(i, before[i]).Some?)
    {
    }
    RewritesCongruent(m2, mid, m2After, before);
    RewritesSplit(both, m1, m2After, before);
  }

  /** What the loop for collection `name` writes into a row. */
  function FillSourceWrite(files: JsonFiles): SourceWrite
  {
    (name: string, r: HadithRow) => FillWrite(name, ByNumber(files, name), AraToEng(files, name), r)
  }

  lemma FillKeepsToSource(files: JsonFiles)
    ensures KeepsToSource(FillSourceWrite(files))
  {
  }

  /** The writes of the whole script. */
  function FillAll(files: JsonFiles): RowStep
  {
    FillUpTo(files, |SourceNames|)
  }

  /** Before the first loop, nothing is written. */
  lemma FillNone(files: JsonFiles, rows: seq<HadithRow>)
    ensures forall i :: 0 <= i < |rows| ==> Rewritten(FillUpTo(files, 0), i, rows[i]) == rows[i]
    ensures Rewrites(FillUpTo(files, 0), rows) == 0
  {
    SourcesNone(FillSourceWrite(files), rows);
  }

  /** The writes of the loops over the first `k` collections. */
  function FillUpTo(files: JsonFiles, k: nat): RowStep
    requires k <= |SourceNames|
  {
    SourcesUpTo(FillSourceWrite(files), k)
  }

  /**
   * Only a row of one of the six collections with a missing English text is written, and
   * only its English text, with a non-empty text. Method 1 takes priority: when the row's
   * number is in the edition's number map, that is the text it gets.
   */
  lemma FillAllFacts(files: JsonFiles, r: HadithRow)
    ensures FillAll(files)(0, r).Some? ==>
              && r.source.Some? && r.source.value in SourceNames && r.textEn.None?
              && exists t :: t != "" && FillAll(files)(0, r).value == r.(textEn := Some(t))
    ensures r.source.Some? && r.source.value in SourceNames && r.textEn.None? &&
            ParseInt(PyStrip(r.hadithNo)).Some? && ParseInt(PyStrip(r.hadithNo)).value in ByNumber(files, r.source.value) ==>
              FillAll(files)(0, r) ==
                Some(r.(textEn := Some(ByNumber(files, r.source.value)[ParseInt(PyStrip(r.hadithNo)).value])))
    ensures r.textEn.Some? ==> FillAll(files)(0, r).None?
  {
    assert SourceNames[..|SourceNames|] == SourceNames;
    if FillAll(files)(0, r).Some? {
      var name := r.source.value;
      var first := ByNumberWrite(name, ByNumber(files, name), r);
      if first.Some? {
        var n := ParseInt(PyStrip(r.hadithNo)).value;
        var _ := ByNumberFacts(files, name, n);
        assert FillAll(files)(0, r).value == r.(textEn := Some(ByNumber(files, name)[n]));
      } else {
        var norm := NormalizeArabic(r.textAr);
        var m := AraToEng(files, name);
        var eng := EnglishEdition(name).value;
        var ara := ArabicEdition(name).value;
        var i := LastWinsFacts(files[ara], AraEntries(EngByNum(files[eng])), norm);
        assert FillAll(files)(0, r).value == r.(textEn := Some(m[norm]));
      }
    }
  }

  /**
   * One iteration of the loop over the collections: method 1 and then method 2 for
   * collection `k`. `rows` is the table as it was before the first iteration.
   */
  method FillSource(table: array<HadithRow>, files: JsonFiles, k: nat, ghost rows: seq<HadithRow>)
    returns (updatedCount: nat)
    requires k < |SourceNames| && table.Length == |rows|
    requires forall i :: 0 <= i < table.Length ==>
               table[i] == Rewritten(FillUpTo(files, k), i, rows[i])
    modifies table
    ensures forall i :: 0 <= i < table.Length ==>
              table[i] == Rewritten(FillUpTo(files, k + 1), i, rows[i])
    ensures Rewrites(FillUpTo(files, k + 1), rows) == Rewrites(FillUpTo(files, k), rows) + updatedCount
  {
    var name := SourceNames[k];
    ghost var before := table[..];
    var byNumber := LoadTranslationsByNumber(files, name);
    var method1Count := RewriteRows(table, ByNumberStep(name, byNumber));
    ghost var mid := table[..];
    var araToEng := LoadArabicToEnglishMap(files, name);
    var method2Count := RewriteRows(table, ByArabicStep(name, araToEng));
    BothMethods(name, byNumber, araToEng, before, mid, table[..], method1Count, method2Count);
    updatedCount := method1Count + method2Count;
    FillKeepsToSource(files);
    SourceIteration(FillSourceWrite(files), k, FillStep(name, byNumber, araToEng), rows, before, table[..], updatedCount);
  }

  /** The loop over the collections of `SOURCE_MAP`, in its order: both methods for each. */
  method FillSources(table: array<HadithRow>, files: JsonFiles) returns (total: nat)
    modifies table
    ensures forall i :: 0 <= i < table.Length ==> table[i] == Rewritten(FillAll(files), i, old(table[i]))
    ensures total == Rewrites(FillAll(files), old(table[..]))
  {
    ghost var rows := table[..];
    FillNone(files, rows);
    total := 0;
    for k := 0 to |SourceNames|
      invariant forall i :: 0 <= i < table.Length ==> table[i] == Rewritten(FillUpTo(files, k), i, rows[i])
      invariant total == Rewrites(FillUpTo(files, k), rows)
    {
      var updatedCount := FillSource(table, files, k, rows);
      total := total + updatedCount;
    }
  }

  /**
   * The script over the table: after stripping the source column, both methods run for each
   * collection of `SOURCE_MAP`, in its order. `total` is the number of rows filled.
   */
  method FillMissingEnglish(table: array<HadithRow>, files: JsonFiles) returns (total: nat)
    modifies table
    ensures forall i :: 0 <= i < table.Length ==>
              table[i] == Rewritten(FillAll(files), i, StrippedSource(old(table[i])))
    ensures total == Rewrites(FillAll(files), StrippedRows(old(table[..])))
  {
    StripSources(table);
    ghost var rows := table[..];
    total := FillSources(table, files);
    StrippedThenRewritten(table[..], rows, old(table[..]), FillAll(files));
  }
}
