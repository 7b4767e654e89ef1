/**
 * map_usc_msa_refs.py: fill the `usc_msa_ref` column of the hadith table with the hadith
 * numbers of the JSON editions, matching a row to an edition entry by a normal form of its
 * text.
 */
module MapUscMsaRefs {
  import opened Wrappers
  import opened Text
  import opened HadithTable
  import opened ArabicText

  /** The Arabic Presentation Forms blocks U+FB50 to U+FDFF and U+FE70 to U+FEFF (ﷺ and the like). */
  predicate IsPresentationForm(c: char)
  {
    ('\U{FB50}' <= c <= '\U{FDFF}') || ('\U{FE70}' <= c <= '\U{FEFF}')
  }

  predicate NotPresentationForm(c: char) { !IsPresentationForm(c) }

  /**
   * `normalize_text`: a value that is not a string normalises to `""`; otherwise tags and
   * presentation forms are removed, "Apostle" and then "apostle" become "Messenger" and
   * "messenger", whitespace is removed, and of the lower-cased rest only word characters
   * are kept.
   */
  function NormalizeText(text: Option<string>): (r: string)
    ensures forall k :: 0 <= k < |r| ==> IsWordChar(r[k])
  {
    match text
    case None => ""
    case Some(s) =>
      var t := Filter(StripTags(s), NotPresentationForm);
      var u := ReplaceAll(ReplaceAll(t, "Apostle", "Messenger"), "apostle", "messenger");
      Filter(Lower(Filter(u, NotPySpace)), WordChar)
  }

  /** The English normal form has no whitespace, no capital letter and no tag. */
  lemma NormalizeTextClean(text: Option<string>)
    ensures forall k :: 0 <= k < |NormalizeText(text)| ==>
              var c := NormalizeText(text)[k]; !IsPySpace(c) && !IsAsciiUpper(c) && c != '<'
  {
    var r := NormalizeText(text);
    if text.Some? {
      var t := Filter(StripTags(text.value), NotPresentationForm);
      var u := ReplaceAll(ReplaceAll(t, "Apostle", "Messenger"), "apostle", "messenger");
      var l := Lower(Filter(u, NotPySpace));
      forall k | 0 <= k < |r| ensures !IsPySpace(r[k]) && !IsAsciiUpper(r[k]) && r[k] != '<' {
        WordCharIsPlain(r[k]);
        assert r[k] in r;
        FilterSubset(l, WordChar, r[k]);
        var j :| 0 <= j < |l| && l[j] == r[k];
        assert !IsAsciiUpper(LowerChar(Filter(u, NotPySpace)[j]));
      }
    }
  }

  /** Which edition `ARABIC_SOURCE_MAP` names for a collection: the Arabic Muslim only. */
  function ArabicEdition(name: string): Option<string>
  {
    if name == SahihMuslim then Some("ara-muslim.min.json") else None
  }

  /**
   * The file and the language the loop uses for a collection: Muslim is matched on its
   * Arabic text, every other collection of `SOURCE_MAP` on its English text.
   */
  function EditionFor(name: string): (e: Option<(string, bool)>)
    ensures e.Some? <==> name in SourceNames
    ensures e.Some? ==> (e.value.1 <==> name == SahihMuslim)
  {
    if ArabicEdition(name).Some? && name == SahihMuslim then Some((ArabicEdition(name).value, true))
    else if EnglishEdition(name).Some? then Some((EnglishEdition(name).value, false))
    else None
  }

  /** `is_arabic = 'ara-' in json_filename`. */
  predicate IsArabicFile(file: string)
  {
    Contains(file, "ara-")
  }

  /** `h.get('body') or h.get('text', '')`. */
  function Body(h: JsonHadith): Option<string>
  {
    if Truthy(h.body) then h.body else h.text
  }

  /**
   * What one entry contributes to the map: its normal form and its number, when the body and
   * the number are both truthy and the normal form is not empty.
   */
  function RefEntry(h: JsonHadith, arabic: bool): (e: Option<(string, int)>)
    ensures e.Some? ==> e.value.0 != "" && e.value.1 != 0
  {
    var body := Body(h);
    if Truthy(body) && h.hadithNumber.Some? && h.hadithNumber.value != 0 then
      var norm := if arabic then NormalizeArabic(body) else NormalizeText(body);
      if norm != "" then Some((norm, h.hadithNumber.value)) else None
    else None
  }

  function RefEntries(arabic: bool): JsonHadith -> Option<(string, int)>
  {
    h => RefEntry(h, arabic)
  }

  /** `load_json_map(file)`: a missing file gives the empty map. */
  function RefMap(files: JsonFiles, file: string): map<string, int>
  {
    if file in files then LastWins(files[file], RefEntries(IsArabicFile(file))) else map[]
  }

  method LoadJsonMap(files: JsonFiles, file: string) returns (textMap: map<string, int>)
    ensures textMap == RefMap(files, file)
  {
    if file !in files {
      return map[];
    }
    var hadiths := files[file];
    var isArabic := IsArabicFile(file);
    textMap := map[];
    for i := 0 to |hadiths|
      invariant textMap == LastWins(hadiths[..i], RefEntries(isArabic))
    {
      LastWinsSnoc(hadiths, RefEntries(isArabic), i);
      var e := RefEntry(hadiths[i], isArabic);
      if e.Some? {
        textMap := textMap[e.value.0 := e.value.1];
      }
    }
    assert hadiths[..|hadiths|] == hadiths;
  }

  /**
   * Every key of the map is the non-empty normal form of an entry with a non-zero number,
   * and it maps to the number of the last entry with that normal form.
   */
  lemma RefMapFacts(files: JsonFiles, file: string, k: string) returns (i: nat)
    requires k in RefMap(files, file)
    ensures file in files && i < |files[file]|
    ensures k != "" && RefMap(files, file)[k] != 0
    ensures RefEntry(files[file][i], IsArabicFile(file)) == Some((k, RefMap(files, file)[k]))
    ensures forall j :: i < j < |files[file]| ==>
              !(RefEntry(files[file][j], IsArabicFile(file)).Some? &&
                RefEntry(files[file][j], IsArabicFile(file)).value.0 == k)
  {
    i := LastWinsFacts(files[file], RefEntries(IsArabicFile(file)), k);
  }

  /**
   * The update test: Bukhari rows are always rewritten; other rows only when the cell is
   * missing or `int()` reads it as 0, or, when `int()` fails, it strips to "0", "" or "nan".
   */
  predicate ShouldUpdate(name: string, ref: Ref)
  {
    if name == SahihBukhari then true
    else
      match ref
      case RefMissing => true
      case RefNumber(n) => n == 0
      case RefText(s) =>
        match ParseInt(s)
        case Some(n) => n == 0
        case None => PyStrip(s) in ["0", "", "nan"]
  }

  /** Outside Bukhari a reference that reads as a non-zero number is never overwritten. */
  lemma NonZeroRefKept(name: string, ref: Ref)
    requires name != SahihBukhari
    requires ref.RefNumber? ==> ref.n != 0
    requires ref.RefText? ==> (ParseInt(ref.s).Some? && ParseInt(ref.s).value != 0)
    requires !ref.RefMissing?
    ensures !ShouldUpdate(name, ref)
  {
  }

  /** A text that strips to "nan" is treated as missing. */
  lemma NanTextUpdated(name: string, s: string)
    requires PyStrip(s) == "nan"
    ensures ShouldUpdate(name, RefText(s))
  {
    if name != SahihBukhari {
      assert ParseInt(s) == None by {
        assert !AllDecimal(PyStrip(s)) by { assert !IsDecimal(PyStrip(s)[0]); }
      }
    }
  }

  /** What the loop for collection `name` writes into one row. */
  function RefWrite(name: string, arabic: bool, refMap: map<string, int>, r: HadithRow): Option<HadithRow>
  {
    if r.source == Some(name) && ShouldUpdate(name, r.uscMsaRef) then
      var norm := if arabic then NormalizeArabic(r.textAr) else NormalizeText(r.textEn);
      if norm in refMap then Some(r.(uscMsaRef := RefNumber(refMap[norm]))) else None
    else None
  }

  function RefStep(name: string, arabic: bool, refMap: map<string, int>): RowStep
  {
    (i, r) => RefWrite(name, arabic, refMap, r)
  }

  /** What the loop for collection `name` writes into a row, with that collection's edition map. */
  function UscSourceWrite(files: JsonFiles): SourceWrite
  {
    (name: string, r: HadithRow) =>
      if EditionFor(name).Some? then
        var e := EditionFor(name).value;
        RefWrite(name, e.1, RefMap(files, e.0), r)
      else None
  }

  function UscUpTo(files: JsonFiles, k: nat): RowStep
    requires k <= |SourceNames|
  {
    SourcesUpTo(UscSourceWrite(files), k)
  }

  /** The writes of the whole script. */
  function UscAll(files: JsonFiles): RowStep
  {
    UscUpTo(files, |SourceNames|)
  }

  lemma UscKeepsToSource(files: JsonFiles)
    ensures KeepsToSource(UscSourceWrite(files))
  {
  }

  /**
   * A row is rewritten exactly when its collection is one of the six, the update test passes
   * and the normal form of its text is a key of its edition's map; only its reference changes,
   * to the number of the last edition entry with that normal form.
   */
  lemma UscWriteFacts(files: JsonFiles, r: HadithRow)
    ensures UscAll(files)(0, r).Some? <==>
              && r.source.Some? && r.source.value in SourceNames
              && ShouldUpdate(r.source.value, r.uscMsaRef)
              && var e := EditionFor(r.source.value).value;
                 (if e.1 then NormalizeArabic(r.textAr) else NormalizeText(r.textEn)) in RefMap(files, e.0)
    ensures UscAll(files)(0, r).Some? ==>
              var e := EditionFor(r.source.value).value;
              var norm := if e.1 then NormalizeArabic(r.textAr) else NormalizeText(r.textEn);
              && UscAll(files)(0, r).value == r.(uscMsaRef := RefNumber(RefMap(files, e.0)[norm]))
              && RefMap(files, e.0)[norm] != 0
  {
    assert SourceNames[..|SourceNames|] == SourceNames;
    if UscAll(files)(0, r).Some? {
      var e := EditionFor(r.source.value).value;
      var norm := if e.1 then NormalizeArabic(r.textAr) else NormalizeText(r.textEn);
      var _ := RefMapFacts(files, e.0, norm);
    }
  }

  /**
   * One iteration of the loop over the collections: load the edition map of collection `k`
   * and, unless it is empty, rewrite the references of that collection's rows. `rows` is the
   * table as it was before the first iteration.
   */
  method MapSource(table: array<HadithRow>, files: JsonFiles, k: nat, ghost rows: seq<HadithRow>)
    returns (updatedCount: nat)
    requires k < |SourceNames| && table.Length == |rows|
    requires forall i :: 0 <= i < table.Length ==> table[i] == Rewritten(UscUpTo(files, k), i, rows[i])
    modifies table
    ensures forall i :: 0 <= i < table.Length ==> table[i] == Rewritten(UscUpTo(files, k + 1), i, rows[i])
    ensures Rewrites(UscUpTo(files, k + 1), rows) == Rewrites(UscUpTo(files, k), rows) + updatedCount
  {
    var name := SourceNames[k];
    var edition := EditionFor(name).value;
    var refMap := LoadJsonMap(files, edition.0);
    ghost var before := table[..];
    var s := RefStep(name, edition.1, refMap);
    UscKeepsToSource(files);
    if |refMap| != 0 {
      updatedCount := RewriteRows(table, s);
    } else {
      updatedCount := 0;
      assert refMap == map[];
      NoRewrites(s, before);
    }
    SourceIteration(UscSourceWrite(files), k, s, rows, before, table[..], updatedCount);
  }

  /**
   * The six loops over the collections. Each rewrites the references of its own rows; the
   * collections partition the rows, so the order of the loops (Python iterates a set) does
   * not matter. `total` is the number of rows rewritten.
   */
  method MapSources(table: array<HadithRow>, files: JsonFiles) returns (total: nat)
    modifies table
    ensures forall i :: 0 <= i < table.Length ==> table[i] == Rewritten(UscAll(files), i, old(table[i]))
    ensures total == Rewrites(UscAll(files), old(table[..]))
  {
    ghost var rows := table[..];
    SourcesNone(UscSourceWrite(files), rows);
    total := 0;
    for k := 0 to |SourceNames|
      invariant forall i :: 0 <= i < table.Length ==> table[i] == Rewritten(UscUpTo(files, k), i, rows[i])
      invariant total == Rewrites(UscUpTo(files, k), rows)
    {
      var updatedCount := MapSource(table, files, k, rows);
      total := total + updatedCount;
    }
  }

  /**
   * The script over the table: after stripping the source column, the six loops rewrite
   * the references of their rows.
   */
  method MapUscMsaRefs(table: array<HadithRow>, files: JsonFiles) returns (total: nat)
    modifies table
    ensures forall i :: 0 <= i < table.Length ==>
              table[i] == Rewritten(UscAll(files), i, StrippedSource(old(table[i])))
    ensures total == Rewrites(UscAll(files), StrippedRows(old(table[..])))
  {
    StripSources(table);
    ghost var rows := table[..];
    total := MapSources(table, files);
    StrippedThenRewritten(table[..], rows, old(table[..]), UscAll(files));
  }
}
