/**
 * fetch_missing_translations.py: list every row of the hadith table that has no English text,
 * with a sunnah.com address for looking it up by hand.
 */
module FetchMissingTranslations {
  import opened Wrappers
  import opened Text
  import opened HadithTable

  /** SOURCE_MAP: the sunnah.com collection of a source name, "" for one it lacks. */
  function Collection(source: Option<string>): (c: string)
    ensures c != "" <==> source.Some? && source.value in SourceNames
  {
    if source == Some(SahihBukhari) then "bukhari"
    else if source == Some(SahihMuslim) then "muslim"
    else if source == Some(AbuDawud) then "abudawud"
    else if source == Some(Tirmidhi) then "tirmidhi"
    else if source == Some(Nasai) then "nasai"
    else if source == Some(IbnMajah) then "ibnmajah"
    else ""
  }

  /** One entry of missing_translations.json. */
  datatype ExportEntry = ExportEntry(
    csvId: int,
    source: Option<string>,
    hadithNo: string,
    chapter: Option<string>,
    sunnahComUrl: string,
    arabicPreview: string)

  function ExportOf(r: HadithRow): ExportEntry
  {
    var collection := Collection(r.source);
    var hadithNo := PyStrip(r.hadithNo);
    ExportEntry(
      r.id, r.source, hadithNo, r.chapter,
      if collection != "" then "https://sunnah.com/" + collection + ":" + hadithNo else "",
      if r.textAr.Some? then Head(r.textAr.value, 100) else "")
  }

  /**
   * An entry carries the row's id, source and chapter and its trimmed hadith number; it has
   * an address exactly when the source is one of the six collections, and its preview is
   * the start of the Arabic text, at most 100 characters, empty when there is none.
   */
  lemma ExportOfFacts(r: HadithRow)
    ensures ExportOf(r).csvId == r.id && ExportOf(r).source == r.source && ExportOf(r).chapter == r.chapter
    ensures ExportOf(r).hadithNo == PyStrip(r.hadithNo) && PyStrip(ExportOf(r).hadithNo) == ExportOf(r).hadithNo
    ensures ExportOf(r).sunnahComUrl != "" <==> r.source.Some? && r.source.value in SourceNames
    ensures ExportOf(r).sunnahComUrl != "" ==>
              ExportOf(r).sunnahComUrl == "https://sunnah.com/" + Collection(r.source) + ":" + PyStrip(r.hadithNo)
    ensures |ExportOf(r).arabicPreview| <= 100
    ensures r.textAr.None? ==> ExportOf(r).arabicPreview == ""
    ensures r.textAr.Some? ==>
              && ExportOf(r).arabicPreview == r.textAr.value[..|ExportOf(r).arabicPreview|]
              && (|r.textAr.value| <= 100 ==> ExportOf(r).arabicPreview == r.textAr.value)
  {
    TrimIdempotent(Py, r.hadithNo);
  }

  /** The export list of `rows`: one entry per row without English, in row order. */
  function Exported(rows: seq<HadithRow>): seq<ExportEntry>
  {
    Selected(rows, (r: HadithRow) => r.textEn.None?, ExportOf)
  }

  /**
   * The export list holds exactly the rows without English, each once and in row order: the
   * returned `idx` gives, entry by entry, the row it was made from.
   */
  lemma ExportedRows(rows: seq<HadithRow>) returns (idx: seq<nat>)
    ensures |idx| == |Exported(rows)| && Increasing(idx)
    ensures forall k :: 0 <= k < |idx| ==>
              idx[k] < |rows| && rows[idx[k]].textEn.None? && Exported(rows)[k] == ExportOf(rows[idx[k]])
    ensures forall i :: 0 <= i < |rows| && rows[i].textEn.None? ==> i in idx
  {
    idx := SelectedFrom(rows, (r: HadithRow) => r.textEn.None?, ExportOf);
  }

  /** The loop of `main` over the rows without English, with its list of entries. */
  method ExportMissing(rows: seq<HadithRow>) returns (exportData: seq<ExportEntry>)
    ensures exportData == Exported(rows)
  {
    exportData := [];
    for n := 0 to |rows|
      invariant exportData == Exported(rows[..n])
    {
      SelectedSnoc(rows, (r: HadithRow) => r.textEn.None?, ExportOf, n);
      var row := rows[n];
      if row.textEn.None? {
        var collection := Collection(row.source);
        var hadithNo := PyStrip(row.hadithNo);
        var url := if collection != "" then "https://sunnah.com/" + collection + ":" + hadithNo else "";
        var preview := if row.textAr.Some? then Head(row.textAr.value, 100) else "";
        exportData := exportData + [ExportEntry(row.id, row.source, hadithNo, row.chapter, url, preview)];
      }
    }
    assert rows[..|rows|] == rows;
  }
}
