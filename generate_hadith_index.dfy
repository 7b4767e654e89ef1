/**
 * The hadith index build (scripts/generate_hadith_index.py): the first thousand rows of the
 * hadith table, each with its chain resolved to narrator entries through the search index.
 */
module GenerateHadithIndex {
  import opened Wrappers
  import opened Text

  const Limit := 1000

  /** A search-index entry; None is a key the JSON object does not have. */
  datatype SearchItem = SearchItem(id: string, name: string, grade: Option<string>, deathYear: Option<string>)

  /** A DataFrame cell: the column is absent, the cell is NaN, or it holds text. */
  datatype Cell = NoColumn | NaN | Text(s: string)

  /** One row of the hadith table as pandas reads it. */
  datatype IndexRow = IndexRow(hadithId: int, chainIndx: Cell, source: Cell, hadithNo: Cell,
                               chapterNo: Cell, chapter: Cell, textAr: Cell, textEn: Cell)

  datatype Narrator = Narrator(id: string, name: string, grade: string, deathYear: string)

  datatype IndexedHadith = IndexedHadith(id: string, source: string, book: string, hadithNo: string,
                                         chapterNo: string, chapter: string, matn: string, matnEn: string,
                                         narrators: seq<Narrator>)

  // ---------------------------------------------------------------------
  // load_scholar_map

  /** `{str(item['id']): item for item in data}`: a later entry with the same id replaces an earlier one. */
  function ScholarMap(items: seq<SearchItem>): (m: map<string, SearchItem>)
    ensures forall id :: id in m ==> m[id].id == id
    decreases |items|
  {
    if items == [] then map[]
    else ScholarMap(items[..|items| - 1])[items[|items| - 1].id := items[|items| - 1]]
  }

  /** The map holds every id of the index, and for each the last entry carrying it. */
  lemma {:induction false} ScholarMapLastWins(items: seq<SearchItem>, i: nat)
    requires i < |items|
    requires forall j :: i < j < |items| ==> items[j].id != items[i].id
    ensures items[i].id in ScholarMap(items) && ScholarMap(items)[items[i].id] == items[i]
    decreases |items|
  {
    if i < |items| - 1 {
      var init := items[..|items| - 1];
      assert forall j :: i < j < |init| ==> init[j] == items[j];
      ScholarMapLastWins(init, i);
    }
  }

  /** Only ids of the index are keys. */
  lemma {:induction false} ScholarMapKeys(items: seq<SearchItem>)
    ensures forall id :: id in ScholarMap(items) ==> exists j :: 0 <= j < |items| && items[j].id == id
    decreases |items|
  {
    if items != [] {
      var init := items[..|items| - 1];
      ScholarMapKeys(init);
      forall id | id in ScholarMap(items) ensures exists j :: 0 <= j < |items| && items[j].id == id {
        if id != items[|items| - 1].id {
          assert id in ScholarMap(init);
          var j :| 0 <= j < |init| && init[j].id == id;
          assert items[j].id == id;
        }
      }
    }
  }

  /** `load_scholar_map`; None is a search index that is not there. */
  function LoadScholarMap(file: Option<seq<SearchItem>>): (m: map<string, SearchItem>)
    ensures file.None? ==> m == map[]
    ensures forall id :: id in m ==> m[id].id == id
  {
    if file.None? then map[] else ScholarMap(file.value)
  }

  // ---------------------------------------------------------------------
  // clean_text and the cells

  /** `clean_text(row.get(column, default))`. */
  function CleanCell(c: Cell, default: string): (r: string)
    ensures c.NaN? ==> r == []
    ensures r == [] || (!IsSpace(Py, r[0]) && !IsSpace(Py, r[|r| - 1]))
  {
    match c
    case NoColumn => PyStrip(default)
    case NaN => []
    case Text(s) => PyStrip(s)
  }

  /** `str(row.get('chain_indx', ''))`: NaN becomes the text "nan". */
  function ChainText(c: Cell): string
  {
    match c
    case NoColumn => ""
    case NaN => "nan"
    case Text(s) => s
  }

  /** Python `str.isdigit()`. */
  predicate IsDigits(s: string)
  {
    s != [] && AllDecimal(s)
  }

  /** `[cid.strip() for cid in chain_str.split(',') if cid.strip().isdigit()]`. */
  function KeptIds(pieces: seq<string>): seq<string>
    decreases |pieces|
  {
    if pieces == [] then []
    else (if IsDigits(PyStrip(pieces[0])) then [PyStrip(pieces[0])] else []) + KeptIds(pieces[1..])
  }

  /** Every kept id is a stripped run of digits, and no piece yields more than one id. */
  lemma {:induction false} KeptIdsAreDigits(pieces: seq<string>)
    ensures |KeptIds(pieces)| <= |pieces|
    ensures forall i :: 0 <= i < |KeptIds(pieces)| ==>
              IsDigits(KeptIds(pieces)[i]) && exists j :: 0 <= j < |pieces| && KeptIds(pieces)[i] == PyStrip(pieces[j])
    decreases |pieces|
  {
    if pieces != [] {
      KeptIdsAreDigits(pieces[1..]);
      var head := if IsDigits(PyStrip(pieces[0])) then [PyStrip(pieces[0])] else [];
      var ids := KeptIds(pieces);
      assert ids == head + KeptIds(pieces[1..]);
      forall i | 0 <= i < |ids|
        ensures IsDigits(ids[i]) && exists j :: 0 <= j < |pieces| && ids[i] == PyStrip(pieces[j])
      {
        if i < |head| {
          assert ids[i] == PyStrip(pieces[0]);
        } else {
          var j :| 0 <= j < |pieces[1..]| && KeptIds(pieces[1..])[i - |head|] == PyStrip(pieces[1..][j]);
          assert ids[i] == PyStrip(pieces[j + 1]);
        }
      }
    }
  }

  function ChainIds(c: Cell): seq<string>
  {
    KeptIds(Split(ChainText(c), ","))
  }

  /** A NaN chain holds no ids. */
  lemma NaNChainIsEmpty()
    ensures ChainIds(NaN) == []
  {
    SplitWithoutSep("nan", ',');
    assert !IsDecimal('n');
    assert PyStrip("nan") == "nan" by {
      TrimOfTrimmed(Py, "nan");
    }
  }

  // ---------------------------------------------------------------------
  // Narrators

  /** The narrator entry for one chain id: the search-index entry, or the "Unknown Scholar" fallback. */
  function NarratorFor(sid: string, scholarMap: map<string, SearchItem>): (n: Narrator)
    ensures sid !in scholarMap ==> n == Narrator(sid, "Unknown Scholar (" + sid + ")", "Unknown", "")
    ensures sid in scholarMap ==>
              && n.name == scholarMap[sid].name
              && n.grade == scholarMap[sid].grade.GetOr("Unknown")
              && n.deathYear == scholarMap[sid].deathYear.GetOr("")
  {
    if sid in scholarMap then
      var s := scholarMap[sid];
      Narrator(s.id, s.name, s.grade.GetOr("Unknown"), s.deathYear.GetOr(""))
    else Narrator(sid, "Unknown Scholar (" + sid + ")", "Unknown", "")
  }

  /** Through a map built from the index, a narrator always carries the chain id it was made for. */
  lemma NarratorKeepsId(sid: string, file: Option<seq<SearchItem>>)
    ensures NarratorFor(sid, LoadScholarMap(file)).id == sid
  {
  }

  /** The inner loop of `process_hadiths`: one narrator per chain id, in chain order. */
  method Narrators(chainIds: seq<string>, scholarMap: map<string, SearchItem>) returns (narrators: seq<Narrator>)
    ensures narrators == NarratorsOf(chainIds, scholarMap)
  {
    narrators := [];
    var i := 0;
    while i < |chainIds|
      invariant 0 <= i <= |chainIds|
      invariant |narrators| == i
      invariant forall k :: 0 <= k < i ==> narrators[k] == NarratorFor(chainIds[k], scholarMap)
    {
      var sid := chainIds[i];
      if sid in scholarMap {
        var s := scholarMap[sid];
        narrators := narrators + [Narrator(s.id, s.name, s.grade.GetOr("Unknown"), s.deathYear.GetOr(""))];
      } else {
        narrators := narrators + [Narrator(sid, "Unknown Scholar (" + sid + ")", "Unknown", "")];
      }
      i := i + 1;
    }
  }

  /** The index entry of one row. */
  function EntryOf(row: IndexRow, narrators: seq<Narrator>): IndexedHadith
  {
    IndexedHadith("h" + IntToString(row.hadithId),
                  CleanCell(row.source, "Unknown Book"), CleanCell(row.source, ""),
                  CleanCell(row.hadithNo, ""), CleanCell(row.chapterNo, ""), CleanCell(row.chapter, ""),
                  CleanCell(row.textAr, ""), CleanCell(row.textEn, ""), narrators)
  }

  /** The narrators of a chain, one per id, in chain order. */
  function NarratorsOf(chainIds: seq<string>, scholarMap: map<string, SearchItem>): (ns: seq<Narrator>)
    ensures |ns| == |chainIds|
    ensures forall i :: 0 <= i < |chainIds| ==> ns[i] == NarratorFor(chainIds[i], scholarMap)
  {
    seq(|chainIds|, i requires 0 <= i < |chainIds| => NarratorFor(chainIds[i], scholarMap))
  }

  /** The entry made for one row. */
  function RowEntry(row: IndexRow, scholarMap: map<string, SearchItem>): IndexedHadith
  {
    EntryOf(row, NarratorsOf(ChainIds(row.chainIndx), scholarMap))
  }

  /** `f` applied to the first `n` elements of `xs`, in order. */
  function MapPrefix<A, B>(f: A -> B, xs: seq<A>, n: nat): (ys: seq<B>)
    requires n <= |xs|
    ensures |ys| == n
  {
    if n == 0 then [] else MapPrefix(f, xs, n - 1) + [f(xs[n - 1])]
  }

  lemma {:induction false} MapPrefixAt<A, B>(f: A -> B, xs: seq<A>, n: nat, i: nat)
    requires i < n <= |xs|
    ensures MapPrefix(f, xs, n)[i] == f(xs[i])
  {
    if i < n - 1 {
      MapPrefixAt(f, xs, n - 1, i);
    }
  }

  /** The entries made for the first `n` rows, in row order. */
  function RowEntries(rows: seq<IndexRow>, n: nat, scholarMap: map<string, SearchItem>): (es: seq<IndexedHadith>)
    requires n <= |rows|
    ensures |es| == n
  {
    MapPrefix(row => RowEntry(row, scholarMap), rows, n)
  }

  /** Entry `i` of the first `n` is the entry of row `i`. */
  lemma RowEntriesAt(rows: seq<IndexRow>, n: nat, scholarMap: map<string, SearchItem>, i: nat)
    requires i < n <= |rows|
    ensures RowEntries(rows, n, scholarMap)[i] == RowEntry(rows[i], scholarMap)
  {
    MapPrefixAt(row => RowEntry(row, scholarMap), rows, n, i);
  }

  lemma RowEntriesSnoc(rows: seq<IndexRow>, n: nat, scholarMap: map<string, SearchItem>, entry: IndexedHadith)
    requires n < |rows| && entry == RowEntry(rows[n], scholarMap)
    ensures RowEntries(rows, n + 1, scholarMap) == RowEntries(rows, n, scholarMap) + [entry]
  {
  }

  /** The body of the row loop of `process_hadiths`. */
  method ProcessRow(row: IndexRow, scholarMap: map<string, SearchItem>) returns (entry: IndexedHadith)
    ensures entry == RowEntry(row, scholarMap)
  {
    var chainIds := ChainIds(row.chainIndx);
    var narrators := Narrators(chainIds, scholarMap);
    entry := EntryOf(row, narrators);
  }

  /** The row loop of `process_hadiths`: it stops after `Limit` rows. */
  method ProcessRows(rows: seq<IndexRow>, scholarMap: map<string, SearchItem>) returns (out: seq<IndexedHadith>)
    ensures |out| == (if |rows| < Limit then |rows| else Limit)
    ensures out == RowEntries(rows, |out|, scholarMap)
  {
    out := [];
    var count := 0;
    var r := 0;
    while r < |rows|
      invariant 0 <= r <= |rows|
      invariant count == r == |out| && count <= Limit
      invariant out == RowEntries(rows, r, scholarMap)
    {
      if count >= Limit {
        break;
      }
      var entry := ProcessRow(rows[r], scholarMap);
      RowEntriesSnoc(rows, r, scholarMap, entry);
      out := out + [entry];
      count := count + 1;
      r := r + 1;
    }
  }

  /**
   * `process_hadiths`. `searchIndex` is the search index as loaded (None: not there); `table`
   * is the hadith table (None: `read_csv` failed, and nothing is written).
   */
  method ProcessHadiths(searchIndex: Option<seq<SearchItem>>, table: Option<seq<IndexRow>>)
    returns (hadiths: Option<seq<IndexedHadith>>)
    ensures table.None? <==> hadiths.None?
    ensures table.Some? ==>
              |hadiths.value| == (if |table.value| < Limit then |table.value| else Limit)
    ensures table.Some? ==>
              hadiths.value == RowEntries(table.value, |hadiths.value|, LoadScholarMap(searchIndex))
  {
    var scholarMap := LoadScholarMap(searchIndex);
    if table.None? {
      return None;
    }
    var out := ProcessRows(table.value, scholarMap);
    hadiths := Some(out);
  }

  /** The hadith id is the row's id behind an "h". */
  lemma HadithIdPrefix(row: IndexRow, narrators: seq<Narrator>)
    ensures EntryOf(row, narrators).id[..1] == "h"
    ensures EntryOf(row, narrators).id[1..] == IntToString(row.hadithId)
  {
  }

  /** Without a source column, `source` reads "Unknown Book" while `book` is empty. */
  lemma MissingSourceColumn(row: IndexRow, narrators: seq<Narrator>)
    requires row.source.NoColumn?
    ensures EntryOf(row, narrators).source == "Unknown Book"
    ensures EntryOf(row, narrators).book == ""
  {
    assert "Unknown Book"[0] == 'U' && "Unknown Book"[11] == 'k';
    TrimOfTrimmed(Py, "Unknown Book");
  }
}
