/**
 * fill_from_duplicates.py: build an Arabic-to-English translation memory from the rows that
 * have both texts, then give every row whose English is missing or an AI placeholder the
 * English of a row with the same (stripped) Arabic text.
 */
module FillFromDuplicates {
  import opened Wrappers
  import opened Text
  import opened HadithTable

  const AiGenerated: string := "[AI-Generated"
  const AiTranslation: string := "[AI Translation"

  /** An English text marked as one of the earlier AI placeholders. */
  predicate IsPlaceholder(en: string)
  {
    Contains(en, AiGenerated) || Contains(en, AiTranslation)
  }

  /** `str(cell)`: a missing cell reads as "nan". */
  function CellText(v: Option<string>): string
  {
    match v
    case Some(s) => s
    case None => "nan"
  }

  /** What a row contributes to the memory: its stripped Arabic and its unmarked English. */
  function MemoryEntry(r: HadithRow): (e: Option<(string, string)>)
    ensures e.Some? ==> !IsPlaceholder(e.value.1)
  {
    if r.textAr.Some? && r.textEn.Some? && !IsPlaceholder(r.textEn.value) then
      Some((PyStrip(r.textAr.value), r.textEn.value))
    else None
  }

  function MemoryEntries(): HadithRow -> Option<(string, string)>
  {
    r => MemoryEntry(r)
  }

  /** The translation memory `ar_to_en` built from `rows`. */
  function Memory(rows: seq<HadithRow>): map<string, string>
  {
    LastWins(rows, MemoryEntries())
  }

  /** The number of rows that contributed to the memory (`valid_count`). */
  function ValidCount(rows: seq<HadithRow>): (n: nat)
    ensures n <= |rows|
    decreases |rows|
  {
    if rows == [] then 0
    else ValidCount(rows[..|rows| - 1]) + (if MemoryEntry(rows[|rows| - 1]).Some? then 1 else 0)
  }

  /**
   * Every English text in the memory carries neither placeholder marker, and each stripped
   * Arabic text maps to the English of the last row with that Arabic text.
   */
  lemma MemoryFacts(rows: seq<HadithRow>, ar: string) returns (i: nat)
    requires ar in Memory(rows)
    ensures !IsPlaceholder(Memory(rows)[ar])
    ensures i < |rows| && rows[i].textAr.Some? && PyStrip(rows[i].textAr.value) == ar
    ensures rows[i].textEn == Some(Memory(rows)[ar])
    ensures forall j :: i < j < |rows| ==> MemoryEntry(rows[j]).None? || MemoryEntry(rows[j]).value.0 != ar
  {
    i := LastWinsFacts(rows, MemoryEntries(), ar);
  }

  method BuildMemory(table: array<HadithRow>) returns (arToEn: map<string, string>, validCount: nat)
    ensures arToEn == Memory(table[..])
    ensures validCount == ValidCount(table[..])
  {
    arToEn := map[];
    validCount := 0;
    for idx := 0 to table.Length
      invariant arToEn == Memory(table[..idx])
      invariant validCount == ValidCount(table[..idx])
    {
      LastWinsSnoc(table[..], MemoryEntries(), idx);
      assert table[..idx + 1][..idx] == table[..idx];
      var row := table[idx];
      if row.textAr.Some? && row.textEn.Some? {
        var ar := PyStrip(row.textAr.value);
        var en := row.textEn.value;
        if !Contains(en, AiGenerated) && !Contains(en, AiTranslation) {
          arToEn := arToEn[ar := en];
          validCount := validCount + 1;
        }
      }
    }
    assert table[..table.Length] == table[..];
  }

  /** The second loop on one row: a missing or placeholder English text is replaced from memory. */
  function DuplicateWrite(arToEn: map<string, string>, r: HadithRow): Option<HadithRow>
  {
    var isMissing := r.textEn.None?;
    var isPlaceholder := IsPlaceholder(CellText(r.textEn));
    if (isMissing || isPlaceholder) && r.textAr.Some? && PyStrip(r.textAr.value) in arToEn then
      Some(r.(textEn := Some(arToEn[PyStrip(r.textAr.value)])))
    else None
  }

  function DuplicateStep(arToEn: map<string, string>): RowStep
  {
    (i, r) => DuplicateWrite(arToEn, r)
  }

  /**
   * Only a row whose English is missing or a placeholder is written, and only its English,
   * which becomes an unmarked text of another row with the same stripped Arabic.
   */
  lemma DuplicateWriteFacts(rows: seq<HadithRow>, r: HadithRow)
    ensures r.textEn.Some? && !IsPlaceholder(r.textEn.value) ==> DuplicateWrite(Memory(rows), r).None?
    ensures DuplicateWrite(Memory(rows), r).Some? ==>
              exists i ::
                && 0 <= i < |rows| && rows[i].textAr.Some? && rows[i].textEn.Some?
                && PyStrip(rows[i].textAr.value) == PyStrip(r.textAr.value)
                && !IsPlaceholder(rows[i].textEn.value)
                && DuplicateWrite(Memory(rows), r).value == r.(textEn := rows[i].textEn)
  {
    if DuplicateWrite(Memory(rows), r).Some? {
      var i := MemoryFacts(rows, PyStrip(r.textAr.value));
    }
  }

  /**
   * The script: the memory is built from the table as loaded, then every row is visited once;
   * `filledCount` is the number of rows written.
   */
  method FillFromDuplicates(table: array<HadithRow>) returns (filledCount: nat)
    modifies table
    ensures forall i :: 0 <= i < table.Length ==>
              table[i] == Rewritten(DuplicateStep(Memory(old(table[..]))), i, old(table[i]))
    ensures filledCount == Rewrites(DuplicateStep(Memory(old(table[..]))), old(table[..]))
  {
    var arToEn, validCount := BuildMemory(table);
    filledCount := RewriteRows(table, DuplicateStep(arToEn));
  }
}
