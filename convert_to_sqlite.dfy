/**
 * scripts/convert_to_sqlite.py: the scholar JSON files normalised into relational tables.
 * The database the cursor writes to is modelled by in-memory tables; the `stats` dictionary
 * by its three counters and its error list.
 */
module ConvertToSqlite {
  import opened Wrappers
  import opened Text

  /** The columns of a `scholars` row, with every absent key already read as "". */
  datatype ScholarRow = ScholarRow(
    name: string, fullName: string, grade: string,
    birthDateHijri: string, birthDateGregorian: string, birthPlace: string,
    deathDateHijri: string, deathDateGregorian: string, deathPlace: string, deathReason: string)

  /** The six `_insert_relationships` calls, in the order `insert_scholar` makes them. */
  datatype RelKind = Parent | Child | Spouse | Sibling | Teacher | Student

  /** The fixed `relationship_type` text of a kind. */
  function TypeName(k: RelKind): string
  {
    match k
    case Parent => "parent"
    case Child => "child"
    case Spouse => "spouse"
    case Sibling => "sibling"
    case Teacher => "teacher"
    case Student => "student"
  }

  /** An entry of a relation list; None is a missing `id` key. */
  datatype RelatedRef = RelatedRef(id: Option<string>)

  /** A hadith of a scholar file: its six text columns and its chain of narrator ids. */
  datatype HadithRow = HadithRow(hadithNo: string, source: string, chapter: string, chapterNo: string,
                                 textAr: string, textEn: string)
  datatype HadithRecord = HadithRecord(row: HadithRow, chain: seq<string>)

  /**
   * A parsed scholar file. `id` is None when the key is missing; list elements are None for a
   * JSON null, which the NOT NULL columns of the list tables reject.
   */
  datatype ScholarRecord = ScholarRecord(
    id: Option<string>, row: ScholarRow,
    placesOfStay: seq<Option<string>>, areaOfInterest: seq<Option<string>>, tags: seq<Option<string>>,
    related: map<RelKind, seq<RelatedRef>>, hadiths: seq<HadithRecord>)

  /** `scholar_data.get(<kind>, [])`. */
  function Related(rec: ScholarRecord, k: RelKind): seq<RelatedRef>
  {
    if k in rec.related then rec.related[k] else []
  }

  datatype FtsRow = FtsRow(id: int, name: string, fullName: string)
  datatype TextRow = TextRow(scholarId: int, text: string)
  datatype RelRow = RelRow(scholarId: int, relatedId: int, relType: string)
  datatype ChainRow = ChainRow(hadithId: nat, scholarId: int, position: nat)

  /** The three list tables `insert_scholar` fills. */
  datatype ListTable = Places | Interests | TagsTable

  datatype Tables = Tables(
    scholars: map<int, ScholarRow>, fts: seq<FtsRow>,
    places: seq<TextRow>, interests: seq<TextRow>, tags: seq<TextRow>,
    relationships: seq<RelRow>, hadiths: seq<HadithRow>, chains: seq<ChainRow>)

  /** The entries of `stats["errors"]`, by the handler that appended them. */
  datatype ConversionError =
    | ScholarError(id: string)
    | RelationshipError
    | HadithError
    | ReadError(path: string)

  datatype Stats = Stats(scholarsProcessed: nat, hadithsProcessed: nat, relationshipsCreated: nat,
                         errors: seq<ConversionError>)

  datatype State = State(tables: Tables, stats: Stats)

  const NoTables: Tables := Tables(map[], [], [], [], [], [], [], [])
  const NoStats: Stats := Stats(0, 0, 0, [])

  /** The rows of one table. */
  function ListRows(t: Tables, which: ListTable): seq<TextRow>
  {
    match which
    case Places => t.places
    case Interests => t.interests
    case TagsTable => t.tags
  }

  function WithListRows(t: Tables, which: ListTable, rows: seq<TextRow>): (u: Tables)
    ensures ListRows(u, which) == rows
    ensures forall w :: w != which ==> ListRows(u, w) == ListRows(t, w)
    ensures u.scholars == t.scholars && u.fts == t.fts && u.relationships == t.relationships
    ensures u.hadiths == t.hadiths && u.chains == t.chains
  {
    match which
    case Places => t.(places := rows)
    case Interests => t.(interests := rows)
    case TagsTable => t.(tags := rows)
  }

  /** The number of leading elements that satisfy `ok`: the loop stops at the first other one. */
  function FirstFailure<T>(xs: seq<T>, ok: T -> bool): (n: nat)
    ensures n <= |xs|
    ensures forall k :: 0 <= k < n ==> ok(xs[k])
    ensures n < |xs| ==> !ok(xs[n])
    decreases |xs|
  {
    if xs == [] || !ok(xs[0]) then 0 else 1 + FirstFailure(xs[1..], ok)
  }

  predicate IsPresent(x: Option<string>) { x.Some? }

  /** Python's `int(...)` succeeds. */
  predicate IsIntText(s: string) { ParseInt(s).Some? }

  // ---------------------------------------------------------------------------------------
  // The specification: each step of the script as a function of the state before it.
  // ---------------------------------------------------------------------------------------

  /** The rows for list elements that are all present, in list order. */
  function TextRows(sid: int, items: seq<Option<string>>): seq<TextRow>
    requires forall k :: 0 <= k < |items| ==> items[k].Some?
    decreases |items|
  {
    if items == [] then []
    else TextRows(sid, items[..|items| - 1]) + [TextRow(sid, items[|items| - 1].value)]
  }

  /** One row per element, in order, carrying the scholar id. */
  lemma {:induction false} TextRowsOrder(sid: int, items: seq<Option<string>>)
    requires forall k :: 0 <= k < |items| ==> items[k].Some?
    ensures |TextRows(sid, items)| == |items|
    ensures forall i :: 0 <= i < |items| ==> TextRows(sid, items)[i] == TextRow(sid, items[i].value)
    decreases |items|
  {
    if items != [] {
      TextRowsOrder(sid, items[..|items| - 1]);
    }
  }

  /** A `for` loop over a list table: the rows before the first null, and whether there was none. */
  function ListStep(s: State, which: ListTable, sid: int, items: seq<Option<string>>): (State, bool)
  {
    var n := FirstFailure(items, IsPresent);
    var rows := ListRows(s.tables, which) + TextRows(sid, items[..n]);
    (s.(tables := WithListRows(s.tables, which, rows)), n == |items|)
  }

  /**
   * `int(...)` succeeds and names a scholar that already has a row. The connection runs with
   * foreign keys enforced and both `scholar_relationships.related_scholar_id` and
   * `hadith_chains.scholar_id` reference `scholars(id)`, so an insert naming any other id raises.
   */
  predicate KnownScholar(scholars: map<int, ScholarRow>, x: string)
  {
    IsIntText(x) && ParseInt(x).value in scholars
  }

  /** One entry of `_insert_relationships`. */
  function RelStep(s: State, sid: int, r: RelatedRef, k: RelKind): State
  {
    if r.id.Some? && KnownScholar(s.tables.scholars, r.id.value) then
      s.(tables := s.tables.(relationships := s.tables.relationships +
                             [RelRow(sid, ParseInt(r.id.value).value, TypeName(k))]),
         stats := s.stats.(relationshipsCreated := s.stats.relationshipsCreated + 1))
    else s.(stats := s.stats.(errors := s.stats.errors + [RelationshipError]))
  }

  function RelationshipsSpec(s: State, sid: int, refs: seq<RelatedRef>, k: RelKind): State
    decreases |refs|
  {
    if refs == [] then s
    else RelStep(RelationshipsSpec(s, sid, refs[..|refs| - 1], k), sid, refs[|refs| - 1], k)
  }

  /** The related ids that convert and name a known scholar, in order. */
  function GoodRefs(refs: seq<RelatedRef>, scholars: map<int, ScholarRow>): seq<int>
    decreases |refs|
  {
    if refs == [] then []
    else
      var r := refs[|refs| - 1];
      GoodRefs(refs[..|refs| - 1], scholars) +
      (if r.id.Some? && KnownScholar(scholars, r.id.value) then [ParseInt(r.id.value).value] else [])
  }

  /**
   * Every entry whose id converts and names a scholar already inserted adds exactly one row of
   * the call's type and one to the counter; every other entry adds one error; nothing else
   * changes.
   */
  lemma {:induction false} RelationshipsCounted(s: State, sid: int, refs: seq<RelatedRef>, k: RelKind)
    ensures var t := RelationshipsSpec(s, sid, refs, k);
            var good := GoodRefs(refs, s.tables.scholars);
            && t.tables.relationships ==
                 s.tables.relationships + seq(|good|, i requires 0 <= i < |good| => RelRow(sid, good[i], TypeName(k)))
            && t.stats.relationshipsCreated == s.stats.relationshipsCreated + |good|
            && |t.stats.errors| == |s.stats.errors| + |refs| - |good|
            && t.tables.(relationships := s.tables.relationships) == s.tables
            && t.stats.scholarsProcessed == s.stats.scholarsProcessed
            && t.stats.hadithsProcessed == s.stats.hadithsProcessed
    ensures |GoodRefs(refs, s.tables.scholars)| <= |refs|
    decreases |refs|
  {
    if refs != [] {
      var init := refs[..|refs| - 1];
      RelationshipsCounted(s, sid, init, k);
    }
  }

  function ScholarRowStep(s: State, sid: int, rec: ScholarRecord): State
  {
    s.(tables := s.tables.(scholars := s.tables.scholars[sid := rec.row],
                           fts := s.tables.fts + [FtsRow(sid, rec.row.name, rec.row.fullName)]))
  }

  /** The `except` branch of `insert_scholar`. */
  function ScholarFailed(s: State, rec: ScholarRecord): State
  {
    s.(stats := s.stats.(errors := s.stats.errors + [ScholarError(rec.id.GetOr("unknown"))]))
  }

  function AllRelationships(s: State, sid: int, rec: ScholarRecord): State
  {
    var s1 := RelationshipsSpec(s, sid, Related(rec, Parent), Parent);
    var s2 := RelationshipsSpec(s1, sid, Related(rec, Child), Child);
    var s3 := RelationshipsSpec(s2, sid, Related(rec, Spouse), Spouse);
    var s4 := RelationshipsSpec(s3, sid, Related(rec, Sibling), Sibling);
    var s5 := RelationshipsSpec(s4, sid, Related(rec, Teacher), Teacher);
    RelationshipsSpec(s5, sid, Related(rec, Student), Student)
  }

  /** The elements a list table is filled from. */
  function Items(rec: ScholarRecord, which: ListTable): seq<Option<string>>
  {
    match which
    case Places => rec.placesOfStay
    case Interests => rec.areaOfInterest
    case TagsTable => rec.tags
  }

  /** The three list loops, in order; the first null stops the rest. */
  function ListsStep(s: State, sid: int, rec: ScholarRecord): (State, bool)
  {
    var (s2, ok2) := ListStep(s, Places, sid, rec.placesOfStay);
    if !ok2 then (s2, false)
    else
      var (s3, ok3) := ListStep(s2, Interests, sid, rec.areaOfInterest);
      if !ok3 then (s3, false) else ListStep(s3, TagsTable, sid, rec.tags)
  }

  function Processed(s: State): State
  {
    s.(stats := s.stats.(scholarsProcessed := s.stats.scholarsProcessed + 1))
  }

  /** `insert_scholar`: the state afterwards and the value it returns. */
  function InsertScholarSpec(s: State, rec: ScholarRecord): (State, bool)
  {
    if rec.id.None? || !IsIntText(rec.id.value) then (ScholarFailed(s, rec), false)
    else
      var sid := ParseInt(rec.id.value).value;
      var (s4, ok) := ListsStep(ScholarRowStep(s, sid, rec), sid, rec);
      if !ok then (ScholarFailed(s4, rec), false)
      else (Processed(AllRelationships(s4, sid, rec)), true)
  }

  /** The chain rows of hadith `hid` for ids that `parse` converts; positions count from 0. */
  function PositionRows(hid: nat, chain: seq<string>, parse: string -> Option<int>): seq<ChainRow>
    requires forall k :: 0 <= k < |chain| ==> parse(chain[k]).Some?
    decreases |chain|
  {
    if chain == [] then []
    else
      var n := |chain| - 1;
      assert parse(chain[n]).Some?;
      PositionRows(hid, chain[..n], parse) + [ChainRow(hid, parse(chain[n]).value, n)]
  }

  lemma {:induction false} PositionRowsAt(hid: nat, chain: seq<string>, parse: string -> Option<int>)
    requires forall k :: 0 <= k < |chain| ==> parse(chain[k]).Some?
    ensures |PositionRows(hid, chain, parse)| == |chain|
    ensures forall i :: 0 <= i < |chain| ==> PositionRows(hid, chain, parse)[i] == ChainRow(hid, parse(chain[i]).value, i)
    decreases |chain|
  {
    if chain != [] {
      var n := |chain| - 1;
      assert forall k :: 0 <= k < n ==> chain[..n][k] == chain[k];
      PositionRowsAt(hid, chain[..n], parse);
    }
  }

  lemma PositionRowsSnoc(hid: nat, chain: seq<string>, p: nat, parse: string -> Option<int>)
    requires p < |chain| && forall k :: 0 <= k <= p ==> parse(chain[k]).Some?
    ensures PositionRows(hid, chain[..p + 1], parse) == PositionRows(hid, chain[..p], parse) + [ChainRow(hid, parse(chain[p]).value, p)]
  {
    assert chain[..p + 1][..p] == chain[..p];
  }

  /** The chain rows of hadith `hid` for narrator ids that all convert; positions count from 0. */
  function ChainRows(hid: nat, chain: seq<string>): seq<ChainRow>
    requires forall k :: 0 <= k < |chain| ==> IsIntText(chain[k])
  {
    var parse := ParseInt;
    assert forall k :: 0 <= k < |chain| ==> parse(chain[k]).Some? by {
      forall k | 0 <= k < |chain|
        ensures parse(chain[k]).Some?
      {
        assert IsIntText(chain[k]);
      }
    }
    PositionRows(hid, chain, parse)
  }

  /** The rows follow the chain: row `i` is narrator `i` at position `i`. */
  lemma ChainPositions(hid: nat, chain: seq<string>)
    requires forall k :: 0 <= k < |chain| ==> IsIntText(chain[k])
    ensures |ChainRows(hid, chain)| == |chain|
    ensures forall i :: 0 <= i < |chain| ==>
              ChainRows(hid, chain)[i] == ChainRow(hid, ParseInt(chain[i]).value, i)
  {
    PositionRowsAt(hid, chain, ParseInt);
  }

  /** One more converted id adds its row at the next position. */
  lemma ChainRowsSnoc(hid: nat, chain: seq<string>, p: nat)
    requires p < |chain| && forall k :: 0 <= k <= p ==> IsIntText(chain[k])
    ensures ChainRows(hid, chain[..p + 1]) == ChainRows(hid, chain[..p]) + [ChainRow(hid, ParseInt(chain[p]).value, p)]
  {
    PositionRowsSnoc(hid, chain, p, ParseInt);
  }

  /**
   * The number of leading narrator ids that convert and name a known scholar: the chain loop
   * stops at the first other one, on `int(...)` or on the foreign key.
   */
  function KnownPrefix(scholars: map<int, ScholarRow>, chain: seq<string>): (n: nat)
    ensures n <= |chain|
    ensures forall k :: 0 <= k < n ==> KnownScholar(scholars, chain[k])
    ensures n < |chain| ==> !KnownScholar(scholars, chain[n])
  {
    FirstFailure(chain, x => KnownScholar(scholars, x))
  }

  /**
   * One hadith of `insert_hadiths`: the row is inserted, with id one more than the rows before
   * it, then the chain rows up to the first id that does not convert or names no scholar row.
   */
  function HadithStep(s: State, h: HadithRecord): State
  {
    var hid := |s.tables.hadiths| + 1;
    var n := KnownPrefix(s.tables.scholars, h.chain);
    var t := s.tables.(hadiths := s.tables.hadiths + [h.row],
                       chains := s.tables.chains + ChainRows(hid, h.chain[..n]));
    if n == |h.chain| then State(t, s.stats.(hadithsProcessed := s.stats.hadithsProcessed + 1))
    else State(t, s.stats.(errors := s.stats.errors + [HadithError]))
  }

  /** A hadith step is determined by the chain rows it appends and whether the loop finished. */
  lemma HadithStepOf(s: State, h: HadithRecord, chains: seq<ChainRow>, ok: bool)
    requires ok <==> KnownPrefix(s.tables.scholars, h.chain) == |h.chain|
    requires chains == s.tables.chains +
                       ChainRows(|s.tables.hadiths| + 1, h.chain[..KnownPrefix(s.tables.scholars, h.chain)])
    ensures HadithStep(s, h).tables == s.tables.(hadiths := s.tables.hadiths + [h.row], chains := chains)
    ensures ok ==> HadithStep(s, h).stats == s.stats.(hadithsProcessed := s.stats.hadithsProcessed + 1)
    ensures !ok ==> HadithStep(s, h).stats == s.stats.(errors := s.stats.errors + [HadithError])
  {
  }

  function InsertHadithsSpec(s: State, hs: seq<HadithRecord>): State
    decreases |hs|
  {
    if hs == [] then s else HadithStep(InsertHadithsSpec(s, hs[..|hs| - 1]), hs[|hs| - 1])
  }

  lemma InsertHadithsSnoc(s: State, hs: seq<HadithRecord>, i: nat)
    requires i < |hs|
    ensures InsertHadithsSpec(s, hs[..i + 1]) == HadithStep(InsertHadithsSpec(s, hs[..i]), hs[i])
  {
    assert hs[..i + 1][..i] == hs[..i];
  }

  /** One file of `process_all_scholars`; None is a file that could not be read or parsed. */
  function FileStep(s: State, path: string, file: Option<ScholarRecord>): State
  {
    if file.None? then s.(stats := s.stats.(errors := s.stats.errors + [ReadError(path)]))
    else
      var rec := file.value;
      var s1 := InsertScholarSpec(s, rec).0;
      if rec.hadiths == [] then s1
      else if rec.id.None? || !IsIntText(rec.id.value) then
        s1.(stats := s1.stats.(errors := s1.stats.errors + [ReadError(path)]))
      else InsertHadithsSpec(s1, rec.hadiths)
  }

  function ProcessSpec(s: State, files: seq<(string, Option<ScholarRecord>)>): State
    decreases |files|
  {
    if files == [] then s
    else
      var (path, file) := files[|files| - 1];
      FileStep(ProcessSpec(s, files[..|files| - 1]), path, file)
  }

  // ---------------------------------------------------------------------------------------
  // Properties of the specification.
  // ---------------------------------------------------------------------------------------

  /**
   * `insert_scholar` returns true exactly when the id converts and no list holds a null; then
   * and only then is `scholars_processed` incremented. A failure appends exactly one error.
   */
  lemma InsertScholarOutcome(s: State, rec: ScholarRecord)
    ensures var (t, ok) := InsertScholarSpec(s, rec);
            && (ok <==> rec.id.Some? && IsIntText(rec.id.value) &&
                        (forall k :: 0 <= k < |rec.placesOfStay| ==> rec.placesOfStay[k].Some?) &&
                        (forall k :: 0 <= k < |rec.areaOfInterest| ==> rec.areaOfInterest[k].Some?) &&
                        (forall k :: 0 <= k < |rec.tags| ==> rec.tags[k].Some?))
            && t.stats.scholarsProcessed == s.stats.scholarsProcessed + (if ok then 1 else 0)
            && t.stats.hadithsProcessed == s.stats.hadithsProcessed
            && (!ok ==> t.stats.errors == s.stats.errors + [ScholarError(rec.id.GetOr("unknown"))])
  {
    var (t, ok) := InsertScholarSpec(s, rec);
    if rec.id.Some? && IsIntText(rec.id.value) {
      var sid := ParseInt(rec.id.value).value;
      var s1 := ScholarRowStep(s, sid, rec);
      ListsStepFacts(s1, sid, rec);
      if ok {
        AllRelationshipsFrame(ListsStep(s1, sid, rec).0, sid, rec);
      }
    }
  }

  /**
   * The list loops succeed exactly when no list holds a null, touch only the list tables, and
   * on success append each list's rows.
   */
  lemma ListsStepFacts(s: State, sid: int, rec: ScholarRecord)
    ensures var (t, ok) := ListsStep(s, sid, rec);
            && (ok <==> (forall k :: 0 <= k < |rec.placesOfStay| ==> rec.placesOfStay[k].Some?) &&
                        (forall k :: 0 <= k < |rec.areaOfInterest| ==> rec.areaOfInterest[k].Some?) &&
                        (forall k :: 0 <= k < |rec.tags| ==> rec.tags[k].Some?))
            && t.stats == s.stats
            && t.tables.scholars == s.tables.scholars
            && (ok ==> forall w :: ListRows(t.tables, w) == ListRows(s.tables, w) + TextRows(sid, Items(rec, w)))
  {
    var (s2, ok2) := ListStep(s, Places, sid, rec.placesOfStay);
    var (s3, ok3) := ListStep(s2, Interests, sid, rec.areaOfInterest);
    assert rec.placesOfStay[..|rec.placesOfStay|] == rec.placesOfStay;
    assert rec.areaOfInterest[..|rec.areaOfInterest|] == rec.areaOfInterest;
    assert rec.tags[..|rec.tags|] == rec.tags;
  }

  /** The six relationship lists change no counter but the relationship one. */
  lemma AllRelationshipsFrame(s: State, sid: int, rec: ScholarRecord)
    ensures AllRelationships(s, sid, rec).stats.scholarsProcessed == s.stats.scholarsProcessed
    ensures AllRelationships(s, sid, rec).stats.hadithsProcessed == s.stats.hadithsProcessed
    ensures AllRelationships(s, sid, rec).tables.scholars == s.tables.scholars
  {
    var s1 := RelationshipsSpec(s, sid, Related(rec, Parent), Parent);
    var s2 := RelationshipsSpec(s1, sid, Related(rec, Child), Child);
    var s3 := RelationshipsSpec(s2, sid, Related(rec, Spouse), Spouse);
    var s4 := RelationshipsSpec(s3, sid, Related(rec, Sibling), Sibling);
    var s5 := RelationshipsSpec(s4, sid, Related(rec, Teacher), Teacher);
    RelationshipsCounted(s, sid, Related(rec, Parent), Parent);
    RelationshipsCounted(s1, sid, Related(rec, Child), Child);
    RelationshipsCounted(s2, sid, Related(rec, Spouse), Spouse);
    RelationshipsCounted(s3, sid, Related(rec, Sibling), Sibling);
    RelationshipsCounted(s4, sid, Related(rec, Teacher), Teacher);
    RelationshipsCounted(s5, sid, Related(rec, Student), Student);
  }

  /**
   * INSERT OR REPLACE: once the id converts, the scholars row for that id is this record's,
   * whatever fails later; the rows of other ids are untouched.
   */
  lemma InsertOrReplace(s: State, rec: ScholarRecord)
    requires rec.id.Some? && IsIntText(rec.id.value)
    ensures var sid := ParseInt(rec.id.value).value;
            InsertScholarSpec(s, rec).0.tables.scholars == s.tables.scholars[sid := rec.row]
  {
    var sid := ParseInt(rec.id.value).value;
    var s1 := ScholarRowStep(s, sid, rec);
    ListsStepFacts(s1, sid, rec);
    AllRelationshipsFrame(ListsStep(s1, sid, rec).0, sid, rec);
  }

  /** Of two records with the same id, the later one's row is the one kept. */
  lemma LaterRecordWins(s: State, a: ScholarRecord, b: ScholarRecord)
    requires a.id.Some? && IsIntText(a.id.value) && b.id.Some? && IsIntText(b.id.value)
    requires ParseInt(a.id.value) == ParseInt(b.id.value)
    ensures var sid := ParseInt(a.id.value).value;
            InsertScholarSpec(InsertScholarSpec(s, a).0, b).0.tables.scholars == s.tables.scholars[sid := b.row]
  {
    InsertOrReplace(s, a);
    InsertOrReplace(InsertScholarSpec(s, a).0, b);
  }

  /** A successful insert appends the rows of each list table's elements. */
  lemma ListRowsAfterInsert(s: State, rec: ScholarRecord, which: ListTable)
    requires InsertScholarSpec(s, rec).1
    ensures (forall k :: 0 <= k < |Items(rec, which)| ==> Items(rec, which)[k].Some?) &&
            ListRows(InsertScholarSpec(s, rec).0.tables, which) ==
              ListRows(s.tables, which) + TextRows(ParseInt(rec.id.value).value, Items(rec, which))
  {
    var sid := ParseInt(rec.id.value).value;
    var s1 := ScholarRowStep(s, sid, rec);
    ListsStepFacts(s1, sid, rec);
    AllRelationshipsTables(ListsStep(s1, sid, rec).0, sid, rec);
  }

  /** A successful insert adds one places, interests or tags row per element, in list order. */
  lemma ListRowsPerElement(s: State, rec: ScholarRecord, which: ListTable)
    requires InsertScholarSpec(s, rec).1
    ensures var items := Items(rec, which);
            var before := ListRows(s.tables, which);
            var after := ListRows(InsertScholarSpec(s, rec).0.tables, which);
            |after| == |before| + |items| &&
            after[..|before|] == before &&
            forall i :: 0 <= i < |items| ==>
              after[|before| + i] == TextRow(ParseInt(rec.id.value).value, items[i].value)
  {
    ListRowsAfterInsert(s, rec, which);
    TextRowsOrder(ParseInt(rec.id.value).value, Items(rec, which));
  }

  /** The relationship lists touch no table but `scholar_relationships`. */
  lemma AllRelationshipsTables(s: State, sid: int, rec: ScholarRecord)
    ensures AllRelationships(s, sid, rec).tables.(relationships := s.tables.relationships) == s.tables
  {
    var s1 := RelationshipsSpec(s, sid, Related(rec, Parent), Parent);
    var s2 := RelationshipsSpec(s1, sid, Related(rec, Child), Child);
    var s3 := RelationshipsSpec(s2, sid, Related(rec, Spouse), Spouse);
    var s4 := RelationshipsSpec(s3, sid, Related(rec, Sibling), Sibling);
    var s5 := RelationshipsSpec(s4, sid, Related(rec, Teacher), Teacher);
    RelationshipsCounted(s, sid, Related(rec, Parent), Parent);
    RelationshipsCounted(s1, sid, Related(rec, Child), Child);
    RelationshipsCounted(s2, sid, Related(rec, Spouse), Spouse);
    RelationshipsCounted(s3, sid, Related(rec, Sibling), Sibling);
    RelationshipsCounted(s4, sid, Related(rec, Teacher), Teacher);
    RelationshipsCounted(s5, sid, Related(rec, Student), Student);
  }

  /**
   * One hadith: its row is always inserted; `hadiths_processed` grows exactly when every
   * narrator id converts and names a known scholar, and then the chain rows are the chain at
   * positions 0..n-1; otherwise the rows before the first bad id stay and one error is recorded.
   */
  lemma HadithStepFacts(s: State, h: HadithRecord)
    ensures var t := HadithStep(s, h);
            var hid := |s.tables.hadiths| + 1;
            var n := KnownPrefix(s.tables.scholars, h.chain);
            var allKnown := forall k :: 0 <= k < |h.chain| ==> KnownScholar(s.tables.scholars, h.chain[k]);
            && t.tables.hadiths == s.tables.hadiths + [h.row]
            && t.tables.scholars == s.tables.scholars
            && |t.tables.chains| == |s.tables.chains| + n
            && t.tables.chains[..|s.tables.chains|] == s.tables.chains
            && (forall i :: 0 <= i < n ==>
                  t.tables.chains[|s.tables.chains| + i] == ChainRow(hid, ParseInt(h.chain[i]).value, i))
            && t.stats.hadithsProcessed == s.stats.hadithsProcessed + (if allKnown then 1 else 0)
            && t.stats.errors == s.stats.errors + (if allKnown then [] else [HadithError])
  {
    var n := KnownPrefix(s.tables.scholars, h.chain);
    var hid := |s.tables.hadiths| + 1;
    var t := HadithStep(s, h);
    ChainRowsAppended(s.tables.chains, hid, h.chain, n, t.tables.chains);
    AllKnown(s.tables.scholars, h.chain, n);
  }

  /** The chain is inserted entirely exactly when the loop does not stop early. */
  lemma AllKnown(scholars: map<int, ScholarRow>, chain: seq<string>, n: nat)
    requires n == KnownPrefix(scholars, chain)
    ensures (forall k :: 0 <= k < |chain| ==> KnownScholar(scholars, chain[k])) <==> n == |chain|
  {
    if n < |chain| {
      assert !KnownScholar(scholars, chain[n]);
    }
  }

  /** Appending the rows of the first `n` ids of a chain places id `i` at position `i` after `old`. */
  lemma ChainRowsAppended(before: seq<ChainRow>, hid: nat, chain: seq<string>, n: nat, after: seq<ChainRow>)
    requires n <= |chain| && forall k :: 0 <= k < n ==> IsIntText(chain[k])
    requires after == before + ChainRows(hid, chain[..n])
    ensures |after| == |before| + n && after[..|before|] == before
    ensures forall i :: 0 <= i < n ==> after[|before| + i] == ChainRow(hid, ParseInt(chain[i]).value, i)
  {
    var prefix := chain[..n];
    ChainPositions(hid, prefix);
    var rows := ChainRows(hid, prefix);
    forall i | 0 <= i < n
      ensures after[|before| + i] == ChainRow(hid, ParseInt(chain[i]).value, i)
    {
      assert after[|before| + i] == rows[i];
      assert prefix[i] == chain[i];
    }
  }

  /** The `hadiths` rows of a list of hadiths. */
  function RowsOf(hs: seq<HadithRecord>): (rows: seq<HadithRow>)
    ensures |rows| == |hs| && forall i :: 0 <= i < |hs| ==> rows[i] == hs[i].row
  {
    seq(|hs|, i requires 0 <= i < |hs| => hs[i].row)
  }

  /** Every hadith of the list gets a row, in order, whatever happens to its chain. */
  lemma {:induction false} HadithRowsAppended(s: State, hs: seq<HadithRecord>)
    ensures InsertHadithsSpec(s, hs).tables.hadiths == s.tables.hadiths + RowsOf(hs)
    ensures InsertHadithsSpec(s, hs).stats.hadithsProcessed <= s.stats.hadithsProcessed + |hs|
    decreases |hs|
  {
    if hs != [] {
      var init := hs[..|hs| - 1];
      HadithRowsAppended(s, init);
      HadithStepRow(InsertHadithsSpec(s, init), hs[|hs| - 1]);
      RowsOfSnoc(hs);
      SnocAssoc(s.tables.hadiths, RowsOf(init), hs[|hs| - 1].row);
    }
  }

  lemma RowsOfSnoc(hs: seq<HadithRecord>)
    requires hs != []
    ensures RowsOf(hs) == RowsOf(hs[..|hs| - 1]) + [hs[|hs| - 1].row]
  {
  }

  lemma SnocAssoc<T>(a: seq<T>, b: seq<T>, x: T)
    ensures a + b + [x] == a + (b + [x])
  {
  }

  lemma HadithStepRow(s: State, h: HadithRecord)
    ensures HadithStep(s, h).tables.hadiths == s.tables.hadiths + [h.row]
    ensures HadithStep(s, h).stats.hadithsProcessed <= s.stats.hadithsProcessed + 1
  {
  }

  /**
   * The hadiths of a file are inserted whenever it has any and its id converts, even when
   * `insert_scholar` failed on a null list element.
   */
  lemma HadithsDespiteScholarFailure(s: State, path: string, rec: ScholarRecord)
    requires rec.hadiths != [] && rec.id.Some? && IsIntText(rec.id.value)
    ensures var mid := InsertScholarSpec(s, rec).0;
            FileStep(s, path, Some(rec)) == InsertHadithsSpec(mid, rec.hadiths)
    ensures |FileStep(s, path, Some(rec)).tables.hadiths| ==
              |InsertScholarSpec(s, rec).0.tables.hadiths| + |rec.hadiths|
  {
    HadithRowsAppended(InsertScholarSpec(s, rec).0, rec.hadiths);
  }

  /** A file whose id does not convert but that has hadiths records two errors and no hadith. */
  lemma BadIdWithHadiths(s: State, path: string, rec: ScholarRecord)
    requires rec.hadiths != [] && (rec.id.None? || !IsIntText(rec.id.value))
    ensures FileStep(s, path, Some(rec)).stats.errors ==
              s.stats.errors + [ScholarError(rec.id.GetOr("unknown")), ReadError(path)]
    ensures FileStep(s, path, Some(rec)).tables == s.tables
  {
  }

  // ---------------------------------------------------------------------------------------
  // The foreign keys of the schema hold after every step.
  // ---------------------------------------------------------------------------------------

  /** Every row of a list table names a scholar that has a row. */
  predicate TextRowsKnown(rows: seq<TextRow>, scholars: map<int, ScholarRow>)
  {
    forall i :: 0 <= i < |rows| ==> rows[i].scholarId in scholars
  }

  /**
   * The `FOREIGN KEY` clauses of the schema: list, relationship and chain rows name scholars
   * that have rows, and chain rows a hadith that has one (hadith ids count from 1).
   */
  predicate ForeignKeysHold(t: Tables)
  {
    && TextRowsKnown(t.places, t.scholars)
    && TextRowsKnown(t.interests, t.scholars)
    && TextRowsKnown(t.tags, t.scholars)
    && (forall i :: 0 <= i < |t.relationships| ==>
          t.relationships[i].scholarId in t.scholars && t.relationships[i].relatedId in t.scholars)
    && (forall i :: 0 <= i < |t.chains| ==>
          t.chains[i].scholarId in t.scholars && 1 <= t.chains[i].hadithId <= |t.hadiths|)
  }

  /** Adding scholar rows keeps every reference valid. */
  lemma ForeignKeysGrow(t: Tables, scholars: map<int, ScholarRow>)
    requires ForeignKeysHold(t) && t.scholars.Keys <= scholars.Keys
    ensures ForeignKeysHold(t.(scholars := scholars))
  {
  }

  /** A relationship loop of a scholar that has a row adds only valid references. */
  lemma {:induction false} RelationshipsKeepKeys(s: State, sid: int, refs: seq<RelatedRef>, k: RelKind)
    requires ForeignKeysHold(s.tables) && sid in s.tables.scholars
    ensures ForeignKeysHold(RelationshipsSpec(s, sid, refs, k).tables)
    ensures RelationshipsSpec(s, sid, refs, k).tables.scholars == s.tables.scholars
    decreases |refs|
  {
    if refs != [] {
      RelationshipsKeepKeys(s, sid, refs[..|refs| - 1], k);
    }
  }

  lemma AllRelationshipsKeepKeys(s: State, sid: int, rec: ScholarRecord)
    requires ForeignKeysHold(s.tables) && sid in s.tables.scholars
    ensures ForeignKeysHold(AllRelationships(s, sid, rec).tables)
  {
    var s1 := RelationshipsSpec(s, sid, Related(rec, Parent), Parent);
    var s2 := RelationshipsSpec(s1, sid, Related(rec, Child), Child);
    var s3 := RelationshipsSpec(s2, sid, Related(rec, Spouse), Spouse);
    var s4 := RelationshipsSpec(s3, sid, Related(rec, Sibling), Sibling);
    var s5 := RelationshipsSpec(s4, sid, Related(rec, Teacher), Teacher);
    RelationshipsKeepKeys(s, sid, Related(rec, Parent), Parent);
    RelationshipsKeepKeys(s1, sid, Related(rec, Child), Child);
    RelationshipsKeepKeys(s2, sid, Related(rec, Spouse), Spouse);
    RelationshipsKeepKeys(s3, sid, Related(rec, Sibling), Sibling);
    RelationshipsKeepKeys(s4, sid, Related(rec, Teacher), Teacher);
    RelationshipsKeepKeys(s5, sid, Related(rec, Student), Student);
  }

  /** A list loop of a scholar that has a row adds rows naming that scholar only. */
  lemma ListStepKeepsKeys(s: State, which: ListTable, sid: int, items: seq<Option<string>>)
    requires ForeignKeysHold(s.tables) && sid in s.tables.scholars
    ensures ForeignKeysHold(ListStep(s, which, sid, items).0.tables)
    ensures ListStep(s, which, sid, items).0.tables.scholars == s.tables.scholars
  {
    var n := FirstFailure(items, IsPresent);
    var added := TextRows(sid, items[..n]);
    TextRowsOrder(sid, items[..n]);
    var rows := ListRows(s.tables, which) + added;
    assert TextRowsKnown(rows, s.tables.scholars) by {
      forall i | 0 <= i < |rows|
        ensures rows[i].scholarId in s.tables.scholars
      {
        if i >= |ListRows(s.tables, which)| {
          assert rows[i] == added[i - |ListRows(s.tables, which)|];
        }
      }
    }
  }

  lemma ListsStepKeepsKeys(s: State, sid: int, rec: ScholarRecord)
    requires ForeignKeysHold(s.tables) && sid in s.tables.scholars
    ensures ForeignKeysHold(ListsStep(s, sid, rec).0.tables)
    ensures ListsStep(s, sid, rec).0.tables.scholars == s.tables.scholars
  {
    var (s2, ok2) := ListStep(s, Places, sid, rec.placesOfStay);
    ListStepKeepsKeys(s, Places, sid, rec.placesOfStay);
    var (s3, ok3) := ListStep(s2, Interests, sid, rec.areaOfInterest);
    ListStepKeepsKeys(s2, Interests, sid, rec.areaOfInterest);
    ListStepKeepsKeys(s3, TagsTable, sid, rec.tags);
  }

  /** `insert_scholar` keeps the foreign keys valid and never removes a scholar row. */
  lemma InsertScholarKeepsKeys(s: State, rec: ScholarRecord)
    requires ForeignKeysHold(s.tables)
    ensures ForeignKeysHold(InsertScholarSpec(s, rec).0.tables)
    ensures s.tables.scholars.Keys <= InsertScholarSpec(s, rec).0.tables.scholars.Keys
  {
    if rec.id.Some? && IsIntText(rec.id.value) {
      var sid := ParseInt(rec.id.value).value;
      var s1 := ScholarRowStep(s, sid, rec);
      ForeignKeysGrow(s.tables, s1.tables.scholars);
      assert ForeignKeysHold(s1.tables);
      ListsStepKeepsKeys(s1, sid, rec);
      AllRelationshipsKeepKeys(ListsStep(s1, sid, rec).0, sid, rec);
      AllRelationshipsFrame(ListsStep(s1, sid, rec).0, sid, rec);
    }
  }

  /** A hadith's chain rows name known scholars and the hadith row just inserted. */
  lemma HadithStepKeepsKeys(s: State, h: HadithRecord)
    requires ForeignKeysHold(s.tables)
    ensures ForeignKeysHold(HadithStep(s, h).tables)
  {
    var t := HadithStep(s, h).tables;
    var n := KnownPrefix(s.tables.scholars, h.chain);
    HadithStepFacts(s, h);
    forall i | 0 <= i < |t.chains|
      ensures t.chains[i].scholarId in t.scholars && 1 <= t.chains[i].hadithId <= |t.hadiths|
    {
      if i < |s.tables.chains| {
        assert t.chains[i] == s.tables.chains[i];
      } else {
        var j := i - |s.tables.chains|;
        assert KnownScholar(s.tables.scholars, h.chain[j]);
      }
    }
  }

  lemma {:induction false} InsertHadithsKeepsKeys(s: State, hs: seq<HadithRecord>)
    requires ForeignKeysHold(s.tables)
    ensures ForeignKeysHold(InsertHadithsSpec(s, hs).tables)
    decreases |hs|
  {
    if hs != [] {
      InsertHadithsKeepsKeys(s, hs[..|hs| - 1]);
      HadithStepKeepsKeys(InsertHadithsSpec(s, hs[..|hs| - 1]), hs[|hs| - 1]);
    }
  }

  /**
   * Processing files in any order keeps every foreign key valid: a reference to a scholar
   * whose file has not been processed yet is refused rather than stored.
   */
  lemma {:induction false} ProcessKeepsKeys(s: State, files: seq<(string, Option<ScholarRecord>)>)
    requires ForeignKeysHold(s.tables)
    ensures ForeignKeysHold(ProcessSpec(s, files).tables)
    decreases |files|
  {
    if files != [] {
      var before := ProcessSpec(s, files[..|files| - 1]);
      ProcessKeepsKeys(s, files[..|files| - 1]);
      var (path, file) := files[|files| - 1];
      if file.Some? {
        InsertScholarKeepsKeys(before, file.value);
        if file.value.hadiths != [] && file.value.id.Some? && IsIntText(file.value.id.value) {
          InsertHadithsKeepsKeys(InsertScholarSpec(before, file.value).0, file.value.hadiths);
        }
      }
    }
  }

  // ---------------------------------------------------------------------------------------
  // The converter object.
  // ---------------------------------------------------------------------------------------

  /** `ScholarDatabaseConverter`: the tables behind its cursor and its `stats`. */
  class ScholarDatabaseConverter {
    var tables: Tables
    var stats: Stats

    function Current(): State
      reads this
    {
      State(tables, stats)
    }

    /** A converter over a freshly created schema. */
    constructor ()
      ensures tables == NoTables && stats == NoStats
    {
      tables := NoTables;
      stats := NoStats;
    }

    /** A list-table `for` loop of `insert_scholar`; false when it stopped at a null. */
    method InsertList(which: ListTable, sid: int, items: seq<Option<string>>) returns (ok: bool)
      modifies this
      ensures (Current(), ok) == ListStep(old(Current()), which, sid, items)
    {
      ghost var start := Current();
      ghost var n := FirstFailure(items, IsPresent);
      var rows := ListRows(tables, which);
      ok := true;
      var i := 0;
      while i < |items|
        invariant 0 <= i <= n
        invariant rows == ListRows(start.tables, which) + TextRows(sid, items[..i])
        invariant ok
      {
        if items[i].None? {
          ok := false;
          break;
        }
        assert items[..i + 1][..i] == items[..i];
        rows := rows + [TextRow(sid, items[i].value)];
        i := i + 1;
      }
      assert i == n;
      tables := WithListRows(tables, which, rows);
    }

    /** `_insert_relationships`. */
    method InsertRelationships(sid: int, refs: seq<RelatedRef>, k: RelKind)
      modifies this
      ensures Current() == RelationshipsSpec(old(Current()), sid, refs, k)
    {
      ghost var start := Current();
      for i := 0 to |refs|
        invariant Current() == RelationshipsSpec(start, sid, refs[..i], k)
      {
        assert refs[..i + 1][..i] == refs[..i];
        var related := refs[i];
        if related.id.Some? && KnownScholar(tables.scholars, related.id.value) {
          var relatedId := ParseInt(related.id.value).value;
          tables := tables.(relationships := tables.relationships + [RelRow(sid, relatedId, TypeName(k))]);
          stats := stats.(relationshipsCreated := stats.relationshipsCreated + 1);
        } else {
          stats := stats.(errors := stats.errors + [RelationshipError]);
        }
      }
      assert refs[..|refs|] == refs;
    }

    /** `insert_scholar`. */
    method InsertScholar(rec: ScholarRecord) returns (ok: bool)
      modifies this
      ensures (Current(), ok) == InsertScholarSpec(old(Current()), rec)
    {
      ghost var s0 := Current();
      if rec.id.None? || !IsIntText(rec.id.value) {
        stats := stats.(errors := stats.errors + [ScholarError(rec.id.GetOr("unknown"))]);
        assert Current() == ScholarFailed(s0, rec);
        return false;
      }
      var sid := ParseInt(rec.id.value).value;
      tables := tables.(scholars := tables.scholars[sid := rec.row],
                        fts := tables.fts + [FtsRow(sid, rec.row.name, rec.row.fullName)]);
      assert Current() == ScholarRowStep(s0, sid, rec);
      ok := InsertLists(sid, rec);
      ghost var s4 := Current();
      assert (s4, ok) == ListsStep(ScholarRowStep(s0, sid, rec), sid, rec);
      if !ok {
        stats := stats.(errors := stats.errors + [ScholarError(rec.id.GetOr("unknown"))]);
        assert Current() == ScholarFailed(s4, rec);
        return;
      }
      InsertAllRelationships(sid, rec);
      assert Current() == AllRelationships(s4, sid, rec);
      stats := stats.(scholarsProcessed := stats.scholarsProcessed + 1);
      assert Current() == Processed(AllRelationships(s4, sid, rec));
    }

    /** The places, interests and tags loops of `insert_scholar`. */
    method InsertLists(sid: int, rec: ScholarRecord) returns (ok: bool)
      modifies this
      ensures (Current(), ok) == ListsStep(old(Current()), sid, rec)
    {
      ok := InsertList(Places, sid, rec.placesOfStay);
      if ok {
        ok := InsertList(Interests, sid, rec.areaOfInterest);
        if ok {
          ok := InsertList(TagsTable, sid, rec.tags);
        }
      }
    }

    /** The six `_insert_relationships` calls of `insert_scholar`. */
    method InsertAllRelationships(sid: int, rec: ScholarRecord)
      modifies this
      ensures Current() == AllRelationships(old(Current()), sid, rec)
    {
      InsertRelationships(sid, Related(rec, Parent), Parent);
      InsertRelationships(sid, Related(rec, Child), Child);
      InsertRelationships(sid, Related(rec, Spouse), Spouse);
      InsertRelationships(sid, Related(rec, Sibling), Sibling);
      InsertRelationships(sid, Related(rec, Teacher), Teacher);
      InsertRelationships(sid, Related(rec, Student), Student);
    }

    /**
     * The chain loop of one hadith; false when a narrator id did not convert or named no
     * scholar row.
     */
    method InsertChain(hid: nat, chain: seq<string>) returns (ok: bool)
      modifies this
      ensures ok <==> KnownPrefix(old(tables).scholars, chain) == |chain|
      ensures tables == old(tables).(chains := old(tables).chains + ChainRows(hid, chain[..KnownPrefix(old(tables).scholars, chain)]))
      ensures stats == old(stats)
    {
      ghost var n := KnownPrefix(tables.scholars, chain);
      ok := true;
      var position := 0;
      while position < |chain|
        invariant 0 <= position <= n
        invariant tables == old(tables).(chains := old(tables).chains + ChainRows(hid, chain[..position]))
        invariant stats == old(stats)
        invariant ok
      {
        if !KnownScholar(tables.scholars, chain[position]) {
          ok := false;
          break;
        }
        ChainRowsSnoc(hid, chain, position);
        tables := tables.(chains := tables.chains + [ChainRow(hid, ParseInt(chain[position]).value, position)]);
        position := position + 1;
      }
      assert position == n;
    }

    /** `insert_hadiths`; the scholar id it is given is not used. */
    method InsertHadiths(scholarId: int, hadiths: seq<HadithRecord>)
      modifies this
      ensures Current() == InsertHadithsSpec(old(Current()), hadiths)
    {
      ghost var start := Current();
      for i := 0 to |hadiths|
        invariant Current() == InsertHadithsSpec(start, hadiths[..i])
      {
        InsertHadithsSnoc(start, hadiths, i);
        ghost var before := Current();
        var hadith := hadiths[i];
        tables := tables.(hadiths := tables.hadiths + [hadith.row]);
        var hadithId := |tables.hadiths|;
        var ok := InsertChain(hadithId, hadith.chain);
        HadithStepOf(before, hadith, tables.chains, ok);
        if ok {
          stats := stats.(hadithsProcessed := stats.hadithsProcessed + 1);
        } else {
          stats := stats.(errors := stats.errors + [HadithError]);
        }
        assert Current() == HadithStep(before, hadith);
      }
      assert hadiths[..|hadiths|] == hadiths;
    }

    /**
     * `process_all_scholars` over the files the listing returned, or None when the scholars
     * directory does not exist: then nothing is processed and the result is false.
     */
    method ProcessAllScholars(files: Option<seq<(string, Option<ScholarRecord>)>>) returns (success: bool)
      modifies this
      ensures success <==> files.Some?
      ensures files.None? ==> Current() == old(Current())
      ensures files.Some? ==> Current() == ProcessSpec(old(Current()), files.value)
    {
      if files.None? {
        return false;
      }
      var fs := files.value;
      ghost var start := Current();
      for idx := 0 to |fs|
        invariant Current() == ProcessSpec(start, fs[..idx])
      {
        assert fs[..idx + 1][..idx] == fs[..idx];
        var (path, file) := fs[idx];
        if file.None? {
          stats := stats.(errors := stats.errors + [ReadError(path)]);
        } else {
          var data := file.value;
          var _ := InsertScholar(data);
          if data.hadiths != [] {
            if data.id.None? || !IsIntText(data.id.value) {
              stats := stats.(errors := stats.errors + [ReadError(path)]);
            } else {
              InsertHadiths(ParseInt(data.id.value).value, data.hadiths);
            }
          }
        }
      }
      assert fs[..|fs|] == fs;
      return true;
    }
  }
}
