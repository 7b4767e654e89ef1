/**
 * The production data build (scripts/extract_enhanced_data.py): cleaning narrator names,
 * parsing the list-valued cells of the narrator table, resolving references, selecting the
 * hadiths a narrator appears in, the influence score, the choice of narrators that get a
 * pre-built file, and the search index ordered by score.
 */
module ExtractEnhanced {
  import opened Wrappers
  import opened Text
  import opened Sorting
  import opened OrderedMaps
  import opened CsvTables

  // ---------------------------------------------------------------------
  // clean_name

  /** Python `re.sub(r'\([^)]*\)', '', s)`: every "(" up to the next ")" is deleted. */
  function RemoveGroups(s: string): string
    decreases |s|
  {
    if s == [] then []
    else if s[0] == '(' && ')' in s[1..] then RemoveGroups(s[1..][IndexOf(s[1..], ')') + 1..])
    else [s[0]] + RemoveGroups(s[1..])
  }

  function IndexOf(s: string, c: char): (i: nat)
    requires c in s
    ensures i < |s| && s[i] == c && c !in s[..i]
    decreases |s|
  {
    if s[0] == c then 0 else 1 + IndexOf(s[1..], c)
  }

  /** No ")" comes after a "(": there is nothing left for the group pattern to match. */
  predicate NoGroup(t: string)
    decreases |t|
  {
    t == [] || (if t[0] == '(' then ')' !in t[1..] else NoGroup(t[1..]))
  }

  lemma {:induction false} RemoveGroupsHasNoClose(s: string)
    requires ')' !in s
    ensures RemoveGroups(s) == s
    decreases |s|
  {
    if s != [] {
      RemoveGroupsHasNoClose(s[1..]);
    }
  }

  lemma {:induction false} RemoveGroupsNoGroup(s: string)
    ensures NoGroup(RemoveGroups(s))
    decreases |s|
  {
    if s != [] {
      if s[0] == '(' && ')' in s[1..] {
        RemoveGroupsNoGroup(s[1..][IndexOf(s[1..], ')') + 1..]);
      } else if s[0] == '(' {
        RemoveGroupsHasNoClose(s[1..]);
        assert RemoveGroups(s) == [s[0]] + s[1..];
        assert RemoveGroups(s)[1..] == s[1..];
      } else {
        RemoveGroupsNoGroup(s[1..]);
        assert RemoveGroups(s)[1..] == RemoveGroups(s[1..]);
      }
    }
  }

  lemma {:induction false} RemoveGroupsOfNoGroup(t: string)
    requires NoGroup(t)
    ensures RemoveGroups(t) == t
    decreases |t|
  {
    if t != [] {
      if t[0] == '(' {
        RemoveGroupsHasNoClose(t[1..]);
      } else {
        RemoveGroupsOfNoGroup(t[1..]);
      }
    }
  }

  /** Whitespace plays no part in `NoGroup`. */
  lemma {:induction false} NoGroupIgnoresSpace(t: string)
    ensures NoGroup(t) <==> NoGroup(Filter(t, NotPySpace))
    decreases |t|
  {
    if t != [] {
      NoGroupIgnoresSpace(t[1..]);
      FilterHas(t[1..], NotPySpace, ')');
      assert NotPySpace(')') && NotPySpace('(');
    }
  }

  lemma CollapseKeepsNoGroup(t: string)
    requires NoGroup(t)
    ensures NoGroup(CollapseSpaces(t))
  {
    NoGroupIgnoresSpace(t);
    CollapseKeepsContent(t);
    NoGroupIgnoresSpace(CollapseSpaces(t));
  }

  /** `clean_name`: parenthesised groups removed, whitespace collapsed, ends stripped. */
  function CleanName(name: string): (r: string)
    ensures Collapsed(r)
    ensures NoGroup(r)
  {
    RemoveGroupsNoGroup(name);
    CollapseKeepsNoGroup(RemoveGroups(name));
    CollapseSpacesCollapsed(RemoveGroups(name));
    StripCollapsed(RemoveGroups(name));
    PyStrip(CollapseSpaces(RemoveGroups(name)))
  }

  /** Cleaning a cleaned name changes nothing. */
  lemma CleanNameIdempotent(name: string)
    ensures CleanName(CleanName(name)) == CleanName(name)
  {
    var t := RemoveGroups(name);
    StripCollapsed(t);
    var c := CleanName(name);
    assert c == CollapseSpaces(t);
    RemoveGroupsOfNoGroup(c);
    CollapseSpacesIdempotent(t);
    StripCollapsed(c);
  }

  // ---------------------------------------------------------------------
  // parse_date_field

  /** What Python `eval` makes of a cell that starts with "[". */
  datatype EvalOutcome = EvalList(items: seq<string>) | EvalNotList | EvalFailed

  /** `parse_date_field`; `eval` says what Python's `eval` returns for a bracketed cell. */
  function ParseDateField(s: string, eval: string -> EvalOutcome): (r: Option<seq<string>>)
    ensures r.None? <==> s == [] || s == "NA"
    ensures r.Some? && !StartsWith(s, "[") ==> r.value == [s]
    ensures r.Some? && StartsWith(s, "[") ==>
              r.value == (if eval(s).EvalList? then eval(s).items else [s])
  {
    if s == [] || s == "NA" then None
    else if StartsWith(s, "[") && eval(s).EvalList? then Some(eval(s).items)
    else Some([s])
  }

  // ---------------------------------------------------------------------
  // parse_tags

  /** The longest prefix of `s` without ',' or '['. */
  function TagRun(s: string): (r: string)
    ensures |r| <= |s| && r == s[..|r|]
    ensures ',' !in r && '[' !in r
    ensures |r| < |s| ==> s[|r|] == ',' || s[|r|] == '['
    decreases |s|
  {
    if s == [] || s[0] == ',' || s[0] == '[' then [] else [s[0]] + TagRun(s[1..])
  }

  /**
   * Python `re.findall(r'([^,\[]+)\s*\[', s)`: each maximal run without ',' or '[' that is
   * directly followed by '['; scanning resumes after that '['.
   */
  function FindTags(s: string): (tags: seq<string>)
    ensures forall t :: t in tags ==> t != [] && ',' !in t && '[' !in t
    decreases |s|
  {
    if s == [] then []
    else
      var run := TagRun(s);
      if run != [] && |run| < |s| && s[|run|] == '[' then [run] + FindTags(s[|run| + 1..])
      else FindTags(s[1..])
  }

  /** `parse_tags`: nothing for an empty cell or "NA", otherwise the stripped non-empty tag names. */
  function ParseTags(s: string): (tags: seq<string>)
    ensures forall i :: 0 <= i < |tags| ==> tags[i] != [] && PyStrip(tags[i]) == tags[i]
  {
    if s == [] || s == "NA" then [] else StripNonEmpty(FindTags(s))
  }

  /** A tag name never holds a separator or a bracket. */
  lemma ParseTagsPlain(s: string)
    ensures forall t :: t in ParseTags(s) ==> ',' !in t && '[' !in t
  {
    if s != [] && s != "NA" {
      StripNonEmptyLacks(FindTags(s), ',');
      StripNonEmptyLacks(FindTags(s), '[');
    }
  }

  // ---------------------------------------------------------------------
  // resolve_person_names

  datatype Person = Person(id: string, name: string, grade: string)

  function PersonOf(id: string, row: ScholarRow): Person
  {
    Person(id, CleanName(row.name), row.grade)
  }

  /** The persons for the ids found in the table, in input order. */
  function PersonsOf(ids: seq<string>, scholars: map<string, ScholarRow>): (r: seq<Person>)
    ensures |r| <= |ids|
    decreases |ids|
  {
    if ids == [] then []
    else (if ids[0] in scholars then [PersonOf(ids[0], scholars[ids[0]])] else []) + PersonsOf(ids[1..], scholars)
  }

  /** Every person comes from the table, with the cleaned name and the grade of its row. */
  lemma {:induction false} PersonsOfFound(ids: seq<string>, scholars: map<string, ScholarRow>)
    ensures forall p :: p in PersonsOf(ids, scholars) ==>
              p.id in ids && p.id in scholars && p == PersonOf(p.id, scholars[p.id])
    decreases |ids|
  {
    if ids != [] {
      PersonsOfFound(ids[1..], scholars);
    }
  }

  /** Ids that are all in the table are resolved one for one. */
  lemma {:induction false} PersonsOfKnown(ids: seq<string>, scholars: map<string, ScholarRow>)
    requires forall i :: 0 <= i < |ids| ==> ids[i] in scholars
    ensures |PersonsOf(ids, scholars)| == |ids|
    ensures forall i :: 0 <= i < |ids| ==> PersonsOf(ids, scholars)[i].id == ids[i]
    decreases |ids|
  {
    if ids != [] {
      PersonsOfKnown(ids[1..], scholars);
      var rest := PersonsOf(ids[1..], scholars);
      assert PersonsOf(ids, scholars) == [PersonOf(ids[0], scholars[ids[0]])] + rest;
      forall i | 0 <= i < |ids| ensures PersonsOf(ids, scholars)[i].id == ids[i] {
        if i > 0 {
          assert PersonsOf(ids, scholars)[i] == rest[i - 1];
          assert ids[1..][i - 1] == ids[i];
        }
      }
    }
  }

  /** Ids missing from the table are dropped and leave the others in place. */
  lemma {:induction false} PersonsOfUnknown(a: seq<string>, id: string, b: seq<string>, scholars: map<string, ScholarRow>)
    requires id !in scholars
    ensures PersonsOf(a + [id] + b, scholars) == PersonsOf(a + b, scholars)
    decreases |a|
  {
    if a == [] {
      assert [id] + b == a + [id] + b;
      assert (a + [id] + b)[1..] == b;
      assert a + b == b;
    } else {
      assert (a + [id] + b)[1..] == a[1..] + [id] + b;
      assert (a + b)[1..] == a[1..] + b;
      PersonsOfUnknown(a[1..], id, b, scholars);
    }
  }

  /** The persons of two runs of ids, one after the other. */
  lemma {:induction false} PersonsOfAppend(a: seq<string>, b: seq<string>, scholars: map<string, ScholarRow>)
    ensures PersonsOf(a + b, scholars) == PersonsOf(a, scholars) + PersonsOf(b, scholars)
    decreases |a|
  {
    if a == [] {
      assert a + b == b;
    } else {
      assert (a + b)[1..] == a[1..] + b;
      PersonsOfAppend(a[1..], b, scholars);
    }
  }

  lemma PersonsOfSnoc(ids: seq<string>, i: nat, scholars: map<string, ScholarRow>)
    requires i < |ids|
    ensures PersonsOf(ids[..i + 1], scholars) ==
              PersonsOf(ids[..i], scholars) + (if ids[i] in scholars then [PersonOf(ids[i], scholars[ids[i]])] else [])
  {
    assert ids[..i + 1] == ids[..i] + [ids[i]];
    PersonsOfAppend(ids[..i], [ids[i]], scholars);
    assert [ids[i]][1..] == [];
  }

  /** `resolve_person_names`. */
  method ResolvePersonNames(ids: seq<string>, scholars: map<string, ScholarRow>) returns (persons: seq<Person>)
    ensures persons == PersonsOf(ids, scholars)
  {
    persons := [];
    for i := 0 to |ids|
      invariant persons == PersonsOf(ids[..i], scholars)
    {
      PersonsOfSnoc(ids, i, scholars);
      var id := ids[i];
      if id in scholars {
        persons := persons + [PersonOf(id, scholars[id])];
      } else {
        assert persons + [] == persons;
      }
    }
    assert ids[..|ids|] == ids;
  }

  // ---------------------------------------------------------------------
  // load_all_hadiths

  datatype Hadith = Hadith(hadithNo: string, source: string, chapter: string, chapterNo: string,
                           textAr: string, textEn: string, chain: seq<string>)

  /** The comma-separated chain cell as trimmed, non-empty ids. */
  function ChainIds(chain: string): (ids: seq<string>)
    ensures forall i :: 0 <= i < |ids| ==> ids[i] != [] && PyStrip(ids[i]) == ids[i]
  {
    StripNonEmpty(Split(chain, ","))
  }

  function HadithOf(row: HadithRow): Hadith
  {
    Hadith(PyStrip(row.hadithNo), row.source, row.chapter, row.chapterNo, row.textAr, row.textEn,
           ChainIds(row.chainIndx))
  }

  /** `load_all_hadiths`; None stands for a hadith file that is not there. */
  method LoadAllHadiths(file: Option<seq<HadithRow>>) returns (hadiths: seq<Hadith>)
    ensures file.None? ==> hadiths == []
    ensures file.Some? ==> |hadiths| == |file.value|
    ensures file.Some? ==> forall i :: 0 <= i < |hadiths| ==> hadiths[i] == HadithOf(file.value[i])
    ensures forall i, j :: 0 <= i < |hadiths| && 0 <= j < |hadiths[i].chain| ==>
              hadiths[i].chain[j] != [] && PyStrip(hadiths[i].chain[j]) == hadiths[i].chain[j]
  {
    hadiths := [];
    if file.Some? {
      var rows := file.value;
      var i := 0;
      while i < |rows|
        invariant 0 <= i <= |rows|
        invariant |hadiths| == i
        invariant forall k :: 0 <= k < i ==> hadiths[k] == HadithOf(rows[k])
      {
        hadiths := hadiths + [HadithOf(rows[i])];
        i := i + 1;
      }
    }
  }

  // ---------------------------------------------------------------------
  // get_enhanced_scholar_data

  datatype Birth = Birth(dateHijri: string, dateGregorian: string, dateDisplay: Option<seq<string>>, place: string)
  datatype Death = Death(dateHijri: string, dateGregorian: string, dateDisplay: Option<seq<string>>,
                         place: string, reason: string)
  datatype Biography = Biography(birth: Birth, death: Death, placesOfStay: seq<string>,
                                 areaOfInterest: seq<string>, tags: seq<string>)

  /** The file written for one narrator. */
  datatype ScholarData = ScholarData(
    id: string, name: string, fullName: string, grade: string, biography: Biography,
    parents: seq<Person>, spouses: seq<Person>, siblings: seq<Person>, children: seq<Person>,
    teachers: seq<Person>, students: seq<Person>,
    hadiths: seq<Hadith>, totalHadiths: nat)

  const HadithsPerFile := 50

  /** `v.split(', ') if v else []`. */
  function ListCell(v: string): seq<string>
  {
    if v != [] then Split(v, ", ") else []
  }

  /** The teacher and student cells: comma-space separated ids, nothing for "" or "NA". */
  function IndsCell(v: string): seq<string>
  {
    if v != [] && v != "NA" then Split(v, ", ") else []
  }

  /** The hadiths whose chain holds `id`, in their order. */
  function HadithsWith(id: string, hadiths: seq<Hadith>): (r: seq<Hadith>)
    ensures |r| <= |hadiths|
    ensures forall h :: h in r ==> h in hadiths && id in h.chain
    ensures forall h :: h in hadiths && id in h.chain ==> h in r
    decreases |hadiths|
  {
    if hadiths == [] then []
    else (if id in hadiths[0].chain then [hadiths[0]] else []) + HadithsWith(id, hadiths[1..])
  }

  function Take<T>(s: seq<T>, n: nat): (r: seq<T>)
    ensures |r| == if |s| < n then |s| else n
    ensures r == s[..|r|]
  {
    if |s| <= n then s else s[..n]
  }

  /** `get_enhanced_scholar_data`. */
  function GetEnhancedScholarData(target: string, scholars: map<string, ScholarRow>, hadiths: seq<Hadith>,
                                  eval: string -> EvalOutcome): (r: Option<ScholarData>)
    ensures r.None? <==> target !in scholars
    ensures r.Some? ==> r.value.id == target
  {
    if target !in scholars then None
    else
      var p := scholars[target];
      var inScope := HadithsWith(target, hadiths);
      Some(ScholarData(
        target, CleanName(p.name), p.name, p.grade,
        Biography(
          Birth(p.birthDateHijri, p.birthDateGregorian, ParseDateField(p.birthDate, eval), p.birthPlace),
          Death(p.deathDateHijri, p.deathDateGregorian, ParseDateField(p.deathDate, eval), p.deathPlace, p.deathReason),
          ListCell(p.placesOfStay), ListCell(p.areaOfInterest), ParseTags(p.tags)),
        PersonsOf(ParseIds(p.parents), scholars), PersonsOf(ParseIds(p.spouse), scholars),
        PersonsOf(ParseIds(p.siblings), scholars), PersonsOf(ParseIds(p.children), scholars),
        PersonsOf(IndsCell(p.teachersInds), scholars), PersonsOf(IndsCell(p.studentsInds), scholars),
        Take(inScope, HadithsPerFile), |inScope|))
  }

  /**
   * A known narrator's file: the cleaned and the full name, the first fifty hadiths the
   * narrator appears in, and how many there are in all.
   */
  lemma ScholarDataFacts(target: string, scholars: map<string, ScholarRow>, hadiths: seq<Hadith>,
                         eval: string -> EvalOutcome)
    requires target in scholars
    ensures var d := GetEnhancedScholarData(target, scholars, hadiths, eval).value;
            && d.fullName == scholars[target].name
            && d.name == CleanName(scholars[target].name)
            && d.totalHadiths == |HadithsWith(target, hadiths)|
            && |d.hadiths| == (if d.totalHadiths < HadithsPerFile then d.totalHadiths else HadithsPerFile)
            && d.hadiths == HadithsWith(target, hadiths)[..|d.hadiths|]
            && (forall h :: h in d.hadiths ==> target in h.chain)
  {
    var inScope := HadithsWith(target, hadiths);
    var d := GetEnhancedScholarData(target, scholars, hadiths, eval).value;
    assert d.hadiths == Take(inScope, HadithsPerFile);
    forall h | h in d.hadiths ensures target in h.chain {
      assert h in inScope;
    }
  }

  // ---------------------------------------------------------------------
  // main: influence, selection, search index

  /** `len(v.split(',')) if v != 'NA' else 0`. */
  function LinkCount(v: string): (n: nat)
    ensures v == "NA" <==> n == 0
  {
    if v == "NA" then 0 else |Split(v, ",")|
  }

  /** A non-"NA" cell counts one more than its commas, so even "" counts 1. */
  lemma LinkCountCommas(v: string)
    requires v != "NA"
    ensures LinkCount(v) == CountChar(v, ',') + 1
  {
    SplitCharCount(v, ',');
  }

  function Influence(row: ScholarRow): nat
  {
    LinkCount(row.studentsInds) + LinkCount(row.teachersInds)
  }

  /** Narrator "2" and every narrator with influence above 10 get a pre-built file. */
  predicate Selected(id: string, row: ScholarRow)
  {
    id == "2" || Influence(row) > 10
  }

  datatype SearchEntry = SearchEntry(id: string, name: string, grade: string, deathYear: string, score: int)

  function Score(e: SearchEntry): int { e.score }

  function EntryOf(id: string, row: ScholarRow): (e: SearchEntry)
    ensures e.id == id && e.score == Influence(row)
  {
    SearchEntry(id, CleanName(row.name), row.grade, row.deathDateHijri, Influence(row))
  }

  /** The search-index entries of `keys`, in order. */
  function EntriesOf(keys: seq<string>, values: map<string, ScholarRow>): (r: seq<SearchEntry>)
    requires forall k :: k in keys ==> k in values
    ensures |r| == |keys|
    decreases |keys|
  {
    if keys == [] then []
    else EntriesOf(keys[..|keys| - 1], values) + [EntryOf(keys[|keys| - 1], values[keys[|keys| - 1]])]
  }

  /** The search-index entries in table order, before sorting. */
  function Unsorted(scholars: OrderedMap<string, ScholarRow>): (r: seq<SearchEntry>)
    requires scholars.Valid()
    ensures |r| == |scholars.keys|
  {
    KeysIn(scholars);
    EntriesOf(scholars.keys, scholars.values)
  }

  lemma KeysIn<K, V>(m: OrderedMap<K, V>)
    requires m.Valid()
    ensures forall k :: k in m.keys ==> k in m.values
  {
    forall k | k in m.keys ensures k in m.values {
      assert k in KeySet(m.keys);
    }
  }

  lemma KeyIn<K, V>(m: OrderedMap<K, V>, i: nat)
    requires m.Valid() && i < |m.keys|
    ensures m.keys[i] in m.values
  {
    assert m.keys[i] in KeySet(m.keys);
  }

  /** Entry `k` of the index comes from the k-th narrator of the table. */
  lemma {:induction false} EntriesOfAt(keys: seq<string>, values: map<string, ScholarRow>, k: nat)
    requires forall x :: x in keys ==> x in values
    requires k < |keys|
    ensures EntriesOf(keys, values)[k] == EntryOf(keys[k], values[keys[k]])
    decreases |keys|
  {
    if k < |keys| - 1 {
      var init := keys[..|keys| - 1];
      assert init[k] == keys[k];
      EntriesOfAt(init, values, k);
    }
  }

  /** The ids that get a file. */
  function SelectedIds(scholars: OrderedMap<string, ScholarRow>): set<string>
    requires scholars.Valid()
  {
    set id | id in scholars.values && Selected(id, scholars.values[id])
  }

  /** The file `main` writes for `id`, or None when it writes none. */
  function FileFor(values: map<string, ScholarRow>, hadiths: seq<Hadith>, eval: string -> EvalOutcome)
    : string -> Option<ScholarData>
  {
    id => if id in values && Selected(id, values[id]) then GetEnhancedScholarData(id, values, hadiths, eval) else None
  }

  lemma FileForAt(values: map<string, ScholarRow>, hadiths: seq<Hadith>, eval: string -> EvalOutcome, id: string)
    ensures FileFor(values, hadiths, eval)(id) ==
              if id in values && Selected(id, values[id]) then GetEnhancedScholarData(id, values, hadiths, eval) else None
  {
  }

  /**
   * `main` after loading: the search index sorted by score, and the files written, keyed by
   * narrator id.
   */
  method BuildIndex(scholars: OrderedMap<string, ScholarRow>, hadiths: seq<Hadith>, eval: string -> EvalOutcome)
    returns (searchIndex: seq<SearchEntry>, files: map<string, ScholarData>)
    requires scholars.Valid()
    ensures searchIndex == SortDesc(Unsorted(scholars), Score)
    ensures files.Keys == SelectedIds(scholars)
    ensures forall id :: id in files ==> Some(files[id]) == GetEnhancedScholarData(id, scholars.values, hadiths, eval)
  {
    var entries := [];
    files := map[];
    var keys := scholars.keys;
    ghost var pick := FileFor(scholars.values, hadiths, eval);
    KeysIn(scholars);
    for i := 0 to |keys|
      invariant entries == EntriesOf(keys[..i], scholars.values)
      invariant files == FilesOf(keys[..i], pick)
    {
      var id := keys[i];
      KeyIn(scholars, i);
      var person := scholars.values[id];
      entries := entries + [EntryOf(id, person)];
      FileForAt(scholars.values, hadiths, eval, id);
      if id == "2" || Influence(person) > 10 {
        var data := GetEnhancedScholarData(id, scholars.values, hadiths, eval);
        files := files[id := data.value];
      }
      FilesOfSnoc(keys, i, pick);
      EntriesOfSnoc(keys, i, scholars.values);
    }
    assert keys[..|keys|] == keys;
    FilesOfFacts(keys, scholars.values, hadiths, eval);
    SelectedAreKeys(scholars);
    searchIndex := SortDesc(entries, Score);
  }

  /** The files written for `keys`, in the order `main` visits them; `pick` says what each gets. */
  function FilesOf<D>(keys: seq<string>, pick: string -> Option<D>): map<string, D>
    decreases |keys|
  {
    if keys == [] then map[]
    else
      var m := FilesOf(keys[..|keys| - 1], pick);
      var id := keys[|keys| - 1];
      if pick(id).Some? then m[id := pick(id).value] else m
  }

  lemma FilesOfSnoc<D>(keys: seq<string>, i: nat, pick: string -> Option<D>)
    requires i < |keys|
    ensures var m := FilesOf(keys[..i], pick);
            FilesOf(keys[..i + 1], pick) == if pick(keys[i]).Some? then m[keys[i] := pick(keys[i]).value] else m
  {
    assert keys[..i + 1][..i] == keys[..i];
  }

  /** A file is written for exactly the keys `pick` gives one, and holds what `pick` gives. */
  lemma {:induction false} FilesOfPicked<D>(keys: seq<string>, pick: string -> Option<D>)
    ensures forall k :: k in FilesOf(keys, pick) <==> k in keys && pick(k).Some?
    ensures forall k :: k in FilesOf(keys, pick) ==> Some(FilesOf(keys, pick)[k]) == pick(k)
    decreases |keys|
  {
    if keys != [] {
      var init := keys[..|keys| - 1];
      var id := keys[|keys| - 1];
      FilesOfPicked(init, pick);
      assert keys == init + [id];
    }
  }

  /** A file is written for exactly the narrators "2" and those with influence above 10, and holds that narrator's data. */
  lemma FilesOfFacts(keys: seq<string>, values: map<string, ScholarRow>, hadiths: seq<Hadith>,
                     eval: string -> EvalOutcome)
    requires forall k :: k in keys ==> k in values
    ensures forall k :: k in FilesOf(keys, FileFor(values, hadiths, eval)) <==> k in keys && Selected(k, values[k])
    ensures forall id :: id in FilesOf(keys, FileFor(values, hadiths, eval)) ==>
              Some(FilesOf(keys, FileFor(values, hadiths, eval))[id]) == GetEnhancedScholarData(id, values, hadiths, eval)
  {
    var pick := FileFor(values, hadiths, eval);
    FilesOfPicked(keys, pick);
    forall k | k in keys ensures pick(k).Some? <==> Selected(k, values[k]) {
      FileForAt(values, hadiths, eval, k);
    }
    forall id | id in FilesOf(keys, pick) ensures Some(FilesOf(keys, pick)[id]) == GetEnhancedScholarData(id, values, hadiths, eval) {
      FileForAt(values, hadiths, eval, id);
    }
  }

  lemma EntriesOfSnoc(keys: seq<string>, i: nat, values: map<string, ScholarRow>)
    requires i < |keys| && forall k :: k in keys ==> k in values
    ensures EntriesOf(keys[..i + 1], values) == EntriesOf(keys[..i], values) + [EntryOf(keys[i], values[keys[i]])]
  {
    assert keys[..i + 1][..i] == keys[..i];
  }

  lemma PrefixSnoc<T>(s: seq<T>, i: nat)
    requires i < |s|
    ensures forall x :: x in s[..i + 1] <==> x in s[..i] || x == s[i]
  {
    assert s[..i + 1] == s[..i] + [s[i]];
  }

  lemma SelectedAreKeys(scholars: OrderedMap<string, ScholarRow>)
    requires scholars.Valid()
    ensures forall id :: id in SelectedIds(scholars) ==> id in scholars.keys
  {
    forall id | id in SelectedIds(scholars) ensures id in scholars.keys {
      assert id in KeySet(scholars.keys);
    }
  }

  /**
   * The search index holds every narrator once, highest score first, and narrators with equal
   * scores keep their table order.
   */
  lemma SearchIndexOrdered(scholars: OrderedMap<string, ScholarRow>)
    requires scholars.Valid()
    ensures SortedDesc(SortDesc(Unsorted(scholars), Score), Score)
    ensures multiset(SortDesc(Unsorted(scholars), Score)) == multiset(Unsorted(scholars))
    ensures forall k :: WithKey(SortDesc(Unsorted(scholars), Score), Score, k) == WithKey(Unsorted(scholars), Score, k)
  {
    SortDescCorrect(Unsorted(scholars), Score);
  }
}
