/**
 * The narrator table (all_rawis.csv) and the hadith table (all_hadiths_clean.csv) as the
 * extraction scripts read them with `csv.DictReader`, and the bracketed-id references the
 * narrator table's relationship columns hold ("Name [12], Other [34]").
 */
module CsvTables {
  import opened Text

  /** One row of the narrator table; every CSV cell is a string. */
  datatype ScholarRow = ScholarRow(
    name: string, grade: string,
    birthDate: string, deathDate: string,
    birthDateHijri: string, birthDateGregorian: string,
    deathDateHijri: string, deathDateGregorian: string,
    birthPlace: string, deathPlace: string, deathReason: string,
    placesOfStay: string, areaOfInterest: string, tags: string,
    parents: string, spouse: string, siblings: string, children: string,
    teachersInds: string, studentsInds: string)

  /** One row of the hadith table; every CSV cell is a string. */
  datatype HadithRow = HadithRow(hadithNo: string, source: string, chapter: string, chapterNo: string,
                                 textAr: string, textEn: string, chainIndx: string)

  /** The length of the run of decimal digits `s` starts with. */
  function DigitRun(s: string): (n: nat)
    ensures n <= |s| && AllDecimal(s[..n])
    ensures n < |s| ==> !IsDecimal(s[n])
    decreases |s|
  {
    if s != [] && IsDecimal(s[0]) then 1 + DigitRun(s[1..]) else 0
  }

  /** Python `re.findall(r'\[(\d+)\]', s)`: the digit runs enclosed in brackets, left to right. */
  function FindIds(s: string): (ids: seq<string>)
    decreases |s|
  {
    if s == [] then []
    else
      var n := DigitRun(s[1..]);
      if s[0] == '[' && n >= 1 && n + 1 < |s| && s[n + 1] == ']' then
        [s[1..n + 1]] + FindIds(s[n + 2..])
      else FindIds(s[1..])
  }

  /** `parse_ids`: nothing for an empty cell or "NA", otherwise the bracketed ids. */
  function ParseIds(s: string): (ids: seq<string>)
  {
    if s == [] || s == "NA" then [] else FindIds(s)
  }

  /** Every id found is a non-empty run of decimal digits. */
  lemma {:induction false} FindIdsDigits(s: string)
    ensures forall i :: 0 <= i < |FindIds(s)| ==> FindIds(s)[i] != [] && AllDecimal(FindIds(s)[i])
    decreases |s|
  {
    if s != [] {
      var n := DigitRun(s[1..]);
      if s[0] == '[' && n >= 1 && n + 1 < |s| && s[n + 1] == ']' {
        FindIdsDigits(s[n + 2..]);
        assert s[1..n + 1] == s[1..][..n];
      } else {
        FindIdsDigits(s[1..]);
      }
    }
  }

  /** Text without a '[' contributes no id. */
  lemma {:induction false} SkipPlain(x: string, rest: string)
    requires '[' !in x
    ensures FindIds(x + rest) == FindIds(rest)
    decreases |x|
  {
    if x != [] {
      assert (x + rest)[0] == x[0];
      assert (x + rest)[1..] == x[1..] + rest;
      SkipPlain(x[1..], rest);
    } else {
      assert x + rest == rest;
    }
  }

  lemma {:induction false} DigitRunOf(id: string, rest: string)
    requires AllDecimal(id)
    requires rest == [] || !IsDecimal(rest[0])
    ensures DigitRun(id + rest) == |id|
    decreases |id|
  {
    if id != [] {
      assert (id + rest)[1..] == id[1..] + rest;
      DigitRunOf(id[1..], rest);
    } else {
      assert id + rest == rest;
    }
  }

  /** A reference "[id]" yields its id and scanning resumes after the ']'. */
  lemma TakeRef(id: string, rest: string)
    requires id != [] && AllDecimal(id)
    ensures FindIds("[" + id + "]" + rest) == [id] + FindIds(rest)
  {
    var s := "[" + id + "]" + rest;
    assert s[1..] == id + ("]" + rest);
    assert !IsDecimal(']');
    DigitRunOf(id, "]" + rest);
    assert s[1..|id| + 1] == id;
    assert s[|id| + 2..] == rest;
  }

  /** One relationship cell entry: a name (with no '['), then its id in brackets. */
  function RenderRef(name: string, id: string): string
  {
    name + " [" + id + "]"
  }

  function RenderRefs(refs: seq<(string, string)>): string
  {
    Join(Rendered(refs), ", ")
  }

  predicate WellFormedRefs(refs: seq<(string, string)>)
  {
    forall i :: 0 <= i < |refs| ==> '[' !in refs[i].0 && refs[i].1 != [] && AllDecimal(refs[i].1)
  }

  function Ids(refs: seq<(string, string)>): seq<string>
  {
    seq(|refs|, i requires 0 <= i < |refs| => refs[i].1)
  }

  lemma RefThenRest(name: string, id: string, rest: string)
    requires '[' !in name && id != [] && AllDecimal(id)
    ensures FindIds(RenderRef(name, id) + rest) == [id] + FindIds(rest)
  {
    assert RenderRef(name, id) + rest == (name + " ") + ("[" + id + "]" + rest);
    SkipPlain(name + " ", "[" + id + "]" + rest);
    TakeRef(id, rest);
  }

  function Rendered(refs: seq<(string, string)>): seq<string>
  {
    seq(|refs|, i requires 0 <= i < |refs| => RenderRef(refs[i].0, refs[i].1))
  }

  /** Scanning a cell rendered from references finds their ids, in order. */
  lemma {:induction false} FindRenderedRefs(refs: seq<(string, string)>)
    requires WellFormedRefs(refs)
    ensures FindIds(Join(Rendered(refs), ", ")) == Ids(refs)
    decreases |refs|
  {
    if |refs| == 1 {
      RefThenRest(refs[0].0, refs[0].1, []);
      assert Join(Rendered(refs), ", ") == RenderRef(refs[0].0, refs[0].1) + [];
    } else if |refs| > 1 {
      FindRenderedRefs(refs[1..]);
      RenderedStep(refs);
    }
  }

  lemma RenderedStep(refs: seq<(string, string)>)
    requires |refs| > 1 && WellFormedRefs(refs)
    requires FindIds(Join(Rendered(refs[1..]), ", ")) == Ids(refs[1..])
    ensures FindIds(Join(Rendered(refs), ", ")) == Ids(refs)
  {
    var tail := Join(Rendered(refs[1..]), ", ");
    assert Rendered(refs)[1..] == Rendered(refs[1..]);
    JoinCons(Rendered(refs), ", ");
    RefThenRest(refs[0].0, refs[0].1, ", " + tail);
    SkipPlain(", ", tail);
    assert Ids(refs) == [refs[0].1] + Ids(refs[1..]);
  }

  lemma JoinLength(ws: seq<string>, sep: string)
    requires ws != []
    ensures |Join(ws, sep)| >= |ws[0]|
  {
  }

  /** Parsing a cell rendered from references gives back their ids, in order. */
  lemma ParseRenderedRefs(refs: seq<(string, string)>)
    requires WellFormedRefs(refs)
    ensures ParseIds(RenderRefs(refs)) == Ids(refs)
  {
    assert RenderRefs(refs) == Join(Rendered(refs), ", ");
    FindRenderedRefs(refs);
    if refs != [] {
      JoinLength(Rendered(refs), ", ");
      assert |RenderRefs(refs)| > 2;
    }
  }
}
