/**
 * The scholar-file survey (scripts/analyze-data.js): frequency maps of areas of interest,
 * places and tags over every scholar file, and the fifty most frequent of each.
 */
module AnalyzeData {
  import opened Wrappers
  import opened Text
  import opened OrderedMaps
  import opened Counters

  const TopCount := 50

  /** A JSON value handed to `add`: a string, or anything else. */
  datatype Value = Str(s: string) | NonString

  /**
   * The parts of `s.biography` the survey reads. A list is None when the field is absent or
   * not an array; a place is None when `birth`/`death` or its `place` is absent or falsy.
   */
  datatype Biography = Biography(areaOfInterest: Option<seq<Value>>, placesOfStay: Option<seq<Value>>,
                                 tags: Option<seq<Value>>, birthPlace: Option<Value>, deathPlace: Option<Value>)

  /**
   * One directory entry. `biography` is None when the file does not parse, holds no object,
   * or has no biography; in each of those cases nothing is counted.
   */
  datatype ScholarFile = ScholarFile(name: string, biography: Option<Biography>)

  datatype Counter = Areas | Places | Tags

  /** The keys `add` counts for a list of values: the trimmed non-empty strings, in order. */
  function Kept(vals: seq<Value>): seq<string>
    decreases |vals|
  {
    if vals == [] then []
    else
      var v := vals[|vals| - 1];
      Kept(vals[..|vals| - 1]) + (if v.Str? && v.s != "" then [JsTrim(v.s)] else [])
  }

  function OptList(v: Option<Value>): seq<Value>
  {
    if v.Some? then [v.value] else []
  }

  /** The values one file hands to each counter, in the order the script adds them. */
  function FileValues(f: ScholarFile, c: Counter): seq<Value>
  {
    if !EndsWith(f.name, ".json") || f.biography.None? then []
    else
      var b := f.biography.value;
      match c
      case Areas => b.areaOfInterest.GetOr([])
      case Places => b.placesOfStay.GetOr([]) + OptList(b.birthPlace) + OptList(b.deathPlace)
      case Tags => b.tags.GetOr([])
  }

  /** The keys counted over a run of files, in directory order. */
  function AllKeys(files: seq<ScholarFile>, c: Counter): seq<string>
    decreases |files|
  {
    if files == [] then []
    else AllKeys(files[..|files| - 1], c) + Kept(FileValues(files[|files| - 1], c))
  }

  /**
   * `add(map, val)` on a counter that has tallied `keys` so far: a non-empty string adds one
   * to the count of its trimmed value, anything else is ignored.
   */
  method Add(m: OrderedMap<string, nat>, ghost keys: seq<string>, v: Value) returns (m': OrderedMap<string, nat>)
    requires m == Tally(keys)
    ensures m' == Tally(keys + Kept([v]))
  {
    assert [v][..0] == [];
    if v.NonString? || v.s == "" {
      assert keys + [] == keys;
      return m;
    }
    var key := JsTrim(v.s);
    TallyAppend(keys, key);
    m' := Increment(m, key);
  }

  /** `list.forEach(x => add(map, x))`. */
  method AddEach(m: OrderedMap<string, nat>, ghost keys: seq<string>, vals: seq<Value>)
    returns (m': OrderedMap<string, nat>)
    requires m == Tally(keys)
    ensures m' == Tally(keys + Kept(vals))
  {
    m' := m;
    var i := 0;
    assert keys + Kept(vals[..0]) == keys by {
      assert vals[..0] == [];
    }
    while i < |vals|
      invariant 0 <= i <= |vals|
      invariant m' == Tally(keys + Kept(vals[..i]))
    {
      m' := Add(m', keys + Kept(vals[..i]), vals[i]);
      KeptSnoc(keys, vals, i);
      i := i + 1;
    }
    assert vals[..|vals|] == vals;
  }

  /** The three counters, each with the keys it has tallied. */
  datatype Counts = Counts(areas: OrderedMap<string, nat>, places: OrderedMap<string, nat>,
                           tags: OrderedMap<string, nat>)

  /**
   * The body of the file loop, on counters that have tallied `ka`, `kp` and `kt`: each
   * counter goes on to tally the keys the file hands it.
   */
  method ScanFile(counts: Counts, ghost ka: seq<string>, ghost kp: seq<string>, ghost kt: seq<string>,
                  f: ScholarFile) returns (counts': Counts)
    requires counts.areas == Tally(ka) && counts.places == Tally(kp) && counts.tags == Tally(kt)
    ensures counts'.areas == Tally(ka + Kept(FileValues(f, Areas)))
    ensures counts'.places == Tally(kp + Kept(FileValues(f, Places)))
    ensures counts'.tags == Tally(kt + Kept(FileValues(f, Tags)))
  {
    if !EndsWith(f.name, ".json") || f.biography.None? {
      NonJsonSkipped(f);
      NothingKept(ka);
      NothingKept(kp);
      NothingKept(kt);
      return counts;
    }
    var b := f.biography.value;
    FileValuesOf(f);
    var areas, places, tags := counts.areas, counts.places, counts.tags;
    if b.areaOfInterest.Some? {
      areas := AddEach(areas, ka, b.areaOfInterest.value);
    } else {
      NothingKept(ka);
    }
    if b.tags.Some? {
      tags := AddEach(tags, kt, b.tags.value);
    } else {
      NothingKept(kt);
    }
    places := AddPlaces(places, kp, b);
    counts' := Counts(areas, places, tags);
  }

  /** The three `add(places, …)` steps of one biography: places of stay, birth place, death place. */
  method AddPlaces(places: OrderedMap<string, nat>, ghost kp: seq<string>, b: Biography)
    returns (places': OrderedMap<string, nat>)
    requires places == Tally(kp)
    ensures places' == Tally(kp + Kept(b.placesOfStay.GetOr([]) + OptList(b.birthPlace) + OptList(b.deathPlace)))
  {
    ghost var stay := b.placesOfStay.GetOr([]);
    places' := places;
    if b.placesOfStay.Some? {
      places' := AddEach(places', kp, b.placesOfStay.value);
    } else {
      NothingKept(kp);
    }
    ghost var k1 := kp + Kept(stay);
    if b.birthPlace.Some? {
      places' := Add(places', k1, b.birthPlace.value);
    } else {
      NothingKept(k1);
    }
    ghost var k2 := k1 + Kept(OptList(b.birthPlace));
    if b.deathPlace.Some? {
      places' := Add(places', k2, b.deathPlace.value);
    } else {
      NothingKept(k2);
    }
    PlacesKept(kp, stay, OptList(b.birthPlace), OptList(b.deathPlace));
  }

  lemma FileValuesOf(f: ScholarFile)
    requires EndsWith(f.name, ".json") && f.biography.Some?
    ensures FileValues(f, Areas) == f.biography.value.areaOfInterest.GetOr([])
    ensures FileValues(f, Tags) == f.biography.value.tags.GetOr([])
    ensures var b := f.biography.value;
            FileValues(f, Places) == b.placesOfStay.GetOr([]) + OptList(b.birthPlace) + OptList(b.deathPlace)
  {
  }

  lemma NothingKept(keys: seq<string>)
    ensures keys + Kept([]) == keys
  {
    assert keys + [] == keys;
  }

  lemma PlacesKept(kp: seq<string>, stay: seq<Value>, birth: seq<Value>, death: seq<Value>)
    ensures kp + Kept(stay) + Kept(birth) + Kept(death) == kp + Kept(stay + birth + death)
  {
    KeptAppend(stay + birth, death);
    KeptAppend(stay, birth);
  }

  lemma FileStep(files: seq<ScholarFile>, i: nat, c: Counter)
    requires i < |files|
    ensures AllKeys(files[..i + 1], c) == AllKeys(files[..i], c) + Kept(FileValues(files[i], c))
  {
    assert files[..i + 1][..i] == files[..i];
  }

  /** The three counters as the specification has them after a run of files. */
  function Survey(files: seq<ScholarFile>): Counts
  {
    Counts(Tally(AllKeys(files, Areas)), Tally(AllKeys(files, Places)), Tally(AllKeys(files, Tags)))
  }

  lemma SurveyStart(files: seq<ScholarFile>)
    ensures Survey(files[..0]) == Counts(Empty(), Empty(), Empty())
  {
    assert files[..0] == [];
  }

  lemma SurveyStep(files: seq<ScholarFile>, i: nat, counts: Counts)
    requires i < |files|
    requires counts.areas == Tally(AllKeys(files[..i], Areas) + Kept(FileValues(files[i], Areas)))
    requires counts.places == Tally(AllKeys(files[..i], Places) + Kept(FileValues(files[i], Places)))
    requires counts.tags == Tally(AllKeys(files[..i], Tags) + Kept(FileValues(files[i], Tags)))
    ensures counts == Survey(files[..i + 1])
  {
    FileStep(files, i, Areas);
    FileStep(files, i, Places);
    FileStep(files, i, Tags);
  }

  /** The loop over the directory listing, from three empty Maps. */
  method Scan(files: seq<ScholarFile>) returns (counts: Counts)
    ensures counts.areas == Tally(AllKeys(files, Areas))
    ensures counts.places == Tally(AllKeys(files, Places))
    ensures counts.tags == Tally(AllKeys(files, Tags))
  {
    counts := Counts(Empty(), Empty(), Empty());
    SurveyStart(files);
    for i := 0 to |files|
      invariant counts == Survey(files[..i])
    {
      ghost var prefix := files[..i];
      counts := ScanFile(counts, AllKeys(prefix, Areas), AllKeys(prefix, Places), AllKeys(prefix, Tags), files[i]);
      SurveyStep(files, i, counts);
    }
    assert files[..|files|] == files;
  }

  /** The printed list for one counter: at most fifty entries, highest count first. */
  function Top(m: OrderedMap<string, nat>): seq<Entry<string>>
    requires m.Valid()
  {
    MostCommon(m, TopCount)
  }

  lemma KeptSnoc(keys: seq<string>, vals: seq<Value>, i: nat)
    requires i < |vals|
    ensures keys + Kept(vals[..i + 1]) == keys + Kept(vals[..i]) + Kept([vals[i]])
  {
    assert vals[..i + 1][..i] == vals[..i];
    assert [vals[i]][..0] == [];
  }

  lemma {:induction false} KeptAppend(a: seq<Value>, b: seq<Value>)
    ensures Kept(a + b) == Kept(a) + Kept(b)
    decreases |b|
  {
    if b == [] {
      assert a + b == a;
    } else {
      var init := b[..|b| - 1];
      var last := b[|b| - 1];
      var tail := if last.Str? && last.s != "" then [JsTrim(last.s)] else [];
      KeptAppend(a, init);
      assert (a + b)[..|a + b| - 1] == a + init && (a + b)[|a + b| - 1] == last;
      assert Kept(a + b) == Kept(a + init) + tail;
      assert Kept(b) == Kept(init) + tail;
    }
  }

  /** `add` ignores the empty string and anything that is not a string. */
  lemma AddIgnores(v: Value)
    requires v.NonString? || v.s == ""
    ensures Kept([v]) == []
  {
    assert [v][..0] == [];
  }

  /** A non-empty string is counted once, under its trimmed value. */
  lemma AddCountsTrimmed(s: string)
    requires s != ""
    ensures Kept([Str(s)]) == [JsTrim(s)]
  {
    assert [Str(s)][..0] == [];
  }

  /** The count of a key is the number of times it was added, over every file. */
  lemma SurveyCounts(files: seq<ScholarFile>, c: Counter, key: string)
    ensures var m := Tally(AllKeys(files, c));
            (key in m.values <==> key in AllKeys(files, c)) &&
            (key in m.values ==> m.values[key] == Occurrences(AllKeys(files, c), key))
  {
    TallyCounts(AllKeys(files, c));
  }

  /** Birth and death places land in the same counter as the places of stay, after them. */
  lemma BirthAndDeathArePlaces(f: ScholarFile, stay: seq<Value>, birth: string, death: string)
    requires EndsWith(f.name, ".json") && birth != "" && death != ""
    requires f.biography == Some(Biography(None, Some(stay), None, Some(Str(birth)), Some(Str(death))))
    ensures Kept(FileValues(f, Places)) == Kept(stay) + [JsTrim(birth), JsTrim(death)]
    ensures Kept(FileValues(f, Areas)) == [] && Kept(FileValues(f, Tags)) == []
  {
    KeptAppend(stay + [Str(birth)], [Str(death)]);
    KeptAppend(stay, [Str(birth)]);
    AddCountsTrimmed(birth);
    AddCountsTrimmed(death);
  }

  /** A file whose name does not end in ".json", or that has no biography, adds nothing. */
  lemma NonJsonSkipped(f: ScholarFile)
    requires !EndsWith(f.name, ".json") || f.biography.None?
    ensures FileValues(f, Areas) == [] && FileValues(f, Places) == [] && FileValues(f, Tags) == []
  {
  }

  /**
   * Each printed list has at most fifty entries, by non-increasing count, each an entry of its
   * counter and each key once; a key left out counts no more than the last one printed.
   */
  lemma TopOrdered(m: OrderedMap<string, nat>)
    requires m.Valid()
    ensures |MostCommon(m, TopCount)| == if |m.keys| < TopCount then |m.keys| else TopCount
    ensures forall i, j :: 0 <= i < j < |MostCommon(m, TopCount)| ==>
              MostCommon(m, TopCount)[i].count >= MostCommon(m, TopCount)[j].count
    ensures forall e :: e in MostCommon(m, TopCount) ==> e.key in m.values && m.values[e.key] == e.count
    ensures forall i, j :: 0 <= i < j < |MostCommon(m, TopCount)| ==>
              MostCommon(m, TopCount)[i].key != MostCommon(m, TopCount)[j].key
    ensures var top := MostCommon(m, TopCount);
            forall k :: k in m.values && (forall i :: 0 <= i < |top| ==> top[i].key != k) ==>
              m.values[k] <= top[|top| - 1].count
  {
    MostCommonDistinct(m, TopCount);
    if |m.keys| > 0 {
      MostCommonCutOff(m, TopCount);
    }
    MostCommonOrdered(m, TopCount);
    var top := MostCommon(m, TopCount);
    forall i, j | 0 <= i < j < |top| ensures top[i].count >= top[j].count {
      assert EntryCount(top[i]) >= EntryCount(top[j]);
    }
  }
}
