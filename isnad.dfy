/**
 * Isnad chain resolution (lib/isnad.ts): an ordered list of narrator ids becomes an
 * ordered list of display names, one per id, falling back to the raw id.
 */
module Isnad {
  import opened Wrappers
  import opened Text

  /** A search-index entry; absent or null fields are None. */
  datatype IndexEntry = IndexEntry(id: string, name: Option<string>, grade: Option<string>,
                                   reliabilityGrade: Option<string>)

  datatype NarratorView = NarratorView(id: string, name: string, grade: string, reliabilityGrade: string)

  /** The fields `fetch` of a scholar file can deliver. */
  datatype ScholarFile = ScholarFile(name: Option<string>, fullName: Option<string>)

  /** What `fetch` of `/data/scholars/{id}.json` came back with. */
  datatype FetchOutcome = Ok(data: ScholarFile) | NotOk | Threw

  /** JavaScript `v || fallback` on a string that may be absent: only a non-empty string is truthy. */
  function OrElse(v: Option<string>, fallback: string): (r: string)
    ensures r == fallback || (v.Some? && r == v.value && r != [])
  {
    if v.Some? && v.value != [] then v.value else fallback
  }

  /** `full.split('(')[0].trim()`: the English part of a display name. */
  function EnglishName(full: string): (r: string)
    ensures '(' !in r
    ensures r == [] || (!IsJsSpace(r[0]) && !IsJsSpace(r[|r| - 1]))
  {
    var before := Before(full, '(');
    var r := JsTrim(before);
    TrimChars(Js, before, '(');
    r
  }

  /** A name with no parenthesis and no surrounding whitespace is kept as it is. */
  lemma EnglishNameOfPlain(name: string)
    requires '(' !in name
    requires name == [] || (!IsJsSpace(name[0]) && !IsJsSpace(name[|name| - 1]))
    ensures EnglishName(name) == name
  {
    assert Before(name, '(') == name;
    TrimOfTrimmed(Js, name);
  }

  lemma EnglishNameIdempotent(full: string)
    ensures EnglishName(EnglishName(full)) == EnglishName(full)
  {
    EnglishNameOfPlain(EnglishName(full));
  }

  /** `searchIndex.find(s => s.id === id)`, as the position of the first match. */
  function FirstWithId(index: seq<IndexEntry>, id: string): (r: Option<nat>)
    ensures r.None? <==> forall j :: 0 <= j < |index| ==> index[j].id != id
    ensures r.Some? ==> r.value < |index| && index[r.value].id == id &&
                        forall j :: 0 <= j < r.value ==> index[j].id != id
    decreases |index|
  {
    if index == [] then None
    else if index[0].id == id then Some(0)
    else match FirstWithId(index[1..], id)
      case None => None
      case Some(k) => Some(k + 1)
  }

  /** Entry `k` is the first entry of the index with this id. */
  predicate FirstAt(index: seq<IndexEntry>, id: string, k: nat)
  {
    k < |index| && index[k].id == id && forall j :: 0 <= j < k ==> index[j].id != id
  }

  /** There is at most one first entry with a given id. */
  lemma FirstAtUnique(index: seq<IndexEntry>, id: string, k: nat)
    requires FirstAt(index, id, k)
    ensures forall k': nat :: FirstAt(index, id, k') ==> k' == k
  {
    forall k': nat | FirstAt(index, id, k')
      ensures k' == k
    {
      assert index[k].id == id && index[k'].id == id;
    }
  }

  /** The view of one id. */
  function ViewOf(id: string, index: seq<IndexEntry>): (v: NarratorView)
    ensures v.id == id
    // an id missing from the index is shown as itself, with empty grades
    ensures (forall j :: 0 <= j < |index| ==> index[j].id != id) ==> v == NarratorView(id, id, "", "")
    // a found id uses the first entry with that id
    ensures forall k: nat :: FirstAt(index, id, k) ==>
              && v.name == EnglishName(OrElse(index[k].name, id))
              && v.grade == OrElse(index[k].grade, "")
              && v.reliabilityGrade == OrElse(index[k].reliabilityGrade, "")
    // the displayed name never carries the parenthesised part, unless it is the raw id
    ensures '(' !in v.name || v.name == id
  {
    match FirstWithId(index, id)
    case None => NarratorView(id, id, "", "")
    case Some(k) =>
      FirstAtUnique(index, id, k);
      var e := index[k];
      NarratorView(id, EnglishName(OrElse(e.name, id)), OrElse(e.grade, ""), OrElse(e.reliabilityGrade, ""))
  }

  /** `resolveIsnadChainSync`: one view per id, in order, each depending only on its own id. */
  function ResolveIsnadChainSync(chainIds: seq<string>, index: seq<IndexEntry>): (r: seq<NarratorView>)
    ensures |r| == |chainIds|
    ensures forall i :: 0 <= i < |r| ==> r[i].id == chainIds[i] && r[i] == ViewOf(chainIds[i], index)
    ensures forall i, j :: 0 <= i < |r| && 0 <= j < |r| && chainIds[i] == chainIds[j] ==> r[i] == r[j]
  {
    seq(|chainIds|, i requires 0 <= i < |chainIds| => ViewOf(chainIds[i], index))
  }

  /** The name pushed for one id by `resolveIsnadChain`. */
  function FetchedName(id: string, outcome: FetchOutcome): string
  {
    match outcome
    case Ok(data) => EnglishName(OrElse(data.name, OrElse(data.fullName, id)))
    case _ => id
  }

  /**
   * `resolveIsnadChain`, with the HTTP request replaced by `fetch`, which says what the
   * request for a given id came back with.
   */
  method ResolveIsnadChain(chainIds: seq<string>, fetch: string -> FetchOutcome) returns (names: seq<string>)
    ensures |names| == |chainIds|
    ensures forall i :: 0 <= i < |chainIds| ==> names[i] == FetchedName(chainIds[i], fetch(chainIds[i]))
    ensures forall i :: 0 <= i < |chainIds| && !fetch(chainIds[i]).Ok? ==> names[i] == chainIds[i]
    ensures forall i :: 0 <= i < |chainIds| && fetch(chainIds[i]).Ok? ==> '(' !in names[i] || names[i] == chainIds[i]
  {
    names := [];
    var i := 0;
    while i < |chainIds|
      invariant 0 <= i <= |chainIds|
      invariant |names| == i
      invariant forall j :: 0 <= j < i ==> names[j] == FetchedName(chainIds[j], fetch(chainIds[j]))
    {
      var id := chainIds[i];
      match fetch(id) {
        case Ok(data) =>
          var fullName := OrElse(data.name, OrElse(data.fullName, id));
          names := names + [EnglishName(fullName)];
        case NotOk =>
          names := names + [id];
        case Threw =>
          names := names + [id];
      }
      i := i + 1;
    }
  }

  function ScenarioIndex(): seq<IndexEntry>
  {
    [IndexEntry("1", Some("Scholar One"), None, None), IndexEntry("2", Some("Scholar Two"), None, None)]
  }

  /** A chain with one unknown id between two known ones. */
  lemma UnknownLinkKeepsPosition()
    ensures var r := ResolveIsnadChainSync(["1", "unknown-99", "2"], ScenarioIndex());
            && |r| == 3
            && r[0] == NarratorView("1", "Scholar One", "", "")
            && r[1] == NarratorView("unknown-99", "unknown-99", "", "")
            && r[2] == NarratorView("2", "Scholar Two", "", "")
  {
    ScenarioViews();
    var r := ResolveIsnadChainSync(["1", "unknown-99", "2"], ScenarioIndex());
    assert r[0] == ViewOf("1", ScenarioIndex());
    assert r[1] == ViewOf("unknown-99", ScenarioIndex());
    assert r[2] == ViewOf("2", ScenarioIndex());
  }

  lemma ScenarioViews()
    ensures ViewOf("1", ScenarioIndex()) == NarratorView("1", "Scholar One", "", "")
    ensures ViewOf("unknown-99", ScenarioIndex()) == NarratorView("unknown-99", "unknown-99", "", "")
    ensures ViewOf("2", ScenarioIndex()) == NarratorView("2", "Scholar Two", "", "")
  {
    ScenarioFirst();
    ScenarioSecond();
    assert FirstWithId(ScenarioIndex(), "unknown-99") == None;
  }

  lemma ScenarioFirst()
    ensures ViewOf("1", ScenarioIndex()) == NarratorView("1", "Scholar One", "", "")
  {
    var index := ScenarioIndex();
    assert index[0].id == "1";
    assert FirstWithId(index, "1") == Some(0);
    assert OrElse(index[0].name, "1") == "Scholar One";
    PlainScenarioNames();
  }

  lemma ScenarioSecond()
    ensures ViewOf("2", ScenarioIndex()) == NarratorView("2", "Scholar Two", "", "")
  {
    var index := ScenarioIndex();
    assert index[0].id != "2";
    assert index[1..] == [IndexEntry("2", Some("Scholar Two"), None, None)];
    assert FirstWithId(index[1..], "2") == Some(0);
    assert FirstWithId(index, "2") == Some(1);
    assert OrElse(index[1].name, "2") == "Scholar Two";
    PlainScenarioNames();
  }

  lemma PlainScenarioNames()
    ensures EnglishName("Scholar One") == "Scholar One"
    ensures EnglishName("Scholar Two") == "Scholar Two"
  {
    PlainScholarOne();
    PlainScholarTwo();
  }

  lemma PlainScholarOne()
    ensures EnglishName("Scholar One") == "Scholar One"
  {
    var name := "Scholar One";
    assert forall k :: 0 <= k < |name| ==> name[k] != '(';
    assert !IsJsSpace(name[0]) && !IsJsSpace(name[|name| - 1]);
    EnglishNameOfPlain(name);
  }

  lemma PlainScholarTwo()
    ensures EnglishName("Scholar Two") == "Scholar Two"
  {
    var name := "Scholar Two";
    assert forall k :: 0 <= k < |name| ==> name[k] != '(';
    assert !IsJsSpace(name[0]) && !IsJsSpace(name[|name| - 1]);
    EnglishNameOfPlain(name);
  }
}
