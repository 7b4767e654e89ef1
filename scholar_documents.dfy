/**
 * The scholar JSON documents that the two translation-overlay scripts
 * (scripts/update-translations.js, scripts/update-translations-part2.js) load, mutate in
 * place and write back, with the translation tables they share.
 */
module ScholarDocuments {
  import opened Wrappers

  /** A display object `{en, ar, ku}`. */
  datatype Display = Display(en: string, ar: string, ku: string)

  /** A translation table, in the order `Object.keys` lists its keys. */
  type Dictionary = seq<(string, Display)>

  /**
   * `Object.keys(dict).find(p)`: the position of the first key satisfying `p`.
   */
  function FindKey(dict: Dictionary, p: string -> bool): (r: Option<nat>)
    ensures r.Some? ==> r.value < |dict| && p(dict[r.value].0)
    ensures r.Some? ==> forall j :: 0 <= j < r.value ==> !p(dict[j].0)
    ensures r.None? <==> forall j :: 0 <= j < |dict| ==> !p(dict[j].0)
    decreases |dict|
  {
    if dict == [] then None
    else if p(dict[0].0) then Some(0)
    else
      var rest := FindKey(dict[1..], p);
      assert forall j :: 1 <= j < |dict| ==> dict[j] == dict[1..][j - 1];
      if rest.Some? then Some(rest.value + 1) else None
  }

  /** `dict[key]`, for a table whose keys are distinct. */
  function Get(dict: Dictionary, key: string): (r: Option<Display>)
    ensures r.Some? <==> exists j :: 0 <= j < |dict| && dict[j].0 == key
    ensures r.Some? ==> exists j :: 0 <= j < |dict| && dict[j] == (key, r.value)
  {
    var i := FindKey(dict, k => k == key);
    if i.Some? then Some(dict[i.value].1) else None
  }

  /** The relation lists `updateScholarObject` walks, in its order. */
  datatype Relation = Parents | Spouses | Siblings | Children | Teachers | Students

  const Relations: seq<Relation> := [Parents, Spouses, Siblings, Children, Teachers, Students]

  /** An entry of a relation list; a missing or null grade is None. */
  datatype Person = Person(id: string, name: string, grade: Option<string>, gradeDisplay: Option<Display>)

  /** An entry of the `hadiths` list. */
  datatype HadithItem = HadithItem(source: Option<string>, sourceDisplay: Option<Display>)

  /** `birth` or `death`: a place, and the display the overlay may add. */
  datatype Event = Event(place: Option<string>, placeDisplay: Option<Display>)

  /**
   * The `biography` object. A list field is None when it is absent or not an array,
   * and its `_display` companion is None until the overlay adds one.
   */
  datatype Biography = Biography(
    areaOfInterest: Option<seq<string>>, areaOfInterestDisplay: Option<seq<Display>>,
    placesOfStay: Option<seq<string>>, placesOfStayDisplay: Option<seq<Display>>,
    tags: Option<seq<string>>, tagsDisplay: Option<seq<Display>>,
    birth: Option<Event>, death: Option<Event>)

  /**
   * One parsed scholar file. A relation list that is absent or not an array has no key in
   * `relations`; `hadiths` is None when absent or not an array.
   */
  class ScholarDocument {
    var grade: Option<string>
    var gradeDisplay: Option<Display>
    var relations: map<Relation, seq<Person>>
    var hadiths: Option<seq<HadithItem>>
    var biography: Option<Biography>

    constructor (grade: Option<string>, relations: map<Relation, seq<Person>>,
                 hadiths: Option<seq<HadithItem>>, biography: Option<Biography>)
      ensures this.grade == grade && gradeDisplay == None
      ensures this.relations == relations && this.hadiths == hadiths && this.biography == biography
    {
      this.grade := grade;
      gradeDisplay := None;
      this.relations := relations;
      this.hadiths := hadiths;
      this.biography := biography;
    }
  }

  /** `BOOKS`, declared identically by both overlay scripts. */
  const Books: Dictionary := [
    ("Sahih Bukhari", Display("Sahih Bukhari", "صحيح البخاري", "سەحیحی بوخاری")),
    ("Sahih Muslim", Display("Sahih Muslim", "صحيح مسلم", "سەحیحی موسليم")),
    ("Sunan an-Nasa'i", Display("Sunan an-Nasa'i", "سنن النسائي", "سونەنی نەسائی")),
    ("Sunan Abi Da'ud", Display("Sunan Abi Da'ud", "سنن أبي داود", "سونەنی ئەبی داود")),
    ("Sunan Ibn Majah", Display("Sunan Ibn Majah", "سنن ابن ماجه", "سونەنی ئیبن ماجە")),
    ("Jami' al-Tirmidhi", Display("Jami' al-Tirmidhi", "جامع الترمذي", "جاميعي تیرمیزی"))
  ]
}
