/**
 * The locale overlay for cities and tags (lib/translations.ts): a lookup by trimmed key
 * that falls back to the raw value.
 */
module Translations {
  import opened Text

  import opened Wrappers

  /** One table entry: the display string per locale. */
  datatype LocaleText = LocaleText(en: string, ar: string, ckb: string)

  /** `entry[locale]`. */
  function InLocale(t: LocaleText, locale: string): Option<string>
  {
    if locale == "en" then Some(t.en)
    else if locale == "ar" then Some(t.ar)
    else if locale == "ckb" then Some(t.ckb)
    else None
  }

  /** `cityTranslations[key]`. */
  function CityEntry(key: string): Option<LocaleText>
  {
    if key == "Makkah" then Some(LocaleText("Makkah", "مكة", "مەككە"))
    else if key == "Medinah" then Some(LocaleText("Medinah", "المدينة", "مەدینە"))
    else if key == "Medina" then Some(LocaleText("Medina", "المدينة", "مەدینە"))
    else if key == "Basrah" then Some(LocaleText("Basrah", "البصرة", "بەسرە"))
    else if key == "Kufa" then Some(LocaleText("Kufa", "الكوفة", "کوفە"))
    else if key == "Damascus" then Some(LocaleText("Damascus", "دمشق", "دیمەشق"))
    else if key == "Baghdad" then Some(LocaleText("Baghdad", "بغداد", "بەغدا"))
    else if key == "Egypt" then Some(LocaleText("Egypt", "مصر", "میسر"))
    else if key == "Syria" then Some(LocaleText("Syria", "الشام", "شام"))
    else if key == "Yemen" then Some(LocaleText("Yemen", "اليمن", "یەمەن"))
    else if key == "Taif" then Some(LocaleText("Taif", "الطائف", "تائیف"))
    else if key == "Jerusalem" then Some(LocaleText("Jerusalem", "القدس", "قودس"))
    else None
  }

  /** `tagTranslations[key]`. */
  function TagEntry(key: string): Option<LocaleText>
  {
    if key == "Quraish" then Some(LocaleText("Quraish", "قريش", "قورەیش"))
    else if key == "Ansar" then Some(LocaleText("Ansar", "الأنصار", "ئەنسار"))
    else if key == "Khazraj" then Some(LocaleText("Khazraj", "الخزرج", "خەزرەج"))
    else if key == "Aws" then Some(LocaleText("Aws", "الأوس", "ئەوس"))
    else if key == "B.Hashim" then Some(LocaleText("Banu Hashim", "بنو هاشم", "بەنی هاشم"))
    else if key == "Prophet" then Some(LocaleText("Prophet", "النبي", "پێغەمبەر"))
    else if key == "Rasool" then Some(LocaleText("Messenger", "الرسول", "نێردراو"))
    else if key == "Companion" then Some(LocaleText("Companion", "صحابي", "هاوەڵ"))
    else if key == "Servant" then Some(LocaleText("Servant", "خادم", "خزمەتکار"))
    else if key == "Scribe" then Some(LocaleText("Scribe", "كاتب", "نووسەر"))
    else if key == "Badr" then Some(LocaleText("Battle of Badr", "غزوة بدر", "شەڕی بەدر"))
    else if key == "Uhud" then Some(LocaleText("Battle of Uhud", "غزوة أحد", "شەڕی ئوحود"))
    else if key == "Khandaq" then Some(LocaleText("Battle of Khandaq", "غزوة الخندق", "شەڕی خەندەق"))
    else if key == "Hunayn" then Some(LocaleText("Battle of Hunayn", "غزوة حنين", "شەڕی حونەین"))
    else if key == "Tabuk" then Some(LocaleText("Battle of Tabuk", "غزوة تبوك", "شەڕی تەبووک"))
    else if key == "Muhajireen" then Some(LocaleText("Muhajireen", "المهاجرون", "موهاجیرون"))
    else if key == "Sahaba" then Some(LocaleText("Companions", "الصحابة", "سەحابە"))
    else if key == "Tabi'un" then Some(LocaleText("Tabi'un", "التابعون", "تابعون"))
    else None
  }

  datatype Kind = City | Tag

  function Lookup(kind: Kind, key: string): Option<LocaleText>
  {
    match kind
    case City => CityEntry(key)
    case Tag => TagEntry(key)
  }

  /** The table has a non-empty display string for `key` in `locale`. */
  predicate HasTranslation(kind: Kind, key: string, locale: string)
  {
    Lookup(kind, key).Some? && InLocale(Lookup(kind, key).value, locale).Some? &&
    InLocale(Lookup(kind, key).value, locale).value != []
  }

  /** `translateValue(value, locale, type = 'city')`. */
  function TranslateValue(value: string, locale: string, kind: Kind := City): (r: string)
    // the empty string comes back unchanged
    ensures value == [] ==> r == value
    // a hit on the trimmed value gives the locale's entry
    ensures value != [] && HasTranslation(kind, JsTrim(value), locale) ==>
              r == InLocale(Lookup(kind, JsTrim(value)).value, locale).value
    // on a miss the original, untrimmed value comes back
    ensures !HasTranslation(kind, JsTrim(value), locale) ==> r == value
  {
    if value == [] then value
    else
      match Lookup(kind, JsTrim(value))
      case Some(t) =>
        (match InLocale(t, locale)
         case Some(text) => if text != [] then text else value
         case None => value)
      case None => value
  }

  /** `translateArray`: element by element, same length and order. */
  function TranslateArray(values: seq<string>, locale: string, kind: Kind := City): (r: seq<string>)
    ensures |r| == |values|
    ensures forall i :: 0 <= i < |r| ==> r[i] == TranslateValue(values[i], locale, kind)
  {
    seq(|values|, i requires 0 <= i < |values| => TranslateValue(values[i], locale, kind))
  }

  lemma BadrIsTranslatedAsTag()
    ensures TranslateValue("Badr", "en", Tag) == "Battle of Badr"
    ensures TranslateValue("Badr", "ar", Tag) == "غزوة بدر"
  {
    TrimOfTrimmed(Js, "Badr");
  }

  /** The tables carry en, ar and ckb only: any other locale falls back to the raw value. */
  lemma UnknownLocaleFallsBack(value: string, kind: Kind)
    ensures TranslateValue(value, "ku", kind) == value
  {
  }

  /** The default table is the city table, so a tag on its own is not translated. */
  lemma TagNeedsTagKind()
    ensures TranslateValue("Badr", "en") == "Badr"
  {
    TrimOfTrimmed(Js, "Badr");
  }

  /** The key is trimmed, so surrounding spaces still hit the table. */
  lemma PaddedKeyHits()
    ensures TranslateValue(" Kufa ", "ar") == "الكوفة"
  {
    assert TrimStart(Js, " Kufa ") == "Kufa ";
    assert TrimEnd(Js, "Kufa ") == "Kufa";
  }

  /** On a miss the padding is kept. */
  lemma PaddedMissKeepsPadding()
    ensures TranslateValue(" Mars ", "ar") == " Mars "
  {
    assert !IsSpace(Js, 'M');
    assert TrimStart(Js, "Mars ") == "Mars ";
    assert TrimStart(Js, " Mars ") == "Mars ";
    assert TrimEnd(Js, "Mars ") == "Mars";
    assert CityEntry("Mars") == None;
  }
}
