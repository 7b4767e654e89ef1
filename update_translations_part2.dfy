/**
 * scripts/update-translations-part2.js: the second overlay. It adds `book_display` to
 * hadith-index entries, parallel `_display` arrays for the biography's areas, places and
 * tags, and a `place_display` for birth and death places that mention a known city.
 */
module UpdateTranslationsPart2 {
  import opened Wrappers
  import opened Text
  import opened ScholarDocuments

  const Areas: Dictionary := [
    ("Hadith", Display("Hadith", "حديث", "فەرموودە")),
    ("Fiqh", Display("Fiqh", "فقه", "فیقهـ")),
    ("Faqih", Display("Faqih", "فقيه", "فەقیهـ")),
    ("Qira'at", Display("Qira'at", "قراءات", "قیرائات")),
    ("Tafsir", Display("Tafsir", "تفسير", "تەفسیر")),
    ("Tafsir/Quran", Display("Tafsir/Quran", "تفسير القرآن", "تەفسیر/قورئان")),
    ("Recitation/Quran", Display("Recitation/Quran", "تلاوة القرآن", "خوێندنەوە/قورئان")),
    ("History", Display("History", "تاريخ", "مێژوو")),
    ("Grammar", Display("Grammar", "نحو", "رێزمان")),
    ("Literature", Display("Literature", "أدب", "ئەدەب")),
    ("Medicine", Display("Medicine", "طب", "پزیشكی")),
    ("Astronomy", Display("Astronomy", "فلك", "گەردوونناسی")),
    ("Logic", Display("Logic", "منطق", "مەنتیق")),
    ("Philosophy", Display("Philosophy", "فلسفة", "فەلسەفە")),
    ("Geography", Display("Geography", "جغرافيا", "جوگرافیا")),
    ("Mathematics", Display("Mathematics", "رياضيات", "بیركاری")),
    ("Sira", Display("Sira", "سيرة", "ژیاننامە")),
    ("Aqidah", Display("Aqidah", "عقيدة", "بیروباوەڕ")),
    ("Usul al-Fiqh", Display("Usul al-Fiqh", "أصول الفقه", "بنەماكانی فیقهـ")),
    ("Inheritance", Display("Inheritance", "مواريث", "میرات")),
    ("Spirituality", Display("Spirituality", "روحانيات", "رۆحانیەت")),
    ("Poetry", Display("Poetry", "شعر", "شیعر")),
    ("Politics", Display("Politics", "سياسة", "سیاسەت")),
    ("Genealogy", Display("Genealogy", "أنساب", "رەچەڵەكناسی")),
    ("Commander", Display("Commander", "قائد", "سەركردە")),
    ("Reformer", Display("Reformer", "مصلح", "چاکساز"))
  ]

  const Places: Dictionary := [
    ("Makkah", Display("Makkah", "مكة المكرمة", "مەككە")),
    ("Medina", Display("Medina", "المدينة المنورة", "مەدینە")),
    ("al-Medina", Display("Medina", "المدينة المنورة", "مەدینە")),
    ("Kufa", Display("Kufa", "الكوفة", "كوفە")),
    ("al-Kufa", Display("Kufa", "الكوفة", "كوفە")),
    ("Basra", Display("Basra", "البصرة", "بەسرە")),
    ("al-Basra", Display("Basra", "البصرة", "بەسرە")),
    ("Baghdad", Display("Baghdad", "بغداد", "بەغداد")),
    ("Damascus", Display("Damascus", "دمشق", "دیمەشق")),
    ("Egypt", Display("Egypt", "مصر", "میسر")),
    ("Yemen", Display("Yemen", "اليمن", "یەمەن")),
    ("Syria", Display("Syria", "الشام", "شام")),
    ("al-Sham", Display("Syria", "الشام", "شام")),
    ("Wasit", Display("Wasit", "واسط", "واسیت")),
    ("Ray", Display("Ray", "الري", "ڕەی")),
    ("Khurasan", Display("Khurasan", "خراسان", "خۆراسان")),
    ("Balkh", Display("Balkh", "بلخ", "بەڵخ")),
    ("Bukhara", Display("Bukhara", "بخاري", "بوخارا")),
    ("Nishapur", Display("Nishapur", "نيسابور", "نیشابور")),
    ("Marw", Display("Marw", "مرو", "مەرو")),
    ("Samarkand", Display("Samarkand", "سمرقند", "سەمەرقەند")),
    ("Herat", Display("Herat", "هرات", "هیرات")),
    ("Isfahan", Display("Isfahan", "أصفهان", "ئەسفەهان")),
    ("Mosul", Display("Mosul", "الموصل", "موسڵ")),
    ("Himss", Display("Homs", "حمص", "حومس")),
    ("Jerusalem", Display("Jerusalem", "القدس", "قودس")),
    ("Tehran", Display("Tehran", "طهران", "تاران")),
    ("Cairo", Display("Cairo", "القاهرة", "قاهیرە")),
    ("Alexandria", Display("Alexandria", "الإسكندرية", "ئەسكەندەریە")),
    ("Taif", Display("Taif", "الطائف", "تائیف")),
    ("Hijaz", Display("Hijaz", "الحجاز", "حیجاز")),
    ("al-Hijaz", Display("Hijaz", "الحجاز", "حیجاز")),
    ("Andalusia", Display("Andalusia", "الأندلس", "ئەندەلوس")),
    ("Cordoba", Display("Cordoba", "قرطبة", "قورتوبە")),
    ("Ahwaz", Display("Ahwaz", "الأهواز", "ئەهواز")),
    ("Shiraz", Display("Shiraz", "شيراز", "شیراز")),
    ("Qom", Display("Qom", "قم", "قوم"))
  ]

  const Tags: Dictionary := [
    ("Ansar", Display("Ansar", "الأنصار", "ئەنسار")),
    ("Muhajirun", Display("Muhajirun", "المهاجرون", "كۆچبەران")),
    ("Quraish", Display("Quraish", "قريش", "قوڕەیش")),
    ("Companion", Display("Companion", "صحابي", "هاوەڵ")),
    ("Tabi'i", Display("Tabi'i", "تابعي", "شوێنكەوتوو")),
    ("Badr", Display("Battle of Badr", "غزوة بدر", "جەنگی بەدر")),
    ("Uhud", Display("Battle of Uhud", "غزوة أحد", "جەنگی ئوحود")),
    ("Khandaq", Display("Battle of the Trench", "غزوة الخندق", "جەنگی خەندەق")),
    ("Hudaybiyyah", Display("Treaty of Hudaybiyyah", "صلح الحديبية", "پەیمانی حودەیبیە")),
    ("Conquest of Makkah", Display("Conquest of Makkah", "فتح مكة", "فەتحی مەككە")),
    ("Hunayn", Display("Battle of Hunayn", "غزوة حنين", "جەنگی حونەین")),
    ("Tabuk", Display("Battle of Tabuk", "غزوة تبوك", "جەنگی تەبووك")),
    ("Jamal", Display("Battle of the Camel", "موقعة الجمل", "جەنگی جەمەل")),
    ("Siffin", Display("Battle of Siffin", "وقعة صفين", "جەنگی سفیین")),
    ("Karbala", Display("Battle of Karbala", "معركة كربلاء", "جەنگی كەربەلا")),
    ("B.Hashim", Display("Banu Hashim", "بنو هاشم", "بەنی هاشم")),
    ("B.Umayya", Display("Banu Umayya", "بنو أمية", "بەنی ئومەیە")),
    ("B.Abbas", Display("Banu Abbas", "بنو العباس", "بەنی عەباس")),
    ("B.Tamim", Display("Banu Tamim", "بنو تميم", "بەنی تەمیم")),
    ("B.Asad", Display("Banu Asad", "بنو أسد", "بەنی ئەسەد")),
    ("B.Makhzum", Display("Banu Makhzum", "بنو مخزوم", "بەنی مەخزوم")),
    ("B.Zuhrah", Display("Banu Zuhrah", "بنو زهرة", "بەنی زوهرە")),
    ("Ahl al-Bayt", Display("Ahl al-Bayt", "أهل البيت", "ئەهلی بەیت")),
    ("Mothers of Believers", Display("Mothers of Believers", "أمهات المؤمنين", "دایكی باوەڕداران")),
    ("Ten Promised Paradise", Display("Ten Promised Paradise", "العشرة المبشرون بالجنة", "دە مژدەپێدراوی بەهەشت")),
    ("Prophet", Display("Prophet", "نبي", "پێغەمبەر")),
    ("Rasool", Display("Rasool", "رسول", "رەسوڵ")),
    ("Client", Display("Client (Mawla)", "مولى", "مەولا")),
    ("Female", Display("Female", "أنثى", "مێ")),
    ("Child", Display("Child (Young Companion)", "صغير الصحابة", "منداڵ")),
    ("Judge", Display("Judge (Qadi)", "قاضي", "دادوەر")),
    ("Early Muslim", Display("Early Muslim", "من السابقين الأولين", "موسڵمانی سەرەتا")),
    ("Late Muslim", Display("Late Muslim", "أسلم متأخرا", "موسڵمانی درەنگ")),
    ("Sahaba", Display("Sahaba", "صحابة", "سەحابە")),
    ("Khazraj", Display("Khazraj", "الخزرج", "خەزرەج")),
    ("Aws", Display("Aws", "الأوس", "ئەوس"))
  ]

  /** The four dictionaries the script consults. */
  datatype Overlays = Overlays(areas: Dictionary, places: Dictionary, tags: Dictionary, books: Dictionary)

  const Script: Overlays := Overlays(Areas, Places, Tags, Books)

  /**
   * `getTranslation(value, dictionary)`: null for a missing or empty value; otherwise the
   * entry for the trimmed value, else the first key equal to it ignoring case, else null.
   */
  function GetTranslation(value: Option<string>, dict: Dictionary): (r: Option<Display>)
    ensures value.None? || value.value == "" ==> r.None?
    ensures r.Some? ==> exists j :: 0 <= j < |dict| && dict[j].1 == r.value &&
                                    Lower(dict[j].0) == Lower(JsTrim(value.value))
    ensures value.Some? && value.value != "" ==>
              (r.None? <==> forall j :: 0 <= j < |dict| ==> Lower(dict[j].0) != Lower(JsTrim(value.value)))
    ensures value.Some? && value.value != "" && FindKey(dict, k => k == JsTrim(value.value)).Some? ==>
              r == Some(dict[FindKey(dict, k => k == JsTrim(value.value)).value].1)
    ensures value.Some? && value.value != "" && FindKey(dict, k => k == JsTrim(value.value)).None? && r.Some? ==>
              exists j :: 0 <= j < |dict| && dict[j].1 == r.value &&
                          Lower(dict[j].0) == Lower(JsTrim(value.value)) &&
                          forall k :: 0 <= k < j ==> Lower(dict[k].0) != Lower(JsTrim(value.value))
  {
    if value.None? || value.value == "" then None
    else
      var key := JsTrim(value.value);
      var exact := FindKey(dict, k => k == key);
      if exact.Some? then Some(dict[exact.value].1)
      else
        var loose := FindKey(dict, k => Lower(k) == Lower(key));
        if loose.Some? then Some(dict[loose.value].1) else None
  }

  /** A trimmed, non-empty key of the dictionary, listed once, translates to its own entry. */
  lemma KeyTranslatesToItsEntry(dict: Dictionary, j: nat)
    requires j < |dict| && dict[j].0 != "" && JsTrim(dict[j].0) == dict[j].0
    requires forall k :: 0 <= k < |dict| && k != j ==> dict[k].0 != dict[j].0
    ensures GetTranslation(Some(dict[j].0), dict) == Some(dict[j].1)
  {
    var key := dict[j].0;
    assert FindKey(dict, k => k == key).Some?;
  }

  /** The display object `processArray` pushes for one item. */
  function ItemDisplay(item: string, dict: Dictionary): Display
  {
    match GetTranslation(Some(item), dict)
    case Some(t) => t
    case None => Display(item, item, item)
  }

  /** An untranslated item shows itself in all three languages; a translated one shows a dictionary entry. */
  lemma ItemDisplayFacts(item: string, dict: Dictionary)
    ensures GetTranslation(Some(item), dict).None? ==> ItemDisplay(item, dict) == Display(item, item, item)
    ensures GetTranslation(Some(item), dict).Some? ==> exists j :: 0 <= j < |dict| && dict[j].1 == ItemDisplay(item, dict)
  {
  }

  /** `f` applied to every item, in order. */
  function MapItems<T>(items: seq<string>, f: string -> T): (ds: seq<T>)
    ensures |ds| == |items|
    ensures forall i :: 0 <= i < |items| ==> ds[i] == f(items[i])
  {
    seq(|items|, i requires 0 <= i < |items| => f(items[i]))
  }

  lemma MapItemsSnoc<T>(items: seq<string>, i: nat, f: string -> T)
    requires i < |items|
    ensures MapItems(items[..i + 1], f) == MapItems(items[..i], f) + [f(items[i])]
  {
  }

  /** The parallel display array: one entry per item, in the same order. */
  function DisplayArray(items: seq<string>, dict: Dictionary): (ds: seq<Display>)
    ensures |ds| == |items|
    ensures forall i :: 0 <= i < |items| ==> ds[i] == ItemDisplay(items[i], dict)
  {
    MapItems(items, item => ItemDisplay(item, dict))
  }

  lemma DisplayArraySnoc(items: seq<string>, i: nat, dict: Dictionary)
    requires i < |items|
    ensures DisplayArray(items[..i + 1], dict) == DisplayArray(items[..i], dict) + [ItemDisplay(items[i], dict)]
  {
    var f := item => ItemDisplay(item, dict);
    MapItemsSnoc(items, i, f);
    assert f(items[i]) == ItemDisplay(items[i], dict);
  }

  /**
   * `processArray(arr, dictionary)`: undefined (None) for a non-array; otherwise the whole
   * display array, even when no item was translated (`foundAny` is never read).
   */
  method ProcessArray(arr: Option<seq<string>>, dict: Dictionary) returns (disp: Option<seq<Display>>)
    ensures disp.Some? <==> arr.Some?
    ensures disp.Some? ==> disp.value == DisplayArray(arr.value, dict)
  {
    if arr.None? {
      return None;
    }
    var items := arr.value;
    var displayArr := [];
    var foundAny := false;
    for i := 0 to |items|
      invariant displayArr == DisplayArray(items[..i], dict)
    {
      DisplayArraySnoc(items, i, dict);
      var trans := GetTranslation(Some(items[i]), dict);
      if trans.Some? {
        displayArr := displayArr + [trans.value];
        foundAny := true;
      } else {
        displayArr := displayArr + [Display(items[i], items[i], items[i])];
      }
    }
    assert items[..|items|] == items;
    disp := Some(displayArr);
  }

  /**
   * The `place_display` for a place string: the first PLACES key, in table order, that
   * occurs in it; English keeps the place, Arabic and Kurdish replace the first occurrence.
   */
  function PlaceDisplay(place: string, dict: Dictionary): (r: Option<Display>)
    ensures r.None? <==> forall j :: 0 <= j < |dict| ==> !Contains(place, dict[j].0)
    ensures r.Some? ==>
              exists j :: 0 <= j < |dict| && Contains(place, dict[j].0) &&
                          (forall k :: 0 <= k < j ==> !Contains(place, dict[k].0)) &&
                          r.value == Display(place, ReplaceFirst(place, dict[j].0, dict[j].1.ar),
                                             ReplaceFirst(place, dict[j].0, dict[j].1.ku))
  {
    var found := FindKey(dict, city => Contains(place, city));
    if found.None? then None
    else
      var city := dict[found.value].0;
      var trans := dict[found.value].1;
      Some(Display(place, ReplaceFirst(place, city, trans.ar), ReplaceFirst(place, city, trans.ku)))
  }

  /**
   * The Arabic display is the place with the leftmost occurrence of the matched city, the
   * `j`-th key, replaced by its translation.
   */
  lemma PlaceDisplaySplices(place: string, dict: Dictionary) returns (j: nat, i: nat)
    requires PlaceDisplay(place, dict).Some?
    ensures j < |dict| && i + |dict[j].0| <= |place| && place[i..i + |dict[j].0|] == dict[j].0
    ensures forall k :: 0 <= k < i ==> !StartsWith(place[k..], dict[j].0)
    ensures PlaceDisplay(place, dict).value.ar == place[..i] + dict[j].1.ar + place[i + |dict[j].0|..]
  {
    j := FindKey(dict, city => Contains(place, city)).value;
    i := ReplaceFirstAt(place, dict[j].0, dict[j].1.ar);
  }

  /** A birth or death event after the overlay, and whether it was given a display. */
  function EventOverlay(o: Overlays, e: Option<Event>): (Option<Event>, bool)
  {
    if e.Some? && e.value.place.Some? && e.value.place.value != "" &&
       PlaceDisplay(e.value.place.value, o.places).Some?
    then (Some(e.value.(placeDisplay := PlaceDisplay(e.value.place.value, o.places))), true)
    else (e, false)
  }

  /** The biography after the scholar-file step of `main`. */
  function BiographyOverlay(o: Overlays, b: Biography): Biography
  {
    b.(areaOfInterestDisplay := if b.areaOfInterest.Some? then Some(DisplayArray(b.areaOfInterest.value, o.areas))
                                else b.areaOfInterestDisplay,
       placesOfStayDisplay := if b.placesOfStay.Some? then Some(DisplayArray(b.placesOfStay.value, o.places))
                              else b.placesOfStayDisplay,
       tagsDisplay := if b.tags.Some? then Some(DisplayArray(b.tags.value, o.tags)) else b.tagsDisplay,
       birth := EventOverlay(o, b.birth).0,
       death := EventOverlay(o, b.death).0)
  }

  /** The `modified` flag: some display field was (re)written. */
  predicate Modified(o: Overlays, b: Biography)
  {
    b.areaOfInterest.Some? || b.placesOfStay.Some? || b.tags.Some? || EventOverlay(o, b.birth).1 ||
    EventOverlay(o, b.death).1
  }

  /** An unmodified biography is left exactly as it was. */
  lemma UnmodifiedIsUnchanged(o: Overlays, b: Biography)
    requires !Modified(o, b)
    ensures BiographyOverlay(o, b) == b
  {
  }

  /** A modified biography carries at least one display, and the source lists are kept. */
  lemma ModifiedAddsDisplay(o: Overlays, b: Biography)
    requires Modified(o, b)
    ensures var o := BiographyOverlay(o, b);
            o.areaOfInterestDisplay.Some? || o.placesOfStayDisplay.Some? || o.tagsDisplay.Some? ||
            (o.birth.Some? && o.birth.value.placeDisplay.Some?) ||
            (o.death.Some? && o.death.value.placeDisplay.Some?)
    ensures var o := BiographyOverlay(o, b);
            o.areaOfInterest == b.areaOfInterest && o.placesOfStay == b.placesOfStay && o.tags == b.tags
  {
  }

  /** Running the overlay on its own output changes nothing more. */
  lemma OverlayIdempotent(o: Overlays, b: Biography)
    ensures BiographyOverlay(o, BiographyOverlay(o, b)) == BiographyOverlay(o, b)
  {
  }

  /** The per-file step of `main`: only the biography changes, and `modified` is reported. */
  method UpdateScholarFile(o: Overlays, s: ScholarDocument) returns (modified: bool)
    modifies s
    ensures modified <==> old(s.biography).Some? && Modified(o, old(s.biography).value)
    ensures s.biography == if old(s.biography).Some? then Some(BiographyOverlay(o, old(s.biography).value)) else None
    ensures s.grade == old(s.grade) && s.gradeDisplay == old(s.gradeDisplay)
    ensures s.relations == old(s.relations) && s.hadiths == old(s.hadiths)
  {
    modified := false;
    if s.biography.None? {
      return;
    }
    var b := s.biography.value;
    var disp := ProcessArray(b.areaOfInterest, o.areas);
    if disp.Some? {
      b := b.(areaOfInterestDisplay := disp);
      modified := true;
    }
    disp := ProcessArray(b.placesOfStay, o.places);
    if disp.Some? {
      b := b.(placesOfStayDisplay := disp);
      modified := true;
    }
    disp := ProcessArray(b.tags, o.tags);
    if disp.Some? {
      b := b.(tagsDisplay := disp);
      modified := true;
    }
    var birth, birthSet := PlaceStep(o, b.birth);
    var death, deathSet := PlaceStep(o, b.death);
    b := b.(birth := birth, death := death);
    modified := modified || birthSet || deathSet;
    s.biography := Some(b);
  }

  /** The birth or death `place_display` step. */
  method PlaceStep(o: Overlays, e: Option<Event>) returns (e': Option<Event>, set': bool)
    ensures (e', set') == EventOverlay(o, e)
  {
    e', set' := e, false;
    if e.Some? && e.value.place.Some? && e.value.place.value != "" {
      var placeStr := e.value.place.value;
      var found := FindKey(o.places, city => Contains(placeStr, city));
      if found.Some? {
        var city := o.places[found.value].0;
        var trans := o.places[found.value].1;
        e' := Some(e.value.(placeDisplay := Some(Display(placeStr, ReplaceFirst(placeStr, city, trans.ar),
                                                         ReplaceFirst(placeStr, city, trans.ku)))));
        set' := true;
      }
    }
  }

  /** A hadith-index entry. */
  datatype IndexEntry = IndexEntry(book: Option<string>, bookDisplay: Option<Display>)

  function WithBookDisplay(books: Dictionary, h: IndexEntry): (g: IndexEntry)
    ensures g.book == h.book
    ensures GetTranslation(h.book, books).Some? ==> g.bookDisplay == GetTranslation(h.book, books)
    ensures GetTranslation(h.book, books).None? ==> g == h
  {
    var trans := GetTranslation(h.book, books);
    if trans.Some? then h.(bookDisplay := trans) else h
  }

  function WithBookDisplays(books: Dictionary, hs: seq<IndexEntry>): (gs: seq<IndexEntry>)
    ensures |gs| == |hs|
    ensures forall i :: 0 <= i < |hs| ==> gs[i] == WithBookDisplay(books, hs[i])
  {
    seq(|hs|, i requires 0 <= i < |hs| => WithBookDisplay(books, hs[i]))
  }

  /** The number of entries whose book `getTranslation` finds. */
  function TranslatedBooks(books: Dictionary, hs: seq<IndexEntry>): (n: nat)
    ensures n <= |hs|
    decreases |hs|
  {
    if hs == [] then 0
    else TranslatedBooks(books, hs[..|hs| - 1]) + (if GetTranslation(hs[|hs| - 1].book, books).Some? then 1 else 0)
  }

  /** Every entry is counted when every book is a table key. */
  lemma {:induction false} AllTranslatedCounted(books: Dictionary, hs: seq<IndexEntry>)
    requires forall i :: 0 <= i < |hs| ==> GetTranslation(hs[i].book, books).Some?
    ensures TranslatedBooks(books, hs) == |hs|
    decreases |hs|
  {
    if hs != [] {
      AllTranslatedCounted(books, hs[..|hs| - 1]);
    }
  }

  lemma IndexSnoc(books: Dictionary, hs: seq<IndexEntry>, i: nat)
    requires i < |hs|
    ensures WithBookDisplays(books, hs[..i + 1]) == WithBookDisplays(books, hs[..i]) + [WithBookDisplay(books, hs[i])]
    ensures TranslatedBooks(books, hs[..i + 1]) ==
              TranslatedBooks(books, hs[..i]) + if GetTranslation(hs[i].book, books).Some? then 1 else 0
  {
    assert hs[..i + 1][..i] == hs[..i];
  }

  /** Step 1 of `main`: `book_display` on every entry whose book is found, counted in `hCount`. */
  method UpdateHadithIndex(books: Dictionary, hadiths: seq<IndexEntry>) returns (updated: seq<IndexEntry>, hCount: nat)
    ensures updated == WithBookDisplays(books, hadiths)
    ensures hCount == TranslatedBooks(books, hadiths)
  {
    updated := [];
    hCount := 0;
    for i := 0 to |hadiths|
      invariant updated == WithBookDisplays(books, hadiths[..i])
      invariant hCount == TranslatedBooks(books, hadiths[..i])
    {
      IndexSnoc(books, hadiths, i);
      var h := hadiths[i];
      var trans := GetTranslation(h.book, books);
      if trans.Some? {
        h := h.(bookDisplay := trans);
        hCount := hCount + 1;
      }
      updated := updated + [h];
    }
    assert hadiths[..|hadiths|] == hadiths;
  }
}
