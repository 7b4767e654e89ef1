/**
 * scripts/update-translations.js: the grade overlay. A grade string "Base [Generation]" is
 * split into its base and its bracketed generation, each looked up in its table, and the
 * display text is assembled per language; `updateScholarObject` adds those displays to a
 * scholar, its relation lists and its hadiths.
 */
module UpdateTranslations {
  import opened Wrappers
  import opened Text
  import opened ScholarDocuments

  /** `GRADES[key]`. */
  function GradeEntry(key: string): Option<Display>
  {
    if key == "Rasool Allah" then Some(Display("Messenger of Allah", "رسول الله", "پێغەمبەری خودا"))
    else if key == "Comp.(RA)" then Some(Display("Companion (RA)", "صحابي (رضي الله عنه)", "هاوەڵ (رەزای خوای لێبێت)"))
    else if key == "Follower(Tabi')" then Some(Display("Follower (Tabi')", "تابعي", "شوێنكەوتوو (تابعی)"))
    else if key == "Succ. (Taba' Tabi')" then Some(Display("Successor (Taba' Tabi')", "تابع التابعين", "شوێنكەوتووی شوێنكەوتوو"))
    else if key == "Prophet's Relative" then Some(Display("Prophet's Relative", "قريب النبي", "خزمى پێغەمبەر"))
    else if key == "3rd Century AH" then Some(Display("3rd Century AH", "القرن الثالث الهجري", "سەدەی سێیەمی كۆچی"))
    else if key == "4th Century AH" then Some(Display("4th Century AH", "القرن الرابع الهجري", "سەدەی چوارەمی كۆچی"))
    else None
  }

  /** `GENERATIONS[key]`: exact and case-sensitive. */
  function GenerationEntry(key: string): Option<Display>
  {
    if key == "1st Generation" then Some(Display("1st Generation", "الجيل الأول", "نەوەی یەكەم"))
    else if key == "2nd Generation" then Some(Display("2nd Generation", "الجيل الثاني", "نەوەی دووەم"))
    else if key == "3rd Generation" then Some(Display("3rd Generation", "الجيل الثالث", "نەوەی سێیەم"))
    else if key == "4th generation" then Some(Display("4th Generation", "الجيل الرابع", "نەوەی چوارەم"))
    else if key == "5th generation" then Some(Display("5th Generation", "الجيل الخامس", "نەوەی پێنجەم"))
    else if key == "6th generation" then Some(Display("6th Generation", "الجيل السادس", "نەوەی شەشەم"))
    else if key == "7th generation" then Some(Display("7th Generation", "الجيل السابع", "نەوەی حەوتەم"))
    else if key == "8th generation" then Some(Display("8th Generation", "الجيل الثامن", "نەوەی هەشتەم"))
    else if key == "9th generation" then Some(Display("9th Generation", "الجيل التاسع", "نەوەی نۆیەم"))
    else if key == "10th generation" then Some(Display("10th Generation", "الجيل العاشر", "نەوەی دەیەم"))
    else if key == "11th generation" then Some(Display("11th Generation", "الجيل الحادي عشر", "نەوەی یازدەیەم"))
    else if key == "12th generation" then Some(Display("12th Generation", "الجيل الثاني عشر", "نەوەی دوازدەیەم"))
    else if key == "Hanafi" then Some(Display("Hanafi", "حنفي", "حەنەفی"))
    else if key == "Maliki" then Some(Display("Maliki", "مالكي", "مالیكی"))
    else if key == "Shafi'ee" then Some(Display("Shafi'i", "شافعي", "شافیعی"))
    else if key == "Hanbali" then Some(Display("Hanbali", "حنبلي", "حەنبەلی"))
    else if key == "Non-Muslim" then Some(Display("Non-Muslim", "غير مسلم", "غیر موسڵمان"))
    else if key == "Other" then Some(Display("Other", "آخر", "هیتر"))
    else None
  }

  /** The three tables the script reads. */
  datatype Tables = Tables(grades: string -> Option<Display>, generations: string -> Option<Display>,
                           books: string -> Option<Display>)

  /** The script's own tables. */
  const Script: Tables := Tables(GradeEntry, GenerationEntry, key => Get(Books, key))

  datatype Lang = En | Ar | Ku

  /** The order of the `langs` loop. */
  const Langs: seq<Lang> := [En, Ar, Ku]

  /** `display[lang]`. */
  function InLang(d: Display, lang: Lang): string
  {
    match lang
    case En => d.en
    case Ar => d.ar
    case Ku => d.ku
  }

  /** `display[lang] = text`. */
  function WithLang(d: Display, lang: Lang, text: string): (r: Display)
    ensures InLang(r, lang) == text
    ensures forall other :: other != lang ==> InLang(r, other) == InLang(d, other)
  {
    match lang
    case En => d.(en := text)
    case Ar => d.(ar := text)
    case Ku => d.(ku := text)
  }

  /** `.` in a JavaScript regular expression matches any character but a line terminator. */
  predicate IsLineTerminator(c: char)
  {
    c == '\n' || c == '\r' || c == '\U{2028}' || c == '\U{2029}'
  }

  /**
   * What the lazy group of `(.*?)\]` captures when matching from the start of `t`: the
   * characters up to the first `]`, provided no line terminator comes before it.
   */
  function CloseBracket(t: string): (r: Option<string>)
    ensures r.Some? ==> |r.value| < |t| && t[..|r.value|] == r.value && t[|r.value|] == ']'
    ensures r.Some? ==> forall c :: c in r.value ==> c != ']' && !IsLineTerminator(c)
    decreases |t|
  {
    if t == [] then None
    else if t[0] == ']' then Some([])
    else if IsLineTerminator(t[0]) then None
    else
      match CloseBracket(t[1..])
      case None => None
      case Some(k) => Some([t[0]] + k)
  }

  /** `gradeFullString.match(/\[(.*?)\]/)`: the capture of the leftmost match, if any. */
  function GenerationKey(s: string): Option<string>
    decreases |s|
  {
    if s == [] then None
    else if s[0] == '[' && CloseBracket(s[1..]).Some? then CloseBracket(s[1..])
    else GenerationKey(s[1..])
  }

  /** `gradeFullString.split('[')[0].trim()`. */
  function BaseGradeKey(s: string): string
  {
    JsTrim(Before(s, '['))
  }

  /** The object `getGradeDisplay` returns. */
  datatype GradeTranslations = GradeTranslations(
    gradeDisplay: Display, baseGradeDisplay: Option<Display>, generationDisplay: Option<Display>)

  /**
   * The display text in one language for a known base grade: the generation's translation
   * in brackets, else the raw generation key in brackets, else the base alone.
   */
  function LangText(base: Display, gen: Option<Display>, key: Option<string>, lang: Lang): string
  {
    if gen.Some? && InLang(gen.value, lang) != "" then InLang(base, lang) + " [" + InLang(gen.value, lang) + "]"
    else if key.Some? && key.value != "" then InLang(base, lang) + " [" + key.value + "]"
    else InLang(base, lang)
  }

  /** The display object for a known base grade. */
  function DisplayFor(base: Display, gen: Option<Display>, key: Option<string>): Display
  {
    Display(LangText(base, gen, key, En), LangText(base, gen, key, Ar), LangText(base, gen, key, Ku))
  }

  /**
   * `getGradeDisplay(grade)`; None (`null`) for a missing or empty grade. A missing key is
   * looked up as the property "null", which neither table has.
   */
  function GradeDisplay(t: Tables, grade: Option<string>): (r: Option<GradeTranslations>)
    ensures r.Some? <==> grade.Some? && grade.value != ""
  {
    if grade.None? || grade.value == "" then None
    else
      var s := grade.value;
      var key := GenerationKey(s);
      var base := t.grades(BaseGradeKey(s));
      var gen := if key.Some? then t.generations(key.value) else None;
      Some(GradeTranslations(if base.None? then Display(s, s, s) else DisplayFor(base.value, gen, key), base, gen))
  }

  /** `getGradeDisplay`, filling the display object in the `forEach` over the languages. */
  method GetGradeDisplay(t: Tables, grade: Option<string>) returns (r: Option<GradeTranslations>)
    ensures r == GradeDisplay(t, grade)
  {
    if grade.None? || grade.value == "" {
      return None;
    }
    var s := grade.value;
    var key := GenerationKey(s);
    var base := t.grades(BaseGradeKey(s));
    var gen := if key.Some? then t.generations(key.value) else None;
    var display := Display(s, s, s);
    if base.Some? {
      display := FillLangs(display, base.value, gen, key);
    }
    r := Some(GradeTranslations(display, base, gen));
  }

  /** The `langs.forEach` loop: overwrite each language in turn. */
  method FillLangs(start: Display, base: Display, gen: Option<Display>, key: Option<string>) returns (display: Display)
    ensures display == DisplayFor(base, gen, key)
  {
    display := start;
    for i := 0 to |Langs|
      invariant forall j :: 0 <= j < i ==> InLang(display, Langs[j]) == LangText(base, gen, key, Langs[j])
    {
      var lang := Langs[i];
      var text := LangTextOf(base, gen, key, lang);
      display := WithLang(display, lang, text);
    }
    DisplayOfLangs(display, base, gen, key);
  }

  /** The text for one language, appended to step by step. */
  method LangTextOf(base: Display, gen: Option<Display>, key: Option<string>, lang: Lang) returns (text: string)
    ensures text == LangText(base, gen, key, lang)
  {
    text := InLang(base, lang);
    if gen.Some? && InLang(gen.value, lang) != "" {
      text := text + " [" + InLang(gen.value, lang) + "]";
    } else if key.Some? && key.value != "" {
      text := text + " [" + key.value + "]";
    }
  }

  lemma DisplayOfLangs(display: Display, base: Display, gen: Option<Display>, key: Option<string>)
    requires forall j :: 0 <= j < |Langs| ==> InLang(display, Langs[j]) == LangText(base, gen, key, Langs[j])
    ensures display == DisplayFor(base, gen, key)
  {
    assert InLang(display, Langs[0]) == display.en;
    assert InLang(display, Langs[1]) == display.ar;
    assert InLang(display, Langs[2]) == display.ku;
  }

  /** The captured key really is a bracketed part of the grade. */
  lemma {:induction false} GenerationKeyIsBracketed(s: string)
    ensures GenerationKey(s).Some? ==> Contains(s, "[" + GenerationKey(s).value + "]")
    decreases |s|
  {
    if s != [] {
      if s[0] == '[' && CloseBracket(s[1..]).Some? {
        var k := CloseBracket(s[1..]).value;
        assert s == [] + ("[" + k + "]") + s[|k| + 2..];
        ContainsInfix([], "[" + k + "]", s[|k| + 2..]);
      } else {
        GenerationKeyIsBracketed(s[1..]);
        if GenerationKey(s).Some? {
          assert s[1..] == (s[1..]);
          assert !StartsWith(s, "[" + GenerationKey(s).value + "]") ==> Contains(s, "[" + GenerationKey(s).value + "]");
        }
      }
    }
  }

  /** A grade without `[` has no generation key. */
  lemma {:induction false} NoBracketNoKey(s: string)
    requires '[' !in s
    ensures GenerationKey(s).None?
    decreases |s|
  {
    if s != [] {
      assert '[' !in s[1..];
      NoBracketNoKey(s[1..]);
    }
  }

  /** With no line terminator, the lazy group finds the first `]`. */
  lemma {:induction false} CloseBracketFinds(t: string, j: nat)
    requires j < |t| && t[j] == ']'
    requires forall c :: c in t ==> !IsLineTerminator(c)
    ensures CloseBracket(t).Some?
    decreases |t|
  {
    if t[0] != ']' {
      assert t[1..][j - 1] == ']';
      assert forall c :: c in t[1..] ==> c in t;
      CloseBracketFinds(t[1..], j - 1);
    }
  }

  /**
   * On a one-line grade the key is the text between the first `[` and the next `]`.
   */
  lemma {:induction false} KeyAfterFirstBracket(s: string, i: nat, j: nat)
    requires i < j < |s| && s[i] == '[' && s[j] == ']'
    requires forall k :: 0 <= k < i ==> s[k] != '['
    requires forall c :: c in s ==> !IsLineTerminator(c)
    ensures GenerationKey(s) == CloseBracket(s[i + 1..]) && GenerationKey(s).Some?
    decreases i
  {
    assert forall c :: c in s[i + 1..] ==> c in s;
    assert s[i + 1..][j - i - 1] == ']';
    CloseBracketFinds(s[i + 1..], j - i - 1);
    if i > 0 {
      assert s[1..][i - 1] == '[' && s[1..][j - 1] == ']';
      assert forall c :: c in s[1..] ==> c in s;
      assert s[1..][i..] == s[i + 1..];
      KeyAfterFirstBracket(s[1..], i - 1, j - 1);
    }
  }

  /** An unknown base grade shows the raw grade string in every language. */
  lemma UnknownBaseIsRaw(t: Tables, s: string)
    requires s != "" && t.grades(BaseGradeKey(s)).None?
    ensures GradeDisplay(t, Some(s)).value.gradeDisplay == Display(s, s, s)
  {
  }

  /** `split('[')[0]` of a string whose first `[` follows `a`. */
  lemma {:induction false} BeforeFirst(a: string, c: char, rest: string)
    requires c !in a
    ensures Before(a + [c] + rest, c) == a
    decreases |a|
  {
    if a != [] {
      assert (a + [c] + rest)[1..] == a[1..] + [c] + rest;
      assert a[0] in a;
      BeforeFirst(a[1..], c, rest);
    }
  }

  /** Trimming a string that only has one trailing space too many. */
  lemma TrimTrailingSpace(b: string)
    requires b != [] && !IsJsSpace(b[0]) && !IsJsSpace(b[|b| - 1])
    ensures JsTrim(b + " ") == b
  {
    var s := b + " ";
    assert IsSpace(Js, ' ');
    assert TrimStart(Js, s) == s;
    assert s[..|s| - 1] == b;
    assert TrimEnd(Js, s) == TrimEnd(Js, b);
    assert TrimEnd(Js, b) == b;
  }

  /** `(.*?)\]` captures exactly a bracket-free, one-line `g`. */
  lemma {:induction false} CloseBracketOf(g: string, rest: string)
    requires forall c :: c in g ==> c != ']' && !IsLineTerminator(c)
    ensures CloseBracket(g + "]" + rest) == Some(g)
    decreases |g|
  {
    var t := g + "]" + rest;
    if g != [] {
      assert g[0] in g;
      assert t[1..] == g[1..] + "]" + rest;
      assert forall c :: c in g[1..] ==> c in g;
      CloseBracketOf(g[1..], rest);
      assert [g[0]] + g[1..] == g;
    }
  }

  /**
   * A grade of the form "b [g]", with `b` untrimmed-free and `[`-free and `g` a one-line
   * key without `]`: the base key is `b` and the generation key is `g`, so a known base
   * shows each language as base translation + " [" + (generation translation, or `g`) + "]".
   */
  lemma BaseAndGeneration(t: Tables, b: string, g: string)
    requires b != [] && !IsJsSpace(b[0]) && !IsJsSpace(b[|b| - 1]) && '[' !in b
    requires forall c :: c in b ==> !IsLineTerminator(c)
    requires forall c :: c in g ==> c != ']' && !IsLineTerminator(c)
    ensures var s := b + " [" + g + "]";
            GradeDisplay(t, Some(s)).value.gradeDisplay ==
              if t.grades(b).None? then Display(s, s, s)
              else DisplayFor(t.grades(b).value, t.generations(g), Some(g))
  {
    BaseKeyOf(b, g);
    GenerationKeyOf(b, g);
  }

  lemma BaseKeyOf(b: string, g: string)
    requires b != [] && !IsJsSpace(b[0]) && !IsJsSpace(b[|b| - 1]) && '[' !in b
    ensures BaseGradeKey(b + " [" + g + "]") == b
  {
    assert b + " [" + g + "]" == (b + " ") + ['['] + (g + "]");
    BeforeFirst(b + " ", '[', g + "]");
    TrimTrailingSpace(b);
  }

  lemma GenerationKeyOf(b: string, g: string)
    requires '[' !in b
    requires forall c :: c in b ==> !IsLineTerminator(c)
    requires forall c :: c in g ==> c != ']' && !IsLineTerminator(c)
    ensures GenerationKey(b + " [" + g + "]") == Some(g)
  {
    var s := b + " [" + g + "]";
    var i := |b| + 1;
    assert s[i + 1..] == g + "]" + [];
    CloseBracketOf(g, []);
    assert s[i] == '[' && s[i + 1 + |g|] == ']';
    forall k | 0 <= k < i ensures s[k] != '[' {
      if k < |b| {
        assert s[k] == b[k];
        assert b[k] in b;
      }
    }
    OneLine(b, g);
    KeyAfterFirstBracket(s, i, i + 1 + |g|);
  }

  lemma OneLine(b: string, g: string)
    requires forall c :: c in b ==> !IsLineTerminator(c)
    requires forall c :: c in g ==> !IsLineTerminator(c)
    ensures forall c :: c in b + " [" + g + "]" ==> !IsLineTerminator(c)
  {
    forall c | c in b + " [" + g + "]" ensures !IsLineTerminator(c) {
      assert c in b || c in " [" || c in g || c in "]";
    }
  }

  /**
   * The table facts behind the documented example: with `BaseAndGeneration`, the grade
   * "Comp.(RA) [1st Generation]" shows in English as "Companion (RA) [1st Generation]".
   */
  lemma CompanionOfTheFirstGeneration()
    ensures GradeEntry("Comp.(RA)").Some? && GradeEntry("Comp.(RA)").value.en == "Companion (RA)"
    ensures GenerationEntry("1st Generation").Some? && GenerationEntry("1st Generation").value.en == "1st Generation"
  {
  }

  /**
   * Generation keys are case-sensitive: "4th Generation" is not a key ("4th generation"
   * is), so by `BaseAndGeneration` a grade "Comp.(RA) [4th Generation]" shows the raw key.
   */
  lemma CapitalGenerationIsRaw()
    ensures GenerationEntry("4th Generation").None?
    ensures GenerationEntry("4th generation").Some?
  {
    var k := "4th Generation";
    assert |k| == 14 && k[0] == '4' && k[4] == 'G';
    assert "1st Generation"[0] == '1' && "2nd Generation"[0] == '2' && "3rd Generation"[0] == '3';
    assert "4th generation"[4] == 'g';
  }

  /** With a known base and an untranslated key, every language appends the raw key. */
  lemma UntranslatedKeyIsAppended(base: Display, key: string, lang: Lang)
    requires key != ""
    ensures LangText(base, None, Some(key), lang) == InLang(base, lang) + " [" + key + "]"
  {
  }

  /** A relation entry after `updateScholarObject`: only `grade_display` may change. */
  function WithGradeDisplay(t: Tables, p: Person): (q: Person)
    ensures q.(gradeDisplay := p.gradeDisplay) == p
    ensures q.gradeDisplay.Some? <==> p.gradeDisplay.Some? || (p.grade.Some? && p.grade.value != "")
  {
    match GradeDisplay(t, p.grade)
    case Some(g) => p.(gradeDisplay := Some(g.gradeDisplay))
    case None => p
  }

  /** `f` applied to every element, in order. */
  function MapAll<T>(xs: seq<T>, f: T -> T): (ys: seq<T>)
    ensures |ys| == |xs|
    ensures forall i :: 0 <= i < |xs| ==> ys[i] == f(xs[i])
  {
    seq(|xs|, i requires 0 <= i < |xs| => f(xs[i]))
  }

  lemma MapAllSnoc<T>(xs: seq<T>, i: nat, f: T -> T)
    requires i < |xs|
    ensures MapAll(xs[..i + 1], f) == MapAll(xs[..i], f) + [f(xs[i])]
  {
  }

  function WithGradeDisplays(t: Tables, ps: seq<Person>): (qs: seq<Person>)
    ensures |qs| == |ps|
    ensures forall i :: 0 <= i < |ps| ==> qs[i] == WithGradeDisplay(t, ps[i])
  {
    MapAll(ps, p => WithGradeDisplay(t, p))
  }

  lemma WithGradeDisplaysSnoc(t: Tables, ps: seq<Person>, i: nat)
    requires i < |ps|
    ensures WithGradeDisplays(t, ps[..i + 1]) == WithGradeDisplays(t, ps[..i]) + [WithGradeDisplay(t, ps[i])]
  {
    var f := p => WithGradeDisplay(t, p);
    MapAllSnoc(ps, i, f);
    assert f(ps[i]) == WithGradeDisplay(t, ps[i]);
  }

  /** A hadith after `updateScholarObject`: a display is added only for an exact book key. */
  function WithSourceDisplay(t: Tables, h: HadithItem): (g: HadithItem)
    ensures g.source == h.source
    ensures g.sourceDisplay != h.sourceDisplay ==> h.source.Some? && t.books(h.source.value).Some?
  {
    if h.source.Some? && h.source.value != "" && t.books(h.source.value).Some?
    then h.(sourceDisplay := t.books(h.source.value))
    else h
  }

  function WithSourceDisplays(t: Tables, hs: seq<HadithItem>): (gs: seq<HadithItem>)
    ensures |gs| == |hs|
    ensures forall i :: 0 <= i < |hs| ==> gs[i] == WithSourceDisplay(t, hs[i])
  {
    seq(|hs|, i requires 0 <= i < |hs| => WithSourceDisplay(t, hs[i]))
  }

  /** Running the overlay a second time changes nothing more. */
  lemma ReRunKeepsPersons(t: Tables, ps: seq<Person>)
    ensures WithGradeDisplays(t, WithGradeDisplays(t, ps)) == WithGradeDisplays(t, ps)
  {
    forall i | 0 <= i < |ps| ensures WithGradeDisplay(t, WithGradeDisplay(t, ps[i])) == WithGradeDisplay(t, ps[i]) {
      assert WithGradeDisplay(t, ps[i]).grade == ps[i].grade;
    }
  }

  lemma ReRunKeepsHadiths(t: Tables, hs: seq<HadithItem>)
    ensures WithSourceDisplays(t, WithSourceDisplays(t, hs)) == WithSourceDisplays(t, hs)
  {
  }

  /** The `forEach` over one relation list. */
  method UpdatePersons(t: Tables, ps: seq<Person>) returns (qs: seq<Person>)
    ensures qs == WithGradeDisplays(t, ps)
  {
    qs := [];
    for i := 0 to |ps|
      invariant qs == WithGradeDisplays(t, ps[..i])
    {
      WithGradeDisplaysSnoc(t, ps, i);
      var p := ps[i];
      var g := GetGradeDisplay(t, p.grade);
      if g.Some? {
        p := p.(gradeDisplay := Some(g.value.gradeDisplay));
      }
      qs := qs + [p];
    }
    assert ps[..|ps|] == ps;
  }

  /** The `forEach` over the hadiths. */
  method UpdateHadithItems(t: Tables, hs: seq<HadithItem>) returns (gs: seq<HadithItem>)
    ensures gs == WithSourceDisplays(t, hs)
  {
    gs := [];
    for i := 0 to |hs|
      invariant gs == WithSourceDisplays(t, hs[..i])
    {
      var h := hs[i];
      if h.source.Some? && h.source.value != "" {
        var book := t.books(h.source.value);
        if book.Some? {
          h := h.(sourceDisplay := book);
        }
      }
      gs := gs + [h];
    }
    assert hs[..|hs|] == hs;
  }

  /** Where `rel` sits in the walk over the relation names. */
  function RelationIndex(rel: Relation): (i: nat)
    ensures i < |Relations| && Relations[i] == rel
  {
    match rel
    case Parents => 0
    case Spouses => 1
    case Siblings => 2
    case Children => 3
    case Teachers => 4
    case Students => 5
  }

  /** A map of relations with `f` applied to those the walk has passed after `i` names. */
  ghost function UpdatedBefore<V>(m: map<Relation, V>, f: V -> V, i: nat): map<Relation, V>
  {
    map rel | rel in m :: if RelationIndex(rel) < i then f(m[rel]) else m[rel]
  }

  lemma UpdatedBeforeStart<V>(m: map<Relation, V>, f: V -> V)
    ensures UpdatedBefore(m, f, 0) == m
  {
  }

  lemma UpdatedBeforeStep<V>(m: map<Relation, V>, f: V -> V, i: nat, r: map<Relation, V>)
    requires i < |Relations| && r == UpdatedBefore(m, f, i)
    ensures Relations[i] in r ==> r[Relations[i] := f(r[Relations[i]])] == UpdatedBefore(m, f, i + 1)
    ensures Relations[i] !in r ==> r == UpdatedBefore(m, f, i + 1)
  {
    var rel := Relations[i];
    assert RelationIndex(rel) == i;
    forall other | other in m
      ensures RelationIndex(other) == i ==> other == rel
    {
      assert Relations[RelationIndex(other)] == other;
    }
  }

  lemma UpdatedBeforeEnd<V>(m: map<Relation, V>, f: V -> V)
    ensures UpdatedBefore(m, f, |Relations|).Keys == m.Keys
    ensures forall rel :: rel in m ==> UpdatedBefore(m, f, |Relations|)[rel] == f(m[rel])
  {
  }

  /** The `forEach` over the six relation names. */
  method UpdateRelations(t: Tables, relations: map<Relation, seq<Person>>) returns (r: map<Relation, seq<Person>>)
    ensures r.Keys == relations.Keys
    ensures forall rel :: rel in r ==> r[rel] == WithGradeDisplays(t, relations[rel])
  {
    ghost var f := ps => WithGradeDisplays(t, ps);
    r := relations;
    UpdatedBeforeStart(relations, f);
    for i := 0 to |Relations|
      invariant r == UpdatedBefore(relations, f, i)
    {
      UpdatedBeforeStep(relations, f, i, r);
      var rel := Relations[i];
      if rel in r {
        var qs := UpdatePersons(t, r[rel]);
        assert qs == f(r[rel]);
        r := r[rel := qs];
      }
    }
    UpdatedBeforeEnd(relations, f);
  }

  /**
   * `updateScholarObject`: adds `grade_display` to the scholar and to every relation entry,
   * and `source_display` to hadiths; no list changes length and no other field changes.
   */
  method UpdateScholarObject(t: Tables, s: ScholarDocument)
    modifies s
    ensures s.grade == old(s.grade) && s.biography == old(s.biography)
    ensures s.gradeDisplay ==
              if GradeDisplay(t, old(s.grade)).Some? then Some(GradeDisplay(t, old(s.grade)).value.gradeDisplay)
              else old(s.gradeDisplay)
    ensures s.relations.Keys == old(s.relations).Keys
    ensures forall rel :: rel in s.relations ==> s.relations[rel] == WithGradeDisplays(t, old(s.relations)[rel])
    ensures s.hadiths == if old(s.hadiths).Some? then Some(WithSourceDisplays(t, old(s.hadiths).value)) else None
  {
    var g := GetGradeDisplay(t, s.grade);
    if g.Some? {
      s.gradeDisplay := Some(g.value.gradeDisplay);
    }
    var relations := UpdateRelations(t, s.relations);
    s.relations := relations;
    if s.hadiths.Some? {
      var gs := UpdateHadithItems(t, s.hadiths.value);
      s.hadiths := Some(gs);
    }
  }
  /** The number of entries with a non-empty grade: those `getGradeDisplay` translates. */
  function Graded(ps: seq<Person>): (n: nat)
    ensures n <= |ps|
    decreases |ps|
  {
    if ps == [] then 0
    else
      var last := ps[|ps| - 1];
      Graded(ps[..|ps| - 1]) + (if last.grade.Some? && last.grade.value != "" then 1 else 0)
  }

  lemma GradedSnoc(ps: seq<Person>, i: nat)
    requires i < |ps|
    ensures Graded(ps[..i + 1]) == Graded(ps[..i]) + (if ps[i].grade.Some? && ps[i].grade.value != "" then 1 else 0)
  {
    assert ps[..i + 1][..i] == ps[..i];
  }

  /**
   * Step 1 of `main`: `grade_display` on every search-index entry that has a grade, each
   * such entry counted once in `indexUpdates`.
   */
  method UpdateSearchIndex(t: Tables, items: seq<Person>) returns (updated: seq<Person>, indexUpdates: nat)
    ensures updated == WithGradeDisplays(t, items)
    ensures indexUpdates == Graded(items)
  {
    updated := [];
    indexUpdates := 0;
    for i := 0 to |items|
      invariant updated == WithGradeDisplays(t, items[..i])
      invariant indexUpdates == Graded(items[..i])
    {
      var item := items[i];
      WithGradeDisplaysSnoc(t, items, i);
      GradedSnoc(items, i);
      var trans := GetGradeDisplay(t, item.grade);
      if trans.Some? {
        item := item.(gradeDisplay := Some(trans.value.gradeDisplay));
        indexUpdates := indexUpdates + 1;
      }
      updated := updated + [item];
    }
    assert items[..|items|] == items;
  }

  /** The count reaches the number of entries exactly when every entry has a grade. */
  lemma {:induction false} AllGradedCounted(ps: seq<Person>)
    ensures Graded(ps) == |ps| <==> forall i :: 0 <= i < |ps| ==> ps[i].grade.Some? && ps[i].grade.value != ""
    decreases |ps|
  {
    if ps != [] {
      var init := ps[..|ps| - 1];
      AllGradedCounted(init);
      assert forall i :: 0 <= i < |init| ==> init[i] == ps[i];
    }
  }
}
