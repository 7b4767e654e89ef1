/**
 * process_bukhari.py: flatten the volumes, books and hadiths of sahih_bukhari.json into one
 * table, cleaning the texts and numbering the hadiths from 1 in reading order.
 */
module BukhariText {
  import opened Wrappers
  import opened Text

  // sanitize_filename

  /** The characters `sanitize_filename` keeps: word characters, whitespace, '.' and '-'. */
  predicate FileNameChar(c: char)
  {
    IsWordChar(c) || IsPySpace(c) || c == '.' || c == '-'
  }

  function SanitizeFilename(name: string): string
  {
    PyStrip(Filter(name, FileNameChar))
  }

  /** Every character of a strip comes from the stripped string. */
  lemma StripKeepsAll(s: string, p: char -> bool)
    requires AllChars(s, p)
    ensures AllChars(PyStrip(s), p)
  {
    var t := TrimStart(Py, s);
    TrimStartSuffix(Py, s);
    TrimEndPrefix(Py, t);
    forall k | 0 <= k < |PyStrip(s)| ensures p(PyStrip(s)[k]) {
      assert PyStrip(s)[k] == t[k] == s[|s| - |t| + k];
    }
  }

  /**
   * The file name has only safe characters and no surrounding whitespace, so sanitizing it
   * again changes nothing; a name that is already safe and trimmed is kept as it is.
   */
  lemma SanitizeFilenameFacts(name: string)
    ensures AllChars(SanitizeFilename(name), FileNameChar)
    ensures SanitizeFilename(name) == [] ||
            (!IsPySpace(SanitizeFilename(name)[0]) && !IsPySpace(SanitizeFilename(name)[|SanitizeFilename(name)| - 1]))
    ensures SanitizeFilename(SanitizeFilename(name)) == SanitizeFilename(name)
    ensures AllChars(name, FileNameChar) && PyStrip(name) == name ==> SanitizeFilename(name) == name
  {
    var f := Filter(name, FileNameChar);
    StripKeepsAll(f, FileNameChar);
    FilterKeepsAll(PyStrip(f), FileNameChar);
    TrimIdempotent(Py, f);
    if AllChars(name, FileNameChar) {
      FilterKeepsAll(name, FileNameChar);
    }
  }

  // clean_text

  /** `text.replace('\r', ' ').replace('\n', ' ').replace('\t', ' ')`. */
  function ControlsToSpaces(s: string): (r: string)
    ensures |r| == |s|
  {
    seq(|s|, k requires 0 <= k < |s| => if s[k] == '\r' || s[k] == '\n' || s[k] == '\t' then ' ' else s[k])
  }

  lemma {:induction false} ControlsKeepContent(s: string)
    ensures Filter(ControlsToSpaces(s), NotPySpace) == Filter(s, NotPySpace)
    decreases |s|
  {
    if s != [] {
      ControlsKeepContent(s[1..]);
      assert ControlsToSpaces(s)[1..] == ControlsToSpaces(s[1..]);
    }
  }

  /** `re.sub(r'\s+', ' ', s)`: every run of whitespace becomes one space. */
  function SqueezeSpaces(s: string): string
    decreases |s|
  {
    if s == [] then []
    else if IsPySpace(s[0]) then [' '] + SqueezeSpaces(TrimStart(Py, s))
    else [s[0]] + SqueezeSpaces(s[1..])
  }

  /** The only whitespace is single spaces. */
  predicate Squeezed(s: string)
  {
    (forall k :: 0 <= k < |s| ==> IsPySpace(s[k]) ==> s[k] == ' ') &&
    (forall k :: 0 <= k < |s| - 1 ==> !(s[k] == ' ' && s[k + 1] == ' '))
  }

  lemma {:induction false} SqueezeFacts(s: string)
    ensures Squeezed(SqueezeSpaces(s))
    ensures s != [] ==> SqueezeSpaces(s) != [] && (SqueezeSpaces(s)[0] == ' ' <==> IsPySpace(s[0]))
    ensures Filter(SqueezeSpaces(s), NotPySpace) == Filter(s, NotPySpace)
    decreases |s|
  {
    if s != [] {
      var r := SqueezeSpaces(s);
      if IsPySpace(s[0]) {
        var t := TrimStart(Py, s);
        SqueezeFacts(t);
        FilterLeadingSpace(s);
        FilterAppend([' '], SqueezeSpaces(t), NotPySpace);
        assert Filter([' '], NotPySpace) == [];
        assert forall k :: 1 <= k < |r| ==> r[k] == SqueezeSpaces(t)[k - 1];
      } else {
        SqueezeFacts(s[1..]);
        FilterAppend([s[0]], SqueezeSpaces(s[1..]), NotPySpace);
        assert Filter([s[0]], NotPySpace) == [s[0]];
        assert Filter(s, NotPySpace) == [s[0]] + Filter(s[1..], NotPySpace);
        assert forall k :: 1 <= k < |r| ==> r[k] == SqueezeSpaces(s[1..])[k - 1];
      }
    }
  }

  /** Stripping a squeezed string leaves single spaces between non-space runs only. */
  lemma StripSqueezed(s: string)
    requires Squeezed(s)
    ensures Collapsed(PyStrip(s))
  {
    var t := TrimStart(Py, s);
    TrimStartSuffix(Py, s);
    TrimEndPrefix(Py, t);
    var r := PyStrip(s);
    var i := |s| - |t|;
    assert r == s[i..i + |r|];
    forall k | 0 <= k < |r| && IsPySpace(r[k]) ensures r[k] == ' ' {
      assert r[k] == s[i + k];
    }
    forall k | 0 <= k < |r| - 1 ensures !(r[k] == ' ' && r[k + 1] == ' ') {
      assert r[k] == s[i + k] && r[k + 1] == s[i + k + 1];
    }
  }

  /** `clean_text`: anything but a string gives "". */
  function CleanText(v: Option<string>): string
  {
    match v
    case None => ""
    case Some(s) => PyStrip(SqueezeSpaces(ControlsToSpaces(s)))
  }

  /**
   * The cleaned text has no line breaks or tabs, no runs of whitespace and no surrounding
   * whitespace, and it keeps every other character of the input, in order.
   */
  lemma CleanTextFacts(v: Option<string>)
    ensures Collapsed(CleanText(v))
    ensures v.Some? ==> Filter(CleanText(v), NotPySpace) == Filter(v.value, NotPySpace)
    ensures v.None? ==> CleanText(v) == ""
  {
    if v.Some? {
      var c := ControlsToSpaces(v.value);
      ControlsKeepContent(v.value);
      SqueezeFacts(c);
      StripSqueezed(SqueezeSpaces(c));
      FilterStrip(SqueezeSpaces(c));
    }
  }

  /** A collapsed string is its own strip. */
  lemma StripOfCollapsed(s: string)
    requires Collapsed(s)
    ensures PyStrip(s) == s
  {
    if s != [] {
      assert !IsPySpace(s[0]) && !IsPySpace(s[|s| - 1]);
    }
    TrimOfTrimmed(Py, s);
  }

  /** Cleaning a cleaned text changes nothing. */
  lemma CleanTextIdempotent(s: string)
    ensures CleanText(Some(CleanText(Some(s)))) == CleanText(Some(s))
  {
    var c := CleanText(Some(s));
    CleanTextFacts(Some(s));
    assert ControlsToSpaces(c) == c;
    SqueezeOfCollapsed(c);
    StripOfCollapsed(c);
  }

  lemma {:induction false} SqueezeOfCollapsed(s: string)
    requires Squeezed(s) && (s == [] || s[0] != ' ')
    ensures SqueezeSpaces(s) == s
    decreases |s|
  {
    if s != [] {
      assert !IsPySpace(s[0]);
      var t := s[1..];
      if t != [] && t[0] == ' ' {
        assert t[1..] == s[2..];
        assert TrimStart(Py, t) == t[1..] by {
          assert t[1..] == [] || !IsPySpace(t[1..][0]);
        }
        SqueezeOfCollapsed(t[1..]);
      } else {
        SqueezeOfCollapsed(t);
      }
    }
  }

  // clean_narrator

  const Narrated: string := "narrated"
  const By: string := "by"

  /** `s` starts with the lower-case word `p`, ignoring ASCII case. */
  predicate StartsWithWord(s: string, p: string)
  {
    |p| <= |s| && forall k :: 0 <= k < |p| ==> LowerChar(s[k]) == p[k]
  }

  /**
   * The text after a leading `p` (any ASCII case) and the run of whitespace after it, when
   * `t` starts that way: what is left once `p\s+` at the start is removed.
   */
  function AfterWord(t: string, p: string): (r: Option<string>)
    ensures r.Some? ==> |r.value| < |t|
    decreases |p|
  {
    if p == [] then (if t != [] && IsPySpace(t[0]) then Some(TrimStart(Py, t)) else None)
    else if t != [] && LowerChar(t[0]) == p[0] then AfterWord(t[1..], p[1..])
    else None
  }

  /** `re.sub(r'^narrated\s+by\s+', '', t, flags=re.IGNORECASE)`. */
  function DropNarratedBy(t: string): string
  {
    var a := AfterWord(t, Narrated);
    var d := if a.Some? then AfterWord(a.value, By) else None;
    if d.Some? then d.value else t
  }

  /** `re.sub(r'^narrated\s+', '', t, flags=re.IGNORECASE)`. */
  function DropNarrated(t: string): string
  {
    var a := AfterWord(t, Narrated);
    if a.Some? then a.value else t
  }

  function CleanNarrator(v: Option<string>): string
  {
    PyStrip(DropNarrated(DropNarratedBy(CleanText(v))))
  }

  /** The word `w`, one space and a text not starting with a space: the text is what is left. */
  lemma {:induction false} AfterWordOf(w: string, x: string, p: string)
    requires Lower(w) == p && (x == [] || !IsPySpace(x[0]))
    ensures AfterWord(w + " " + x, p) == Some(x)
    decreases |w|
  {
    var t := w + " " + x;
    if w == [] {
      assert t == " " + x && t[1..] == x;
      assert TrimStart(Py, x) == x;
    } else {
      assert t[0] == w[0] && t[1..] == w[1..] + " " + x;
      assert Lower(w[1..]) == p[1..];
      AfterWordOf(w[1..], x, p[1..]);
    }
  }

  /**
   * "Narrated by X" and "Narrated X", in any ASCII case and with one space after each word,
   * give X, for an X that does not start with a space.
   */
  lemma NarratorPrefixes(n: string, b: string, x: string)
    requires Lower(n) == Narrated && Lower(b) == By
    requires x == [] || !IsPySpace(x[0])
    ensures DropNarratedBy(n + " " + (b + " " + x)) == x
    ensures DropNarrated(n + " " + x) == x
  {
    AfterWordOf(b, x, By);
    AfterWordOf(n, b + " " + x, Narrated);
    AfterWordOf(n, x, Narrated);
  }

  /** The capitalised prefixes of the source data are such words. */
  lemma CapitalisedPrefixes()
    ensures Lower("Narrated") == Narrated && Lower("by") == By
  {
  }

  /** A suffix of a collapsed string that does not start with a space is collapsed. */
  lemma CollapsedSuffix(s: string, i: nat)
    requires Collapsed(s) && i <= |s| && (i == |s| || s[i] != ' ')
    ensures Collapsed(s[i..])
  {
    assert forall k :: 0 <= k < |s[i..]| ==> s[i..][k] == s[i + k];
  }

  /** What is left after a leading word is the end of the text, and starts with no space. */
  lemma {:induction false} AfterWordSuffix(t: string, p: string)
    requires AfterWord(t, p).Some?
    ensures AfterWord(t, p).value == t[|t| - |AfterWord(t, p).value|..]
    ensures AfterWord(t, p).value == [] || !IsPySpace(AfterWord(t, p).value[0])
    ensures StartsWithWord(t, p)
    decreases |p|
  {
    if p == [] {
      TrimStartSuffix(Py, t);
    } else {
      AfterWordSuffix(t[1..], p[1..]);
      var d := AfterWord(t, p).value;
      assert t[1..][|t[1..]| - |d|..] == t[|t| - |d|..];
    }
  }

  /** What is left after a leading word of a collapsed text is collapsed. */
  lemma AfterWordCollapsed(t: string, p: string)
    requires AfterWord(t, p).Some? && Collapsed(t)
    ensures Collapsed(AfterWord(t, p).value)
  {
    AfterWordSuffix(t, p);
    CollapsedSuffix(t, |t| - |AfterWord(t, p).value|);
  }

  /** `a` is the end of `t`. */
  predicate IsSuffix(a: string, t: string)
  {
    |a| <= |t| && a == t[|t| - |a|..]
  }

  lemma SuffixTransitive(c: string, b: string, t: string)
    requires IsSuffix(c, b) && IsSuffix(b, t)
    ensures IsSuffix(c, t)
  {
    assert t[|t| - |b|..][|b| - |c|..] == t[|t| - |c|..];
  }

  /** Dropping a leading word of a collapsed text leaves a collapsed end of it. */
  lemma AfterWordFacts(t: string, p: string)
    requires AfterWord(t, p).Some? && Collapsed(t)
    ensures Collapsed(AfterWord(t, p).value) && IsSuffix(AfterWord(t, p).value, t)
    ensures StartsWithWord(t, p)
  {
    AfterWordSuffix(t, p);
    AfterWordCollapsed(t, p);
  }

  lemma DropNarratedByFacts(t: string)
    requires Collapsed(t)
    ensures Collapsed(DropNarratedBy(t)) && IsSuffix(DropNarratedBy(t), t)
    ensures !StartsWithWord(t, Narrated) ==> DropNarratedBy(t) == t
  {
    if AfterWord(t, Narrated).Some? {
      var a := AfterWord(t, Narrated).value;
      AfterWordFacts(t, Narrated);
      if AfterWord(a, By).Some? {
        AfterWordFacts(a, By);
        SuffixTransitive(AfterWord(a, By).value, a, t);
      }
    }
  }

  lemma DropNarratedFacts(t: string)
    requires Collapsed(t)
    ensures Collapsed(DropNarrated(t)) && IsSuffix(DropNarrated(t), t)
    ensures !StartsWithWord(t, Narrated) ==> DropNarrated(t) == t
  {
    if AfterWord(t, Narrated).Some? {
      AfterWordFacts(t, Narrated);
    }
  }

  /**
   * `clean_narrator` only removes a leading "narrated by" or "narrated" (any case) and the
   * spaces after it: the result is collapsed and is the end of the cleaned text, and a text
   * not starting with "narrated" is only cleaned.
   */
  lemma CleanNarratorFacts(v: Option<string>)
    ensures Collapsed(CleanNarrator(v))
    ensures IsSuffix(CleanNarrator(v), CleanText(v))
    ensures !StartsWithWord(CleanText(v), Narrated) ==> CleanNarrator(v) == CleanText(v)
  {
    var t := CleanText(v);
    CleanTextFacts(v);
    var b := DropNarratedBy(t);
    DropNarratedByFacts(t);
    var c := DropNarrated(b);
    DropNarratedFacts(b);
    SuffixTransitive(c, b, t);
    StripOfCollapsed(c);
    assert CleanNarrator(v) == c;
  }

  // get_category

  /** The length of the run of decimal digits that starts `s`. */
  function DecimalRun(s: string): (n: nat)
    ensures n <= |s|
    ensures forall k :: 0 <= k < n ==> IsDecimal(s[k])
    ensures n < |s| ==> !IsDecimal(s[n])
    decreases |s|
  {
    if s != [] && IsDecimal(s[0]) then 1 + DecimalRun(s[1..]) else 0
  }

  /** `re.sub(r'^\d+\.\s*', '', book_name).strip()`. */
  function GetCategory(bookName: string): string
  {
    var n := DecimalRun(bookName);
    if 0 < n < |bookName| && bookName[n] == '.' then PyStrip(TrimStart(Py, bookName[n + 1..]))
    else PyStrip(bookName)
  }

  /**
   * "<digits>. <name>" gives the name; the category is always trimmed, and a book name that
   * does not start with a digit is only trimmed.
   */
  lemma GetCategoryFacts(bookName: string, digits: string, name: string)
    ensures PyStrip(GetCategory(bookName)) == GetCategory(bookName)
    ensures bookName == [] || !IsDecimal(bookName[0]) ==> GetCategory(bookName) == PyStrip(bookName)
    ensures digits != [] && AllDecimal(digits) && PyStrip(name) == name ==>
              GetCategory(digits + ". " + name) == name
  {
    var n := DecimalRun(bookName);
    if 0 < n < |bookName| && bookName[n] == '.' {
      TrimIdempotent(Py, TrimStart(Py, bookName[n + 1..]));
    } else {
      TrimIdempotent(Py, bookName);
    }
    if digits != [] && AllDecimal(digits) && PyStrip(name) == name {
      var s := digits + ". " + name;
      DecimalRunOf(digits, ". " + name);
      assert s == digits + (". " + name);
      assert s[|digits|] == '.';
      assert s[|digits| + 1..] == " " + name;
      assert TrimStart(Py, " " + name) == TrimStart(Py, name) by {
        assert (" " + name)[1..] == name;
      }
      TrimStartOfStripped(name);
    }
  }

  lemma {:induction false} DecimalRunOf(d: string, rest: string)
    requires AllDecimal(d) && (rest == [] || !IsDecimal(rest[0]))
    ensures DecimalRun(d + rest) == |d|
    decreases |d|
  {
    if d != [] {
      assert (d + rest)[1..] == d[1..] + rest;
      DecimalRunOf(d[1..], rest);
    } else {
      assert d + rest == rest;
    }
  }

  lemma TrimStartOfStripped(s: string)
    requires PyStrip(s) == s
    ensures PyStrip(TrimStart(Py, s)) == s
  {
    if s != [] {
      assert !IsPySpace(s[0]);
    }
  }
}

/** `process_sahih_bukhari`: the table of cleaned, numbered hadiths. */
module ProcessBukhari {
  import opened Wrappers
  import opened BukhariText

  // process_sahih_bukhari

  /** A hadith of the JSON file (`narrator` is its `by` field); a field that is missing or not a string is `None`. */
  datatype RawHadith = RawHadith(info: Option<string>, narrator: Option<string>, text: Option<string>)

  /** A book; a missing `hadiths` list is the empty list. */
  datatype Book = Book(name: Option<string>, hadiths: seq<RawHadith>)

  datatype Volume = Volume(name: string, books: seq<Book>)

  /** A row of sahih_bukhari_complete.csv. */
  datatype Entry = Entry(
    id: int, volume: string, book: string, category: string,
    info: string, narratedBy: string, text: string)

  function BookName(b: Book): string
  {
    if b.name.Some? then b.name.value else "Unknown Book"
  }

  function MakeEntry(id: int, volume: string, b: Book, h: RawHadith): Entry
  {
    Entry(id, volume, BookName(b), GetCategory(BookName(b)), CleanText(h.info), CleanNarrator(h.narrator), CleanText(h.text))
  }

  /** How a row is made from its id, volume, book and hadith. */
  type Builder = (int, string, Book, RawHadith) -> Entry

  /** A builder that gives each row the id it is asked for. */
  ghost predicate KeepsId(mk: Builder)
  {
    forall id, volume, b, h :: mk(id, volume, b, h).id == id
  }

  function Rows(): Builder
  {
    (id: int, volume: string, b: Book, h: RawHadith) => MakeEntry(id, volume, b, h)
  }

  lemma RowsKeepId()
    ensures KeepsId(Rows())
  {
  }

  /** The rows of the hadiths `hs` of book `b`, numbered from `firstId`. */
  function BookEntries(volume: string, b: Book, hs: seq<RawHadith>, firstId: int, mk: Builder): seq<Entry>
    decreases |hs|
  {
    if hs == [] then []
    else BookEntries(volume, b, hs[..|hs| - 1], firstId, mk) + [mk(firstId + |hs| - 1, volume, b, hs[|hs| - 1])]
  }

  /** The rows of a volume's books in order, numbered from `firstId`. */
  function BooksEntries(volume: string, books: seq<Book>, firstId: int, mk: Builder): seq<Entry>
    decreases |books|
  {
    if books == [] then []
    else
      var init := BooksEntries(volume, books[..|books| - 1], firstId, mk);
      init + BookEntries(volume, books[|books| - 1], books[|books| - 1].hadiths, firstId + |init|, mk)
  }

  /** The whole table: the volumes in order, numbered from 1. */
  function EntriesOf(volumes: seq<Volume>, mk: Builder): seq<Entry>
    decreases |volumes|
  {
    if volumes == [] then []
    else
      var init := EntriesOf(volumes[..|volumes| - 1], mk);
      var v := volumes[|volumes| - 1];
      init + BooksEntries(v.name, v.books, |init| + 1, mk)
  }

  function AllEntries(volumes: seq<Volume>): seq<Entry>
  {
    EntriesOf(volumes, Rows())
  }

  function BookCount(books: seq<Book>): nat
    decreases |books|
  {
    if books == [] then 0 else BookCount(books[..|books| - 1]) + |books[|books| - 1].hadiths|
  }

  function HadithCount(volumes: seq<Volume>): nat
    decreases |volumes|
  {
    if volumes == [] then 0 else HadithCount(volumes[..|volumes| - 1]) + BookCount(volumes[|volumes| - 1].books)
  }

  lemma {:induction false} BookEntriesIds(volume: string, b: Book, hs: seq<RawHadith>, firstId: int, mk: Builder)
    requires KeepsId(mk)
    ensures |BookEntries(volume, b, hs, firstId, mk)| == |hs|
    ensures forall k :: 0 <= k < |hs| ==> BookEntries(volume, b, hs, firstId, mk)[k].id == firstId + k
    decreases |hs|
  {
    if hs != [] {
      BookEntriesIds(volume, b, hs[..|hs| - 1], firstId, mk);
    }
  }

  /** Two runs of consecutive ids, the second starting where the first stops, make one run. */
  lemma IdsAppend(a: seq<Entry>, b: seq<Entry>, first: int)
    requires forall k :: 0 <= k < |a| ==> a[k].id == first + k
    requires forall k :: 0 <= k < |b| ==> b[k].id == first + |a| + k
    ensures forall k :: 0 <= k < |a + b| ==> (a + b)[k].id == first + k
  {
    forall k | 0 <= k < |a + b| ensures (a + b)[k].id == first + k {
      if k >= |a| {
        assert (a + b)[k] == b[k - |a|];
      }
    }
  }

  lemma {:induction false} BooksEntriesIds(volume: string, books: seq<Book>, firstId: int, mk: Builder)
    requires KeepsId(mk)
    ensures |BooksEntries(volume, books, firstId, mk)| == BookCount(books)
    ensures forall k :: 0 <= k < |BooksEntries(volume, books, firstId, mk)| ==>
              BooksEntries(volume, books, firstId, mk)[k].id == firstId + k
    decreases |books|
  {
    if books != [] {
      var init := books[..|books| - 1];
      var b := books[|books| - 1];
      var e := BooksEntries(volume, init, firstId, mk);
      var be := BookEntries(volume, b, b.hadiths, firstId + |e|, mk);
      BooksEntriesIds(volume, init, firstId, mk);
      BookEntriesIds(volume, b, b.hadiths, firstId + |e|, mk);
      assert BooksEntries(volume, books, firstId, mk) == e + be;
      IdsAppend(e, be, firstId);
    }
  }

  lemma {:induction false} EntriesOfIds(volumes: seq<Volume>, mk: Builder)
    requires KeepsId(mk)
    ensures |EntriesOf(volumes, mk)| == HadithCount(volumes)
    ensures forall k :: 0 <= k < |EntriesOf(volumes, mk)| ==> EntriesOf(volumes, mk)[k].id == k + 1
    decreases |volumes|
  {
    if volumes != [] {
      var init := volumes[..|volumes| - 1];
      var v := volumes[|volumes| - 1];
      var e := EntriesOf(init, mk);
      var be := BooksEntries(v.name, v.books, |e| + 1, mk);
      EntriesOfIds(init, mk);
      BooksEntriesIds(v.name, v.books, |e| + 1, mk);
      assert EntriesOf(volumes, mk) == e + be;
      IdsAppend(e, be, 1);
    }
  }

  /**
   * One row per hadith, and the ids are 1, 2, 3, ... in reading order: the k-th row of the
   * table has id k + 1.
   */
  lemma AllEntriesIds(volumes: seq<Volume>)
    ensures |AllEntries(volumes)| == HadithCount(volumes)
    ensures forall k :: 0 <= k < |AllEntries(volumes)| ==> AllEntries(volumes)[k].id == k + 1
  {
    RowsKeepId();
    EntriesOfIds(volumes, Rows());
  }

  /**
   * `mk` builds the rows of the script. The trigger keeps the solver from expanding a row
   * that the method text does not build itself.
   */
  ghost predicate Builds(mk: Builder)
  {
    forall id, volume, b, h {:trigger MakeEntry(id, volume, b, h)} :: mk(id, volume, b, h) == MakeEntry(id, volume, b, h)
  }

  lemma RowsBuild()
    ensures Builds(Rows())
  {
  }

  lemma {:induction false} BookEntriesLength(volume: string, b: Book, hs: seq<RawHadith>, firstId: int, mk: Builder)
    ensures |BookEntries(volume, b, hs, firstId, mk)| == |hs|
    decreases |hs|
  {
    if hs != [] {
      BookEntriesLength(volume, b, hs[..|hs| - 1], firstId, mk);
    }
  }

  lemma BookEntriesSnoc(volume: string, b: Book, hs: seq<RawHadith>, firstId: int, mk: Builder, k: nat)
    requires k < |hs|
    ensures BookEntries(volume, b, hs[..k + 1], firstId, mk) ==
            BookEntries(volume, b, hs[..k], firstId, mk) + [mk(firstId + k, volume, b, hs[k])]
  {
    assert hs[..k + 1][..k] == hs[..k];
  }

  lemma BooksEntriesSnoc(volume: string, books: seq<Book>, firstId: int, mk: Builder, j: nat)
    requires j < |books|
    ensures BooksEntries(volume, books[..j + 1], firstId, mk) ==
            var init := BooksEntries(volume, books[..j], firstId, mk);
            init + BookEntries(volume, books[j], books[j].hadiths, firstId + |init|, mk)
  {
    assert books[..j + 1][..j] == books[..j];
  }

  lemma EntriesOfSnoc(volumes: seq<Volume>, mk: Builder, i: nat)
    requires i < |volumes|
    ensures EntriesOf(volumes[..i + 1], mk) ==
            var init := EntriesOf(volumes[..i], mk);
            init + BooksEntries(volumes[i].name, volumes[i].books, |init| + 1, mk)
  {
    assert volumes[..i + 1][..i] == volumes[..i];
  }

  /** One turn of the loop over a volume's books keeps the rows so far equal to `BooksEntries`. */
  lemma BooksStep(allData: seq<Entry>, data0: seq<Entry>, data: seq<Entry>, volume: string, books: seq<Book>,
                  globalId: int, mk: Builder, j: nat, id0: int, id: int)
    requires j < |books|
    requires data0 == allData + BooksEntries(volume, books[..j], globalId, mk)
    requires id0 == globalId + |BooksEntries(volume, books[..j], globalId, mk)|
    requires data == data0 + BookEntries(volume, books[j], books[j].hadiths, id0, mk)
    requires id == id0 + |books[j].hadiths|
    ensures data == allData + BooksEntries(volume, books[..j + 1], globalId, mk)
    ensures id == globalId + |BooksEntries(volume, books[..j + 1], globalId, mk)|
  {
    BooksEntriesSnoc(volume, books, globalId, mk, j);
    BookEntriesLength(volume, books[j], books[j].hadiths, id0, mk);
  }

  /** One turn of the loop over a book's hadiths keeps the rows so far equal to `BookEntries`. */
  lemma HadithStep(allData: seq<Entry>, data0: seq<Entry>, entry: Entry, volume: string, b: Book,
                   globalId: int, mk: Builder, k: nat)
    requires k < |b.hadiths| && Builds(mk)
    requires data0 == allData + BookEntries(volume, b, b.hadiths[..k], globalId, mk)
    requires entry == MakeEntry(globalId + k, volume, b, b.hadiths[k])
    ensures data0 + [entry] == allData + BookEntries(volume, b, b.hadiths[..k + 1], globalId, mk)
  {
    BookEntriesSnoc(volume, b, b.hadiths, globalId, mk, k);
  }

  /** The `entry` dictionary of the innermost loop. */
  method NewEntry(id: int, volumeName: string, book: Book, bookName: string, category: string, hadith: RawHadith)
    returns (entry: Entry)
    requires bookName == BookName(book) && category == GetCategory(bookName)
    ensures entry == MakeEntry(id, volumeName, book, hadith)
  {
    entry := Entry(id, volumeName, bookName, category,
      CleanText(hadith.info), CleanNarrator(hadith.narrator), CleanText(hadith.text));
  }

  /** The innermost loop: the hadiths of one book appended to `allData`. */
  method AddBook(allData: seq<Entry>, globalId: int, volumeName: string, book: Book, ghost mk: Builder)
    returns (data: seq<Entry>, nextId: int)
    requires Builds(mk)
    ensures data == allData + BookEntries(volumeName, book, book.hadiths, globalId, mk)
    ensures nextId == globalId + |book.hadiths|
  {
    data := allData;
    nextId := globalId;
    var bookName := if book.name.Some? then book.name.value else "Unknown Book";
    var category := GetCategory(bookName);
    var hadiths := book.hadiths;
    if hadiths == [] {
      return;
    }
    for k := 0 to |hadiths|
      invariant nextId == globalId + k
      invariant data == allData + BookEntries(volumeName, book, hadiths[..k], globalId, mk)
    {
      var entry := NewEntry(nextId, volumeName, book, bookName, category, hadiths[k]);
      HadithStep(allData, data, entry, volumeName, book, globalId, mk, k);
      data := data + [entry];
      nextId := nextId + 1;
    }
    assert hadiths[..|hadiths|] == hadiths;
  }

  /** The books of one volume. */
  method AddVolume(allData: seq<Entry>, globalId: int, volume: Volume, ghost mk: Builder)
    returns (data: seq<Entry>, nextId: int)
    requires Builds(mk)
    ensures data == allData + BooksEntries(volume.name, volume.books, globalId, mk)
    ensures nextId == globalId + |BooksEntries(volume.name, volume.books, globalId, mk)|
  {
    data := allData;
    nextId := globalId;
    for j := 0 to |volume.books|
      invariant data == allData + BooksEntries(volume.name, volume.books[..j], globalId, mk)
      invariant nextId == globalId + |BooksEntries(volume.name, volume.books[..j], globalId, mk)|
    {
      ghost var data0, id0 := data, nextId;
      data, nextId := AddBook(data, nextId, volume.name, volume.books[j], mk);
      BooksStep(allData, data0, data, volume.name, volume.books, globalId, mk, j, id0, nextId);
    }
    assert volume.books[..|volume.books|] == volume.books;
  }

  /** `process_sahih_bukhari`: the rows written to sahih_bukhari_complete.csv. */
  method ProcessSahihBukhari(volumes: seq<Volume>) returns (allData: seq<Entry>)
    ensures allData == AllEntries(volumes)
  {
    ghost var mk := Rows();
    RowsBuild();
    allData := [];
    var globalId := 1;
    for i := 0 to |volumes|
      invariant allData == EntriesOf(volumes[..i], mk)
      invariant globalId == |allData| + 1
    {
      EntriesOfSnoc(volumes, mk, i);
      allData, globalId := AddVolume(allData, globalId, volumes[i], mk);
    }
    assert volumes[..|volumes|] == volumes;
  }
}
