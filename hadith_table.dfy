/**
 * The table `all_hadiths_clean.csv` as the pandas clean-up scripts see it: one row per
 * hadith, rewritten cell by cell with `df.at[idx, column] = value`, and the dictionaries
 * those scripts build from JSON files, where a later entry overwrites an earlier one.
 */
module HadithTable {
  import opened Wrappers
  import opened Text

  /**
   * A `usc_msa_ref` cell: missing (`NaN`), a number, or text that `int()` may or may not
   * accept.
   */
  datatype Ref = RefMissing | RefNumber(n: int) | RefText(s: string)

  /**
   * One CSV row. `hadithNo` is the `str()` of its cell; a `None` in an optional column is a
   * missing cell (`NaN`).
   */
  datatype HadithRow = HadithRow(
    id: int,
    hadithNo: string,
    source: Option<string>,
    chapter: Option<string>,
    textAr: Option<string>,
    textEn: Option<string>,
    uscMsaRef: Ref)

  /**
   * One element of the `hadiths` list of a JSON edition file: `hadithnumber`, `body` and
   * `text`, each possibly absent or null.
   */
  datatype JsonHadith = JsonHadith(hadithNumber: Option<int>, body: Option<string>, text: Option<string>)

  /** The JSON edition files by name; a name that is not a key is a file that does not exist. */
  type JsonFiles = map<string, seq<JsonHadith>>

  const SahihBukhari: string := "Sahih Bukhari"
  const SahihMuslim: string := "Sahih Muslim"
  const AbuDawud: string := "Sunan Abi Da'ud"
  const Tirmidhi: string := "Jami' al-Tirmidhi"
  const Nasai: string := "Sunan an-Nasa'i"
  const IbnMajah: string := "Sunan Ibn Majah"

  /** The six collections, in the order the scripts' `SOURCE_MAP` lists them. */
  const SourceNames: seq<string> := [SahihBukhari, SahihMuslim, AbuDawud, Tirmidhi, Nasai, IbnMajah]

  lemma SourceNamesDistinct()
    ensures forall a, b :: 0 <= a < b < |SourceNames| ==> SourceNames[a] != SourceNames[b]
  {
  }

  /** The English edition file of each collection. */
  function EnglishEdition(name: string): (f: Option<string>)
    ensures f.Some? <==> name in SourceNames
  {
    if name == SahihBukhari then Some("eng-bukhari.min.json")
    else if name == SahihMuslim then Some("eng-muslim.min.json")
    else if name == AbuDawud then Some("eng-abudawud.min.json")
    else if name == Tirmidhi then Some("eng-tirmidhi.min.json")
    else if name == Nasai then Some("eng-nasai.min.json")
    else if name == IbnMajah then Some("eng-ibnmajah.min.json")
    else None
  }

  /** Python truthiness of a string value that may be absent: present and non-empty. */
  predicate Truthy(v: Option<string>)
  {
    v.Some? && v.value != ""
  }

  /**
   * What one iteration of a script's row loop does to row `i`: `Some(row')` when it writes
   * `row'`, `None` when it leaves the row alone.
   */
  type RowStep = (nat, HadithRow) -> Option<HadithRow>

  function Rewritten(step: RowStep, i: nat, r: HadithRow): HadithRow
  {
    match step(i, r)
    case Some(r') => r'
    case None => r
  }

  /** The number of rows `step` writes. */
  function Rewrites(step: RowStep, rows: seq<HadithRow>): (n: nat)
    ensures n <= |rows|
    decreases |rows|
  {
    if rows == [] then 0
    else
      var i := |rows| - 1;
      Rewrites(step, rows[..i]) + (if step(i, rows[i]).Some? then 1 else 0)
  }

  lemma RewritesSnoc(step: RowStep, rows: seq<HadithRow>, i: nat)
    requires i < |rows|
    ensures Rewrites(step, rows[..i + 1]) ==
              Rewrites(step, rows[..i]) + (if step(i, rows[i]).Some? then 1 else 0)
  {
    assert rows[..i + 1][..i] == rows[..i];
  }

  /** One more row of a table rewritten front to back. */
  lemma RewriteOne(step: RowStep, rows: seq<HadithRow>, idx: nat, before: seq<HadithRow>, after: seq<HadithRow>)
    requires idx < |rows| == |before|
    requires forall i :: 0 <= i < idx ==> before[i] == Rewritten(step, i, rows[i])
    requires forall i :: idx <= i < |rows| ==> before[i] == rows[i]
    requires after == before[idx := Rewritten(step, idx, rows[idx])]
    ensures forall i :: 0 <= i < idx + 1 ==> after[i] == Rewritten(step, i, rows[i])
    ensures forall i :: idx + 1 <= i < |rows| ==> after[i] == rows[i]
  {
  }

  /**
   * `for idx in df[mask].index: ... df.at[idx, col] = value; count += 1`: every row is
   * visited once and only its own cells are written, so row `i` ends as `step` makes it
   * from its old value, and `count` is the number of rows written.
   */
  method RewriteRows(table: array<HadithRow>, step: RowStep) returns (count: nat)
    modifies table
    ensures forall i :: 0 <= i < table.Length ==> table[i] == Rewritten(step, i, old(table[i]))
    ensures count == Rewrites(step, old(table[..]))
  {
    ghost var rows := table[..];
    count := 0;
    var idx := 0;
    while idx < table.Length
      invariant 0 <= idx <= table.Length
      invariant forall i :: 0 <= i < idx ==> table[i] == Rewritten(step, i, rows[i])
      invariant forall i :: idx <= i < table.Length ==> table[i] == rows[i]
      invariant count == Rewrites(step, rows[..idx])
    {
      RewritesSnoc(step, rows, idx);
      var written := step(idx, table[idx]);
      if written.Some? {
        table[idx] := written.value;
        count := count + 1;
      }
      idx := idx + 1;
    }
    assert rows[..table.Length] == rows;
  }

  /** Two steps that write the same rows of two tables of one length write as many. */
  lemma {:induction false} RewritesCongruent(p: RowStep, xs: seq<HadithRow>, q: RowStep, ys: seq<HadithRow>)
    requires |xs| == |ys|
    requires forall i :: 0 <= i < |xs| ==> p(i, xs[i]).Some? == q(i, ys[i]).Some?
    ensures Rewrites(p, xs) == Rewrites(q, ys)
    decreases |xs|
  {
    if xs != [] {
      var n := |xs| - 1;
      RewritesCongruent(p, xs[..n], q, ys[..n]);
    }
  }

  /** A step that writes where exactly one of two others writes counts their writes together. */
  lemma {:induction false} RewritesSplit(p: RowStep, q: RowStep, r: RowStep, xs: seq<HadithRow>)
    requires forall i :: 0 <= i < |xs| ==> !(q(i, xs[i]).Some? && r(i, xs[i]).Some?)
    requires forall i :: 0 <= i < |xs| ==> p(i, xs[i]).Some? == (q(i, xs[i]).Some? || r(i, xs[i]).Some?)
    ensures Rewrites(p, xs) == Rewrites(q, xs) + Rewrites(r, xs)
    decreases |xs|
  {
    if xs != [] {
      var n := |xs| - 1;
      RewritesSplit(p, q, r, xs[..n]);
    }
  }

  lemma {:induction false} NoRewrites(s: RowStep, rows: seq<HadithRow>)
    requires forall i :: 0 <= i < |rows| ==> s(i, rows[i]).None?
    ensures Rewrites(s, rows) == 0
    decreases |rows|
  {
    if rows != [] {
      NoRewrites(s, rows[..|rows| - 1]);
    }
  }

  /**
   * What the loop of a script over the collections writes into a row, as a function of the
   * collection being processed and the row.
   */
  type SourceWrite = (string, HadithRow) -> Option<HadithRow>

  /** The loop for a collection writes only rows of that collection and leaves their source. */
  ghost predicate KeepsToSource(w: SourceWrite)
  {
    forall name, r :: w(name, r).Some? ==> r.source == Some(name) && w(name, r).value.source == r.source
  }

  /** The writes of the loops over the first `k` collections of `SourceNames`. */
  function SourcesUpTo(w: SourceWrite, k: nat): RowStep
    requires k <= |SourceNames|
  {
    (i: nat, r: HadithRow) => if r.source.Some? && r.source.value in SourceNames[..k] then w(r.source.value, r) else None
  }

  /**
   * The loop for collection `k`, a step `s` that writes as `w` does for that collection,
   * extends the writes of the first `k` loops by those of its own rows, and writes on the
   * table they leave exactly where it would have written on the original table.
   */
  lemma SourcePass(w: SourceWrite, k: nat, s: RowStep, j: nat, r: HadithRow)
    requires KeepsToSource(w) && k < |SourceNames|
    requires forall r' :: s(j, r') == w(SourceNames[k], r')
    ensures Rewritten(s, j, Rewritten(SourcesUpTo(w, k), j, r)) == Rewritten(SourcesUpTo(w, k + 1), j, r)
    ensures s(j, Rewritten(SourcesUpTo(w, k), j, r)).Some? == s(j, r).Some?
    ensures SourcesUpTo(w, k + 1)(j, r).Some? == (SourcesUpTo(w, k)(j, r).Some? || s(j, r).Some?)
    ensures !(SourcesUpTo(w, k)(j, r).Some? && s(j, r).Some?)
  {
    var name := SourceNames[k];
    SourceNamesDistinct();
    assert SourceNames[..k + 1] == SourceNames[..k] + [name];
    if r.source == Some(name) {
      assert name !in SourceNames[..k];
    }
    var mid := Rewritten(SourcesUpTo(w, k), j, r);
    assert mid.source == r.source;
  }

  /**
   * The bookkeeping of one iteration over the collections: if the table was `rows` rewritten
   * by the first `k` loops and loop `k` rewrote it as `s`, it is now `rows` rewritten by the
   * first `k + 1` loops, and the count of loop `k` is what those add.
   */
  lemma SourceIteration(w: SourceWrite, k: nat, s: RowStep, rows: seq<HadithRow>, before: seq<HadithRow>,
                        after: seq<HadithRow>, count: nat)
    requires KeepsToSource(w) && k < |SourceNames|
    requires forall j: nat, r' :: s(j, r') == w(SourceNames[k], r')
    requires |before| == |rows| == |after|
    requires forall i :: 0 <= i < |rows| ==> before[i] == Rewritten(SourcesUpTo(w, k), i, rows[i])
    requires forall i :: 0 <= i < |rows| ==> after[i] == Rewritten(s, i, before[i])
    requires count == Rewrites(s, before)
    ensures forall i :: 0 <= i < |rows| ==> after[i] == Rewritten(SourcesUpTo(w, k + 1), i, rows[i])
    ensures Rewrites(SourcesUpTo(w, k + 1), rows) == Rewrites(SourcesUpTo(w, k), rows) + count
  {
    forall i | 0 <= i < |rows|
      ensures s(i, before[i]).Some? == s(i, rows[i]).Some?
      ensures after[i] == Rewritten(SourcesUpTo(w, k + 1), i, rows[i])
      ensures SourcesUpTo(w, k + 1)(i, rows[i]).Some? == (SourcesUpTo(w, k)(i, rows[i]).Some? || s(i, rows[i]).Some?)
      ensures !(SourcesUpTo(w, k)(i, rows[i]).Some? && s(i, rows[i]).Some?)
    {
      SourcePass(w, k, s, i, rows[i]);
    }
    RewritesSplit(SourcesUpTo(w, k + 1), SourcesUpTo(w, k), s, rows);
    RewritesCongruent(s, before, s, rows);
  }

  /** Before the first iteration nothing is written. */
  lemma SourcesNone(w: SourceWrite, rows: seq<HadithRow>)
    ensures forall i :: 0 <= i < |rows| ==> Rewritten(SourcesUpTo(w, 0), i, rows[i]) == rows[i]
    ensures Rewrites(SourcesUpTo(w, 0), rows) == 0
  {
    NoRewrites(SourcesUpTo(w, 0), rows);
  }

  /** `[f(x) for x in xs if keep(x)]`. */
  function Selected<T, U>(xs: seq<T>, keep: T -> bool, f: T -> U): seq<U>
    decreases |xs|
  {
    if xs == [] then []
    else Selected(xs[..|xs| - 1], keep, f) + (if keep(xs[|xs| - 1]) then [f(xs[|xs| - 1])] else [])
  }

  lemma SelectedSnoc<T, U>(xs: seq<T>, keep: T -> bool, f: T -> U, i: nat)
    requires i < |xs|
    ensures Selected(xs[..i + 1], keep, f) == Selected(xs[..i], keep, f) + (if keep(xs[i]) then [f(xs[i])] else [])
  {
    assert xs[..i + 1][..i] == xs[..i];
  }

  predicate Increasing(idx: seq<nat>)
  {
    forall a, b :: 0 <= a < b < |idx| ==> idx[a] < idx[b]
  }

  /**
   * The selection holds exactly the kept elements, each once and in order: the returned
   * `idx` gives, entry by entry, the position of the element it was made from.
   */
  lemma {:induction false} SelectedFrom<T, U>(xs: seq<T>, keep: T -> bool, f: T -> U) returns (idx: seq<nat>)
    ensures |idx| == |Selected(xs, keep, f)| && Increasing(idx)
    ensures forall k :: 0 <= k < |idx| ==>
              idx[k] < |xs| && keep(xs[idx[k]]) && Selected(xs, keep, f)[k] == f(xs[idx[k]])
    ensures forall i :: 0 <= i < |xs| && keep(xs[i]) ==> i in idx
    decreases |xs|
  {
    if xs == [] {
      idx := [];
    } else {
      var n := |xs| - 1;
      var init := xs[..n];
      var idx0 := SelectedFrom(init, keep, f);
      assert forall i :: 0 <= i < n ==> init[i] == xs[i];
      if keep(xs[n]) {
        idx := idx0 + [n];
        assert Selected(xs, keep, f) == Selected(init, keep, f) + [f(xs[n])];
        assert idx[|idx0|] == n;
        forall k | 0 <= k < |idx0|
          ensures idx[k] == idx0[k] < n && Selected(xs, keep, f)[k] == Selected(init, keep, f)[k]
        {
        }
      } else {
        idx := idx0;
        assert Selected(xs, keep, f) == Selected(init, keep, f);
      }
    }
  }

  /**
   * A dictionary filled by a loop over `xs` with `d[k] = v` for each element that yields a
   * pair: later elements overwrite earlier ones.
   */
  function LastWins<T, K(==), V>(xs: seq<T>, entry: T -> Option<(K, V)>): map<K, V>
    decreases |xs|
  {
    if xs == [] then map[]
    else
      var d := LastWins(xs[..|xs| - 1], entry);
      match entry(xs[|xs| - 1])
      case Some(kv) => d[kv.0 := kv.1]
      case None => d
  }

  lemma LastWinsSnoc<T, K, V>(xs: seq<T>, entry: T -> Option<(K, V)>, i: nat)
    requires i < |xs|
    ensures LastWins(xs[..i + 1], entry) ==
              match entry(xs[i])
              case Some(kv) => LastWins(xs[..i], entry)[kv.0 := kv.1]
              case None => LastWins(xs[..i], entry)
  {
    assert xs[..i + 1][..i] == xs[..i];
  }

  /** The element whose pair sits in the dictionary under `k`: the last one with key `k`. */
  predicate Winner<T, K(==), V>(xs: seq<T>, entry: T -> Option<(K, V)>, k: K, i: nat)
  {
    && i < |xs|
    && entry(xs[i]).Some? && entry(xs[i]).value.0 == k
    && forall j :: i < j < |xs| ==> !(entry(xs[j]).Some? && entry(xs[j]).value.0 == k)
  }

  /**
   * A key is in the dictionary exactly when some element yields it, and its value is the
   * one the last such element yields.
   */
  lemma {:induction false} LastWinsFacts<T, K, V>(xs: seq<T>, entry: T -> Option<(K, V)>, k: K)
    returns (i: nat)
    ensures k in LastWins(xs, entry) <==>
              exists j :: 0 <= j < |xs| && entry(xs[j]).Some? && entry(xs[j]).value.0 == k
    ensures k in LastWins(xs, entry) ==>
              Winner(xs, entry, k, i) && LastWins(xs, entry)[k] == entry(xs[i]).value.1
    decreases |xs|
  {
    if xs == [] {
      i := 0;
    } else {
      var n := |xs| - 1;
      var init := xs[..n];
      var i0 := LastWinsFacts(init, entry, k);
      assert forall j :: 0 <= j < n ==> init[j] == xs[j];
      if entry(xs[n]).Some? && entry(xs[n]).value.0 == k {
        i := n;
      } else {
        i := i0;
        if k in LastWins(xs, entry) {
          assert Winner(init, entry, k, i0);
        }
      }
    }
  }

  /** `df['source'] = df['source'].str.strip()`; a missing cell stays missing. */
  function StrippedSource(r: HadithRow): (r': HadithRow)
    ensures r'.source.Some? <==> r.source.Some?
    ensures r' == r.(source := r'.source)
  {
    match r.source
    case Some(s) => r.(source := Some(PyStrip(s)))
    case None => r
  }

  /** Stripping the source column twice is the same as once. */
  lemma StrippedSourceIdempotent(r: HadithRow)
    ensures StrippedSource(StrippedSource(r)) == StrippedSource(r)
  {
    if r.source.Some? {
      TrimIdempotent(Py, r.source.value);
    }
  }

  function StrippedRows(rows: seq<HadithRow>): (rs: seq<HadithRow>)
    ensures |rs| == |rows|
    ensures forall i :: 0 <= i < |rows| ==> rs[i] == StrippedSource(rows[i])
  {
    seq(|rows|, i requires 0 <= i < |rows| => StrippedSource(rows[i]))
  }

  method StripSources(table: array<HadithRow>)
    modifies table
    ensures table[..] == StrippedRows(old(table[..]))
  {
    for idx := 0 to table.Length
      invariant forall i :: 0 <= i < idx ==> table[i] == StrippedSource(old(table[i]))
      invariant forall i :: idx <= i < table.Length ==> table[i] == old(table[i])
    {
      table[idx] := StrippedSource(table[idx]);
    }
  }

  /** The rows the loops start from are the stripped original rows. */
  lemma StrippedThenRewritten(final: seq<HadithRow>, rows: seq<HadithRow>, original: seq<HadithRow>, step: RowStep)
    requires rows == StrippedRows(original) && |final| == |rows|
    requires forall i :: 0 <= i < |final| ==> final[i] == Rewritten(step, i, rows[i])
    ensures forall i :: 0 <= i < |final| ==> final[i] == Rewritten(step, i, StrippedSource(original[i]))
  {
  }
}

/**
 * The Arabic text normalisation that `map_usc_msa_refs.py` and `fill_missing_english.py`
 * both define, identically, to compare a CSV cell with a JSON entry.
 */
module ArabicText {
  import opened Wrappers
  import opened Text

  /** The index of the first `>` in `s`, or `|s|` when there is none. */
  function FirstClose(s: string): (j: nat)
    ensures j <= |s|
    ensures j < |s| ==> s[j] == '>'
    ensures forall k :: 0 <= k < j ==> s[k] != '>'
    decreases |s|
  {
    if s == [] || s[0] == '>' then 0 else 1 + FirstClose(s[1..])
  }

  /** The pattern `<[^>]+>` matches at the start of `s`. */
  predicate TagStart(s: string)
  {
    s != [] && s[0] == '<' && 2 <= FirstClose(s) < |s|
  }

  /** No match of `<[^>]+>` starts anywhere in `s`. */
  predicate NoTag(s: string)
  {
    forall i :: 0 <= i < |s| ==> !TagStart(s[i..])
  }

  /**
   * `re.sub(r'<[^>]+>', '', s)`: scanning left to right, a `<` followed by at least one
   * character other than `>` and then a `>` is dropped with everything up to that `>`.
   */
  function StripTags(s: string): (r: string)
    ensures |r| <= |s|
    decreases |s|
  {
    if s == [] then []
    else if TagStart(s) then StripTags(s[FirstClose(s) + 1..])
    else [s[0]] + StripTags(s[1..])
  }

  /** A character missing from the input is missing from the output. */
  lemma {:induction false} StripTagsLacks(s: string, c: char)
    requires c !in s
    ensures c !in StripTags(s)
    decreases |s|
  {
    if s != [] {
      if TagStart(s) {
        assert c !in s[FirstClose(s) + 1..];
        StripTagsLacks(s[FirstClose(s) + 1..], c);
      } else {
        assert c !in s[1..];
        StripTagsLacks(s[1..], c);
      }
    }
  }

  lemma {:induction false} NoCloseFirst(s: string)
    requires '>' !in s
    ensures FirstClose(s) == |s|
    decreases |s|
  {
    if s != [] {
      assert s[0] in s;
      assert '>' !in s[1..];
      NoCloseFirst(s[1..]);
    }
  }

  /** After one substitution no tag is left. */
  lemma {:induction false} StripTagsNoTag(s: string)
    ensures NoTag(StripTags(s))
    decreases |s|
  {
    if s != [] {
      if TagStart(s) {
        StripTagsNoTag(s[FirstClose(s) + 1..]);
      } else {
        var rest := StripTags(s[1..]);
        StripTagsNoTag(s[1..]);
        var r := [s[0]] + rest;
        assert StripTags(s) == r;
        forall i | 0 <= i < |r| ensures !TagStart(r[i..]) {
          if i > 0 {
            assert r[i..] == rest[i - 1..];
          } else if s[0] == '<' {
            assert r[0..] == r;
            if FirstClose(s) < |s| {
              assert FirstClose(s) == 1;
              assert s[1..][0] == '>';
              assert rest == ['>'] + StripTags(s[1..][1..]);
              assert FirstClose(r[1..]) == 0;
            } else {
              assert '>' !in s[1..] by {
                forall k | 0 <= k < |s[1..]| ensures s[1..][k] != '>' {
                  assert s[1..][k] == s[k + 1];
                }
              }
              StripTagsLacks(s[1..], '>');
              assert '>' !in r;
              NoCloseFirst(r);
            }
          }
        }
      }
    }
  }

  /** Text without tags is left as it is. */
  lemma {:induction false} StripTagsUntagged(s: string)
    requires NoTag(s)
    ensures StripTags(s) == s
    decreases |s|
  {
    if s != [] {
      assert s[0..] == s;
      forall i | 0 <= i < |s[1..]| ensures !TagStart(s[1..][i..]) {
        assert s[1..][i..] == s[i + 1..];
      }
      StripTagsUntagged(s[1..]);
    }
  }

  /** The substitution is idempotent. */
  lemma StripTagsIdempotent(s: string)
    ensures StripTags(StripTags(s)) == StripTags(s)
  {
    StripTagsNoTag(s);
    StripTagsUntagged(StripTags(s));
  }

  /** A tag starts with `<`, so text without `<` is left as it is. */
  lemma StripTagsNoOpen(s: string)
    requires '<' !in s
    ensures StripTags(s) == s
  {
    forall i | 0 <= i < |s| ensures !TagStart(s[i..]) {
      assert s[i] in s;
    }
    StripTagsUntagged(s);
  }

  /** The diacritics `remove_tashkeel` removes: U+0617 to U+061A and U+064B to U+0652. */
  predicate IsTashkeel(c: char)
  {
    ('\U{617}' <= c <= '\U{61A}') || ('\U{64B}' <= c <= '\U{652}')
  }

  predicate NotTashkeel(c: char) { !IsTashkeel(c) }

  predicate WordChar(c: char) { IsWordChar(c) }

  function RemoveTashkeel(s: string): (r: string)
    ensures forall k :: 0 <= k < |r| ==> !IsTashkeel(r[k])
  {
    Filter(s, NotTashkeel)
  }

  /**
   * `normalize_arabic`: a value that is not a string normalises to `""`; otherwise tags,
   * diacritics, whitespace and then every non-word character are removed.
   */
  function NormalizeArabic(text: Option<string>): (r: string)
    ensures forall k :: 0 <= k < |r| ==> IsWordChar(r[k])
  {
    match text
    case None => ""
    case Some(s) => Filter(Filter(RemoveTashkeel(StripTags(s)), NotPySpace), WordChar)
  }

  /** Word characters are neither diacritics, whitespace nor `<`. */
  lemma WordCharIsPlain(c: char)
    requires IsWordChar(c)
    ensures !IsTashkeel(c) && !IsPySpace(c) && c != '<'
  {
  }

  /** The normal form holds only word characters: no diacritic, no whitespace, no tag. */
  lemma NormalizeArabicClean(text: Option<string>)
    ensures forall k :: 0 <= k < |NormalizeArabic(text)| ==>
              var c := NormalizeArabic(text)[k]; !IsTashkeel(c) && !IsPySpace(c) && c != '<'
  {
    var r := NormalizeArabic(text);
    forall k | 0 <= k < |r| ensures !IsTashkeel(r[k]) && !IsPySpace(r[k]) && r[k] != '<' {
      WordCharIsPlain(r[k]);
    }
  }

  /** Normalising a normal form changes nothing, so matching on normal forms is stable. */
  lemma NormalizeArabicIdempotent(text: Option<string>)
    ensures NormalizeArabic(Some(NormalizeArabic(text))) == NormalizeArabic(text)
  {
    var r := NormalizeArabic(text);
    NormalizeArabicClean(text);
    assert '<' !in r;
    StripTagsNoOpen(r);
    FilterKeepsAll(r, NotTashkeel);
    FilterKeepsAll(r, NotPySpace);
    FilterKeepsAll(r, WordChar);
  }
}
