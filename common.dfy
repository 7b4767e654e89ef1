/** The Option type used wherever the programs have a null, None, NaN or undefined. */
module Wrappers {
  datatype Option<T> = None | Some(value: T)
  {
    function GetOr(default: T): T
    {
      if Some? then value else default
    }
  }
}

/**
 * Character classes and string operations shared by the Python and
 * JavaScript programs. Strings are sequences of code points.
 */
module Text {
  import opened Wrappers

  /** Python and JavaScript disagree on what counts as whitespace. */
  datatype Flavor = Py | Js

  /** Python's `str.isspace`, which is also what `\s`, `split()` and `strip()` use. */
  predicate IsPySpace(c: char)
  {
    ('\t' <= c <= '\r') || ('\U{1C}' <= c <= '\U{1F}') || c == ' ' || c == '\U{85}' ||
    c == '\U{A0}' || c == '\U{1680}' || ('\U{2000}' <= c <= '\U{200A}') ||
    c == '\U{2028}' || c == '\U{2029}' || c == '\U{202F}' || c == '\U{205F}' || c == '\U{3000}'
  }

  /** ECMAScript WhiteSpace and LineTerminator, used by `trim()` and `\s`. */
  predicate IsJsSpace(c: char)
  {
    ('\t' <= c <= '\r') || c == ' ' || c == '\U{A0}' || c == '\U{FEFF}' ||
    c == '\U{1680}' || ('\U{2000}' <= c <= '\U{200A}') ||
    c == '\U{2028}' || c == '\U{2029}' || c == '\U{202F}' || c == '\U{205F}' || c == '\U{3000}'
  }

  predicate IsSpace(f: Flavor, c: char)
  {
    match f
    case Py => IsPySpace(c)
    case Js => IsJsSpace(c)
  }

  /** Python's `\d` and `str.isdigit` on the scripts this corpus contains. */
  predicate IsDecimal(c: char)
  {
    ('0' <= c <= '9') || ('\U{660}' <= c <= '\U{669}') || ('\U{6F0}' <= c <= '\U{6F9}')
  }

  function DigitValue(c: char): (d: nat)
    requires IsDecimal(c)
    ensures d < 10
  {
    if '0' <= c <= '9' then c as int - '0' as int
    else if '\U{660}' <= c <= '\U{669}' then c as int - 0x660
    else c as int - 0x6F0
  }

  predicate IsAsciiUpper(c: char) { 'A' <= c <= 'Z' }

  /** Python's `\w`: letters, digits and the underscore (Latin and Arabic script). */
  predicate IsWordChar(c: char)
  {
    ('a' <= c <= 'z') || ('A' <= c <= 'Z') || ('0' <= c <= '9') || c == '_' ||
    c == '\U{AA}' || c == '\U{B5}' || c == '\U{BA}' ||
    ('\U{C0}' <= c <= '\U{FF}' && c != '\U{D7}' && c != '\U{F7}') ||
    ('\U{620}' <= c <= '\U{64A}') || ('\U{660}' <= c <= '\U{669}') ||
    ('\U{66E}' <= c <= '\U{66F}') || ('\U{671}' <= c <= '\U{6D3}') || c == '\U{6D5}' ||
    ('\U{6F0}' <= c <= '\U{6F9}')
  }

  predicate AllChars(s: string, p: char -> bool)
  {
    forall k :: 0 <= k < |s| ==> p(s[k])
  }

  predicate NoSpace(f: Flavor, s: string)
  {
    forall k :: 0 <= k < |s| ==> !IsSpace(f, s[k])
  }

  // ---------------------------------------------------------------------
  // Trimming

  function TrimStart(f: Flavor, s: string): (r: string)
    ensures |r| <= |s|
    ensures r == [] || !IsSpace(f, r[0])
    decreases |s|
  {
    if s != [] && IsSpace(f, s[0]) then TrimStart(f, s[1..]) else s
  }

  /** TrimStart removes a run of leading whitespace and nothing else. */
  lemma {:induction false} TrimStartSuffix(f: Flavor, s: string)
    ensures TrimStart(f, s) == s[|s| - |TrimStart(f, s)|..]
    ensures forall k :: 0 <= k < |s| - |TrimStart(f, s)| ==> IsSpace(f, s[k])
    decreases |s|
  {
    if s != [] && IsSpace(f, s[0]) {
      TrimStartSuffix(f, s[1..]);
    }
  }

  function TrimEnd(f: Flavor, s: string): (r: string)
    ensures |r| <= |s|
    ensures r == [] || !IsSpace(f, r[|r| - 1])
    decreases |s|
  {
    if s != [] && IsSpace(f, s[|s| - 1]) then TrimEnd(f, s[..|s| - 1]) else s
  }

  /** TrimEnd removes a run of trailing whitespace and nothing else. */
  lemma {:induction false} TrimEndPrefix(f: Flavor, s: string)
    ensures TrimEnd(f, s) == s[..|TrimEnd(f, s)|]
    ensures forall k :: |TrimEnd(f, s)| <= k < |s| ==> IsSpace(f, s[k])
    decreases |s|
  {
    if s != [] && IsSpace(f, s[|s| - 1]) {
      TrimEndPrefix(f, s[..|s| - 1]);
    }
  }

  /** Python `str.strip()` (flavor Py) and JavaScript `String.prototype.trim` (flavor Js). */
  function Trim(f: Flavor, s: string): (r: string)
    ensures |r| <= |s|
    ensures r == [] || (!IsSpace(f, r[0]) && !IsSpace(f, r[|r| - 1]))
  {
    TrimEndFirst(f, TrimStart(f, s));
    TrimEnd(f, TrimStart(f, s))
  }

  lemma {:induction false} TrimEndFirst(f: Flavor, s: string)
    ensures TrimEnd(f, s) == [] || TrimEnd(f, s)[0] == s[0]
    decreases |s|
  {
    if s != [] && IsSpace(f, s[|s| - 1]) {
      TrimEndFirst(f, s[..|s| - 1]);
    }
  }

  function PyStrip(s: string): string { Trim(Py, s) }

  function JsTrim(s: string): string { Trim(Js, s) }

  /** A string with no surrounding whitespace is its own trim. */
  lemma {:induction false} TrimOfTrimmed(f: Flavor, s: string)
    requires s == [] || (!IsSpace(f, s[0]) && !IsSpace(f, s[|s| - 1]))
    ensures Trim(f, s) == s
  {
    assert TrimStart(f, s) == s;
    assert TrimEnd(f, s) == s;
  }

  /** Trimming only removes characters. */
  lemma TrimChars(f: Flavor, s: string, c: char)
    ensures c in Trim(f, s) ==> c in s
  {
    if c !in Trim(f, s) {
      return;
    }
    var t := TrimStart(f, s);
    var r := TrimEnd(f, t);
    TrimStartSuffix(f, s);
    TrimEndPrefix(f, t);
    var k :| 0 <= k < |r| && r[k] == c;
    assert t[k] == c;
    assert s[|s| - |t| + k] == c;
  }

  lemma TrimIdempotent(f: Flavor, s: string)
    ensures Trim(f, Trim(f, s)) == Trim(f, s)
  {
    TrimOfTrimmed(f, Trim(f, s));
  }

  /** A string made only of whitespace trims to the empty string. */
  lemma {:induction false} TrimOfBlank(f: Flavor, s: string)
    requires forall k :: 0 <= k < |s| ==> IsSpace(f, s[k])
    ensures Trim(f, s) == []
  {
    TrimStartSuffix(f, s);
  }

  // ---------------------------------------------------------------------
  // Searching

  predicate StartsWith(s: string, p: string)
  {
    |p| <= |s| && s[..|p|] == p
  }

  /** Python `s.endswith(p)`, JavaScript `s.endsWith(p)`. */
  predicate EndsWith(s: string, p: string)
  {
    |p| <= |s| && s[|s| - |p|..] == p
  }

  /** Python `p in s`, JavaScript `s.includes(p)`. */
  predicate Contains(s: string, p: string)
    decreases |s|
  {
    StartsWith(s, p) || (s != [] && Contains(s[1..], p))
  }

  lemma {:induction false} ContainsInfix(a: string, p: string, b: string)
    ensures Contains(a + p + b, p)
    decreases |a|
  {
    if a == [] {
      assert (a + p + b)[..|p|] == p;
    } else {
      assert (a + p + b)[1..] == a[1..] + p + b;
      ContainsInfix(a[1..], p, b);
    }
  }

  /** A string containing `p` contains every string that `p` contains. */
  lemma {:induction false} ContainsTransitive(s: string, p: string, q: string)
    requires Contains(s, p) && Contains(p, q)
    ensures Contains(s, q)
    decreases |s|
  {
    if StartsWith(s, p) {
      var i := ContainsAt(p, q);
      assert s == p[..i] + q + (p[i + |q|..] + s[|p|..]);
      ContainsInfix(p[..i], q, p[i + |q|..] + s[|p|..]);
    } else {
      ContainsTransitive(s[1..], p, q);
    }
  }

  /** Where an occurrence is. */
  lemma {:induction false} ContainsAt(s: string, p: string) returns (i: nat)
    requires Contains(s, p)
    ensures i + |p| <= |s| && s[i..i + |p|] == p
    decreases |s|
  {
    if StartsWith(s, p) {
      i := 0;
    } else {
      var j := ContainsAt(s[1..], p);
      i := j + 1;
      assert s[i..i + |p|] == s[1..][j..j + |p|];
    }
  }

  /** The part of `s` before the first `c` (JavaScript `s.split(c)[0]`). */
  function Before(s: string, c: char): (r: string)
    ensures |r| <= |s| && r == s[..|r|]
    ensures c !in r
    ensures |r| < |s| ==> s[|r|] == c
    decreases |s|
  {
    if s == [] || s[0] == c then [] else [s[0]] + Before(s[1..], c)
  }

  // ---------------------------------------------------------------------
  // Filtering and mapping characters

  function Filter(s: string, keep: char -> bool): (r: string)
    ensures |r| <= |s|
    ensures forall k :: 0 <= k < |r| ==> keep(r[k])
    decreases |s|
  {
    if s == [] then []
    else if keep(s[0]) then [s[0]] + Filter(s[1..], keep)
    else Filter(s[1..], keep)
  }

  lemma {:induction false} FilterKeepsAll(s: string, keep: char -> bool)
    requires forall k :: 0 <= k < |s| ==> keep(s[k])
    ensures Filter(s, keep) == s
    decreases |s|
  {
    if s != [] {
      FilterKeepsAll(s[1..], keep);
    }
  }

  lemma {:induction false} FilterIdempotent(s: string, keep: char -> bool)
    ensures Filter(Filter(s, keep), keep) == Filter(s, keep)
  {
    FilterKeepsAll(Filter(s, keep), keep);
  }

  /** Every character kept by a filter comes from the input. */
  lemma {:induction false} FilterSubset(s: string, keep: char -> bool, c: char)
    requires c in Filter(s, keep)
    ensures c in s
    decreases |s|
  {
    if s != [] && !(keep(s[0]) && c == s[0]) {
      FilterSubset(s[1..], keep, c);
    }
  }

  function LowerChar(c: char): (d: char)
    ensures !IsAsciiUpper(d)
  {
    if IsAsciiUpper(c) then (c as int + 32) as char else c
  }

  /** `str.lower()` / `toLowerCase()`, on ASCII letters. */
  function Lower(s: string): (r: string)
    ensures |r| == |s|
    ensures forall k :: 0 <= k < |r| ==> r[k] == LowerChar(s[k])
  {
    seq(|s|, k requires 0 <= k < |s| => LowerChar(s[k]))
  }

  // ---------------------------------------------------------------------
  // Replacing

  /**
   * Python `s.replace(p, r)` and JavaScript `s.replace(/p/g, r)`: scan left to right
   * and replace every occurrence of `p`, never rescanning the replacement.
   */
  function ReplaceAll(s: string, p: string, r: string): string
    requires |p| > 0
    decreases |s|
  {
    if s == [] then []
    else if StartsWith(s, p) then r + ReplaceAll(s[|p|..], p, r)
    else [s[0]] + ReplaceAll(s[1..], p, r)
  }

  /** Replacing a pattern that does not occur changes nothing. */
  lemma {:induction false} ReplaceAbsent(s: string, p: string, r: string)
    requires |p| > 0 && !Contains(s, p)
    ensures ReplaceAll(s, p, r) == s
    decreases |s|
  {
    if s != [] {
      ReplaceAbsent(s[1..], p, r);
    }
  }

  /** `a` and `b` agree on their common length: neither rules the other out as a prefix. */
  predicate Overlaps(a: string, b: string)
  {
    var n := if |a| < |b| then |a| else |b|;
    a[..n] == b[..n]
  }

  /**
   * If no non-empty suffix of `q` can line up with the start of `r`, then a prefix `q`
   * of the output was copied from the input unchanged.
   */
  lemma {:induction false} CopiedPrefix(t: string, p: string, r: string, q: string)
    requires |p| > 0 && |r| > 0
    requires forall k :: 0 <= k < |q| ==> !Overlaps(q[k..], r)
    requires StartsWith(ReplaceAll(t, p, r), q)
    ensures StartsWith(t, q)
    decreases |q|
  {
    if q != [] {
      var out := ReplaceAll(t, p, r);
      assert t != [];
      PrefixesOverlap(out, q, r);
      assert q[0..] == q;
      if !StartsWith(t, p) {
        assert out == [t[0]] + ReplaceAll(t[1..], p, r);
        assert q[0] == t[0];
        forall k | 0 <= k < |q[1..]| ensures !Overlaps(q[1..][k..], r) {
          assert q[1..][k..] == q[k + 1..];
        }
        assert StartsWith(ReplaceAll(t[1..], p, r), q[1..]) by {
          assert out[1..] == ReplaceAll(t[1..], p, r);
          assert out[1..][..|q| - 1] == out[..|q|][1..];
        }
        CopiedPrefix(t[1..], p, r, q[1..]);
        assert t[..|q|] == [t[0]] + t[1..][..|q| - 1];
      }
    }
  }

  lemma PrefixesOverlap(s: string, a: string, b: string)
    ensures StartsWith(s, a) && StartsWith(s, b) ==> Overlaps(a, b)
  {
    if StartsWith(s, a) && StartsWith(s, b) {
      var n := if |a| < |b| then |a| else |b|;
      assert a[..n] == s[..n] == b[..n];
    }
  }

  /**
   * After `ReplaceAll(s, p, r)` no occurrence of `p` is left, provided the replacement
   * cannot combine with its neighbours into a new occurrence.
   */
  lemma {:induction false} ReplaceAllRemoves(s: string, p: string, r: string)
    requires |p| > 0 && |r| > 0
    requires forall k :: 0 <= k < |r| ==> !Overlaps(r[k..], p)
    requires forall k :: 1 <= k < |p| ==> !Overlaps(p[k..], r)
    ensures !Contains(ReplaceAll(s, p, r), p)
    decreases |s|
  {
    if s != [] {
      var out := ReplaceAll(s, p, r);
      if StartsWith(s, p) {
        var rest := ReplaceAll(s[|p|..], p, r);
        ReplaceAllRemoves(s[|p|..], p, r);
        assert out == r + rest;
        NotContainsAfterPrefix(r, rest, p);
      } else {
        var rest := ReplaceAll(s[1..], p, r);
        ReplaceAllRemoves(s[1..], p, r);
        assert out == [s[0]] + rest;
        forall k | 0 <= k < |p[1..]| ensures !Overlaps(p[1..][k..], r) {
          assert p[1..][k..] == p[k + 1..];
        }
        StartsWithCons(s, p);
        if StartsWith(out, p) {
          assert StartsWith(rest, p[1..]) by {
            assert rest[..|p| - 1] == out[..|p|][1..];
          }
          CopiedPrefix(s[1..], p, r, p[1..]);
        }
        assert !StartsWith(out, p);
        assert out[1..] == rest;
      }
    }
  }

  lemma StartsWithCons(s: string, p: string)
    ensures s != [] && p != [] && s[0] == p[0] && StartsWith(s[1..], p[1..]) ==> StartsWith(s, p)
  {
    if s != [] && p != [] && s[0] == p[0] && StartsWith(s[1..], p[1..]) {
      assert s[..|p|] == [s[0]] + s[1..][..|p| - 1];
    }
  }

  /** `a + b` has no occurrence of `p` if `b` has none and none can start inside `a`. */
  lemma {:induction false} NotContainsAfterPrefix(a: string, b: string, p: string)
    requires !Contains(b, p)
    requires forall k :: 0 <= k < |a| ==> !Overlaps(a[k..], p)
    ensures !Contains(a + b, p)
    decreases |a|
  {
    if a == [] {
      assert a + b == b;
    } else {
      assert !Overlaps(a[0..], p);
      assert a[0..] == a;
      var n := if |a| < |p| then |a| else |p|;
      assert (a + b)[..n] == a[..n];
      assert !StartsWith(a + b, p);
      forall k | 0 <= k < |a[1..]| ensures !Overlaps(a[1..][k..], p) {
        assert a[1..][k..] == a[k + 1..];
      }
      NotContainsAfterPrefix(a[1..], b, p);
      assert (a + b)[1..] == a[1..] + b;
    }
  }

  /** JavaScript `s.replace(p, r)` with a string pattern: only the first occurrence. */
  function ReplaceFirst(s: string, p: string, r: string): (out: string)
    ensures !Contains(s, p) ==> out == s
    decreases |s|
  {
    if StartsWith(s, p) then r + s[|p|..]
    else if s == [] then []
    else [s[0]] + ReplaceFirst(s[1..], p, r)
  }

  /** `ReplaceFirst` replaces the occurrence of `p` that starts furthest left. */
  lemma ReplaceFirstAt(s: string, p: string, r: string) returns (i: nat)
    requires Contains(s, p)
    ensures i + |p| <= |s| && s[i..i + |p|] == p
    ensures forall j :: 0 <= j < i ==> !StartsWith(s[j..], p)
    ensures ReplaceFirst(s, p, r) == s[..i] + r + s[i + |p|..]
  {
    i := FirstAt(s, p);
    ReplaceFirstAtIndex(s, p, r, i);
  }

  /** The leftmost occurrence of `p`. */
  lemma {:induction false} FirstAt(s: string, p: string) returns (i: nat)
    requires Contains(s, p)
    ensures i + |p| <= |s| && s[i..i + |p|] == p
    ensures forall j :: 0 <= j < i ==> !StartsWith(s[j..], p)
    decreases |s|
  {
    if StartsWith(s, p) {
      i := 0;
    } else {
      var j := FirstAt(s[1..], p);
      i := j + 1;
      assert s[i..i + |p|] == s[1..][j..j + |p|];
      forall k | 0 <= k < i ensures !StartsWith(s[k..], p) {
        if k > 0 {
          assert s[k..] == s[1..][k - 1..];
        }
      }
    }
  }

  lemma {:induction false} ReplaceFirstAtIndex(s: string, p: string, r: string, i: nat)
    requires i + |p| <= |s| && StartsWith(s[i..], p)
    requires forall j :: 0 <= j < i ==> !StartsWith(s[j..], p)
    ensures ReplaceFirst(s, p, r) == s[..i] + r + s[i + |p|..]
    decreases i
  {
    if i == 0 {
      assert s[0..] == s;
    } else {
      var t := s[1..];
      assert s[0..] == s;
      ReplaceFirstUnfold(s, p, r);
      forall j | 0 <= j < i - 1 ensures !StartsWith(t[j..], p) {
        assert t[j..] == s[j + 1..];
      }
      assert t[i - 1..] == s[i..];
      ReplaceFirstAtIndex(t, p, r, i - 1);
      ConsSlices(s, i, |p|);
      ConsAssoc(s[0], t[..i - 1], r, t[i - 1 + |p|..]);
    }
  }

  lemma ReplaceFirstUnfold(s: string, p: string, r: string)
    requires s != [] && !StartsWith(s, p)
    ensures ReplaceFirst(s, p, r) == [s[0]] + ReplaceFirst(s[1..], p, r)
  {
  }

  lemma ConsSlices(s: string, i: nat, n: nat)
    requires 0 < i && i + n <= |s|
    ensures [s[0]] + s[1..][..i - 1] == s[..i]
    ensures s[1..][i - 1 + n..] == s[i + n..]
  {
  }

  lemma ConsAssoc(x: char, a: string, r: string, b: string)
    ensures [x] + (a + r + b) == ([x] + a) + r + b
  {
  }

  // ---------------------------------------------------------------------
  // Splitting and joining

  /** Python `s.split(sep)` and JavaScript `s.split(sep)` for a non-empty string separator. */
  function Split(s: string, sep: string): (pieces: seq<string>)
    requires |sep| > 0
    ensures |pieces| >= 1
    decreases |s|
  {
    if |s| < |sep| then [s]
    else if s[..|sep|] == sep then [[]] + Split(s[|sep|..], sep)
    else
      var rest := Split(s[1..], sep);
      [[s[0]] + rest[0]] + rest[1..]
  }

  function Join(pieces: seq<string>, sep: string): string
  {
    if pieces == [] then []
    else if |pieces| == 1 then pieces[0]
    else pieces[0] + sep + Join(pieces[1..], sep)
  }

  /** Splitting and joining back with the same separator gives the input back. */
  lemma {:induction false} JoinSplit(s: string, sep: string)
    requires |sep| > 0
    ensures Join(Split(s, sep), sep) == s
    decreases |s|
  {
    if |s| < |sep| {
    } else if s[..|sep|] == sep {
      JoinSplit(s[|sep|..], sep);
      JoinSplitAtSep(s, sep);
    } else {
      JoinSplit(s[1..], sep);
      JoinSplitOther(s, sep);
    }
  }

  lemma JoinSplitAtSep(s: string, sep: string)
    requires |sep| > 0 && |s| >= |sep| && s[..|sep|] == sep
    requires Join(Split(s[|sep|..], sep), sep) == s[|sep|..]
    ensures Join(Split(s, sep), sep) == s
  {
    SplitAtSep(s, sep);
    JoinEmptyHead(Split(s[|sep|..], sep), sep);
    PrefixThenRest(s, sep);
  }

  lemma SplitAtSep(s: string, sep: string)
    requires |sep| > 0 && |s| >= |sep| && s[..|sep|] == sep
    ensures Split(s, sep) == [[]] + Split(s[|sep|..], sep)
  {
  }

  lemma PrefixThenRest(s: string, p: string)
    requires |p| <= |s| && s[..|p|] == p
    ensures s == p + s[|p|..]
  {
    assert s == s[..|p|] + s[|p|..];
  }

  /** An empty first piece puts the separator in front. */
  lemma JoinEmptyHead(rest: seq<string>, sep: string)
    requires rest != []
    ensures Join([[]] + rest, sep) == sep + Join(rest, sep)
  {
    var pieces: seq<string> := [[]] + rest;
    assert pieces[1..] == rest;
    JoinCons(pieces, sep);
  }

  lemma JoinSplitOther(s: string, sep: string)
    requires |sep| > 0 && |s| >= |sep| && s[..|sep|] != sep
    requires Join(Split(s[1..], sep), sep) == s[1..]
    ensures Join(Split(s, sep), sep) == s
  {
    var rest := Split(s[1..], sep);
    var pieces := [[s[0]] + rest[0]] + rest[1..];
    assert Split(s, sep) == pieces;
    JoinHead(rest, sep, [s[0]]);
    assert s == [s[0]] + s[1..];
  }

  /** Prepending to the first piece prepends to the joined string. */
  lemma JoinHead(ws: seq<string>, sep: string, x: string)
    requires ws != []
    ensures Join([x + ws[0]] + ws[1..], sep) == x + Join(ws, sep)
  {
    var pieces := [x + ws[0]] + ws[1..];
    assert pieces[0] == x + ws[0];
    assert pieces[1..] == ws[1..];
    if |ws| > 1 {
      JoinCons(ws, sep);
      JoinCons(pieces, sep);
    }
  }

  /** A string without the (one-character) separator is one piece. */
  lemma {:induction false} SplitWithoutSep(s: string, c: char)
    requires c !in s
    ensures Split(s, [c]) == [s]
    decreases |s|
  {
    if |s| >= 1 {
      assert s[..1] != [c] by {
        assert s[0] != c;
      }
      SplitWithoutSep(s[1..], c);
      assert [s[0]] + s[1..] == s;
    }
  }

  function CountChar(s: string, c: char): nat
    decreases |s|
  {
    if s == [] then 0 else (if s[0] == c then 1 else 0) + CountChar(s[1..], c)
  }

  /** Splitting on one character yields one piece more than there are separators. */
  lemma {:induction false} SplitCharCount(s: string, c: char)
    ensures |Split(s, [c])| == CountChar(s, c) + 1
    decreases |s|
  {
    if s != [] {
      SplitCharCount(s[1..], c);
    }
  }

  // Python's `split()` without arguments.

  function TakeWord(s: string): (w: string)
    ensures |w| <= |s| && w == s[..|w|]
    ensures NoSpace(Py, w)
    ensures |w| < |s| ==> IsPySpace(s[|w|])
    decreases |s|
  {
    if s == [] || IsPySpace(s[0]) then [] else [s[0]] + TakeWord(s[1..])
  }

  predicate IsWord(w: string)
  {
    w != [] && NoSpace(Py, w)
  }

  /** The maximal runs of non-whitespace characters of `s`, in order. */
  function Words(s: string): seq<string>
    decreases |s|
  {
    var t := TrimStart(Py, s);
    if t == [] then []
    else
      var w := TakeWord(t);
      [w] + Words(t[|w|..])
  }

  /** Every piece of `split()` is non-empty and has no whitespace. */
  lemma {:induction false} WordsAreWords(s: string)
    ensures forall i :: 0 <= i < |Words(s)| ==> IsWord(Words(s)[i])
    decreases |s|
  {
    var t := TrimStart(Py, s);
    if t != [] {
      var w := TakeWord(t);
      var ws := Words(t[|w|..]);
      WordsAreWords(t[|w|..]);
      assert w != [] by {
        assert !IsPySpace(t[0]);
      }
      assert Words(s) == [w] + ws;
      forall i | 0 <= i < |Words(s)| ensures IsWord(Words(s)[i]) {
        if i > 0 {
          assert Words(s)[i] == ws[i - 1];
        }
      }
    }
  }

  /** Python `" ".join(s.split())`. */
  function CollapseSpaces(s: string): string
  {
    Join(Words(s), " ")
  }

  /** A string whose only whitespace is single spaces between words. */
  predicate Collapsed(s: string)
  {
    (forall k :: 0 <= k < |s| ==> IsPySpace(s[k]) ==> s[k] == ' ') &&
    (s == [] || (s[0] != ' ' && s[|s| - 1] != ' ')) &&
    (forall k :: 0 <= k < |s| - 1 ==> !(s[k] == ' ' && s[k + 1] == ' '))
  }

  lemma {:induction false} JoinWordsCollapsed(ws: seq<string>)
    requires forall i :: 0 <= i < |ws| ==> IsWord(ws[i])
    ensures Collapsed(Join(ws, " "))
    decreases |ws|
  {
    if |ws| > 1 {
      JoinWordsCollapsed(ws[1..]);
      var tail := Join(ws[1..], " ");
      var j := ws[0] + " " + tail;
      assert Join(ws, " ") == j;
      assert ws[1] != [];
      JoinNonEmptyStart(ws[1..], " ");
      forall k | 0 <= k < |j| - 1 ensures !(j[k] == ' ' && j[k + 1] == ' ') {
        if k < |ws[0]| {
          assert j[k] == ws[0][k];
          assert !IsPySpace(ws[0][k]);
        } else if k == |ws[0]| {
          assert j[k + 1] == tail[0];
        } else {
          assert j[k] == tail[k - |ws[0]| - 1];
          assert j[k + 1] == tail[k - |ws[0]|];
        }
      }
      forall k | 0 <= k < |j| && IsPySpace(j[k]) ensures j[k] == ' ' {
        if k > |ws[0]| {
          assert j[k] == tail[k - |ws[0]| - 1];
        }
      }
      assert j[0] == ws[0][0];
      assert j[|j| - 1] == tail[|tail| - 1];
    } else if |ws| == 1 {
      assert Join(ws, " ") == ws[0];
    }
  }

  lemma {:induction false} JoinNonEmptyStart(ws: seq<string>, sep: string)
    requires |ws| > 0 && ws[0] != []
    ensures Join(ws, sep) != [] && Join(ws, sep)[0] == ws[0][0]
  {
  }

  /** The output of `" ".join(s.split())` has no surrounding, repeated or non-space whitespace. */
  lemma CollapseSpacesCollapsed(s: string)
    ensures Collapsed(CollapseSpaces(s))
  {
    WordsAreWords(s);
    JoinWordsCollapsed(Words(s));
  }

  /** Python `split()` of words joined by single spaces gives the words back. */
  lemma {:induction false} WordsOfJoin(ws: seq<string>)
    requires forall i :: 0 <= i < |ws| ==> IsWord(ws[i])
    ensures Words(Join(ws, " ")) == ws
    decreases |ws|
  {
    if ws == [] {
      assert Words([]) == [];
    } else if |ws| == 1 {
      assert Join(ws, " ") == ws[0] + [];
      WordsCons(ws[0], []);
      assert Words([]) == [];
      assert ws == [ws[0]];
    } else {
      assert forall i :: 0 <= i < |ws[1..]| ==> IsWord(ws[1..][i]);
      WordsOfJoin(ws[1..]);
      WordsOfJoinStep(ws);
    }
  }

  lemma WordsOfJoinStep(ws: seq<string>)
    requires |ws| > 1 && IsWord(ws[0]) && IsWord(ws[1])
    requires Words(Join(ws[1..], " ")) == ws[1..]
    ensures Words(Join(ws, " ")) == ws
  {
    var tail := Join(ws[1..], " ");
    assert ws[1..][0] == ws[1];
    JoinNonEmptyStart(ws[1..], " ");
    JoinCons(ws, " ");
    WordsSpaceWord(ws[0], tail);
    assert [ws[0]] + ws[1..] == ws;
  }

  lemma WordsSpaceWord(w: string, tail: string)
    requires IsWord(w) && tail != [] && !IsPySpace(tail[0])
    ensures Words(w + (" " + tail)) == [w] + Words(tail)
  {
    WordsCons(w, " " + tail);
    WordsAfterSpace(tail);
  }

  lemma JoinCons(ws: seq<string>, sep: string)
    requires |ws| > 1
    ensures Join(ws, sep) == ws[0] + (sep + Join(ws[1..], sep))
  {
  }

  lemma WordsCons(w: string, rest: string)
    requires IsWord(w)
    requires rest == [] || IsPySpace(rest[0])
    ensures Words(w + rest) == [w] + Words(rest)
  {
    assert TrimStart(Py, w + rest) == w + rest;
    TakeWordWhole(w, rest);
    assert (w + rest)[|w|..] == rest;
  }

  lemma WordsAfterSpace(t: string)
    requires t != [] && !IsPySpace(t[0])
    ensures Words(" " + t) == Words(t)
  {
    assert (" " + t)[1..] == t;
    assert TrimStart(Py, " " + t) == TrimStart(Py, t) == t;
  }

  lemma {:induction false} TakeWordWhole(w: string, rest: string)
    requires NoSpace(Py, w)
    requires rest == [] || IsPySpace(rest[0])
    ensures TakeWord(w + rest) == w
    decreases |w|
  {
    if w != [] {
      assert (w + rest)[1..] == w[1..] + rest;
      TakeWordWhole(w[1..], rest);
    }
  }

  /** `" ".join(s.split())` is idempotent. */
  lemma CollapseSpacesIdempotent(s: string)
    ensures CollapseSpaces(CollapseSpaces(s)) == CollapseSpaces(s)
  {
    WordsAreWords(s);
    WordsOfJoin(Words(s));
  }

  // ---------------------------------------------------------------------
  // Non-whitespace content

  predicate NotPySpace(c: char) { !IsPySpace(c) }

  function Concat(ws: seq<string>): string
  {
    if ws == [] then [] else ws[0] + Concat(ws[1..])
  }

  lemma {:induction false} FilterAppend(a: string, b: string, keep: char -> bool)
    ensures Filter(a + b, keep) == Filter(a, keep) + Filter(b, keep)
    decreases |a|
  {
    if a != [] {
      assert (a + b)[0] == a[0];
      assert (a + b)[1..] == a[1..] + b;
      FilterAppend(a[1..], b, keep);
    } else {
      assert a + b == b;
    }
  }

  /** A kept character is in the filtered string exactly when it is in the input. */
  lemma {:induction false} FilterHas(s: string, keep: char -> bool, c: char)
    requires keep(c)
    ensures c in Filter(s, keep) <==> c in s
    decreases |s|
  {
    if s != [] {
      FilterHas(s[1..], keep, c);
      assert s == [s[0]] + s[1..];
    }
  }

  lemma {:induction false} FilterNone(s: string, keep: char -> bool)
    requires forall k :: 0 <= k < |s| ==> !keep(s[k])
    ensures Filter(s, keep) == []
    decreases |s|
  {
    if s != [] {
      FilterNone(s[1..], keep);
    }
  }

  /** Joining words with single spaces keeps exactly their non-space characters. */
  lemma {:induction false} FilterJoinWords(ws: seq<string>)
    requires forall i :: 0 <= i < |ws| ==> IsWord(ws[i])
    ensures Filter(Join(ws, " "), NotPySpace) == Concat(ws)
    decreases |ws|
  {
    if ws != [] {
      FilterKeepsAll(ws[0], NotPySpace);
      if |ws| == 1 {
        assert Concat(ws[1..]) == [];
      } else {
        FilterJoinWords(ws[1..]);
        JoinCons(ws, " ");
        FilterAppend(ws[0], " " + Join(ws[1..], " "), NotPySpace);
        FilterAppend(" ", Join(ws[1..], " "), NotPySpace);
        assert Filter(" ", NotPySpace) == [];
      }
    }
  }

  /** The words of a string are its non-space characters, cut into runs. */
  lemma {:induction false} FilterWords(s: string)
    ensures Filter(s, NotPySpace) == Concat(Words(s))
    decreases |s|
  {
    var t := TrimStart(Py, s);
    FilterLeadingSpace(s);
    if t != [] {
      var w := TakeWord(t);
      FilterWords(t[|w|..]);
      FilterWordThenRest(t);
      assert Words(s) == [w] + Words(t[|w|..]);
    }
  }

  lemma FilterLeadingSpace(s: string)
    ensures Filter(s, NotPySpace) == Filter(TrimStart(Py, s), NotPySpace)
  {
    var t := TrimStart(Py, s);
    TrimStartSuffix(Py, s);
    assert s == s[..|s| - |t|] + t;
    FilterAppend(s[..|s| - |t|], t, NotPySpace);
    FilterNone(s[..|s| - |t|], NotPySpace);
  }

  lemma FilterTrailingSpace(s: string)
    ensures Filter(s, NotPySpace) == Filter(TrimEnd(Py, s), NotPySpace)
  {
    var t := TrimEnd(Py, s);
    TrimEndPrefix(Py, s);
    assert s == t + s[|t|..];
    FilterAppend(t, s[|t|..], NotPySpace);
    FilterNone(s[|t|..], NotPySpace);
  }

  /** Stripping removes whitespace only. */
  lemma FilterStrip(s: string)
    ensures Filter(PyStrip(s), NotPySpace) == Filter(s, NotPySpace)
  {
    FilterLeadingSpace(s);
    FilterTrailingSpace(TrimStart(Py, s));
  }

  lemma FilterWordThenRest(t: string)
    ensures Filter(t, NotPySpace) == TakeWord(t) + Filter(t[|TakeWord(t)|..], NotPySpace)
  {
    var w := TakeWord(t);
    assert t == w + t[|w|..];
    FilterAppend(w, t[|w|..], NotPySpace);
    FilterKeepsAll(w, NotPySpace);
  }

  /** Collapsing whitespace keeps the non-space characters and their order. */
  lemma CollapseKeepsContent(s: string)
    ensures Filter(CollapseSpaces(s), NotPySpace) == Filter(s, NotPySpace)
  {
    WordsAreWords(s);
    FilterJoinWords(Words(s));
    FilterWords(s);
  }

  /** A collapsed string is its own strip. */
  lemma StripCollapsed(s: string)
    ensures PyStrip(CollapseSpaces(s)) == CollapseSpaces(s)
  {
    var c := CollapseSpaces(s);
    CollapseSpacesCollapsed(s);
    if c != [] {
      assert c[0] != ' ' && c[|c| - 1] != ' ';
      assert !IsPySpace(c[0]) && !IsPySpace(c[|c| - 1]);
    }
    TrimOfTrimmed(Py, c);
  }

  /** Python `[x.strip() for x in pieces if x.strip()]`. */
  function StripNonEmpty(pieces: seq<string>): (r: seq<string>)
    ensures |r| <= |pieces|
    ensures forall i :: 0 <= i < |r| ==> r[i] != [] && PyStrip(r[i]) == r[i]
    decreases |pieces|
  {
    if pieces == [] then []
    else
      var t := PyStrip(pieces[0]);
      var rest := StripNonEmpty(pieces[1..]);
      TrimIdempotent(Py, pieces[0]);
      if t != [] then [t] + rest else rest
  }

  /** A character absent from every piece is absent from every stripped piece. */
  lemma {:induction false} StripNonEmptyLacks(pieces: seq<string>, c: char)
    requires forall p :: p in pieces ==> c !in p
    ensures forall t :: t in StripNonEmpty(pieces) ==> c !in t
    decreases |pieces|
  {
    if pieces != [] {
      StripNonEmptyLacks(pieces[1..], c);
      TrimChars(Py, pieces[0], c);
    }
  }

  // ---------------------------------------------------------------------
  // Python int()

  predicate AllDecimal(s: string)
  {
    forall k :: 0 <= k < |s| ==> IsDecimal(s[k])
  }

  function DecimalValue(s: string): nat
    requires AllDecimal(s)
    decreases |s|
  {
    if s == [] then 0 else DecimalValue(s[..|s| - 1]) * 10 + DigitValue(s[|s| - 1])
  }

  /** Python `str(n)` / JavaScript `String(n)` of a non-negative integer. */
  function NatToString(n: nat): (s: string)
    ensures s != [] && AllDecimal(s)
    ensures forall k :: 0 <= k < |s| ==> '0' <= s[k] <= '9'
    decreases n
  {
    if n < 10 then [('0' as int + n) as char]
    else NatToString(n / 10) + [('0' as int + n % 10) as char]
  }

  /** Reading back a rendered number gives the number. */
  lemma {:induction false} NatToStringValue(n: nat)
    ensures DecimalValue(NatToString(n)) == n
    decreases n
  {
    var s := NatToString(n);
    if n >= 10 {
      NatToStringValue(n / 10);
      assert s[..|s| - 1] == NatToString(n / 10);
    } else {
      assert s[..|s| - 1] == [];
    }
  }

  /** `str(i)` of an integer. */
  function IntToString(i: int): string
  {
    if i < 0 then "-" + NatToString(-i) else NatToString(i)
  }

  /** Python `int(s)` on a string: surrounding whitespace, an optional sign, decimal digits. */
  function ParseInt(s: string): (r: Option<int>)
    ensures r.Some? ==> PyStrip(s) != []
  {
    var t := PyStrip(s);
    if t != [] && (t[0] == '-' || t[0] == '+') then
      var d := t[1..];
      if d != [] && AllDecimal(d) then
        Some(if t[0] == '-' then -(DecimalValue(d) as int) else DecimalValue(d) as int)
      else None
    else if t != [] && AllDecimal(t) then Some(DecimalValue(t) as int)
    else None
  }

  /** `s[:n]`: the first `n` characters, or all of `s` when it is shorter. */
  function Head(s: string, n: nat): (h: string)
    ensures |h| == if |s| < n then |s| else n
    ensures h == s[..|h|]
  {
    if |s| <= n then s else s[..n]
  }
}

/** Stable sorting by an integer key, largest key first. */
module Sorting {

  predicate SortedDesc<T>(s: seq<T>, key: T -> int)
  {
    forall i, j :: 0 <= i < j < |s| ==> key(s[i]) >= key(s[j])
  }

  /** The elements of `s` whose key is `k`, in their order in `s`. */
  function WithKey<T>(s: seq<T>, key: T -> int, k: int): seq<T>
    decreases |s|
  {
    if s == [] then []
    else (if key(s[0]) == k then [s[0]] else []) + WithKey(s[1..], key, k)
  }

  /** Put `x` after every element whose key is at least its own. */
  function Insert<T>(x: T, s: seq<T>, key: T -> int): seq<T>
    decreases |s|
  {
    if s == [] then [x]
    else if key(s[0]) < key(x) then [x] + s
    else [s[0]] + Insert(x, s[1..], key)
  }

  /**
   * Python `list.sort(key=..., reverse=True)`, `sorted(..., reverse=True)` and JavaScript
   * `Array.prototype.sort((a, b) => key(b) - key(a))`: both are stable.
   */
  function SortDesc<T>(s: seq<T>, key: T -> int): seq<T>
    decreases |s|
  {
    if s == [] then [] else Insert(s[|s| - 1], SortDesc(s[..|s| - 1], key), key)
  }

  lemma {:induction false} InsertPermutes<T>(x: T, s: seq<T>, key: T -> int)
    ensures multiset(Insert(x, s, key)) == multiset(s) + multiset{x}
    decreases |s|
  {
    if s != [] && key(s[0]) >= key(x) {
      InsertPermutes(x, s[1..], key);
      assert Insert(x, s, key) == [s[0]] + Insert(x, s[1..], key);
      assert s == [s[0]] + s[1..];
    }
  }

  lemma {:induction false} InsertSorted<T>(x: T, s: seq<T>, key: T -> int)
    requires SortedDesc(s, key)
    ensures SortedDesc(Insert(x, s, key), key)
    decreases |s|
  {
    if s == [] {
      assert Insert(x, s, key) == [x];
    } else if key(s[0]) < key(x) {
      assert Insert(x, s, key) == [x] + s;
    } else {
      var rest := Insert(x, s[1..], key);
      SortedTail(s, key);
      InsertSorted(x, s[1..], key);
      InsertPermutes(x, s[1..], key);
      var out := [s[0]] + rest;
      assert Insert(x, s, key) == out;
      forall j | 0 <= j < |rest| ensures key(s[0]) >= key(rest[j]) {
        assert rest[j] in multiset(rest);
        if rest[j] != x {
          assert rest[j] in multiset(s[1..]);
          var i :| 0 <= i < |s[1..]| && s[1..][i] == rest[j];
          assert s[i + 1] == rest[j];
        }
      }
      forall i, j | 0 <= i < j < |out| ensures key(out[i]) >= key(out[j]) {
        assert out[j] == rest[j - 1];
        if i > 0 {
          assert out[i] == rest[i - 1];
        }
      }
    }
  }

  lemma SortedTail<T>(s: seq<T>, key: T -> int)
    requires s != [] && SortedDesc(s, key)
    ensures SortedDesc(s[1..], key)
  {
    forall i, j | 0 <= i < j < |s| - 1 ensures key(s[1..][i]) >= key(s[1..][j]) {
      assert s[1..][i] == s[i + 1] && s[1..][j] == s[j + 1];
    }
  }

  lemma {:induction false} InsertWithKey<T>(x: T, s: seq<T>, key: T -> int, k: int)
    requires SortedDesc(s, key)
    ensures WithKey(Insert(x, s, key), key, k) == WithKey(s, key, k) + (if key(x) == k then [x] else [])
    decreases |s|
  {
    var tag := if key(x) == k then [x] else [];
    if s == [] {
      assert Insert(x, s, key) == [x];
      assert WithKey([x], key, k) == tag + WithKey([], key, k);
    } else if key(s[0]) < key(x) {
      assert Insert(x, s, key) == [x] + s;
      assert WithKey([x] + s, key, k) == tag + WithKey(s, key, k) by {
        assert ([x] + s)[1..] == s;
      }
      if key(x) == k {
        NoneWithKey(s, key, k);
      }
    } else {
      var head := if key(s[0]) == k then [s[0]] else [];
      var rest := Insert(x, s[1..], key);
      assert Insert(x, s, key) == [s[0]] + rest;
      SortedTail(s, key);
      InsertWithKey(x, s[1..], key, k);
      assert WithKey([s[0]] + rest, key, k) == head + WithKey(rest, key, k) by {
        assert ([s[0]] + rest)[1..] == rest;
      }
      assert WithKey(s, key, k) == head + WithKey(s[1..], key, k);
    }
  }

  /** In a list sorted largest first, nothing after an element with a smaller key has key `k`. */
  lemma {:induction false} NoneWithKey<T>(s: seq<T>, key: T -> int, k: int)
    requires forall i :: 0 <= i < |s| ==> key(s[i]) < k
    ensures WithKey(s, key, k) == []
    decreases |s|
  {
    if s != [] {
      NoneWithKey(s[1..], key, k);
    }
  }

  lemma {:induction false} WithKeySnoc<T>(s: seq<T>, x: T, key: T -> int, k: int)
    ensures WithKey(s + [x], key, k) == WithKey(s, key, k) + (if key(x) == k then [x] else [])
    decreases |s|
  {
    var tail := if key(x) == k then [x] else [];
    if s == [] {
      assert ([] + [x])[1..] == [];
      assert WithKey([x], key, k) == tail + WithKey([], key, k);
    } else {
      var t := s + [x];
      var head := if key(s[0]) == k then [s[0]] else [];
      assert t[0] == s[0] && t[1..] == s[1..] + [x];
      WithKeySnoc(s[1..], x, key, k);
      assert WithKey(t, key, k) == head + WithKey(t[1..], key, k);
      assert head + (WithKey(s[1..], key, k) + tail) == (head + WithKey(s[1..], key, k)) + tail;
    }
  }

  /**
   * The sort orders by key, largest first, is a permutation, and keeps elements with
   * equal keys in their original order.
   */
  lemma {:induction false} SortDescCorrect<T>(s: seq<T>, key: T -> int)
    ensures SortedDesc(SortDesc(s, key), key)
    ensures multiset(SortDesc(s, key)) == multiset(s)
    ensures forall k :: WithKey(SortDesc(s, key), key, k) == WithKey(s, key, k)
    decreases |s|
  {
    if s != [] {
      var init := s[..|s| - 1];
      var x := s[|s| - 1];
      SortDescCorrect(init, key);
      InsertSorted(x, SortDesc(init, key), key);
      InsertPermutes(x, SortDesc(init, key), key);
      assert s == init + [x];
      forall k ensures WithKey(SortDesc(s, key), key, k) == WithKey(s, key, k) {
        InsertWithKey(x, SortDesc(init, key), key, k);
        WithKeySnoc(init, x, key, k);
      }
    }
  }

  lemma SortDescLength<T>(s: seq<T>, key: T -> int)
    ensures |SortDesc(s, key)| == |s|
  {
    SortDescCorrect(s, key);
    assert |multiset(SortDesc(s, key))| == |multiset(s)|;
  }
}

/** Insertion-ordered dictionaries: Python `dict`, `Counter` and JavaScript `Map`. */
module OrderedMaps {

  datatype OrderedMap<K(==), V> = OrderedMap(keys: seq<K>, values: map<K, V>)
  {
    ghost predicate Valid()
    {
      (forall i, j :: 0 <= i < j < |keys| ==> keys[i] != keys[j]) &&
      values.Keys == KeySet(keys)
    }
  }

  function KeySet<K(==)>(keys: seq<K>): set<K>
  {
    set i | 0 <= i < |keys| :: keys[i]
  }

  lemma KeySetSnoc<K>(keys: seq<K>, k: K)
    ensures KeySet(keys + [k]) == KeySet(keys) + {k}
  {
    var ks := keys + [k];
    assert ks[|keys|] == k;
    forall i | 0 <= i < |keys| ensures ks[i] in KeySet(ks) && keys[i] in KeySet(keys) {
      assert ks[i] == keys[i];
    }
  }

  function Empty<K(==), V>(): (m: OrderedMap<K, V>)
    ensures m.Valid() && m.keys == [] && m.values == map[]
  {
    OrderedMap([], map[])
  }

  /** `d[k] = v`: a new key goes last, an existing key keeps its place. */
  function Put<K(==), V>(m: OrderedMap<K, V>, k: K, v: V): (r: OrderedMap<K, V>)
    ensures m.Valid() ==> r.Valid()
    ensures r.values == m.values[k := v]
    ensures r.keys == if k in m.values then m.keys else m.keys + [k]
  {
    if k in m.values then OrderedMap(m.keys, m.values[k := v])
    else
      KeySetSnoc(m.keys, k);
      OrderedMap(m.keys + [k], m.values[k := v])
  }

  /** `counter[k] += 1`. */
  function Increment<K(==)>(m: OrderedMap<K, nat>, k: K): (r: OrderedMap<K, nat>)
    ensures m.Valid() ==> r.Valid()
    ensures r.values == m.values[k := (if k in m.values then m.values[k] else 0) + 1]
    ensures r.keys == if k in m.values then m.keys else m.keys + [k]
  {
    Put(m, k, (if k in m.values then m.values[k] else 0) + 1)
  }

  /** Sum of the counts, in key order. */
  function SumCounts<K(==)>(keys: seq<K>, counts: map<K, nat>): nat
    decreases |keys|
  {
    if keys == [] then 0
    else (if keys[0] in counts then counts[keys[0]] else 0) + SumCounts(keys[1..], counts)
  }
}
