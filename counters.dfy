/**
 * Frequency counters: a JavaScript object or Map, or a Python Counter, filled by adding one
 * per occurrence. Keys keep the order in which they were first seen, as a Python Counter or a
 * JavaScript Map does; a plain JavaScript object instead lists array-index keys first, in
 * numeric order, which this model does not follow.
 */
module Counters {
  import opened OrderedMaps
  import opened Sorting

  /** How many times `k` occurs in `xs`. */
  function Occurrences<K(==)>(xs: seq<K>, k: K): nat
    decreases |xs|
  {
    if xs == [] then 0
    else Occurrences(xs[..|xs| - 1], k) + (if xs[|xs| - 1] == k then 1 else 0)
  }

  /** The counter after adding one for each element of `xs`, in order. */
  function Tally<K(==)>(xs: seq<K>): OrderedMap<K, nat>
    decreases |xs|
  {
    if xs == [] then Empty() else Increment(Tally(xs[..|xs| - 1]), xs[|xs| - 1])
  }

  /** A tally is a well-formed ordered map. */
  lemma {:induction false} TallyValid<K>(xs: seq<K>)
    ensures Tally(xs).Valid()
    decreases |xs|
  {
    if xs != [] {
      TallyValid(xs[..|xs| - 1]);
    }
  }

  /** Counting one more element of `xs`. */
  lemma TallySnoc<K>(xs: seq<K>, i: nat)
    requires i < |xs|
    ensures Tally(xs[..i + 1]) == Increment(Tally(xs[..i]), xs[i])
  {
    assert xs[..i + 1][..i] == xs[..i];
  }

  lemma TallyAppend<K>(xs: seq<K>, x: K)
    ensures Tally(xs + [x]) == Increment(Tally(xs), x)
    ensures Occurrences(xs + [x], x) == Occurrences(xs, x) + 1
    ensures forall k :: k != x ==> Occurrences(xs + [x], k) == Occurrences(xs, k)
  {
    assert (xs + [x])[..|xs|] == xs;
  }

  lemma TallyWhole<K>(xs: seq<K>)
    ensures Tally(xs[..|xs|]) == Tally(xs)
  {
    assert xs[..|xs|] == xs;
  }

  /** The counter holds exactly the elements of `xs`, each with its number of occurrences. */
  lemma {:induction false} TallyCounts<K>(xs: seq<K>)
    ensures forall k :: k in Tally(xs).values <==> k in xs
    ensures forall k :: k in Tally(xs).values ==> Tally(xs).values[k] == Occurrences(xs, k)
    decreases |xs|
  {
    if xs != [] {
      var init := xs[..|xs| - 1];
      var last := xs[|xs| - 1];
      TallyCounts(init);
      assert xs == init + [last];
      IncrementCounts(Tally(init), init, last);
    }
  }

  lemma OccurrencesSnoc<K>(xs: seq<K>, x: K, k: K)
    ensures Occurrences(xs + [x], k) == Occurrences(xs, k) + (if x == k then 1 else 0)
  {
    assert (xs + [x])[..|xs|] == xs;
  }

  /** Adding one for `last` to a counter of `xs` gives a counter of `xs + [last]`. */
  lemma IncrementCounts<K>(m: OrderedMap<K, nat>, xs: seq<K>, last: K)
    requires forall k :: k in m.values <==> k in xs
    requires forall k :: k in m.values ==> m.values[k] == Occurrences(xs, k)
    ensures forall k :: k in Increment(m, last).values <==> k in xs + [last]
    ensures forall k :: k in Increment(m, last).values ==> Increment(m, last).values[k] == Occurrences(xs + [last], k)
  {
    var r := Increment(m, last);
    forall k
      ensures k in r.values <==> k in xs + [last]
      ensures k in r.values ==> r.values[k] == Occurrences(xs + [last], k)
    {
      assert k in xs + [last] <==> k in xs || k == last;
      OccurrencesSnoc(xs, last, k);
      if k == last && k !in xs {
        OccurrencesAbsent(xs, k);
      }
    }
  }

  /** An element that never occurs is not a key. */
  lemma TallyAbsent<K>(xs: seq<K>, k: K)
    requires k !in xs
    ensures k !in Tally(xs).values && Occurrences(xs, k) == 0
  {
    TallyCounts(xs);
    OccurrencesAbsent(xs, k);
  }

  lemma {:induction false} OccurrencesAbsent<K>(xs: seq<K>, k: K)
    requires k !in xs
    ensures Occurrences(xs, k) == 0
    decreases |xs|
  {
    if xs != [] {
      assert xs[..|xs| - 1] <= xs;
      OccurrencesAbsent(xs[..|xs| - 1], k);
    }
  }

  /** The counts add up to the number of elements counted. */
  lemma {:induction false} TallySum<K>(xs: seq<K>)
    ensures SumCounts(Tally(xs).keys, Tally(xs).values) == |xs|
    decreases |xs|
  {
    if xs != [] {
      var init := xs[..|xs| - 1];
      TallySum(init);
      TallyValid(init);
      TallyStepSum(Tally(init), xs[|xs| - 1]);
    }
  }

  /** One increment adds one to the sum of the counts. */
  lemma TallyStepSum<K>(m: OrderedMap<K, nat>, k: K)
    requires m.Valid()
    ensures SumCounts(Increment(m, k).keys, Increment(m, k).values) == SumCounts(m.keys, m.values) + 1
  {
    if k in m.values {
      assert k in KeySet(m.keys);
      var i :| 0 <= i < |m.keys| && m.keys[i] == k;
      SumCountsBump(m.keys, m.values, i);
      assert Increment(m, k).values == m.values[k := m.values[k] + 1];
    } else {
      assert k !in KeySet(m.keys);
      SumCountsFresh(m.keys, m.values, k);
      assert Increment(m, k).values == m.values[k := 1];
    }
  }

  /** Adding one to the count of the key at position `i` adds one to the sum. */
  lemma {:induction false} SumCountsBump<K>(keys: seq<K>, counts: map<K, nat>, i: nat)
    requires i < |keys| && keys[i] in counts
    requires forall a, b :: 0 <= a < b < |keys| ==> keys[a] != keys[b]
    ensures SumCounts(keys, counts[keys[i] := counts[keys[i]] + 1]) == SumCounts(keys, counts) + 1
    decreases |keys|
  {
    var k := keys[i];
    var bumped := counts[k := counts[k] + 1];
    if i == 0 {
      SumCountsFrame(keys[1..], counts, k, counts[k] + 1);
    } else {
      assert keys[0] != k;
      SumCountsBump(keys[1..], counts, i - 1);
    }
  }

  /** Changing the count of a key that is not listed leaves the sum alone. */
  lemma {:induction false} SumCountsFrame<K>(keys: seq<K>, counts: map<K, nat>, k: K, v: nat)
    requires k !in keys
    ensures SumCounts(keys, counts[k := v]) == SumCounts(keys, counts)
    decreases |keys|
  {
    if keys != [] {
      SumCountsFrame(keys[1..], counts, k, v);
    }
  }

  /** A new key with count one at the end adds one to the sum. */
  lemma SumCountsFresh<K>(keys: seq<K>, counts: map<K, nat>, k: K)
    requires k !in keys
    ensures SumCounts(keys + [k], counts[k := 1]) == SumCounts(keys, counts) + 1
  {
    SumCountsFrame(keys, counts, k, 1);
    SumCountsSnoc(keys, counts[k := 1], k);
  }

  lemma {:induction false} SumCountsSnoc<K>(keys: seq<K>, counts: map<K, nat>, k: K)
    requires k in counts
    ensures SumCounts(keys + [k], counts) == SumCounts(keys, counts) + counts[k]
    decreases |keys|
  {
    if keys == [] {
      assert [] + [k] == [k];
    } else {
      assert (keys + [k])[1..] == keys[1..] + [k];
      SumCountsSnoc(keys[1..], counts, k);
    }
  }

  /** One (key, count) pair of a counter. */
  datatype Entry<K> = Entry(key: K, count: nat)

  function EntryCount<K>(e: Entry<K>): int { e.count }

  /** The entries of a counter in key order (`map.entries()`, `Counter.items()`). */
  function Entries<K(==)>(m: OrderedMap<K, nat>): (es: seq<Entry<K>>)
    requires m.Valid()
    ensures |es| == |m.keys|
    ensures forall i :: 0 <= i < |es| ==> es[i].key == m.keys[i] && es[i].count == m.values[m.keys[i]]
  {
    KeysInValues(m);
    seq(|m.keys|, i requires 0 <= i < |m.keys| => Entry(m.keys[i], m.values[m.keys[i]]))
  }

  lemma KeysInValues<K>(m: OrderedMap<K, nat>)
    requires m.Valid()
    ensures forall i :: 0 <= i < |m.keys| ==> m.keys[i] in m.values
  {
    forall i | 0 <= i < |m.keys| ensures m.keys[i] in m.values {
      assert m.keys[i] in KeySet(m.keys);
    }
  }

  /** The `n` largest counts, highest first; equal counts keep key order (stable sort). */
  function MostCommon<K(==)>(m: OrderedMap<K, nat>, n: nat): (top: seq<Entry<K>>)
    requires m.Valid()
    ensures |top| == if |m.keys| < n then |m.keys| else n
  {
    var sorted := SortDesc(Entries(m), EntryCount);
    SortDescLength(Entries(m), EntryCount);
    if |sorted| < n then sorted else sorted[..n]
  }

  /** The listed entries are ordered by count and are entries of the counter. */
  lemma MostCommonOrdered<K>(m: OrderedMap<K, nat>, n: nat)
    requires m.Valid()
    ensures SortedDesc(MostCommon(m, n), EntryCount)
    ensures forall e :: e in MostCommon(m, n) ==> e.key in m.values && m.values[e.key] == e.count
  {
    var es := Entries(m);
    var sorted := SortDesc(es, EntryCount);
    SortDescCorrect(es, EntryCount);
    SortDescLength(es, EntryCount);
    var top := MostCommon(m, n);
    assert top == sorted[..|top|];
    forall e | e in top ensures e.key in m.values && m.values[e.key] == e.count {
      assert e in multiset(sorted);
      assert e in es;
      KeysInValues(m);
    }
  }

  /** With no cut-off below the number of keys, every key is listed. */
  lemma MostCommonAll<K>(m: OrderedMap<K, nat>, n: nat)
    requires m.Valid() && |m.keys| <= n
    ensures multiset(MostCommon(m, n)) == multiset(Entries(m))
  {
    var sorted := SortDesc(Entries(m), EntryCount);
    SortDescCorrect(Entries(m), EntryCount);
    SortDescLength(Entries(m), EntryCount);
    assert sorted[..|sorted|] == sorted;
  }

  /** A sequence without repeats holds each value at most once. */
  lemma {:induction false} DistinctOnce<T>(s: seq<T>, x: T)
    requires forall i, j :: 0 <= i < j < |s| ==> s[i] != s[j]
    ensures multiset(s)[x] <= 1
    decreases |s|
  {
    if s != [] {
      assert s == [s[0]] + s[1..];
      assert forall i, j :: 0 <= i < j < |s[1..]| ==> s[1..][i] == s[i + 1] && s[1..][j] == s[j + 1];
      DistinctOnce(s[1..], x);
      assert s[0] == x ==> x !in s[1..];
    }
  }

  /** Two positions holding the same value count it twice. */
  lemma TwiceCounted<T>(s: seq<T>, i: nat, j: nat)
    requires i < j < |s|
    ensures s[i] == s[j] ==> multiset(s)[s[i]] >= 2
  {
    assert s == s[..i] + [s[i]] + s[i + 1..j] + [s[j]] + s[j + 1..];
  }

  /** A rearrangement of a sequence without repeats has none either. */
  lemma PermutationDistinct<T>(a: seq<T>, b: seq<T>)
    requires forall i, j :: 0 <= i < j < |a| ==> a[i] != a[j]
    requires multiset(a) == multiset(b)
    ensures forall i, j :: 0 <= i < j < |b| ==> b[i] != b[j]
  {
    forall i, j | 0 <= i < j < |b|
      ensures b[i] != b[j]
    {
      TwiceCounted(b, i, j);
      DistinctOnce(a, b[i]);
    }
  }

  /** No key is listed twice. */
  lemma MostCommonDistinct<K>(m: OrderedMap<K, nat>, n: nat)
    requires m.Valid()
    ensures forall i, j :: 0 <= i < j < |MostCommon(m, n)| ==> MostCommon(m, n)[i].key != MostCommon(m, n)[j].key
  {
    var es := Entries(m);
    var sorted := SortDesc(es, EntryCount);
    SortDescCorrect(es, EntryCount);
    SortDescLength(es, EntryCount);
    assert forall i, j :: 0 <= i < j < |es| ==> es[i].key != es[j].key;
    PermutationDistinct(es, sorted);
    MostCommonOrdered(m, n);
    var top := MostCommon(m, n);
    assert top == sorted[..|top|];
    forall i, j | 0 <= i < j < |top|
      ensures top[i].key != top[j].key
    {
      assert top[i] == sorted[i] && top[j] == sorted[j];
      assert top[i] in top && top[j] in top;
    }
  }

  /** Every key that is not listed counts no more than the last key listed. */
  lemma MostCommonCutOff<K>(m: OrderedMap<K, nat>, n: nat)
    requires m.Valid() && n > 0 && |m.keys| > 0
    ensures var top := MostCommon(m, n);
            forall k :: k in m.values && (forall i :: 0 <= i < |top| ==> top[i].key != k) ==>
              m.values[k] <= top[|top| - 1].count
  {
    var es := Entries(m);
    var sorted := SortDesc(es, EntryCount);
    SortDescCorrect(es, EntryCount);
    SortDescLength(es, EntryCount);
    var top := MostCommon(m, n);
    assert top == sorted[..|top|];
    forall k | k in m.values && (forall i :: 0 <= i < |top| ==> top[i].key != k)
      ensures m.values[k] <= top[|top| - 1].count
    {
      assert k in KeySet(m.keys);
      var p :| 0 <= p < |m.keys| && m.keys[p] == k;
      assert es[p] in multiset(sorted);
      var q :| 0 <= q < |sorted| && sorted[q] == es[p];
      assert forall i :: 0 <= i < |top| ==> top[i] == sorted[i];
      assert forall i :: 0 <= i < |top| ==> sorted[i].key != k;
      assert EntryCount(sorted[|top| - 1]) >= EntryCount(sorted[q]) || q == |top| - 1;
    }
  }
}
