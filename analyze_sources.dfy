/**
 * The source survey (scripts/analyze_sources.py): how many rows of the hadith table each
 * source has, and how many of those carry a USC-MSA reference.
 */
module AnalyzeSources {
  import opened Text
  import opened OrderedMaps
  import opened Counters

  /** A CSV row as `csv.DictReader` reads it; a missing column reads as "". */
  datatype Row = Row(source: string, uscMsaRef: string)

  /** A line of the report: the source, its row count and its mapped count. */
  datatype ReportLine = ReportLine(source: string, count: nat, mapped: nat)

  /** `row.get('source', '').strip()`. */
  function SourceKey(row: Row): string
  {
    PyStrip(row.source)
  }

  predicate HasRef(row: Row)
  {
    PyStrip(row.uscMsaRef) != []
  }

  /** The source of every row, in row order. */
  function SourceKeys(rows: seq<Row>): (keys: seq<string>)
    ensures |keys| == |rows|
    decreases |rows|
  {
    if rows == [] then [] else SourceKeys(rows[..|rows| - 1]) + [SourceKey(rows[|rows| - 1])]
  }

  /** The source of every row that has a reference, in row order. */
  function MappedKeys(rows: seq<Row>): seq<string>
    decreases |rows|
  {
    if rows == [] then []
    else
      var last := rows[|rows| - 1];
      MappedKeys(rows[..|rows| - 1]) + (if HasRef(last) then [SourceKey(last)] else [])
  }

  /** The row loop: `sources[s] += 1`, and `with_usc[s] += 1` for a row with a reference. */
  method Count(rows: seq<Row>) returns (sources: OrderedMap<string, nat>, withUsc: OrderedMap<string, nat>)
    ensures sources == Tally(SourceKeys(rows))
    ensures withUsc == Tally(MappedKeys(rows))
  {
    sources := Empty();
    withUsc := Empty();
    assert rows[..0] == [];
    for i := 0 to |rows|
      invariant sources == Tally(SourceKeys(rows[..i]))
      invariant withUsc == Tally(MappedKeys(rows[..i]))
    {
      var row := rows[i];
      var s := PyStrip(row.source);
      SourcesStep(rows, i, sources);
      MappedStep(rows, i, withUsc);
      sources := Increment(sources, s);
      if PyStrip(row.uscMsaRef) != [] {
        withUsc := Increment(withUsc, s);
      }
    }
    assert rows[..|rows|] == rows;
  }

  lemma SourcesStep(rows: seq<Row>, i: nat, m: OrderedMap<string, nat>)
    requires i < |rows| && m == Tally(SourceKeys(rows[..i]))
    ensures Increment(m, PyStrip(rows[i].source)) == Tally(SourceKeys(rows[..i + 1]))
  {
    assert rows[..i + 1][..i] == rows[..i];
    TallyAppend(SourceKeys(rows[..i]), PyStrip(rows[i].source));
  }

  lemma MappedKeysSnoc(rows: seq<Row>, i: nat)
    requires i < |rows|
    ensures MappedKeys(rows[..i + 1]) == MappedKeys(rows[..i]) + (if HasRef(rows[i]) then [SourceKey(rows[i])] else [])
  {
    ghost var r := rows[..i + 1];
    assert r[..|r| - 1] == rows[..i];
    assert r[|r| - 1] == rows[i];
  }

  lemma MappedStep(rows: seq<Row>, i: nat, m: OrderedMap<string, nat>)
    requires i < |rows| && m == Tally(MappedKeys(rows[..i]))
    ensures HasRef(rows[i]) ==> Increment(m, SourceKey(rows[i])) == Tally(MappedKeys(rows[..i + 1]))
    ensures !HasRef(rows[i]) ==> m == Tally(MappedKeys(rows[..i + 1]))
  {
    MappedKeysSnoc(rows, i);
    if HasRef(rows[i]) {
      TallyAppend(MappedKeys(rows[..i]), SourceKey(rows[i]));
    } else {
      assert MappedKeys(rows[..i + 1]) == MappedKeys(rows[..i]);
    }
  }

  /** `with_usc[s]`: a Counter reads 0 for a key it does not have. */
  function CountOf(m: OrderedMap<string, nat>, s: string): nat
  {
    if s in m.values then m.values[s] else 0
  }

  /** The printed report: sources by count, highest first (`most_common()`), each with its mapped count. */
  function Report(sources: OrderedMap<string, nat>, withUsc: OrderedMap<string, nat>): (lines: seq<ReportLine>)
    requires sources.Valid()
    ensures |lines| == |sources.keys|
  {
    var top := MostCommon(sources, |sources.keys|);
    seq(|top|, i requires 0 <= i < |top| => ReportLine(top[i].key, top[i].count, CountOf(withUsc, top[i].key)))
  }

  /** Every row is counted once: the source counts add up to the number of rows. */
  lemma SourcesSumToRows(rows: seq<Row>)
    ensures var m := Tally(SourceKeys(rows)); SumCounts(m.keys, m.values) == |rows|
  {
    TallySum(SourceKeys(rows));
  }

  /** A source never has more mapped rows than rows. */
  lemma {:induction false} MappedAtMostRows(rows: seq<Row>, s: string)
    ensures Occurrences(MappedKeys(rows), s) <= Occurrences(SourceKeys(rows), s)
    decreases |rows|
  {
    if rows != [] {
      var init := rows[..|rows| - 1];
      var last := rows[|rows| - 1];
      MappedAtMostRows(init, s);
      TallyAppend(SourceKeys(init), SourceKey(last));
      if HasRef(last) {
        TallyAppend(MappedKeys(init), SourceKey(last));
      } else {
        assert MappedKeys(rows) == MappedKeys(init);
      }
    }
  }

  /** The counted numbers: mapped count at most the row count, for every source the report can name. */
  lemma ReportBounded(rows: seq<Row>, s: string)
    ensures CountOf(Tally(MappedKeys(rows)), s) <= CountOf(Tally(SourceKeys(rows)), s)
  {
    TallyCounts(MappedKeys(rows));
    TallyCounts(SourceKeys(rows));
    MappedAtMostRows(rows, s);
    if s !in SourceKeys(rows) {
      OccurrencesAbsent(SourceKeys(rows), s);
    }
    if s !in MappedKeys(rows) {
      OccurrencesAbsent(MappedKeys(rows), s);
    }
  }

  /**
   * The report lists every source once, by non-increasing count: one line per source, no
   * source twice, each with its own count.
   */
  lemma ReportOrdered(sources: OrderedMap<string, nat>, withUsc: OrderedMap<string, nat>)
    requires sources.Valid()
    ensures forall i, j :: 0 <= i < j < |Report(sources, withUsc)| ==>
              Report(sources, withUsc)[i].count >= Report(sources, withUsc)[j].count
    ensures forall i, j :: 0 <= i < j < |Report(sources, withUsc)| ==>
              Report(sources, withUsc)[i].source != Report(sources, withUsc)[j].source
    ensures forall i :: 0 <= i < |Report(sources, withUsc)| ==>
              var line := Report(sources, withUsc)[i];
              line.source in sources.values && sources.values[line.source] == line.count &&
              line.mapped == CountOf(withUsc, line.source)
  {
    var top := MostCommon(sources, |sources.keys|);
    MostCommonOrdered(sources, |sources.keys|);
    MostCommonDistinct(sources, |sources.keys|);
    var lines := Report(sources, withUsc);
    forall i, j | 0 <= i < j < |lines| ensures lines[i].source != lines[j].source {
      assert lines[i].source == top[i].key && lines[j].source == top[j].key;
    }
    forall i, j | 0 <= i < j < |lines| ensures lines[i].count >= lines[j].count {
      assert EntryCount(top[i]) >= EntryCount(top[j]);
    }
    forall i | 0 <= i < |lines|
      ensures lines[i].source in sources.values && sources.values[lines[i].source] == lines[i].count
    {
      assert top[i] in top;
    }
  }
}
