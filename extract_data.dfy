/**
 * The demo extraction (scripts/extract_data.py): one narrator's family tree, one level deep,
 * and the hadiths whose chain holds that narrator.
 */
module ExtractData {
  import opened Wrappers
  import opened Text
  import opened CsvTables

  datatype Relation = Relation(id: string, name: string, role: string)

  datatype FamilyTree = FamilyTree(id: string, name: string, parents: seq<Relation>, spouses: seq<Relation>,
                                   siblings: seq<Relation>, children: seq<Relation>)

  datatype DemoHadith = DemoHadith(hadithNo: string, chapter: string, textEn: string, chain: seq<string>)

  datatype DemoOutput = DemoOutput(scholar: Option<FamilyTree>, hadiths: seq<DemoHadith>)

  const DemoTarget := "2"
  const DemoHadithCap := 20

  /** The relations for the ids found in the table, in their order; names are kept raw. */
  function RelationsOf(ids: seq<string>, scholars: map<string, ScholarRow>): (r: seq<Relation>)
    ensures |r| <= |ids|
    decreases |ids|
  {
    if ids == [] then []
    else
      (if ids[0] in scholars then [Relation(ids[0], scholars[ids[0]].name, scholars[ids[0]].grade)] else [])
      + RelationsOf(ids[1..], scholars)
  }

  /** Every relation is a narrator of the table, with its raw name and its grade as role. */
  lemma {:induction false} RelationsOfFound(ids: seq<string>, scholars: map<string, ScholarRow>)
    ensures forall x :: x in RelationsOf(ids, scholars) ==>
              (x.id in ids && x.id in scholars && x.name == scholars[x.id].name && x.role == scholars[x.id].grade)
    decreases |ids|
  {
    if ids != [] {
      RelationsOfFound(ids[1..], scholars);
    }
  }

  /** Ids all in the table are resolved one for one, in order. */
  lemma {:induction false} RelationsOfKnown(ids: seq<string>, scholars: map<string, ScholarRow>)
    requires forall i :: 0 <= i < |ids| ==> ids[i] in scholars
    ensures |RelationsOf(ids, scholars)| == |ids|
    ensures forall i :: 0 <= i < |ids| ==> RelationsOf(ids, scholars)[i].id == ids[i]
    decreases |ids|
  {
    if ids != [] {
      RelationsOfKnown(ids[1..], scholars);
      var rest := RelationsOf(ids[1..], scholars);
      forall i | 0 <= i < |ids| ensures RelationsOf(ids, scholars)[i].id == ids[i] {
        if i > 0 {
          assert RelationsOf(ids, scholars)[i] == rest[i - 1];
          assert ids[1..][i - 1] == ids[i];
        }
      }
    }
  }

  lemma RelationsOfStep(ids: seq<string>, i: nat, scholars: map<string, ScholarRow>)
    requires i < |ids|
    ensures RelationsOf(ids[i..], scholars) ==
              (if ids[i] in scholars then [Relation(ids[i], scholars[ids[i]].name, scholars[ids[i]].grade)] else [])
              + RelationsOf(ids[i + 1..], scholars)
  {
    assert ids[i..][1..] == ids[i + 1..];
  }

  /** The nested `resolve_relations` of `get_family_tree`. */
  method ResolveRelations(cell: string, scholars: map<string, ScholarRow>) returns (relations: seq<Relation>)
    ensures relations == RelationsOf(ParseIds(cell), scholars)
  {
    var ids := ParseIds(cell);
    relations := [];
    var i := 0;
    while i < |ids|
      invariant 0 <= i <= |ids|
      invariant relations + RelationsOf(ids[i..], scholars) == RelationsOf(ids, scholars)
    {
      RelationsOfStep(ids, i, scholars);
      var rid := ids[i];
      if rid in scholars {
        var x := Relation(rid, scholars[rid].name, scholars[rid].grade);
        assert (relations + [x]) + RelationsOf(ids[i + 1..], scholars) == relations + ([x] + RelationsOf(ids[i + 1..], scholars));
        relations := relations + [x];
      }
      i := i + 1;
    }
    assert ids[|ids|..] == [];
  }

  /**
   * The one-level tree of the narrator `target`: its id and name, and its parents, spouses,
   * siblings and children each resolved from the row's id list.
   */
  predicate FamilyTreeOf(tree: FamilyTree, target: string, scholars: map<string, ScholarRow>)
    requires target in scholars
  {
    && tree.id == target
    && tree.name == scholars[target].name
    && tree.parents == RelationsOf(ParseIds(scholars[target].parents), scholars)
    && tree.spouses == RelationsOf(ParseIds(scholars[target].spouse), scholars)
    && tree.siblings == RelationsOf(ParseIds(scholars[target].siblings), scholars)
    && tree.children == RelationsOf(ParseIds(scholars[target].children), scholars)
  }

  /**
   * `get_family_tree`: the four relation lists of a known narrator, one level deep whatever
   * `depth` says.
   */
  method GetFamilyTree(target: string, scholars: map<string, ScholarRow>, depth: int := 1)
    returns (tree: Option<FamilyTree>)
    ensures tree.None? <==> target !in scholars
    ensures tree.Some? ==> FamilyTreeOf(tree.value, target, scholars)
  {
    if target !in scholars {
      return None;
    }
    var person := scholars[target];
    var parents := ResolveRelations(person.parents, scholars);
    var spouses := ResolveRelations(person.spouse, scholars);
    var siblings := ResolveRelations(person.siblings, scholars);
    var children := ResolveRelations(person.children, scholars);
    tree := Some(FamilyTree(target, person.name, parents, spouses, siblings, children));
  }

  /** `[x.strip() for x in chain.split(',')]`: every piece, empty ones included. */
  function ChainPieces(chain: string): (ids: seq<string>)
    ensures |ids| == CountChar(chain, ',') + 1
  {
    SplitCharCount(chain, ',');
    var pieces := Split(chain, ",");
    seq(|pieces|, i requires 0 <= i < |pieces| => PyStrip(pieces[i]))
  }

  function DemoHadithOf(row: HadithRow): DemoHadith
  {
    DemoHadith(row.hadithNo, row.chapter, row.textEn, ChainPieces(row.chainIndx))
  }

  /** The rows whose chain holds `target`, in file order. */
  function RelatedOf(target: string, rows: seq<HadithRow>): (r: seq<DemoHadith>)
    ensures |r| <= |rows|
    decreases |rows|
  {
    if rows == [] then []
    else
      (if target in ChainPieces(rows[0].chainIndx) then [DemoHadithOf(rows[0])] else [])
      + RelatedOf(target, rows[1..])
  }

  /** Every related hadith holds the target, and every row holding it is related. */
  lemma {:induction false} RelatedOfExactly(target: string, rows: seq<HadithRow>)
    ensures forall h :: h in RelatedOf(target, rows) ==> target in h.chain
    ensures forall row :: row in rows && target in ChainPieces(row.chainIndx) ==> DemoHadithOf(row) in RelatedOf(target, rows)
    decreases |rows|
  {
    if rows != [] {
      RelatedOfExactly(target, rows[1..]);
      assert forall row :: row in rows ==> row == rows[0] || row in rows[1..];
    }
  }

  /** Rows without the target leave the related list unchanged. */
  lemma {:induction false} RelatedOfSkips(target: string, a: seq<HadithRow>, row: HadithRow, b: seq<HadithRow>)
    requires target !in ChainPieces(row.chainIndx)
    ensures RelatedOf(target, a + [row] + b) == RelatedOf(target, a + b)
    decreases |a|
  {
    if a == [] {
      assert (a + [row] + b)[1..] == b;
      assert a + b == b;
    } else {
      assert (a + [row] + b)[1..] == a[1..] + [row] + b;
      assert (a + b)[1..] == a[1..] + b;
      RelatedOfSkips(target, a[1..], row, b);
    }
  }

  lemma RelatedOfStep(target: string, rows: seq<HadithRow>, i: nat)
    requires i < |rows|
    ensures RelatedOf(target, rows[i..]) ==
              (if target in ChainPieces(rows[i].chainIndx) then [DemoHadithOf(rows[i])] else [])
              + RelatedOf(target, rows[i + 1..])
  {
    assert rows[i..][1..] == rows[i + 1..];
  }

  lemma AppendAssoc<T>(a: seq<T>, b: seq<T>, c: seq<T>)
    ensures a + (b + c) == (a + b) + c
  {
  }

  lemma AppendEmpty<T>(a: seq<T>)
    ensures [] + a == a
  {
  }

  /** `get_hadiths`, over the rows of the hadith table. */
  method GetHadiths(target: string, rows: seq<HadithRow>) returns (related: seq<DemoHadith>)
    ensures related == RelatedOf(target, rows)
  {
    related := [];
    var i := 0;
    while i < |rows|
      invariant 0 <= i <= |rows|
      invariant related + RelatedOf(target, rows[i..]) == RelatedOf(target, rows)
    {
      RelatedOfStep(target, rows, i);
      var row := rows[i];
      var chainIds := ChainPieces(row.chainIndx);
      ghost var rest := RelatedOf(target, rows[i + 1..]);
      if target in chainIds {
        var d := DemoHadith(row.hadithNo, row.chapter, row.textEn, chainIds);
        AppendAssoc(related, [d], rest);
        related := related + [d];
      } else {
        AppendEmpty(rest);
      }
      i := i + 1;
    }
    assert rows[|rows|..] == [];
  }

  /** `main`: narrator "2" with at most twenty of its hadiths. */
  method Demo(scholars: map<string, ScholarRow>, rows: seq<HadithRow>) returns (output: DemoOutput)
    ensures output.scholar.Some? <==> DemoTarget in scholars
    ensures output.scholar.Some? ==> FamilyTreeOf(output.scholar.value, DemoTarget, scholars)
    ensures |output.hadiths| == (if |RelatedOf(DemoTarget, rows)| < DemoHadithCap then |RelatedOf(DemoTarget, rows)| else DemoHadithCap)
    ensures output.hadiths == RelatedOf(DemoTarget, rows)[..|output.hadiths|]
  {
    var tree := GetFamilyTree(DemoTarget, scholars);
    var hadiths := GetHadiths(DemoTarget, rows);
    var kept := if |hadiths| <= DemoHadithCap then hadiths else hadiths[..DemoHadithCap];
    output := DemoOutput(tree, kept);
  }
}
