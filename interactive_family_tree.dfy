/**
 * InteractiveFamilyTree.tsx: the scholar's family as a react-d3-tree. The scholar is the
 * root; under it hang up to three group nodes (parents, spouses, children, in that order,
 * each only when its list is non-empty), and under each group one node per person. Cards
 * show the name cut to 30 characters.
 */
module InteractiveFamilyTree {
  import opened Wrappers
  import opened Text

  datatype Person = Person(id: string, name: string, grade: Option<string>)

  /** The scholar record the tree is drawn from; the biography only feeds the tooltip. */
  datatype ScholarData = ScholarData(
    id: string, name: string, fullName: string, grade: string,
    parents: seq<Person>, spouses: seq<Person>, siblings: seq<Person>,
    children: seq<Person>, teachers: seq<Person>, students: seq<Person>)

  datatype Attributes = Attributes(id: string, grade: string, relation: string)

  /** A tree node; `children` is absent (`None`) on the people under a group. */
  datatype TreeNode = TreeNode(name: string, attributes: Attributes, children: Option<seq<TreeNode>>)

  /** One of the three groups: its title (also its relation), its id and its members' relation. */
  datatype Group = Group(title: string, groupId: string, memberRelation: string)

  const ScholarRelation: string := "Scholar"
  const ParentsGroup: Group := Group("Parents", "parents-group", "Parent")
  const SpousesGroup: Group := Group("Spouses", "spouses-group", "Spouse")
  const ChildrenGroup: Group := Group("Children", "children-group", "Child")

  /** `p.grade || ""`: a missing grade shows as the empty string. */
  function GradeOrEmpty(g: Option<string>): string
  {
    match g
    case Some(s) => s
    case None => ""
  }

  function MemberNode(p: Person, relation: string): TreeNode
  {
    TreeNode(p.name, Attributes(p.id, GradeOrEmpty(p.grade), relation), None)
  }

  function Members(ps: seq<Person>, relation: string): seq<TreeNode>
  {
    seq(|ps|, i requires 0 <= i < |ps| => MemberNode(ps[i], relation))
  }

  function GroupNode(g: Group, ps: seq<Person>): TreeNode
  {
    TreeNode(g.title, Attributes(g.groupId, "", g.title), Some(Members(ps, g.memberRelation)))
  }

  /** The group for `ps`, or nothing when `ps` is empty. */
  function GroupIfAny(g: Group, ps: seq<Person>): seq<TreeNode>
  {
    if |ps| > 0 then [GroupNode(g, ps)] else []
  }

  /** The groups under the root. */
  function Groups(d: ScholarData): seq<TreeNode>
  {
    GroupIfAny(ParentsGroup, d.parents) + GroupIfAny(SpousesGroup, d.spouses) + GroupIfAny(ChildrenGroup, d.children)
  }

  /** The tree `convertToTreeData` returns. */
  function TreeOf(d: ScholarData): TreeNode
  {
    TreeNode(d.name, Attributes(d.id, d.grade, ScholarRelation), Some(Groups(d)))
  }

  /** `convertToTreeData`: the root is built first and each non-empty group pushed onto its children. */
  method ConvertToTreeData(d: ScholarData) returns (tree: TreeNode)
    ensures tree == TreeOf(d)
  {
    var mainNode := TreeNode(d.name, Attributes(d.id, d.grade, ScholarRelation), Some([]));
    if |d.parents| > 0 {
      var parentsNode := GroupNode(ParentsGroup, d.parents);
      mainNode := mainNode.(children := Some(mainNode.children.value + [parentsNode]));
    }
    assert mainNode.children.value == GroupIfAny(ParentsGroup, d.parents);
    if |d.spouses| > 0 {
      var spousesNode := GroupNode(SpousesGroup, d.spouses);
      mainNode := mainNode.(children := Some(mainNode.children.value + [spousesNode]));
    }
    assert mainNode.children.value == GroupIfAny(ParentsGroup, d.parents) + GroupIfAny(SpousesGroup, d.spouses);
    if |d.children| > 0 {
      var childrenNode := GroupNode(ChildrenGroup, d.children);
      mainNode := mainNode.(children := Some(mainNode.children.value + [childrenNode]));
    }
    assert mainNode.children.value == Groups(d);
    tree := mainNode;
  }

  // ---------------------------------------------------------------------
  // The shape of the tree

  function Titles(ns: seq<TreeNode>): seq<string>
  {
    seq(|ns|, i requires 0 <= i < |ns| => ns[i].name)
  }

  /** The titles a scholar's groups would carry, in order. */
  function PresentTitles(d: ScholarData): seq<string>
  {
    (if |d.parents| > 0 then ["Parents"] else [])
      + (if |d.spouses| > 0 then ["Spouses"] else [])
      + (if |d.children| > 0 then ["Children"] else [])
  }

  /** The list and the group a title stands for. */
  function ListFor(d: ScholarData, title: string): (seq<Person>, Group)
  {
    if title == "Parents" then (d.parents, ParentsGroup)
    else if title == "Spouses" then (d.spouses, SpousesGroup)
    else (d.children, ChildrenGroup)
  }

  function Ids(ps: seq<Person>): seq<string>
  {
    seq(|ps|, i requires 0 <= i < |ps| => ps[i].id)
  }

  /** The ids of the nodes directly under `g`. */
  function ChildIds(g: TreeNode): seq<string>
  {
    var ms := if g.children.Some? then g.children.value else [];
    seq(|ms|, i requires 0 <= i < |ms| => ms[i].attributes.id)
  }

  /** The ids of the people under the groups, group by group. */
  function MemberIds(groups: seq<TreeNode>): seq<string>
    decreases |groups|
  {
    if groups == [] then [] else ChildIds(groups[0]) + MemberIds(groups[1..])
  }

  lemma {:induction false} MemberIdsAppend(a: seq<TreeNode>, b: seq<TreeNode>)
    ensures MemberIds(a + b) == MemberIds(a) + MemberIds(b)
    decreases |a|
  {
    if a != [] {
      assert (a + b)[0] == a[0];
      assert (a + b)[1..] == a[1..] + b;
      MemberIdsAppend(a[1..], b);
    } else {
      assert a + b == b;
    }
  }

  lemma GroupIds(g: Group, ps: seq<Person>)
    ensures MemberIds(GroupIfAny(g, ps)) == Ids(ps)
  {
    if |ps| > 0 {
      assert GroupIfAny(g, ps)[1..] == [];
    }
  }

  lemma TitlesAppend(a: seq<TreeNode>, b: seq<TreeNode>)
    ensures Titles(a + b) == Titles(a) + Titles(b)
  {
  }

  lemma GroupTitles(d: ScholarData)
    ensures Titles(Groups(d)) == PresentTitles(d)
  {
    var a := GroupIfAny(ParentsGroup, d.parents);
    var b := GroupIfAny(SpousesGroup, d.spouses);
    var c := GroupIfAny(ChildrenGroup, d.children);
    TitlesAppend(a + b, c);
    TitlesAppend(a, b);
  }

  lemma GroupMemberIds(d: ScholarData)
    ensures MemberIds(Groups(d)) == Ids(d.parents) + Ids(d.spouses) + Ids(d.children)
  {
    var a := GroupIfAny(ParentsGroup, d.parents);
    var b := GroupIfAny(SpousesGroup, d.spouses);
    var c := GroupIfAny(ChildrenGroup, d.children);
    MemberIdsAppend(a + b, c);
    MemberIdsAppend(a, b);
    GroupIds(ParentsGroup, d.parents);
    GroupIds(SpousesGroup, d.spouses);
    GroupIds(ChildrenGroup, d.children);
  }

  /**
   * The root carries the scholar's name, id and grade and the relation "Scholar"; its groups
   * are the non-empty ones among parents, spouses and children, in that order; and the
   * people under them are exactly the parents, then the spouses, then the children, so no
   * sibling, teacher or student is in the tree.
   */
  lemma TreeShape(d: ScholarData)
    ensures TreeOf(d).name == d.name && TreeOf(d).attributes == Attributes(d.id, d.grade, "Scholar")
    ensures TreeOf(d).children.Some? && Titles(TreeOf(d).children.value) == PresentTitles(d)
    ensures MemberIds(TreeOf(d).children.value) == Ids(d.parents) + Ids(d.spouses) + Ids(d.children)
    ensures TreeOf(d) == TreeOf(d.(siblings := [], teachers := [], students := []))
  {
    GroupTitles(d);
    GroupMemberIds(d);
  }

  /**
   * Each group is titled by one of the three lists, has the group's id, an empty grade and its
   * title as relation, and holds one node per person of that list, in order, with the person's
   * name and id, the grade defaulting to "" and the singular relation.
   */
  lemma GroupContents(d: ScholarData, i: nat)
    requires i < |Groups(d)|
    ensures var g := Groups(d)[i]; var (ps, grp) := ListFor(d, g.name);
            && g.name in {"Parents", "Spouses", "Children"}
            && g.attributes == Attributes(grp.groupId, "", g.name)
            && g.children.Some? && |g.children.value| == |ps| > 0
            && forall k :: 0 <= k < |ps| ==>
                 g.children.value[k] == TreeNode(ps[k].name, Attributes(ps[k].id, GradeOrEmpty(ps[k].grade), grp.memberRelation), None)
  {
    var a := GroupIfAny(ParentsGroup, d.parents);
    var b := GroupIfAny(SpousesGroup, d.spouses);
    var c := GroupIfAny(ChildrenGroup, d.children);
    if i < |a| {
      assert Groups(d)[i] == GroupNode(ParentsGroup, d.parents);
    } else if i < |a| + |b| {
      assert Groups(d)[i] == GroupNode(SpousesGroup, d.spouses);
    } else {
      assert Groups(d)[i] == GroupNode(ChildrenGroup, d.children);
    }
  }

  // ---------------------------------------------------------------------
  // Drawing a node

  const MaxLabel: nat := 30
  const Ellipsis: string := "..."

  /** `displayName`: a name longer than 30 characters keeps its first 30 and gains "...". */
  function DisplayName(name: string): (r: string)
    ensures |r| <= MaxLabel + |Ellipsis|
    ensures |name| <= MaxLabel ==> r == name
    ensures |name| > MaxLabel ==> |r| == MaxLabel + |Ellipsis| && r[..MaxLabel] == name[..MaxLabel] && EndsWith(r, Ellipsis)
  {
    if |name| > MaxLabel then name[..MaxLabel] + Ellipsis else name
  }

  /** Truncating an already displayed label changes nothing. */
  lemma DisplayNameIdempotent(name: string)
    ensures DisplayName(DisplayName(name)) == DisplayName(name)
  {
    if |name| > MaxLabel {
      var r := DisplayName(name);
      assert r[..MaxLabel] == name[..MaxLabel];
      assert r == r[..MaxLabel] + Ellipsis;
    }
  }

  /** A node is drawn as a group marker when its name mentions one of the group titles. */
  predicate IsGroupNode(name: string)
  {
    Contains(name, "Parents") || Contains(name, "Spouses") || Contains(name, "Children")
  }

  datatype Colour = Amber | Blue | Rose | Green | Slate

  /** `getColor`: the card colour by relation. */
  function ColourOf(relation: string): Colour
  {
    if relation == ScholarRelation then Amber
    else if relation == "Parent" then Blue
    else if relation == "Spouse" then Rose
    else if relation == "Child" then Green
    else Slate
  }

  datatype Drawn = GroupMarker(title: string) | Card(caption: string, isMain: bool, colour: Colour)

  /** `renderCustomNode`: group markers show the whole name, cards the truncated one. */
  function Draw(n: TreeNode): (r: Drawn)
    ensures r.Card? ==> |r.caption| <= MaxLabel + |Ellipsis| && (r.isMain <==> r.colour == Amber)
  {
    if IsGroupNode(n.name) then GroupMarker(n.name)
    else Card(DisplayName(n.name), n.attributes.relation == ScholarRelation, ColourOf(n.attributes.relation))
  }

  lemma TitleIsGroupNode(t: string)
    requires t in {"Parents", "Spouses", "Children"}
    ensures IsGroupNode(t)
  {
    assert StartsWith(t, t);
  }

  /**
   * Group nodes are drawn as markers with their title; the root is the only amber card unless
   * the scholar's own name mentions a group title; a person whose name mentions none is a
   * card of the colour of their relation.
   */
  lemma DrawTree(d: ScholarData, i: nat, k: nat)
    requires i < |Groups(d)|
    ensures Draw(Groups(d)[i]) == GroupMarker(Groups(d)[i].name)
    ensures !IsGroupNode(d.name) ==> Draw(TreeOf(d)) == Card(DisplayName(d.name), true, Amber)
    ensures var g := Groups(d)[i]; var (ps, grp) := ListFor(d, g.name);
            k < |ps| && !IsGroupNode(ps[k].name) ==>
              && Draw(g.children.value[k]) == Card(DisplayName(ps[k].name), false, ColourOf(grp.memberRelation))
              && ColourOf(grp.memberRelation) in {Blue, Rose, Green}
  {
    GroupContents(d, i);
    TitleIsGroupNode(Groups(d)[i].name);
  }
}
