/**
 * NetworkGraph.tsx: the teacher/student graph of a scholar. The main scholar is the first
 * node; at most 15 teachers follow, each with an edge into the scholar, then at most 15
 * students, each with an edge out of the scholar. The dagre layout then gives every node
 * its handle positions.
 */
module NetworkGraph {
  import opened Wrappers

  /** A teacher or student as the page passes it in. */
  datatype Person = Person(id: string, name: string, grade: Option<string>)

  /** The scholar whose page this is; the grade is always present. */
  datatype Scholar = Scholar(id: string, name: string, grade: string)

  /** `data.type` of a node. */
  datatype Role = Main | Teacher | Student

  /** A graph node before layout: `id`, and `data.label` (the caption), `data.grade`, `data.type`. */
  datatype GraphNode = GraphNode(id: string, caption: string, grade: Option<string>, role: Role)

  /** A directed edge with its stroke colour. */
  datatype GraphEdge = GraphEdge(id: string, source: string, target: string, stroke: string)

  /** `slice(0, 15)` on each list. */
  const MaxNeighbours: nat := 15

  const TeacherStroke: string := "#3b82f6"
  const StudentStroke: string := "#10b981"

  function Min(a: nat, b: nat): nat
  {
    if a <= b then a else b
  }

  /** `xs.slice(0, 15)`: the first 15 items, or all of them when there are fewer. */
  function Cap<T>(xs: seq<T>): (r: seq<T>)
    ensures |r| == Min(|xs|, MaxNeighbours)
    ensures r == xs[..|r|]
  {
    if |xs| <= MaxNeighbours then xs else xs[..MaxNeighbours]
  }

  function MainNode(s: Scholar): GraphNode
  {
    GraphNode(s.id, s.name, Some(s.grade), Main)
  }

  function PersonNode(p: Person, role: Role): GraphNode
  {
    GraphNode(p.id, p.name, p.grade, role)
  }

  /** The edge `${teacher.id}-${scholar.id}` from a teacher into the scholar. */
  function TeacherEdge(s: Scholar, t: Person): GraphEdge
  {
    GraphEdge(t.id + "-" + s.id, t.id, s.id, TeacherStroke)
  }

  /** The edge `${scholar.id}-${student.id}` from the scholar out to a student. */
  function StudentEdge(s: Scholar, p: Person): GraphEdge
  {
    GraphEdge(s.id + "-" + p.id, s.id, p.id, StudentStroke)
  }

  function PersonNodes(ps: seq<Person>, role: Role): seq<GraphNode>
  {
    seq(|ps|, i requires 0 <= i < |ps| => PersonNode(ps[i], role))
  }

  function TeacherEdges(s: Scholar, ts: seq<Person>): seq<GraphEdge>
  {
    seq(|ts|, i requires 0 <= i < |ts| => TeacherEdge(s, ts[i]))
  }

  function StudentEdges(s: Scholar, ps: seq<Person>): seq<GraphEdge>
  {
    seq(|ps|, i requires 0 <= i < |ps| => StudentEdge(s, ps[i]))
  }

  /**
   * The nodes of the graph: the scholar, then the first teachers in input order, then the
   * first students in input order.
   */
  function Nodes(s: Scholar, teachers: seq<Person>, students: seq<Person>): (r: seq<GraphNode>)
    ensures |r| == 1 + Min(|teachers|, MaxNeighbours) + Min(|students|, MaxNeighbours)
    ensures r[0] == GraphNode(s.id, s.name, Some(s.grade), Main)
    ensures forall k :: 1 <= k <= Min(|teachers|, MaxNeighbours) ==>
              r[k] == GraphNode(teachers[k - 1].id, teachers[k - 1].name, teachers[k - 1].grade, Teacher)
    ensures forall k :: 1 + Min(|teachers|, MaxNeighbours) <= k < |r| ==>
              var p := students[k - 1 - Min(|teachers|, MaxNeighbours)];
              r[k] == GraphNode(p.id, p.name, p.grade, Student)
  {
    [MainNode(s)] + PersonNodes(Cap(teachers), Teacher) + PersonNodes(Cap(students), Student)
  }

  /** The edges: one per included teacher, then one per included student, in the same order. */
  function Edges(s: Scholar, teachers: seq<Person>, students: seq<Person>): (r: seq<GraphEdge>)
    ensures |r| == Min(|teachers|, MaxNeighbours) + Min(|students|, MaxNeighbours)
    ensures forall k :: 0 <= k < Min(|teachers|, MaxNeighbours) ==>
              r[k] == GraphEdge(teachers[k].id + "-" + s.id, teachers[k].id, s.id, TeacherStroke)
    ensures forall k :: Min(|teachers|, MaxNeighbours) <= k < |r| ==>
              var p := students[k - Min(|teachers|, MaxNeighbours)];
              r[k] == GraphEdge(s.id + "-" + p.id, s.id, p.id, StudentStroke)
  {
    TeacherEdges(s, Cap(teachers)) + StudentEdges(s, Cap(students))
  }

  /**
   * Edge k joins the scholar and node k + 1: teacher edges point at the scholar, student
   * edges away from it, and edge ids are the source id, a dash and the target id.
   */
  lemma EdgesJoinNodes(s: Scholar, teachers: seq<Person>, students: seq<Person>, k: nat)
    requires k < |Edges(s, teachers, students)|
    ensures |Nodes(s, teachers, students)| == 1 + |Edges(s, teachers, students)|
    ensures var n := Nodes(s, teachers, students); var e := Edges(s, teachers, students)[k];
            && e.id == e.source + "-" + e.target
            && (n[k + 1].role == Teacher ==> e.source == n[k + 1].id && e.target == n[0].id)
            && (n[k + 1].role == Student ==> e.source == n[0].id && e.target == n[k + 1].id)
            && n[k + 1].role != Main
  {
    var nt := Min(|teachers|, MaxNeighbours);
    var n := Nodes(s, teachers, students);
    if k < nt {
      assert 1 <= k + 1 <= nt;
      assert n[k + 1].role == Teacher;
    } else {
      assert nt + 1 <= k + 1 < |n|;
      assert n[k + 1].role == Student;
    }
  }

  /** Only the first 15 teachers and the first 15 students matter. */
  lemma RestIgnored(s: Scholar, teachers: seq<Person>, students: seq<Person>)
    ensures Nodes(s, teachers, students) == Nodes(s, Cap(teachers), Cap(students))
    ensures Edges(s, teachers, students) == Edges(s, Cap(teachers), Cap(students))
  {
    assert Cap(Cap(teachers)) == Cap(teachers);
    assert Cap(Cap(students)) == Cap(students);
  }

  /**
   * Nodes are not deduplicated: a person who is among both the included teachers and the
   * included students occurs as two nodes with the same id.
   */
  lemma NoDeduplication(s: Scholar, teachers: seq<Person>, students: seq<Person>, i: nat, j: nat)
    requires i < Min(|teachers|, MaxNeighbours) && j < Min(|students|, MaxNeighbours)
    requires teachers[i].id == students[j].id
    ensures var n := Nodes(s, teachers, students);
            exists p, q :: 0 <= p < q < |n| && n[p].id == n[q].id && n[p].role == Teacher && n[q].role == Student
  {
    var n := Nodes(s, teachers, students);
    var nt := Min(|teachers|, MaxNeighbours);
    assert 1 <= i + 1 <= nt;
    assert nt + 1 <= nt + 1 + j < |n|;
    assert n[i + 1].id == n[nt + 1 + j].id;
  }

  lemma PersonNodesSnoc(ps: seq<Person>, role: Role, k: nat)
    requires k < |ps|
    ensures PersonNodes(ps[..k + 1], role) == PersonNodes(ps[..k], role) + [PersonNode(ps[k], role)]
  {
  }

  lemma TeacherEdgesSnoc(s: Scholar, ts: seq<Person>, k: nat)
    requires k < |ts|
    ensures TeacherEdges(s, ts[..k + 1]) == TeacherEdges(s, ts[..k]) + [TeacherEdge(s, ts[k])]
  {
  }

  lemma StudentEdgesSnoc(s: Scholar, ps: seq<Person>, k: nat)
    requires k < |ps|
    ensures StudentEdges(s, ps[..k + 1]) == StudentEdges(s, ps[..k]) + [StudentEdge(s, ps[k])]
  {
  }

  /** The `useMemo` body before layout: the two `forEach` loops push one node and one edge each. */
  method BuildGraph(s: Scholar, teachers: seq<Person>, students: seq<Person>)
    returns (nodes: seq<GraphNode>, edges: seq<GraphEdge>)
    ensures nodes == Nodes(s, teachers, students)
    ensures edges == Edges(s, teachers, students)
  {
    nodes := [MainNode(s)];
    edges := [];
    var ts := Cap(teachers);
    for k := 0 to |ts|
      invariant nodes == [MainNode(s)] + PersonNodes(ts[..k], Teacher)
      invariant edges == TeacherEdges(s, ts[..k])
    {
      PersonNodesSnoc(ts, Teacher, k);
      TeacherEdgesSnoc(s, ts, k);
      nodes := nodes + [PersonNode(ts[k], Teacher)];
      edges := edges + [TeacherEdge(s, ts[k])];
    }
    assert ts[..|ts|] == ts;
    var ss := Cap(students);
    ghost var afterTeachers := nodes;
    ghost var teacherEdges := edges;
    for k := 0 to |ss|
      invariant nodes == afterTeachers + PersonNodes(ss[..k], Student)
      invariant edges == teacherEdges + StudentEdges(s, ss[..k])
    {
      PersonNodesSnoc(ss, Student, k);
      StudentEdgesSnoc(s, ss, k);
      nodes := nodes + [PersonNode(ss[k], Student)];
      edges := edges + [StudentEdge(s, ss[k])];
    }
    assert ss[..|ss|] == ss;
  }

  // ---------------------------------------------------------------------
  // Handle positions

  datatype Position = Top | Bottom | Left | Right

  /** A node after layout: its own fields and its target and source handles. */
  datatype PlacedNode = PlacedNode(node: GraphNode, targetPosition: Position, sourcePosition: Position)

  /** `getLayoutedElements` without the dagre coordinates; the direction defaults to "TB". */
  function Layout(nodes: seq<GraphNode>, direction: string): (r: seq<PlacedNode>)
    ensures |r| == |nodes|
    ensures forall i :: 0 <= i < |r| ==> r[i].node == nodes[i]
    ensures forall i :: 0 <= i < |r| && direction == "LR" ==>
              r[i].targetPosition == Left && r[i].sourcePosition == Right
    ensures forall i :: 0 <= i < |r| && direction != "LR" ==>
              r[i].targetPosition == Top && r[i].sourcePosition == Bottom
  {
    var horizontal := direction == "LR";
    seq(|nodes|, i requires 0 <= i < |nodes| =>
      PlacedNode(nodes[i], if horizontal then Left else Top, if horizontal then Right else Bottom))
  }

  const DefaultDirection: string := "TB"

  /** The graph as the component lays it out, with the default direction. */
  method LayoutGraph(s: Scholar, teachers: seq<Person>, students: seq<Person>)
    returns (placed: seq<PlacedNode>, edges: seq<GraphEdge>)
    ensures |placed| == |Nodes(s, teachers, students)| == 1 + |edges|
    ensures forall i :: 0 <= i < |placed| ==> placed[i].node == Nodes(s, teachers, students)[i]
    ensures forall i :: 0 <= i < |placed| ==> placed[i].targetPosition == Top && placed[i].sourcePosition == Bottom
    ensures edges == Edges(s, teachers, students)
  {
    var nodes;
    nodes, edges := BuildGraph(s, teachers, students);
    placed := Layout(nodes, DefaultDirection);
  }
}
