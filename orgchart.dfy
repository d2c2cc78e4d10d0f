// The org-chart layout generator: a flat list of staff records becomes four rows of
// positioned nodes (principals, vice-principals, department heads, members) and the
// manager-to-report edges between them.
module OrgChart {
  import opened Staff
  import opened Wrappers

  const CENTER_X: int := 400
  const X_SPACING: int := 250
  const Y_SPACING: int := 150
  const MEMBER_SPACING: int := 100

  /** A positioned chart node; `data` is the record its label displays. */
  datatype Node = Node(id: string, x: int, y: int, data: StaffMember)

  /** A manager-to-report edge. */
  datatype Edge = Edge(id: string, source: string, target: string, animated: bool)

  // ---------------------------------------------------------------------------
  // Selections: filter, find, indexOf
  // ---------------------------------------------------------------------------

  /** The records of rank `rank`, in input order (`filter` on the position). */
  function OfRank(s: seq<StaffMember>, rank: string): (r: seq<StaffMember>)
    ensures |r| <= |s|
    ensures forall k :: 0 <= k < |r| ==> r[k].position == rank
  {
    if s == [] then []
    else OfRank(s[..|s| - 1], rank) + (if s[|s| - 1].position == rank then [s[|s| - 1]] else [])
  }

  /** The rank filter keeps exactly the records of that position. */
  lemma {:induction false} OfRankMembers(s: seq<StaffMember>, rank: string)
    ensures forall x :: x in OfRank(s, rank) <==> x in s && x.position == rank
  {
    if s != [] {
      OfRankMembers(s[..|s| - 1], rank);
      assert s == s[..|s| - 1] + [s[|s| - 1]];
    }
  }

  /** The records of department `dept`, in order (`filter` on the department). */
  function OfDept(s: seq<StaffMember>, dept: string): (r: seq<StaffMember>)
    ensures |r| <= |s|
  {
    if s == [] then []
    else OfDept(s[..|s| - 1], dept) + (if s[|s| - 1].department == dept then [s[|s| - 1]] else [])
  }

  /** The department filter keeps exactly the records of that department. */
  lemma {:induction false} OfDeptMembers(s: seq<StaffMember>, dept: string)
    ensures forall x :: x in OfDept(s, dept) <==> x in s && x.department == dept
  {
    if s != [] {
      OfDeptMembers(s[..|s| - 1], dept);
      assert s == s[..|s| - 1] + [s[|s| - 1]];
    }
  }

  /** The records whose position is one of the four ranks. */
  function Ranked(s: seq<StaffMember>): (r: seq<StaffMember>)
    ensures |r| <= |s|
  {
    if s == [] then []
    else Ranked(s[..|s| - 1]) + (if IsRank(s[|s| - 1].position) then [s[|s| - 1]] else [])
  }

  /** Exactly the records whose position is one of the four ranks. */
  lemma {:induction false} RankedMembers(s: seq<StaffMember>)
    ensures forall x :: x in Ranked(s) <==> x in s && IsRank(x.position)
  {
    if s != [] {
      RankedMembers(s[..|s| - 1]);
      assert s == s[..|s| - 1] + [s[|s| - 1]];
    }
  }

  function Principals(s: seq<StaffMember>): seq<StaffMember> { OfRank(s, PRINCIPAL) }
  function VicePrincipals(s: seq<StaffMember>): seq<StaffMember> { OfRank(s, VICE_PRINCIPAL) }
  function Heads(s: seq<StaffMember>): seq<StaffMember> { OfRank(s, DEPARTMENT_HEAD) }
  function Members(s: seq<StaffMember>): seq<StaffMember> { OfRank(s, MEMBER) }

  /** The records in the order the chart lays them out: rank by rank, input order within a rank. */
  function Grouped(s: seq<StaffMember>): seq<StaffMember> {
    Principals(s) + VicePrincipals(s) + Heads(s) + Members(s)
  }

  /** Index of the first head of department `dept`, as `find` followed by `indexOf` yields it. */
  function FindHead(heads: seq<StaffMember>, dept: string): (r: Option<nat>)
    ensures r.Some? ==> r.value < |heads| && heads[r.value].department == dept
                        && forall j :: 0 <= j < r.value ==> heads[j].department != dept
    ensures r.None? <==> forall j :: 0 <= j < |heads| ==> heads[j].department != dept
  {
    if heads == [] then None
    else if heads[0].department == dept then Some(0)
    else match FindHead(heads[1..], dept)
      case None => None
      case Some(k) => Some(k + 1)
  }

  /** `indexOf` of the found head: its index, or -1 when `find` found none. */
  function HeadIndex(heads: seq<StaffMember>, dept: string): (r: int)
    ensures -1 <= r < |heads|
    ensures r == -1 <==> forall j :: 0 <= j < |heads| ==> heads[j].department != dept
    ensures r >= 0 ==> heads[r].department == dept && forall j :: 0 <= j < r ==> heads[j].department != dept
  {
    match FindHead(heads, dept)
    case None => -1
    case Some(k) => k
  }

  // ---------------------------------------------------------------------------
  // Coordinates
  // ---------------------------------------------------------------------------

  /** x of entry `i` of a row of `n` nodes: the row starts at 400 - ((n-1)*250)/2. The halving
      is exact because (n-1)*250 is even, so JavaScript's division and Dafny's agree. */
  function RowX(n: int, i: int): (r: int)
    ensures 2 * (r - CENTER_X) == (2 * i - (n - 1)) * X_SPACING
  {
    CENTER_X - ((n - 1) * X_SPACING) / 2 + i * X_SPACING
  }

  /** Vice-principal serving head `i` of `m` heads when there are `v` vice-principals:
      the integer reading of `Math.floor(i / (m / v))`. */
  function VpIndex(i: int, m: int, v: int): (r: int)
    requires 0 <= i < m && 0 < v
    ensures 0 <= r < v
  {
    var q := i * v / m;
    assert i * v < m * v by { MulStrict(i, m, v); }
    DivBelow(i * v, m, v);
    q
  }

  lemma MulStrict(i: int, m: int, v: int)
    requires 0 <= i < m && 0 < v
    ensures i * v < m * v
  {
  }

  lemma DivBelow(a: int, m: int, v: int)
    requires 0 <= a < m * v && 0 < m && 0 < v
    ensures 0 <= a / m < v
  {
  }

  /** Position of member `j` among the members of its own department (`indexOf` on the
      department's members, by object identity: the number of earlier members there). */
  function DeptRank(members: seq<StaffMember>, j: int): (r: nat)
    requires 0 <= j < |members|
    ensures r <= j
  {
    |OfDept(members[..j], members[j].department)|
  }

  /** x of member `j`: centred under the department's head, one step of 100 apart. */
  function MemberX(heads: seq<StaffMember>, members: seq<StaffMember>, j: int): (r: int)
    requires 0 <= j < |members|
    ensures var k := |OfDept(members, members[j].department)|;
      2 * (r - RowX(|heads|, HeadIndex(heads, members[j].department)))
        == (2 * DeptRank(members, j) - (k - 1)) * MEMBER_SPACING
  {
    var dept := members[j].department;
    var baseX := RowX(|heads|, HeadIndex(heads, dept));
    baseX - ((|OfDept(members, dept)| - 1) * MEMBER_SPACING) / 2 + DeptRank(members, j) * MEMBER_SPACING
  }

  // ---------------------------------------------------------------------------
  // The layout, row by row
  // ---------------------------------------------------------------------------

  function PrincipalNodes(ps: seq<StaffMember>, y: int): seq<Node> {
    seq(|ps|, i requires 0 <= i < |ps| => Node(ps[i].id, CENTER_X, y, ps[i]))
  }

  /** A centred row: vice-principals or department heads. */
  function RowNodes(row: seq<StaffMember>, y: int): seq<Node> {
    seq(|row|, i requires 0 <= i < |row| => Node(row[i].id, RowX(|row|, i), y, row[i]))
  }

  function MemberNodes(heads: seq<StaffMember>, members: seq<StaffMember>, y: int): seq<Node> {
    seq(|members|, j requires 0 <= j < |members| =>
      Node(members[j].id, MemberX(heads, members, j), y, members[j]))
  }

  function EdgeId(source: string, target: string): (r: string)
    ensures |r| == |source| + |target| + 3
    ensures r[..2] == "e-" && r[2..2 + |source|] == source
    ensures r[2 + |source|] == '-' && r[3 + |source|..] == target
  {
    "e-" + source + "-" + target
  }

  /** The first principal feeds every vice-principal; nothing when there is no principal. */
  function VpEdges(ps: seq<StaffMember>, vps: seq<StaffMember>): (r: seq<Edge>)
    ensures |r| == if |ps| == 0 then 0 else |vps|
    ensures forall k :: 0 <= k < |r| ==>
      r[k].source == ps[0].id && r[k].target == vps[k].id && r[k].animated
  {
    if |ps| == 0 then [] else
    seq(|vps|, i requires 0 <= i < |vps| =>
      Edge(EdgeId(ps[0].id, vps[i].id), ps[0].id, vps[i].id, true))
  }

  /** Head `i` is fed by vice-principal VpIndex(i, m, v); nothing when there is no vice-principal. */
  function HeadEdges(vps: seq<StaffMember>, heads: seq<StaffMember>): (r: seq<Edge>)
    ensures |r| == if |vps| == 0 then 0 else |heads|
    ensures forall k :: 0 <= k < |r| ==>
      r[k].target == heads[k].id && r[k].animated
      && exists q :: 0 <= q < |vps| && r[k].source == vps[q].id
  {
    if |vps| == 0 then [] else
    seq(|heads|, i requires 0 <= i < |heads| =>
      var src := vps[VpIndex(i, |heads|, |vps|)].id;
      Edge(EdgeId(src, heads[i].id), src, heads[i].id, true))
  }

  /** The edge, if any, from the first head of a member's department to the member. */
  function MemberEdge(heads: seq<StaffMember>, m: StaffMember): (r: seq<Edge>)
    ensures |r| <= 1
    ensures |r| == 1 <==> exists j :: 0 <= j < |heads| && heads[j].department == m.department
    ensures |r| == 1 ==> (r[0].target == m.id && !r[0].animated
      && exists j :: 0 <= j < |heads| && heads[j].department == m.department && r[0].source == heads[j].id)
  {
    match FindHead(heads, m.department)
    case None => []
    case Some(k) => [Edge(EdgeId(heads[k].id, m.id), heads[k].id, m.id, false)]
  }

  function MemberEdges(heads: seq<StaffMember>, members: seq<StaffMember>): (r: seq<Edge>)
    ensures |r| <= |members|
    ensures forall e :: e in r ==> !e.animated
  {
    if members == [] then []
    else MemberEdges(heads, members[..|members| - 1]) + MemberEdge(heads, members[|members| - 1])
  }

  /** The nodes of the whole chart: one row every 150 units, starting at y = 0. */
  function ChartNodes(s: seq<StaffMember>): (r: seq<Node>)
    ensures |r| == |Principals(s)| + |VicePrincipals(s)| + |Heads(s)| + |Members(s)|
  {
    PrincipalNodes(Principals(s), 0) + RowNodes(VicePrincipals(s), Y_SPACING)
      + RowNodes(Heads(s), 2 * Y_SPACING) + MemberNodes(Heads(s), Members(s), 3 * Y_SPACING)
  }

  /** The edges of the whole chart. */
  function ChartEdges(s: seq<StaffMember>): (r: seq<Edge>)
    ensures |r| <= |VicePrincipals(s)| + |Heads(s)| + |Members(s)|
  {
    VpEdges(Principals(s), VicePrincipals(s)) + HeadEdges(VicePrincipals(s), Heads(s))
      + MemberEdges(Heads(s), Members(s))
  }

  // ---------------------------------------------------------------------------
  // The generator, as the screen runs it: one `forEach` per rank pushing onto the node and
  // edge lists, with `yOffset` advanced between ranks
  // ---------------------------------------------------------------------------

  lemma PrefixStep<T>(s: seq<T>, i: int)
    requires 0 <= i < |s|
    ensures s[..i + 1] == s[..i] + [s[i]]
  {
  }

  method GenerateOrgChart(staffData: seq<StaffMember>) returns (nodes: seq<Node>, edges: seq<Edge>)
    ensures nodes == ChartNodes(staffData)
    ensures edges == ChartEdges(staffData)
  {
    nodes, edges := [], [];
    var yOffset := 0;
    var principals := OfRank(staffData, PRINCIPAL);
    nodes := PushPrincipals(nodes, principals, yOffset);
    yOffset := yOffset + Y_SPACING;
    var vps := OfRank(staffData, VICE_PRINCIPAL);
    nodes, edges := PushVicePrincipals(nodes, edges, principals, vps, yOffset);
    yOffset := yOffset + Y_SPACING;
    var managers := OfRank(staffData, DEPARTMENT_HEAD);
    nodes, edges := PushHeads(nodes, edges, vps, managers, yOffset);
    yOffset := yOffset + Y_SPACING;
    var members := OfRank(staffData, MEMBER);
    nodes, edges := PushMembers(nodes, edges, managers, members, yOffset);
    ghost var pn, vn, hn, mn := PrincipalNodes(principals, 0), RowNodes(vps, Y_SPACING),
      RowNodes(managers, 2 * Y_SPACING), MemberNodes(managers, members, 3 * Y_SPACING);
    assert nodes == [] + pn + vn + hn + mn;
    assert [] + pn == pn;
    ghost var ve, he, me := VpEdges(principals, vps), HeadEdges(vps, managers), MemberEdges(managers, members);
    assert edges == [] + ve + he + me;
    assert [] + ve == ve;
  }

  /** Level 1: every principal at x = 400. */
  method PushPrincipals(nodes0: seq<Node>, principals: seq<StaffMember>, yOffset: int)
    returns (nodes: seq<Node>)
    ensures nodes == nodes0 + PrincipalNodes(principals, yOffset)
  {
    nodes := nodes0;
    for i := 0 to |principals|
      invariant nodes == nodes0 + PrincipalNodes(principals, yOffset)[..i]
    {
      PrefixStep(PrincipalNodes(principals, yOffset), i);
      nodes := nodes + [Node(principals[i].id, CENTER_X, yOffset, principals[i])];
    }
    assert PrincipalNodes(principals, yOffset)[..|principals|] == PrincipalNodes(principals, yOffset);
  }

  /** Level 2: the vice-principals centred, each fed by the first principal if there is one. */
  method PushVicePrincipals(nodes0: seq<Node>, edges0: seq<Edge>, principals: seq<StaffMember>,
                            vps: seq<StaffMember>, yOffset: int)
    returns (nodes: seq<Node>, edges: seq<Edge>)
    ensures nodes == nodes0 + RowNodes(vps, yOffset)
    ensures edges == edges0 + VpEdges(principals, vps)
  {
    nodes, edges := nodes0, edges0;
    var vpX := CENTER_X - ((|vps| - 1) * X_SPACING) / 2;
    for i := 0 to |vps|
      invariant nodes == nodes0 + RowNodes(vps, yOffset)[..i]
      invariant edges == edges0 + if |principals| > 0 then VpEdges(principals, vps)[..i] else []
    {
      PrefixStep(RowNodes(vps, yOffset), i);
      nodes := nodes + [Node(vps[i].id, vpX + i * X_SPACING, yOffset, vps[i])];
      if |principals| > 0 {
        PrefixStep(VpEdges(principals, vps), i);
        edges := edges + [Edge(EdgeId(principals[0].id, vps[i].id), principals[0].id, vps[i].id, true)];
      }
    }
    assert RowNodes(vps, yOffset)[..|vps|] == RowNodes(vps, yOffset);
    assert |principals| > 0 ==> VpEdges(principals, vps)[..|vps|] == VpEdges(principals, vps);
  }

  /** Level 3: the heads centred, head i fed by vice-principal VpIndex(i, m, v) if there is one. */
  method PushHeads(nodes0: seq<Node>, edges0: seq<Edge>, vps: seq<StaffMember>,
                   managers: seq<StaffMember>, yOffset: int)
    returns (nodes: seq<Node>, edges: seq<Edge>)
    ensures nodes == nodes0 + RowNodes(managers, yOffset)
    ensures edges == edges0 + HeadEdges(vps, managers)
  {
    nodes, edges := nodes0, edges0;
    var managerX := CENTER_X - ((|managers| - 1) * X_SPACING) / 2;
    for i := 0 to |managers|
      invariant nodes == nodes0 + RowNodes(managers, yOffset)[..i]
      invariant edges == edges0 + if |vps| > 0 then HeadEdges(vps, managers)[..i] else []
    {
      PrefixStep(RowNodes(managers, yOffset), i);
      nodes := nodes + [Node(managers[i].id, managerX + i * X_SPACING, yOffset, managers[i])];
      if |vps| > 0 {
        PrefixStep(HeadEdges(vps, managers), i);
        var src := vps[VpIndex(i, |managers|, |vps|)].id;
        edges := edges + [Edge(EdgeId(src, managers[i].id), src, managers[i].id, true)];
      }
    }
    assert RowNodes(managers, yOffset)[..|managers|] == RowNodes(managers, yOffset);
    assert |vps| > 0 ==> HeadEdges(vps, managers)[..|managers|] == HeadEdges(vps, managers);
  }

  /** Level 4: members centred under the first head of their department, each fed by that head. */
  method PushMembers(nodes0: seq<Node>, edges0: seq<Edge>, managers: seq<StaffMember>,
                     members: seq<StaffMember>, yOffset: int)
    returns (nodes: seq<Node>, edges: seq<Edge>)
    ensures nodes == nodes0 + MemberNodes(managers, members, yOffset)
    ensures edges == edges0 + MemberEdges(managers, members)
  {
    nodes, edges := nodes0, edges0;
    var managerX := CENTER_X - ((|managers| - 1) * X_SPACING) / 2;
    ghost var row := MemberNodes(managers, members, yOffset);
    for i := 0 to |members|
      invariant nodes == nodes0 + row[..i]
      invariant edges == edges0 + MemberEdges(managers, members[..i])
    {
      MemberLoopPrefixes(managers, members, yOffset, i);
      nodes, edges := PushMember(nodes, edges, managers, managerX, members, i, yOffset);
    }
    assert row[..|members|] == row;
    assert members[..|members|] == members;
  }

  /** The body of the member loop for member i: its node centred under its department's first
      head (index -1 if none), and the edge from that head when there is one. */
  method PushMember(nodes0: seq<Node>, edges0: seq<Edge>, managers: seq<StaffMember>, managerX: int,
                    members: seq<StaffMember>, i: int, yOffset: int)
    returns (nodes: seq<Node>, edges: seq<Edge>)
    requires 0 <= i < |members| && managerX == CENTER_X - ((|managers| - 1) * X_SPACING) / 2
    ensures nodes == nodes0 + [MemberNodes(managers, members, yOffset)[i]]
    ensures edges == edges0 + MemberEdge(managers, members[i])
  {
    var member := members[i];
    var manager := FindHead(managers, member.department);
    var managerIndex := if manager.Some? then manager.value else -1;
    var baseX := managerX + managerIndex * X_SPACING;
    var departmentMembers := OfDept(members, member.department);
    var memberIndexInDept := |OfDept(members[..i], member.department)|;
    var x := baseX - ((|departmentMembers| - 1) * MEMBER_SPACING) / 2 + memberIndexInDept * MEMBER_SPACING;
    MemberLoopStep(managers, members, yOffset, i, x);
    nodes := nodes0 + [Node(member.id, x, yOffset, member)];
    edges := edges0;
    if manager.Some? {
      var head := managers[manager.value];
      edges := edges + [Edge(EdgeId(head.id, member.id), head.id, member.id, false)];
    }
  }

  /** The x the member loop computes for member i is the specified one. */
  lemma MemberLoopStep(managers: seq<StaffMember>, members: seq<StaffMember>, y: int, i: int, x: int)
    requires 0 <= i < |members|
    requires var dept := members[i].department;
      var manager := FindHead(managers, dept);
      x == CENTER_X - ((|managers| - 1) * X_SPACING) / 2
             + (if manager.Some? then manager.value else -1) * X_SPACING
             - ((|OfDept(members, dept)| - 1) * MEMBER_SPACING) / 2
             + |OfDept(members[..i], dept)| * MEMBER_SPACING
    ensures MemberNodes(managers, members, y)[i] == Node(members[i].id, x, y, members[i])
  {
    assert x == MemberX(managers, members, i);
  }

  /** One step of the member loop: the specified row and edge list grow by member i's entries. */
  lemma MemberLoopPrefixes(managers: seq<StaffMember>, members: seq<StaffMember>, y: int, i: int)
    requires 0 <= i < |members|
    ensures var row := MemberNodes(managers, members, y);
      row[..i + 1] == row[..i] + [row[i]]
    ensures MemberEdges(managers, members[..i + 1])
         == MemberEdges(managers, members[..i]) + MemberEdge(managers, members[i])
  {
    PrefixStep(MemberNodes(managers, members, y), i);
    MemberEdgesStep(managers, members, i);
  }

  /** One step of the member loop on the edges. */
  lemma MemberEdgesStep(managers: seq<StaffMember>, members: seq<StaffMember>, i: int)
    requires 0 <= i < |members|
    ensures MemberEdges(managers, members[..i + 1])
         == MemberEdges(managers, members[..i]) + MemberEdge(managers, members[i])
  {
    assert members[..i + 1][..i] == members[..i];
  }

  // ---------------------------------------------------------------------------
  // Properties of the layout
  // ---------------------------------------------------------------------------

  /** The records the nodes display, in node order. */
  function NodeData(nodes: seq<Node>): (r: seq<StaffMember>)
    ensures |r| == |nodes| && forall k :: 0 <= k < |nodes| ==> r[k] == nodes[k].data
  {
    seq(|nodes|, k requires 0 <= k < |nodes| => nodes[k].data)
  }

  /** Row of a rank: 0 for principals, 150 for vice-principals, 300 for heads, 450 for members. */
  function RowY(position: string): int {
    if position == PRINCIPAL then 0
    else if position == VICE_PRINCIPAL then Y_SPACING
    else if position == DEPARTMENT_HEAD then 2 * Y_SPACING
    else 3 * Y_SPACING
  }

  /** The nodes display the records rank by rank, in input order within each rank, and each
      node carries the id of its record. */
  lemma NodesFollowRanks(s: seq<StaffMember>)
    ensures NodeData(ChartNodes(s)) == Grouped(s)
    ensures forall k :: 0 <= k < |ChartNodes(s)| ==> ChartNodes(s)[k].id == ChartNodes(s)[k].data.id
  {
    var P, V, H, M := Principals(s), VicePrincipals(s), Heads(s), Members(s);
    var N := ChartNodes(s);
    var G := Grouped(s);
    assert |N| == |G|;
    forall k | 0 <= k < |N| ensures N[k].data == G[k] && N[k].id == N[k].data.id {
      if k < |P| {
      } else if k < |P| + |V| {
      } else if k < |P| + |V| + |H| {
      } else {
      }
    }
  }

  /** The four rank selections together hold exactly the ranked records. */
  lemma {:induction false} GroupedIsRanked(s: seq<StaffMember>)
    ensures multiset(Grouped(s)) == multiset(Ranked(s))
  {
    if s != [] {
      GroupedIsRanked(s[..|s| - 1]);
      GroupedLast(s);
      RankedLast(s);
    }
  }

  lemma RankedLast(s: seq<StaffMember>)
    requires s != []
    ensures multiset(Ranked(s)) == multiset(Ranked(s[..|s| - 1]))
      + if IsRank(s[|s| - 1].position) then multiset{s[|s| - 1]} else multiset{}
  {
  }

  /** The last record adds itself to the layout order exactly when it has a rank. */
  lemma GroupedLast(s: seq<StaffMember>)
    requires s != []
    ensures multiset(Grouped(s)) == multiset(Grouped(s[..|s| - 1]))
      + if IsRank(s[|s| - 1].position) then multiset{s[|s| - 1]} else multiset{}
  {
    var t, last := s[..|s| - 1], s[|s| - 1];
    RanksDistinct();
    OfRankLast(s, PRINCIPAL);
    OfRankLast(s, VICE_PRINCIPAL);
    OfRankLast(s, DEPARTMENT_HEAD);
    OfRankLast(s, MEMBER);
    GroupedCount(s);
    GroupedCount(t);
    Sum4Step(multiset(Principals(t)), multiset(VicePrincipals(t)), multiset(Heads(t)), multiset(Members(t)),
             multiset(Principals(s)), multiset(VicePrincipals(s)), multiset(Heads(s)), multiset(Members(s)),
             if IsRank(last.position) then multiset{last} else multiset{});
  }

  /** Adding `m` to one of four multisets adds it to their sum. */
  lemma Sum4Step<T>(a: multiset<T>, b: multiset<T>, c: multiset<T>, d: multiset<T>,
                    a': multiset<T>, b': multiset<T>, c': multiset<T>, d': multiset<T>, m: multiset<T>)
    requires || (a' == a + m && b' == b && c' == c && d' == d)
             || (a' == a && b' == b + m && c' == c && d' == d)
             || (a' == a && b' == b && c' == c + m && d' == d)
             || (a' == a && b' == b && c' == c && d' == d + m)
    ensures a' + b' + c' + d' == a + b + c + d + m
  {
  }

  lemma GroupedCount(s: seq<StaffMember>)
    ensures multiset(Grouped(s)) == multiset(Principals(s)) + multiset(VicePrincipals(s))
                                    + multiset(Heads(s)) + multiset(Members(s))
  {
    MultisetOf4(Principals(s), VicePrincipals(s), Heads(s), Members(s));
  }

  lemma MultisetOf4<T>(a: seq<T>, b: seq<T>, c: seq<T>, d: seq<T>)
    ensures multiset(a + b + c + d) == multiset(a) + multiset(b) + multiset(c) + multiset(d)
  {
    assert a + b + c + d == ((a + b) + c) + d;
  }

  /** The last record adds itself to its own rank's selection only. */
  lemma OfRankLast(s: seq<StaffMember>, rank: string)
    requires s != []
    ensures multiset(OfRank(s, rank)) == multiset(OfRank(s[..|s| - 1], rank))
      + if s[|s| - 1].position == rank then multiset{s[|s| - 1]} else multiset{}
  {
  }

  /** Every record whose position is a rank yields exactly as many nodes as it occurs in the
      input; a record with any other position yields none. */
  lemma NodesCoverRankedRecords(s: seq<StaffMember>)
    ensures multiset(NodeData(ChartNodes(s))) == multiset(Ranked(s))
  {
    NodesFollowRanks(s);
    GroupedIsRanked(s);
  }

  lemma {:induction false} RankedAll(s: seq<StaffMember>)
    requires forall k :: 0 <= k < |s| ==> IsRank(s[k].position)
    ensures Ranked(s) == s
  {
    if s != [] {
      var t := s[..|s| - 1];
      RankedAll(t);
      assert s == t + [s[|s| - 1]];
    }
  }

  /** When every record has one of the four ranks, the chart has one node per record. */
  lemma OneNodePerRecord(s: seq<StaffMember>)
    requires forall k :: 0 <= k < |s| ==> IsRank(s[k].position)
    ensures |ChartNodes(s)| == |s|
    ensures multiset(NodeData(ChartNodes(s))) == multiset(s)
  {
    NodesCoverRankedRecords(s);
    RankedAll(s);
    assert |NodeData(ChartNodes(s))| == |multiset(s)|;
  }

  /** Each node sits on the row of its rank, and every principal sits at x = 400. */
  lemma RowsByRank(s: seq<StaffMember>)
    ensures forall k :: 0 <= k < |ChartNodes(s)| ==>
      IsRank(ChartNodes(s)[k].data.position)
      && ChartNodes(s)[k].y == RowY(ChartNodes(s)[k].data.position)
      && (ChartNodes(s)[k].data.position == PRINCIPAL ==> ChartNodes(s)[k].x == CENTER_X)
  {
    var P, V, H, M := Principals(s), VicePrincipals(s), Heads(s), Members(s);
    var N := ChartNodes(s);
    forall k | 0 <= k < |N|
      ensures IsRank(N[k].data.position) && N[k].y == RowY(N[k].data.position)
      ensures N[k].data.position == PRINCIPAL ==> N[k].x == CENTER_X
    {
      if k < |P| {
        assert N[k].data == P[k];
      } else if k < |P| + |V| {
        assert N[k].data == V[k - |P|];
      } else if k < |P| + |V| + |H| {
        assert N[k].data == H[k - |P| - |V|];
      } else {
        assert N[k].data == M[k - |P| - |V| - |H|];
      }
    }
  }

  /** Entry i of a row of n: x = 400 - (n-1)*125 + i*250, so the row steps by 250 and entries
      i and n-1-i mirror each other about x = 400. */
  lemma RowCentred(n: int, i: int)
    ensures RowX(n, i) == CENTER_X - (n - 1) * 125 + i * X_SPACING
    ensures RowX(n, i + 1) == RowX(n, i) + X_SPACING
    ensures RowX(n, i) + RowX(n, n - 1 - i) == 2 * CENTER_X
  {
    assert (n - 1) * X_SPACING == 2 * ((n - 1) * 125);
  }

  /** Vice-principal i of n is node |principals| + i, on row 150 at its centred column. */
  lemma VicePrincipalPlacement(s: seq<StaffMember>, i: int)
    requires 0 <= i < |VicePrincipals(s)|
    ensures var V := VicePrincipals(s); var n := |V|;
      ChartNodes(s)[|Principals(s)| + i]
        == Node(V[i].id, CENTER_X - (n - 1) * 125 + i * X_SPACING, Y_SPACING, V[i])
  {
    RowCentred(|VicePrincipals(s)|, i);
  }

  /** Head i of m is node |principals| + |vice-principals| + i, on row 300 at its centred column. */
  lemma HeadPlacement(s: seq<StaffMember>, i: int)
    requires 0 <= i < |Heads(s)|
    ensures var H := Heads(s); var m := |H|;
      ChartNodes(s)[|Principals(s)| + |VicePrincipals(s)| + i]
        == Node(H[i].id, CENTER_X - (m - 1) * 125 + i * X_SPACING, 2 * Y_SPACING, H[i])
  {
    RowCentred(|Heads(s)|, i);
  }

  // ---------------------------------------------------------------------------
  // Members: department ranks and placement
  // ---------------------------------------------------------------------------

  lemma {:induction false} OfDeptPrefix(s: seq<StaffMember>, a: int, dept: string)
    requires 0 <= a <= |s|
    ensures OfDept(s[..a], dept) <= OfDept(s, dept)
    decreases |s|
  {
    if a < |s| {
      var t := s[..|s| - 1];
      assert t[..a] == s[..a];
      OfDeptPrefix(t, a, dept);
    } else {
      assert s[..a] == s;
    }
  }

  lemma OfDeptStep(s: seq<StaffMember>, j: int)
    requires 0 <= j < |s|
    ensures OfDept(s[..j + 1], s[j].department) == OfDept(s[..j], s[j].department) + [s[j]]
  {
    assert s[..j + 1][..j] == s[..j];
  }

  /** Member j is entry DeptRank(j) of its department's members, and that rank is below the
      department's size. */
  lemma DeptRankLocates(members: seq<StaffMember>, j: int)
    requires 0 <= j < |members|
    ensures var d := members[j].department;
      DeptRank(members, j) < |OfDept(members, d)|
      && OfDept(members, d)[DeptRank(members, j)] == members[j]
  {
    var d := members[j].department;
    OfDeptStep(members, j);
    OfDeptPrefix(members, j + 1, d);
  }

  /** Within a department, later members get strictly larger ranks, so no two overlap. */
  lemma DeptRankIncreasing(members: seq<StaffMember>, j1: int, j2: int)
    requires 0 <= j1 < j2 < |members|
    requires members[j1].department == members[j2].department
    ensures DeptRank(members, j1) < DeptRank(members, j2)
  {
    var d := members[j1].department;
    OfDeptStep(members, j1);
    OfDeptPrefix(members[..j2], j1 + 1, d);
    assert members[..j2][..j1 + 1] == members[..j1 + 1];
  }

  /** Member j is node |P| + |V| + |H| + j on row 450. With k members in its department and
      rank r among them, x = baseX - (k-1)*50 + r*100, where baseX is the column of the first
      head of its department, or the column of head index -1 when there is none. */
  lemma MemberPlacement(s: seq<StaffMember>, j: int)
    requires 0 <= j < |Members(s)|
    ensures var H, M := Heads(s), Members(s);
      var d := M[j].department;
      var k, r := |OfDept(M, d)|, DeptRank(M, j);
      var baseX := CENTER_X - (|H| - 1) * 125 + HeadIndex(H, d) * X_SPACING;
      && 0 <= r < k
      && ChartNodes(s)[|Principals(s)| + |VicePrincipals(s)| + |H| + j]
           == Node(M[j].id, baseX - (k - 1) * 50 + r * MEMBER_SPACING, 3 * Y_SPACING, M[j])
      && (HeadIndex(H, d) == -1 <==> forall h :: 0 <= h < |H| ==> H[h].department != d)
  {
    var P, V, H, M := Principals(s), VicePrincipals(s), Heads(s), Members(s);
    var d := M[j].department;
    var k, r := |OfDept(M, d)|, DeptRank(M, j);
    DeptRankLocates(M, j);
    RowCentred(|H|, HeadIndex(H, d));
    var baseX := CENTER_X - (|H| - 1) * 125 + HeadIndex(H, d) * X_SPACING;
    assert ((k - 1) * MEMBER_SPACING) / 2 == (k - 1) * 50;
    assert MemberX(H, M, j) == baseX - (k - 1) * 50 + r * MEMBER_SPACING;
    var N := ChartNodes(s);
    var low := PrincipalNodes(P, 0) + RowNodes(V, Y_SPACING) + RowNodes(H, 2 * Y_SPACING);
    assert N == low + MemberNodes(H, M, 3 * Y_SPACING);
    assert |low| == |P| + |V| + |H|;
    assert N[|low| + j] == MemberNodes(H, M, 3 * Y_SPACING)[j];
  }

  /** Members of one department are centred under their base column: entries r and k-1-r
      lie symmetrically about it. */
  lemma MembersCentred(heads: seq<StaffMember>, members: seq<StaffMember>, j1: int, j2: int)
    requires 0 <= j1 < |members| && 0 <= j2 < |members|
    requires members[j1].department == members[j2].department
    requires DeptRank(members, j1) + DeptRank(members, j2) == |OfDept(members, members[j1].department)| - 1
    ensures MemberX(heads, members, j1) + MemberX(heads, members, j2)
            == 2 * RowX(|heads|, HeadIndex(heads, members[j1].department))
  {
    var k := |OfDept(members, members[j1].department)|;
    var r1, r2 := DeptRank(members, j1), DeptRank(members, j2);
    var baseX := RowX(|heads|, HeadIndex(heads, members[j1].department));
    assert ((k - 1) * MEMBER_SPACING) / 2 == (k - 1) * 50;
    assert MemberX(heads, members, j1) == baseX - (k - 1) * 50 + r1 * MEMBER_SPACING;
    assert MemberX(heads, members, j2) == baseX - (k - 1) * 50 + r2 * MEMBER_SPACING;
  }

  // ---------------------------------------------------------------------------
  // Edges
  // ---------------------------------------------------------------------------

  /** The edges into `target`, in order. */
  function Incoming(es: seq<Edge>, target: string): (r: seq<Edge>)
    ensures |r| <= |es|
  {
    if es == [] then []
    else Incoming(es[..|es| - 1], target) + (if es[|es| - 1].target == target then [es[|es| - 1]] else [])
  }

  /** The edges into `target` are exactly the edges whose target it is. */
  lemma {:induction false} IncomingMembers(es: seq<Edge>, target: string)
    ensures forall e :: e in Incoming(es, target) <==> e in es && e.target == target
  {
    if es != [] {
      IncomingMembers(es[..|es| - 1], target);
      assert es == es[..|es| - 1] + [es[|es| - 1]];
    }
  }

  lemma {:induction false} IncomingAppend(a: seq<Edge>, b: seq<Edge>, t: string)
    ensures Incoming(a + b, t) == Incoming(a, t) + Incoming(b, t)
    decreases |b|
  {
    if b == [] {
      assert a + b == a;
    } else {
      var b' := b[..|b| - 1];
      assert (a + b)[..|a + b| - 1] == a + b';
      IncomingAppend(a, b', t);
    }
  }

  lemma IncomingNone(es: seq<Edge>, t: string)
    requires forall e :: e in es ==> e.target != t
    ensures Incoming(es, t) == []
  {
    if Incoming(es, t) != [] {
      IncomingMembers(es, t);
      assert Incoming(es, t)[0] in Incoming(es, t);
    }
  }

  lemma IncomingOne(es: seq<Edge>, t: string, i: int)
    requires 0 <= i < |es| && es[i].target == t
    requires forall k :: 0 <= k < |es| && k != i ==> es[k].target != t
    ensures Incoming(es, t) == [es[i]]
  {
    var a, b := es[..i], es[i + 1..];
    assert es == (a + [es[i]]) + b;
    forall e | e in a ensures e.target != t {
      var p :| 0 <= p < |a| && a[p] == e;
      assert es[p] == e;
    }
    forall e | e in b ensures e.target != t {
      var p :| 0 <= p < |b| && b[p] == e;
      assert es[i + 1 + p] == e;
    }
    IncomingNone(a, t);
    IncomingNone(b, t);
    IncomingAppend(a, [es[i]], t);
    IncomingSingle(es[i], t);
    IncomingAppend(a + [es[i]], b, t);
  }

  lemma IncomingSingle(e: Edge, t: string)
    requires e.target == t
    ensures Incoming([e], t) == [e]
  {
    assert [e][..0] == [];
  }

  lemma RecordIds(s: seq<StaffMember>, x: StaffMember, y: StaffMember)
    requires UniqueIds(s) && x in s && y in s && x != y
    ensures x.id != y.id
  {
    var i :| 0 <= i < |s| && s[i] == x;
    var j :| 0 <= j < |s| && s[j] == y;
    if i > j {
      assert s[j].id != s[i].id;
    }
  }

  lemma {:induction false} OfRankUnique(s: seq<StaffMember>, rank: string)
    requires UniqueIds(s)
    ensures UniqueIds(OfRank(s, rank))
  {
    if s != [] {
      var t := s[..|s| - 1];
      var last := s[|s| - 1];
      assert UniqueIds(t);
      OfRankUnique(t, rank);
      var R := OfRank(s, rank);
      forall i, j | 0 <= i < j < |R| ensures R[i].id != R[j].id {
        if j == |R| - 1 && last.position == rank {
          assert R[i] in OfRank(t, rank);
          OfRankMembers(t, rank);
          var p :| 0 <= p < |t| && t[p] == R[i];
          assert s[p] == R[i] && R[j] == s[|s| - 1];
        } else {
          assert R[i] == OfRank(t, rank)[i] && R[j] == OfRank(t, rank)[j];
        }
      }
    }
  }

  /** Records of two different ranks never share an id. */
  lemma RanksDisjoint(s: seq<StaffMember>, r1: string, r2: string, x: StaffMember, y: StaffMember)
    requires UniqueIds(s) && r1 != r2
    requires x in OfRank(s, r1) && y in OfRank(s, r2)
    ensures x.id != y.id
  {
    OfRankMembers(s, r1);
    OfRankMembers(s, r2);
    RecordIds(s, x, y);
  }

  /** What each member edge is: from a head to a member, not animated, with the standard id. */
  lemma {:induction false} MemberEdgesShape(heads: seq<StaffMember>, members: seq<StaffMember>)
    ensures forall e :: e in MemberEdges(heads, members) ==>
      (exists x :: x in members && x.id == e.target)
      && (exists y :: y in heads && y.id == e.source)
      && !e.animated && e.id == EdgeId(e.source, e.target)
  {
    if members != [] {
      var t := members[..|members| - 1];
      var last := members[|members| - 1];
      MemberEdgesShape(heads, t);
      forall e | e in MemberEdges(heads, members)
        ensures (exists x :: x in members && x.id == e.target)
        ensures (exists y :: y in heads && y.id == e.source)
        ensures !e.animated && e.id == EdgeId(e.source, e.target)
      {
        if e in MemberEdges(heads, t) {
          var x :| x in t && x.id == e.target;
          assert x in members;
        } else {
          assert e in MemberEdge(heads, last);
          assert last in members;
          var k := FindHead(heads, last.department).value;
          assert heads[k] in heads;
        }
      }
    }
  }

  /** Into a member go exactly the edges of MemberEdge for that member. */
  lemma {:induction false} MemberEdgesInto(heads: seq<StaffMember>, members: seq<StaffMember>, j: int)
    requires UniqueIds(members) && 0 <= j < |members|
    ensures Incoming(MemberEdges(heads, members), members[j].id) == MemberEdge(heads, members[j])
  {
    var t := members[..|members| - 1];
    var last := members[|members| - 1];
    var id := members[j].id;
    IncomingAppend(MemberEdges(heads, t), MemberEdge(heads, last), id);
    MemberEdgesShape(heads, t);
    assert UniqueIds(t);
    if j == |members| - 1 {
      NoEarlierEdgeInto(heads, members);
      IncomingNone(MemberEdges(heads, t), id);
      IncomingOfSelf(heads, last);
    } else {
      assert t[j] == members[j];
      MemberEdgesInto(heads, t, j);
      assert members[j].id != last.id;
      IncomingNone(MemberEdge(heads, last), id);
    }
  }

  /** With unique ids, no edge of the earlier members goes into the last member. */
  lemma NoEarlierEdgeInto(heads: seq<StaffMember>, members: seq<StaffMember>)
    requires UniqueIds(members) && |members| > 0
    ensures var t := members[..|members| - 1];
      forall e :: e in MemberEdges(heads, t) ==> e.target != members[|members| - 1].id
  {
    var t := members[..|members| - 1];
    MemberEdgesShape(heads, t);
    forall e | e in MemberEdges(heads, t) ensures e.target != members[|members| - 1].id {
      var x :| x in t && x.id == e.target;
      var p :| 0 <= p < |t| && t[p] == x;
      assert members[p] == x;
    }
  }

  lemma IncomingOfSelf(heads: seq<StaffMember>, m: StaffMember)
    ensures Incoming(MemberEdge(heads, m), m.id) == MemberEdge(heads, m)
  {
    if MemberEdge(heads, m) != [] {
      assert MemberEdge(heads, m) == [] + [MemberEdge(heads, m)[0]];
    }
  }

  // ---------------------------------------------------------------------------
  // Edges of the whole chart
  // ---------------------------------------------------------------------------

  /** The three groups of edges and their targets: vice-principal edges into vice-principals,
      head edges into heads, member edges into members. */
  lemma EdgeTargets(s: seq<StaffMember>)
    ensures forall e :: e in VpEdges(Principals(s), VicePrincipals(s)) ==>
      exists x :: x in VicePrincipals(s) && x.id == e.target
    ensures forall e :: e in HeadEdges(VicePrincipals(s), Heads(s)) ==>
      exists x :: x in Heads(s) && x.id == e.target
    ensures forall e :: e in MemberEdges(Heads(s), Members(s)) ==>
      exists x :: x in Members(s) && x.id == e.target
  {
    var P, V, H, M := Principals(s), VicePrincipals(s), Heads(s), Members(s);
    forall e | e in VpEdges(P, V) ensures exists x :: x in V && x.id == e.target {
      var k :| 0 <= k < |VpEdges(P, V)| && VpEdges(P, V)[k] == e;
      assert V[k] in V;
    }
    forall e | e in HeadEdges(V, H) ensures exists x :: x in H && x.id == e.target {
      var k :| 0 <= k < |HeadEdges(V, H)| && HeadEdges(V, H)[k] == e;
      assert H[k] in H;
    }
    MemberEdgesShape(H, M);
  }

  /** No edge of a group goes into `id` when no record of that group's rank carries `id`. */
  lemma NoneInto(es: seq<Edge>, group: seq<StaffMember>, id: string)
    requires forall e :: e in es ==> exists x :: x in group && x.id == e.target
    requires forall x :: x in group ==> x.id != id
    ensures Incoming(es, id) == []
  {
    forall e | e in es ensures e.target != id {
      var x :| x in group && x.id == e.target;
    }
    IncomingNone(es, id);
  }

  /** Distinct records of different ranks never share an id. */
  lemma OtherRank(s: seq<StaffMember>, r1: string, r2: string, y: StaffMember)
    requires UniqueIds(s) && r1 != r2 && y in OfRank(s, r2)
    ensures forall x :: x in OfRank(s, r1) ==> x.id != y.id
  {
    forall x | x in OfRank(s, r1) ensures x.id != y.id {
      RanksDisjoint(s, r1, r2, x, y);
    }
  }

  /** A principal has no incoming edge. */
  lemma PrincipalIncoming(s: seq<StaffMember>, k: int)
    requires UniqueIds(s) && 0 <= k < |Principals(s)|
    ensures Incoming(ChartEdges(s), Principals(s)[k].id) == []
  {
    var P, V, H, M := Principals(s), VicePrincipals(s), Heads(s), Members(s);
    var id := P[k].id;
    assert P[k] in P;
    EdgeTargets(s);
    OtherRank(s, VICE_PRINCIPAL, PRINCIPAL, P[k]);
    OtherRank(s, DEPARTMENT_HEAD, PRINCIPAL, P[k]);
    OtherRank(s, MEMBER, PRINCIPAL, P[k]);
    NoneInto(VpEdges(P, V), V, id);
    NoneInto(HeadEdges(V, H), H, id);
    NoneInto(MemberEdges(H, M), M, id);
    IncomingAppend(VpEdges(P, V), HeadEdges(V, H), id);
    IncomingAppend(VpEdges(P, V) + HeadEdges(V, H), MemberEdges(H, M), id);
  }

  /** Each vice-principal has exactly one incoming edge, from the first principal, when a
      principal exists, and none otherwise. */
  lemma VicePrincipalIncoming(s: seq<StaffMember>, i: int)
    requires UniqueIds(s) && 0 <= i < |VicePrincipals(s)|
    ensures var P, V := Principals(s), VicePrincipals(s);
      Incoming(ChartEdges(s), V[i].id)
        == if |P| > 0 then [Edge(EdgeId(P[0].id, V[i].id), P[0].id, V[i].id, true)] else []
  {
    var P, V := Principals(s), VicePrincipals(s);
    var id := V[i].id;
    VicePrincipalOnlyFromVpEdges(s, i);
    if |P| > 0 {
      OfRankUnique(s, VICE_PRINCIPAL);
      IncomingOne(VpEdges(P, V), id, i);
    } else {
      IncomingNone(VpEdges(P, V), id);
    }
  }

  /** Only the principal-to-vice-principal edges can go into a vice-principal. */
  lemma VicePrincipalOnlyFromVpEdges(s: seq<StaffMember>, i: int)
    requires UniqueIds(s) && 0 <= i < |VicePrincipals(s)|
    ensures var V := VicePrincipals(s);
      Incoming(ChartEdges(s), V[i].id) == Incoming(VpEdges(Principals(s), V), V[i].id)
  {
    var P, V, H, M := Principals(s), VicePrincipals(s), Heads(s), Members(s);
    var id := V[i].id;
    assert V[i] in V;
    EdgeTargets(s);
    OtherRank(s, DEPARTMENT_HEAD, VICE_PRINCIPAL, V[i]);
    OtherRank(s, MEMBER, VICE_PRINCIPAL, V[i]);
    NoneInto(HeadEdges(V, H), H, id);
    NoneInto(MemberEdges(H, M), M, id);
    IncomingAppend(VpEdges(P, V), HeadEdges(V, H), id);
    IncomingAppend(VpEdges(P, V) + HeadEdges(V, H), MemberEdges(H, M), id);
  }

  /** Head i of m has exactly one incoming edge, from vice-principal i*v/m, when v >= 1
      vice-principals exist, and none otherwise. */
  lemma HeadIncoming(s: seq<StaffMember>, i: int)
    requires UniqueIds(s) && 0 <= i < |Heads(s)|
    ensures var V, H := VicePrincipals(s), Heads(s);
      Incoming(ChartEdges(s), H[i].id)
        == if |V| > 0 then
             var src := V[i * |V| / |H|].id;
             [Edge(EdgeId(src, H[i].id), src, H[i].id, true)]
           else []
  {
    var P, V, H, M := Principals(s), VicePrincipals(s), Heads(s), Members(s);
    var id := H[i].id;
    assert H[i] in H;
    EdgeTargets(s);
    OtherRank(s, VICE_PRINCIPAL, DEPARTMENT_HEAD, H[i]);
    OtherRank(s, MEMBER, DEPARTMENT_HEAD, H[i]);
    NoneInto(VpEdges(P, V), V, id);
    NoneInto(MemberEdges(H, M), M, id);
    if |V| > 0 {
      OfRankUnique(s, DEPARTMENT_HEAD);
      IncomingOne(HeadEdges(V, H), id, i);
    } else {
      IncomingNone(HeadEdges(V, H), id);
    }
    IncomingAppend(VpEdges(P, V), HeadEdges(V, H), id);
    IncomingAppend(VpEdges(P, V) + HeadEdges(V, H), MemberEdges(H, M), id);
  }

  /** A member has an incoming edge exactly when some head shares its department, and then
      exactly one, from the first such head. */
  lemma MemberIncoming(s: seq<StaffMember>, j: int)
    requires UniqueIds(s) && 0 <= j < |Members(s)|
    ensures var H, M := Heads(s), Members(s);
      var f := FindHead(H, M[j].department);
      Incoming(ChartEdges(s), M[j].id)
        == if f.Some? then [Edge(EdgeId(H[f.value].id, M[j].id), H[f.value].id, M[j].id, false)]
           else []
  {
    var P, V, H, M := Principals(s), VicePrincipals(s), Heads(s), Members(s);
    var id := M[j].id;
    assert M[j] in M;
    EdgeTargets(s);
    OtherRank(s, VICE_PRINCIPAL, MEMBER, M[j]);
    OtherRank(s, DEPARTMENT_HEAD, MEMBER, M[j]);
    NoneInto(VpEdges(P, V), V, id);
    NoneInto(HeadEdges(V, H), H, id);
    OfRankUnique(s, MEMBER);
    MemberEdgesInto(H, M, j);
    IncomingAppend(VpEdges(P, V), HeadEdges(V, H), id);
    IncomingAppend(VpEdges(P, V) + HeadEdges(V, H), MemberEdges(H, M), id);
  }

  /** Only the first principal ever has outgoing edges. */
  lemma ExtraPrincipalsSilent(s: seq<StaffMember>, k: int)
    requires UniqueIds(s) && 1 <= k < |Principals(s)|
    ensures forall e :: e in ChartEdges(s) ==> e.source != Principals(s)[k].id
  {
    var P, V, H, M := Principals(s), VicePrincipals(s), Heads(s), Members(s);
    assert P[k] in P;
    OfRankUnique(s, PRINCIPAL);
    OtherRank(s, VICE_PRINCIPAL, PRINCIPAL, P[k]);
    OtherRank(s, DEPARTMENT_HEAD, PRINCIPAL, P[k]);
    MemberEdgesShape(H, M);
    forall e | e in ChartEdges(s) ensures e.source != P[k].id {
      if e in VpEdges(P, V) {
        assert e.source == P[0].id;
      } else if e in HeadEdges(V, H) {
        var q :| 0 <= q < |H| && HeadEdges(V, H)[q] == e;
        assert V[VpIndex(q, |H|, |V|)] in V;
      } else {
        assert e in MemberEdges(H, M);
        var y :| y in H && y.id == e.source;
      }
    }
  }

  /** Every edge id is "e-" + source + "-" + target; exactly the vice-principal and head
      edges (which come first) are animated. */
  lemma EdgeLabels(s: seq<StaffMember>)
    ensures var E := ChartEdges(s);
      var top := |VpEdges(Principals(s), VicePrincipals(s))| + |HeadEdges(VicePrincipals(s), Heads(s))|;
      forall k :: 0 <= k < |E| ==>
        E[k].id == "e-" + E[k].source + "-" + E[k].target && (E[k].animated <==> k < top)
  {
    var P, V, H, M := Principals(s), VicePrincipals(s), Heads(s), Members(s);
    var E := ChartEdges(s);
    var top := |VpEdges(P, V)| + |HeadEdges(V, H)|;
    MemberEdgesShape(H, M);
    forall k | 0 <= k < |E|
      ensures E[k].id == "e-" + E[k].source + "-" + E[k].target && (E[k].animated <==> k < top)
    {
      if k >= top {
        assert E[k] == MemberEdges(H, M)[k - top];
        assert E[k] in MemberEdges(H, M);
      } else if k >= |VpEdges(P, V)| {
        assert E[k] == HeadEdges(V, H)[k - |VpEdges(P, V)|];
      }
    }
  }

  // ---------------------------------------------------------------------------
  // The vice-principal index
  // ---------------------------------------------------------------------------

  /** `Math.floor(i / (m / v || 1))` evaluated in exact real arithmetic. */
  function JsVpIndex(i: int, m: int, v: int): (r: int)
    requires v != 0
    ensures var d := if (m as real) / (v as real) == 0.0 then 1.0 else (m as real) / (v as real);
      r as real <= (i as real) / d < (r + 1) as real
  {
    var ratio := (m as real) / (v as real);
    var divisor := if ratio == 0.0 then 1.0 else ratio;
    ((i as real) / divisor).Floor
  }

  /** For every head index the source can reach (m >= 1 heads, v >= 1 vice-principals), the
      JavaScript expression and the integer i*v/m agree, so VpIndex is that expression. */
  lemma VpIndexIsJsFloor(i: int, m: int, v: int)
    requires 0 <= i < m && 0 < v
    ensures JsVpIndex(i, m, v) == VpIndex(i, m, v)
  {
    var M, V := m as real, v as real;
    var ratio := M / V;
    assert ratio > 0.0;
    var divisor := if ratio == 0.0 then 1.0 else ratio;
    assert divisor == ratio;
    DivDiv(i as real, M, V);
    CastMul(i, v);
    assert (i as real) / divisor == ((i * v) as real) / M;
    FloorQuot(i * v, m);
    assert JsVpIndex(i, m, v) == (((i * v) as real) / M).Floor;
  }

  lemma DivDiv(a: real, m: real, v: real)
    requires m > 0.0 && v > 0.0
    ensures a / (m / v) == (a * v) / m
  {
    var d := m / v;
    assert d * v == m;
    var x := a / d;
    assert x * d == a;
    assert x * m == x * d * v;
    assert x * m == a * v;
    var y := (a * v) / m;
    assert y * m == a * v;
    CancelEq(x, y, m);
  }

  lemma CancelEq(x: real, y: real, m: real)
    requires m > 0.0 && x * m == y * m
    ensures x == y
  {
    assert (x - y) * m == 0.0;
  }

  lemma CastMul(i: int, v: int)
    ensures (i * v) as real == (i as real) * (v as real)
  {
  }

  lemma CancelLe(a: real, b: real, c: real)
    requires c > 0.0 && a * c <= b * c
    ensures a <= b
  {
  }

  lemma CancelLt(a: real, b: real, c: real)
    requires c > 0.0 && a * c < b * c
    ensures a < b
  {
  }

  lemma FloorBetween(x: real, q: int)
    requires q as real <= x < q as real + 1.0
    ensures x.Floor == q
  {
  }

  lemma SplitQuotient(n: int, m: int)
    requires n >= 0 && m > 0
    ensures (n as real) == ((n / m) as real) * (m as real) + ((n % m) as real)
  {
    CastMul(n / m, m);
  }

  lemma QuotientBounds(x: real, q: real, m: real, r: real)
    requires m > 0.0 && 0.0 <= r < m && x * m == q * m + r
    ensures q <= x < q + 1.0
  {
    var q1 := q + 1.0;
    assert q1 * m == q * m + m;
    CancelLe(q, x, m);
    CancelLt(x, q1, m);
  }

  /** The floor of an exact real quotient is Dafny's integer division. */
  lemma FloorQuot(n: int, m: int)
    requires n >= 0 && m > 0
    ensures ((n as real) / (m as real)).Floor == n / m
  {
    var x := (n as real) / (m as real);
    SplitQuotient(n, m);
    assert x * (m as real) == n as real;
    QuotientBounds(x, (n / m) as real, m as real, (n % m) as real);
    FloorBetween(x, n / m);
  }

  /** Later heads never go to an earlier vice-principal. */
  lemma VpIndexMonotone(i1: int, i2: int, m: int, v: int)
    requires 0 <= i1 <= i2 < m && 0 < v
    ensures VpIndex(i1, m, v) <= VpIndex(i2, m, v)
  {
    assert i1 * v <= i2 * v by { MulMono(i1, i2, v); }
    DivMono(i1 * v, i2 * v, m);
  }

  lemma MulMono(a: int, b: int, c: int)
    requires a <= b && 0 <= c
    ensures a * c <= b * c
  {
  }

  lemma DivMono(a: int, b: int, m: int)
    requires a <= b && 0 < m
    ensures a / m <= b / m
  {
    var qa, qb := a / m, b / m;
    assert a == qa * m + a % m && b == qb * m + b % m;
    if qa > qb {
      MulMono(qb + 1, qa, m);
    }
  }

  lemma MulCancelLt(a: int, b: int, c: int)
    requires a * c < b * c && 0 < c
    ensures a < b
  {
    if a >= b {
      MulMono(b, a, c);
    }
  }

  /** With at least as many heads as vice-principals, every vice-principal gets a head:
      head ceil(q*m/v) goes to vice-principal q. */
  lemma VpIndexCovers(q: int, m: int, v: int)
    requires 0 <= q < v <= m
    ensures var i := (q * m + v - 1) / v; 0 <= i < m && VpIndex(i, m, v) == q
  {
    var i := (q * m + v - 1) / v;
    var rem := (q * m + v - 1) % v;
    assert q * m + v - 1 == i * v + rem;
    assert q * m <= i * v < q * m + v;
    assert (q + 1) * m == q * m + m;
    assert i * v < (q + 1) * m;
    assert q * m <= i * v;
    assert i < m by {
      MulMono(q, v - 1, m);
      assert (v - 1) * m == v * m - m;
      assert i * v < m * v;
      MulCancelLt(i, m, v);
    }
    DivExact(i * v, q, m);
  }

  lemma DivExact(n: int, q: int, m: int)
    requires 0 < m && q * m <= n < (q + 1) * m
    ensures n / m == q
  {
    var q', r := n / m, n % m;
    assert n == q' * m + r && 0 <= r < m;
    if q' > q {
      MulMono(q + 1, q', m);
    } else if q' < q {
      MulMono(q' + 1, q, m);
    }
  }
}
