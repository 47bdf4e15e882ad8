/** The editing operations of src/App.jsx as whole-list replacements of the
    chart: `addNode`, `addSelectedToOrg`, `deleteNode`, `updateLabel`,
    `handleDrop` and `totalStats`. Ids that the source draws from the clock
    and `Math.random` are parameters here. */
module Edits {
  import opened Util
  import opened Roles
  import opened Pool
  import opened Nodes
  import opened Closure
  import opened Chart

  // ---------------------------------------------------------------- addNode

  /** The card `addNode` appends. An exception unit is level -1 and named
      "예외 조직"; a unit picked from the level menu takes that level's
      position plus one and its name; otherwise it sits one level below its
      parent (level 1 when the parent is not found) and is named "신규 조직". */
  function NewOrg(nodes: seq<Node>, parentId: string, isException: bool, layout: Layout,
                  levelIdx: Option<nat>, levels: seq<Level>, newId: string): (n: Node)
    requires levelIdx.Some? ==> levelIdx.value < |levels|
    ensures n.id == newId && n.parentId == Some(parentId) && n.kind == Org(isException, layout)
    ensures isException ==> n.level == -1 && n.caption == "예외 조직"
    ensures !isException && levelIdx.Some? ==>
      n.level == levelIdx.value + 1 && n.caption == levels[levelIdx.value].name
    ensures !isException && levelIdx.None? ==> n.caption == "신규 조직"
    ensures !isException && levelIdx.None? && Find(nodes, parentId).Some? ==>
      n.level == Find(nodes, parentId).value.level + 1
    ensures !isException && levelIdx.None? && parentId !in Ids(nodes) ==> n.level == 1
  {
    var parent := Find(nodes, parentId);
    var caption :=
      if isException then "예외 조직"
      else if levelIdx.Some? then levels[levelIdx.value].name
      else "신규 조직";
    var level :=
      if isException then -1
      else if levelIdx.Some? then levelIdx.value + 1
      else if parent.Some? then parent.value.level + 1
      else 1;
    Node(newId, caption, level, Some(parentId), Org(isException, layout))
  }

  /** `addNode` appends the new card and changes nothing else. */
  function AddNode(nodes: seq<Node>, parentId: string, isException: bool, layout: Layout,
                   levelIdx: Option<nat>, levels: seq<Level>, newId: string): (r: seq<Node>)
    requires levelIdx.Some? ==> levelIdx.value < |levels|
    ensures |r| == |nodes| + 1 && r[..|nodes|] == nodes
    ensures r[|nodes|].id == newId && r[|nodes|].parentId == Some(parentId)
    ensures r[|nodes|] == NewOrg(nodes, parentId, isException, layout, levelIdx, levels, newId)
  {
    nodes + [NewOrg(nodes, parentId, isException, layout, levelIdx, levels, newId)]
  }

  /** Adding a unit below an org card with a fresh id keeps the chart well
      formed. */
  lemma AddNodeWellFormed(nodes: seq<Node>, parentId: string, isException: bool, layout: Layout,
                          levelIdx: Option<nat>, levels: seq<Level>, newId: string)
    requires levelIdx.Some? ==> levelIdx.value < |levels|
    requires WellFormed(nodes) && FreshId(nodes, newId) && IsOrgId(nodes, parentId)
    ensures WellFormed(AddNode(nodes, parentId, isException, layout, levelIdx, levels, newId))
  {
    AppendWellFormed(nodes, NewOrg(nodes, parentId, isException, layout, levelIdx, levels, newId));
  }

  // ------------------------------------------------------- addSelectedToOrg

  /** The person card made for an employee: the badge is the first leader
      role whose label occurs in the position. */
  function PersonNode(e: Employee, parentId: string, id: string): (n: Node)
    ensures n.id == id && n.caption == e.name && n.level == -1 && n.parentId == Some(parentId)
    ensures n.kind.Person? && n.kind.originalPosition == e.position
    ensures n.kind.role == Classify(e.position)
    ensures n.kind.role.None? <==> forall q :: !Text.Contains(e.position, Label(q))
  {
    ClassifyNone(e.position);
    Node(id, e.name, -1, Some(parentId), Person(Classify(e.position), e.position))
  }

  /** One person card per employee, in the employees' order. */
  function PersonNodes(emps: seq<Employee>, parentId: string, ids: seq<string>): (r: seq<Node>)
    requires |ids| == |emps|
    ensures |r| == |emps|
    ensures forall i :: 0 <= i < |r| ==> r[i] == PersonNode(emps[i], parentId, ids[i])
    decreases |emps|
  {
    if |emps| == 0 then []
    else [PersonNode(emps[0], parentId, ids[0])] + PersonNodes(emps[1..], parentId, ids[1..])
  }

  /** `n` is a person card for `e` placed below `parentId`. */
  predicate PlacedAs(n: Node, e: Employee, parentId: string)
  {
    n.caption == e.name && n.kind.Person? && n.kind.originalPosition == e.position
    && n.parentId == Some(parentId) && n.level == -1
  }

  /** `addSelectedToOrg(p)`: the selected pool employees, in pool order, are
      appended as person cards below `p` (which the source does not check). */
  function AddSelected(nodes: seq<Node>, pool: seq<Employee>, selected: set<string>,
                       parentId: string, ids: seq<string>): (r: seq<Node>)
    requires |ids| == |SelectedEmployees(pool, selected)|
    ensures |r| == |nodes| + |SelectedEmployees(pool, selected)| && r[..|nodes|] == nodes
    ensures r[|nodes|..] == PersonNodes(SelectedEmployees(pool, selected), parentId, ids)
    ensures forall e :: e in pool && e.id in selected ==>
      exists i :: |nodes| <= i < |r| && PlacedAs(r[i], e, parentId)
  {
    var emps := SelectedEmployees(pool, selected);
    var r := nodes + PersonNodes(emps, parentId, ids);
    forall e | e in pool && e.id in selected
      ensures exists i :: |nodes| <= i < |r| && PlacedAs(r[i], e, parentId)
    {
      var k :| 0 <= k < |emps| && emps[k] == e;
      assert r[|nodes| + k] == PersonNode(e, parentId, ids[k]);
    }
    r
  }

  /** The ids handed to a batch insert: pairwise distinct and fresh. */
  predicate FreshIds(nodes: seq<Node>, ids: seq<string>)
  {
    && (forall i, j :: 0 <= i < j < |ids| ==> ids[i] != ids[j])
    && (forall i :: 0 <= i < |ids| ==> FreshId(nodes, ids[i]))
  }

  /** Cards appended below one org card with distinct fresh ids keep the
      chart well formed, one card at a time. */
  lemma {:induction false} AppendAllWellFormed(nodes: seq<Node>, cards: seq<Node>,
                                               parentId: string, ids: seq<string>)
    requires |ids| == |cards| && WellFormed(nodes) && IsOrgId(nodes, parentId)
    requires forall i :: 0 <= i < |cards| ==> cards[i].id == ids[i] && cards[i].parentId == Some(parentId)
    requires FreshIds(nodes, ids)
    ensures WellFormed(nodes + cards)
    decreases |cards|
  {
    if |cards| == 0 {
      assert nodes + [] == nodes;
    } else {
      AppendHead(nodes, cards);
      AppendFirst(nodes, cards, parentId, ids);
      AppendAllWellFormed(nodes + [cards[0]], cards[1..], parentId, ids[1..]);
    }
  }

  /** The first card of a batch: once it is appended, the rest of the batch
      still meets the conditions of `AppendAllWellFormed`. */
  lemma AppendFirst(nodes: seq<Node>, cards: seq<Node>, parentId: string, ids: seq<string>)
    requires |ids| == |cards| > 0 && WellFormed(nodes) && IsOrgId(nodes, parentId)
    requires forall i :: 0 <= i < |cards| ==> cards[i].id == ids[i] && cards[i].parentId == Some(parentId)
    requires FreshIds(nodes, ids)
    ensures WellFormed(nodes + [cards[0]]) && IsOrgId(nodes + [cards[0]], parentId)
    ensures FreshIds(nodes + [cards[0]], ids[1..])
  {
    var n := cards[0];
    AppendWellFormed(nodes, n);
    FindAppend(nodes, n, parentId);
    FreshIdsRest(nodes, n, ids);
  }

  lemma PersonNodesWellFormed(nodes: seq<Node>, emps: seq<Employee>, parentId: string, ids: seq<string>)
    requires |ids| == |emps| && WellFormed(nodes) && IsOrgId(nodes, parentId)
    requires FreshIds(nodes, ids)
    ensures WellFormed(nodes + PersonNodes(emps, parentId, ids))
  {
    AppendAllWellFormed(nodes, PersonNodes(emps, parentId, ids), parentId, ids);
  }

  /** Once the first id is used by a card below an existing parent, the
      remaining ids are still fresh. */
  lemma FreshIdsRest(nodes: seq<Node>, n: Node, ids: seq<string>)
    requires |ids| > 0 && FreshIds(nodes, ids) && n.id == ids[0]
    requires n.parentId.Some? && n.parentId.value in Ids(nodes)
    ensures FreshIds(nodes + [n], ids[1..])
  {
    forall i | 0 <= i < |ids[1..]| ensures FreshId(nodes + [n], ids[1..][i]) {
      assert ids[1..][i] == ids[i + 1];
      assert ids[i + 1] != ids[0];
    }
  }

  /** A batch insert below an org card with distinct fresh ids keeps the
      chart well formed. */
  lemma AddSelectedWellFormed(nodes: seq<Node>, pool: seq<Employee>, selected: set<string>,
                              parentId: string, ids: seq<string>)
    requires |ids| == |SelectedEmployees(pool, selected)|
    requires WellFormed(nodes) && IsOrgId(nodes, parentId) && FreshIds(nodes, ids)
    ensures WellFormed(AddSelected(nodes, pool, selected, parentId, ids))
  {
    PersonNodesWellFormed(nodes, SelectedEmployees(pool, selected), parentId, ids);
  }

  // ------------------------------------------------------------- deleteNode

  /** `deleteNode` as the source writes it: a `root-` id is refused, any other
      id takes with it every card whose chain of parents reaches it. */
  function DeleteAsWritten(nodes: seq<Node>, id: string): (r: seq<Node>)
    ensures IsRootId(id) ==> r == nodes
    ensures !IsRootId(id) ==> forall n :: n in r <==> n in nodes && n.id !in Desc(nodes, {id})
    ensures SubSeq(r, nodes)
  {
    SubSeqRefl(nodes);
    if IsRootId(id) then nodes else Without(nodes, Desc(nodes, {id}))
  }

  /** Neither the card nor anything below it has a `root-` id. The source
      checks only the card itself, which `RootCeoLost` shows is not enough. */
  predicate SparesRoots(nodes: seq<Node>, id: string)
  {
    !IsRootId(id) && forall x :: x in Desc(nodes, {id}) ==> !IsRootId(x)
  }

  /** `deleteNode` with the guard extended to the whole closure: the delete
      is refused when the card or anything below it is a `root-` card. */
  function DeleteNode(nodes: seq<Node>, id: string): (r: seq<Node>)
    ensures !SparesRoots(nodes, id) ==> r == nodes
    ensures SparesRoots(nodes, id) ==> forall n :: n in r <==> n in nodes && n.id !in Desc(nodes, {id})
    ensures SubSeq(r, nodes)
    ensures forall n :: n in nodes && IsRootId(n.id) ==> n in r
  {
    SubSeqRefl(nodes);
    if SparesRoots(nodes, id) then Without(nodes, Desc(nodes, {id})) else nodes
  }

  lemma RootIds()
    ensures IsRootId(PresidentId) && IsRootId(CeoId)
  {
    assert PresidentId[..5] == "root-";
    assert CeoId[..5] == "root-";
  }

  /** Deleting keeps the chart well formed. */
  lemma DeleteNodeWellFormed(nodes: seq<Node>, id: string)
    requires WellFormed(nodes)
    ensures WellFormed(DeleteNode(nodes, id))
  {
    if SparesRoots(nodes, id) {
      RootIds();
      DescClosed(nodes, {id});
      WithoutWellFormed(nodes, Desc(nodes, {id}));
    }
  }

  /** What the delete removes is exactly the card and its descendants in the
      sense of the recursive `isDescendant` check. */
  lemma DeleteNodeRemovesDescendants(nodes: seq<Node>, id: string, n: Node)
    requires Acyclic(nodes) && SparesRoots(nodes, id) && n in nodes
    ensures n !in DeleteNode(nodes, id) <==> n.id == id || IsDescendant(nodes, id, n.id)
  {
    IsDescendantIff(nodes, id, n.id);
    assert id in Desc(nodes, {id});
  }

  // ------------------------------------------------------------ updateLabel

  /** `updateLabel`: the card with the id gets the new caption; every other
      field of every card stays. */
  function UpdateLabel(nodes: seq<Node>, id: string, caption: string): (r: seq<Node>)
    ensures |r| == |nodes|
    ensures forall i :: 0 <= i < |r| ==> r[i].(caption := nodes[i].caption) == nodes[i]
    ensures forall i :: 0 <= i < |r| ==>
      r[i].caption == (if nodes[i].id == id then caption else nodes[i].caption)
  {
    seq(|nodes|, i requires 0 <= i < |nodes| =>
      if nodes[i].id == id then nodes[i].(caption := caption) else nodes[i])
  }

  /** Renaming twice is renaming once with the last caption. */
  lemma UpdateLabelLastWins(nodes: seq<Node>, id: string, a: string, b: string)
    ensures UpdateLabel(UpdateLabel(nodes, id, a), id, b) == UpdateLabel(nodes, id, b)
  {
  }

  /** Renaming keeps the chart well formed. */
  lemma UpdateLabelWellFormed(nodes: seq<Node>, id: string, caption: string)
    requires WellFormed(nodes)
    ensures WellFormed(UpdateLabel(nodes, id, caption))
  {
    SameShapeWellFormed(nodes, UpdateLabel(nodes, id, caption));
  }

  // ------------------------------------------------------------- handleDrop

  /** The `nodeType` a chart card carries while dragged. */
  datatype DragTag = OrgCard | PersonCard

  /** What is being dropped: an employee from the pool, or a chart card. */
  datatype Payload = PoolEmployee(emp: Employee) | ChartCard(tag: DragTag, draggedId: string)

  /** `handleDrop(e, target)`. A drop onto anything but an org card does
      nothing; a pool employee becomes a person card below the target; a
      chart card is moved below the target unless it is the target itself or
      an org card the target lies below. */
  function Drop(nodes: seq<Node>, payload: Payload, target: string, newId: string): (r: seq<Node>)
    requires Acyclic(nodes)
    ensures |nodes| <= |r| <= |nodes| + 1 && (|r| == |nodes| + 1 <==> IsOrgId(nodes, target) && payload.PoolEmployee?)
    ensures forall i :: 0 <= i < |nodes| ==> r[i].(parentId := nodes[i].parentId) == nodes[i]
    ensures IsOrgId(nodes, target) && payload.PoolEmployee? ==>
      r == nodes + [PersonNode(payload.emp, target, newId)]
  {
    if !IsOrgId(nodes, target) then nodes
    else match payload
      case PoolEmployee(e) => nodes + [PersonNode(e, target, newId)]
      case ChartCard(tag, d) =>
        if d == target then nodes
        else if tag == OrgCard && IsDescendant(nodes, d, target) then nodes
        else Reparent(nodes, d, target)
  }

  /** The cases in which a drop leaves the chart as it is. */
  lemma DropNoOps(nodes: seq<Node>, payload: Payload, target: string, newId: string)
    requires Acyclic(nodes)
    ensures !IsOrgId(nodes, target) ==> Drop(nodes, payload, target, newId) == nodes
    ensures payload.ChartCard? && payload.draggedId == target ==> Drop(nodes, payload, target, newId) == nodes
    ensures payload.ChartCard? && payload.tag == OrgCard && target in Desc(nodes, {payload.draggedId})
      ==> Drop(nodes, payload, target, newId) == nodes
  {
    if payload.ChartCard? {
      IsDescendantIff(nodes, payload.draggedId, target);
    }
  }

  /** A drop that moves a card changes only that card's parent, to the
      target. */
  lemma DropMoves(nodes: seq<Node>, tag: DragTag, d: string, target: string, newId: string)
    requires Acyclic(nodes) && IsOrgId(nodes, target) && d != target
    requires tag == OrgCard ==> target !in Desc(nodes, {d})
    ensures Drop(nodes, ChartCard(tag, d), target, newId) == Reparent(nodes, d, target)
  {
    IsDescendantIff(nodes, d, target);
  }

  /** What the caller of a drop guarantees: the president card is never
      dragged, a card tagged as a person is not an org card, and a pool
      drop gets a fresh id. */
  predicate DropAllowed(nodes: seq<Node>, payload: Payload, newId: string)
  {
    match payload
    case PoolEmployee(_) => FreshId(nodes, newId)
    case ChartCard(tag, d) => d != PresidentId && (tag == PersonCard ==> !IsOrgId(nodes, d))
  }

  /** Every drop the interface can perform keeps the chart well formed; in
      particular the parent graph stays acyclic. */
  lemma DropWellFormed(nodes: seq<Node>, payload: Payload, target: string, newId: string)
    requires WellFormed(nodes) && DropAllowed(nodes, payload, newId)
    ensures WellFormed(Drop(nodes, payload, target, newId))
  {
    if IsOrgId(nodes, target) {
      match payload
      case PoolEmployee(e) =>
        AppendWellFormed(nodes, PersonNode(e, target, newId));
      case ChartCard(tag, d) =>
        IsDescendantIff(nodes, d, target);
        if d != target && (tag == PersonCard || !IsDescendant(nodes, d, target)) {
          if tag == PersonCard {
            PersonLeaf(nodes, d);
          }
          ReparentWellFormed(nodes, d, target);
        }
    }
  }

  /** A card that is not an org card has nothing below it. */
  lemma PersonLeaf(nodes: seq<Node>, d: string)
    requires WellFormed(nodes) && !IsOrgId(nodes, d)
    ensures Desc(nodes, {d}) == {d}
  {
    forall n | n in nodes ensures n.parentId != Some(d) {
      if n.parentId == Some(d) {
        var m :| m in nodes && m.id == d;
        FindUnique(nodes, m);
      }
    }
    DescOfLeaf(nodes, d);
  }

  // ------------------------------------------------------------- totalStats

  /** The header counters. */
  datatype Stats = Stats(division: nat, group: nat, team: nat, person: nat)

  /** A card counted at `level`: not an exception unit (person cards have no
      exception flag and count when the level matches). */
  predicate AtLevel(n: Node, level: int)
  {
    n.level == level && !(n.kind.Org? && n.kind.isException)
  }

  predicate IsPerson(n: Node)
  {
    n.kind.Person?
  }

  /** `totalStats`: the division, group and team counters count the
      non-exception cards of levels 2, 3 and 4; the head count counts person
      cards. */
  function TotalStats(nodes: seq<Node>): Stats
  {
    Stats(|Filter(nodes, n => AtLevel(n, 2))|, |Filter(nodes, n => AtLevel(n, 3))|,
          |Filter(nodes, n => AtLevel(n, 4))|, |Filter(nodes, IsPerson)|)
  }

  /** What one card adds to the counters. */
  function StatsOf(n: Node): Stats
  {
    Stats(if AtLevel(n, 2) then 1 else 0, if AtLevel(n, 3) then 1 else 0,
          if AtLevel(n, 4) then 1 else 0, if IsPerson(n) then 1 else 0)
  }

  function Plus(a: Stats, b: Stats): Stats
  {
    Stats(a.division + b.division, a.group + b.group, a.team + b.team, a.person + b.person)
  }

  /** The counters are additive over the list. */
  lemma StatsAppend(a: seq<Node>, b: seq<Node>)
    ensures TotalStats(a + b) == Plus(TotalStats(a), TotalStats(b))
  {
    FilterAppend(a, b, n => AtLevel(n, 2));
    FilterAppend(a, b, n => AtLevel(n, 3));
    FilterAppend(a, b, n => AtLevel(n, 4));
    FilterAppend(a, b, IsPerson);
  }

  lemma StatsSingle(n: Node)
    ensures TotalStats([n]) == StatsOf(n)
  {
  }

  /** The initial chart shows zero on every counter. */
  lemma StatsInitial()
    ensures TotalStats(InitialNodes) == Stats(0, 0, 0, 0)
  {
    var g := InitialNodes;
    assert g[0].level == 0 && g[1].level == 1 && g[0].kind.Org? && g[1].kind.Org?;
    FilterNone(g, n => AtLevel(n, 2));
    FilterNone(g, n => AtLevel(n, 3));
    FilterNone(g, n => AtLevel(n, 4));
    FilterNone(g, IsPerson);
  }

  /** A unit added from entry `k` of the level menu (level `k + 1`) moves the
      division counter when `k` is 1, the group counter when `k` is 2 and the
      team counter when `k` is 3; entry 0 ("부문") and entries past 3 move no
      counter. */
  lemma StatsAddNodeFromMenu(nodes: seq<Node>, parentId: string, layout: Layout,
                             k: nat, levels: seq<Level>, newId: string)
    requires k < |levels|
    ensures var after := TotalStats(AddNode(nodes, parentId, false, layout, Some(k), levels, newId));
      var before := TotalStats(nodes);
      && after.division == before.division + (if k == 1 then 1 else 0)
      && after.group == before.group + (if k == 2 then 1 else 0)
      && after.team == before.team + (if k == 3 then 1 else 0)
      && after.person == before.person
  {
    var n := NewOrg(nodes, parentId, false, layout, Some(k), levels, newId);
    StatsAppend(nodes, [n]);
  }

  /** An exception unit moves no counter. */
  lemma StatsAddException(nodes: seq<Node>, parentId: string, layout: Layout,
                          levelIdx: Option<nat>, levels: seq<Level>, newId: string)
    requires levelIdx.Some? ==> levelIdx.value < |levels|
    ensures TotalStats(AddNode(nodes, parentId, true, layout, levelIdx, levels, newId)) == TotalStats(nodes)
  {
    StatsAppend(nodes, [NewOrg(nodes, parentId, true, layout, levelIdx, levels, newId)]);
  }

  /** A batch insert raises the head count by the number of selected pool
      employees and leaves the unit counters alone. */
  lemma StatsAddSelected(nodes: seq<Node>, pool: seq<Employee>, selected: set<string>,
                         parentId: string, ids: seq<string>)
    requires |ids| == |SelectedEmployees(pool, selected)|
    ensures var after := TotalStats(AddSelected(nodes, pool, selected, parentId, ids));
      var before := TotalStats(nodes);
      after == before.(person := before.person + |SelectedEmployees(pool, selected)|)
  {
    var emps := SelectedEmployees(pool, selected);
    var people := PersonNodes(emps, parentId, ids);
    StatsAppend(nodes, people);
    forall i | 0 <= i < |people| ensures !AtLevel(people[i], 2) && !AtLevel(people[i], 3)
      && !AtLevel(people[i], 4) && IsPerson(people[i]) {
    }
    FilterNone(people, n => AtLevel(n, 2));
    FilterNone(people, n => AtLevel(n, 3));
    FilterNone(people, n => AtLevel(n, 4));
    FilterAll(people, IsPerson);
  }

  // ---------------------------------------------------- the reported defect

  /** The deletion guard of the source is incomplete: adding a unit below the
      president, dropping the CEO card onto it and deleting that unit removes
      the CEO card, although both guards refuse to delete a `root-` card. */
  lemma RootCeoLost(newId: string)
    requires !IsRootId(newId)
    ensures var added := AddNode(InitialNodes, PresidentId, false, Standard, Some(0), DefaultLevels, newId);
      Acyclic(added)
      && var moved := Drop(added, ChartCard(OrgCard, CeoId), newId, "");
      CeoId in Ids(moved)
      && CeoId !in Ids(DeleteAsWritten(moved, newId))
      && CeoId in Ids(DeleteNode(moved, newId))
  {
    RootIds();
    RootCeoAdded(newId);
    var added := AddNode(InitialNodes, PresidentId, false, Standard, Some(0), DefaultLevels, newId);
    DescOfLeaf(added, CeoId);
    DropMoves(added, OrgCard, CeoId, newId, "");
    var moved := Drop(added, ChartCard(OrgCard, CeoId), newId, "");
    assert moved[1].id == CeoId && moved[1].parentId == Some(newId);
    DescClosed(moved, {newId});
    assert CeoId in Desc(moved, {newId});
    assert !SparesRoots(moved, newId);
  }

  /** The first step of `RootCeoLost`: a unit added below the president is
      an org card of a well-formed chart, and nothing hangs below the CEO. */
  lemma RootCeoAdded(newId: string)
    requires !IsRootId(newId)
    ensures var added := AddNode(InitialNodes, PresidentId, false, Standard, Some(0), DefaultLevels, newId);
      && WellFormed(added) && IsOrgId(added, newId) && added[1].id == CeoId
      && forall n :: n in added ==> n.parentId != Some(CeoId)
  {
    RootIds();
    InitialWellFormed();
    assert newId != PresidentId && newId != CeoId;
    assert FreshId(InitialNodes, newId) by {
      assert Ids(InitialNodes) == {PresidentId, CeoId};
    }
    FindUnique(InitialNodes, InitialNodes[0]);
    AddNodeWellFormed(InitialNodes, PresidentId, false, Standard, Some(0), DefaultLevels, newId);
    var added := AddNode(InitialNodes, PresidentId, false, Standard, Some(0), DefaultLevels, newId);
    assert added[2].id == newId && added[2].kind.Org?;
    FindUnique(added, added[2]);
  }
}
