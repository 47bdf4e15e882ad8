/** The chart's records (`chartNodes` in src/App.jsx): organisational units
    and placed persons, each pointing at its parent by id, plus the level
    table the "add unit" menu reads its names from. */
module Nodes {
  import opened Util
  import opened Text
  import opened Roles

  datatype Layout = Standard | Side

  /** What an org card and a person chip carry beyond the common fields. */
  datatype Kind =
    | Org(isException: bool, layout: Layout)
    | Person(role: Option<Role>, originalPosition: string)

  /** A chart record; `caption` is the source's `label` field (`label` is a
      reserved word in Dafny). */
  datatype Node = Node(id: string, caption: string, level: int, parentId: Option<string>, kind: Kind)

  /** One entry of `DEFAULT_LEVELS`. */
  datatype Level = Level(id: nat, name: string, color: string)

  const DefaultLevels: seq<Level> := [
    Level(1, "부문", "#111827"),
    Level(2, "그룹", "#7C3AED"),
    Level(3, "팀", "#4B5563"),
    Level(4, "유닛", "#8B5CF6"),
    Level(5, "파트", "#EC4899")
  ]

  const PresidentId: string := "root-president"
  const CeoId: string := "root-ceo"

  /** `INITIAL_NODES`: the president card and the CEO card below it. */
  const InitialNodes: seq<Node> := [
    Node(PresidentId, "사장", 0, None, Org(false, Standard)),
    Node(CeoId, "대표이사", 1, Some(PresidentId), Org(false, Standard))
  ]

  /** `id.startsWith('root-')`: the ids of the two bootstrap cards. */
  predicate IsRootId(id: string)
  {
    StartsWith(id, "root-")
  }

  function Ids(nodes: seq<Node>): set<string>
  {
    set n | n in nodes :: n.id
  }

  predicate UniqueIds(nodes: seq<Node>)
  {
    forall i, j :: 0 <= i < j < |nodes| ==> nodes[i].id != nodes[j].id
  }

  /** `nodes.find(n => n.id === id)`: the first node with that id. */
  function Find(nodes: seq<Node>, id: string): (r: Option<Node>)
    ensures r.None? <==> id !in Ids(nodes)
    ensures r.Some? ==>
      exists i :: 0 <= i < |nodes| && nodes[i] == r.value && r.value.id == id
        && (forall j :: 0 <= j < i ==> nodes[j].id != id)
  {
    if |nodes| == 0 then None
    else if nodes[0].id == id then Some(nodes[0])
    else
      var r := Find(nodes[1..], id);
      assert forall j :: 1 <= j < |nodes| ==> nodes[j] == nodes[1..][j - 1];
      assert Ids(nodes) == {nodes[0].id} + Ids(nodes[1..]);
      r
  }

  /** With unique ids, `find` returns the one node that has the id. */
  lemma FindUnique(nodes: seq<Node>, n: Node)
    requires UniqueIds(nodes) && n in nodes
    ensures Find(nodes, n.id) == Some(n)
  {
    var k :| 0 <= k < |nodes| && nodes[k] == n;
    var r := Find(nodes, n.id);
    var i :| 0 <= i < |nodes| && nodes[i] == r.value && r.value.id == n.id
      && (forall j :: 0 <= j < i ==> nodes[j].id != n.id);
    assert i == k;
  }

  /** Appending a card does not change what an id already present finds. */
  lemma {:induction false} FindAppend(nodes: seq<Node>, x: Node, id: string)
    requires id in Ids(nodes)
    ensures Find(nodes + [x], id) == Find(nodes, id)
    decreases |nodes|
  {
    assert (nodes + [x])[0] == nodes[0];
    if nodes[0].id != id {
      assert (nodes + [x])[1..] == nodes[1..] + [x];
      assert id in Ids(nodes[1..]) by {
        var n :| n in nodes && n.id == id;
        assert n in nodes[1..] by {
          var i :| 0 <= i < |nodes| && nodes[i] == n;
          assert i > 0;
          assert nodes[1..][i - 1] == n;
        }
      }
      FindAppend(nodes[1..], x, id);
    }
  }

  /** The node `id` names is an org card. */
  predicate IsOrgId(nodes: seq<Node>, id: string)
  {
    var f := Find(nodes, id);
    f.Some? && f.value.kind.Org?
  }

  /** `n.parentId` is one of the ids in `s` (a `null` parent never is). */
  predicate ParentIn(n: Node, s: set<string>)
  {
    n.parentId.Some? && n.parentId.value in s
  }

  /** An id the caller may give to a new node: no node has it and no node
      names it as its parent. */
  predicate FreshId(nodes: seq<Node>, id: string)
  {
    id !in Ids(nodes) && forall n :: n in nodes ==> n.parentId != Some(id)
  }

  /** Person chips never have children. */
  predicate PersonsAreLeaves(nodes: seq<Node>)
  {
    forall n, m :: n in nodes && m in nodes && m.parentId == Some(n.id) ==> n.kind.Org?
  }

  /** The (id, parentId) pair of a node: all the parent graph depends on. */
  function Link(n: Node): (string, Option<string>)
  {
    (n.id, n.parentId)
  }

  function Links(nodes: seq<Node>): set<(string, Option<string>)>
  {
    set n | n in nodes :: Link(n)
  }

  /** Consing onto a list keeps ids unique exactly when the new id is new. */
  lemma UniqueIdsCons(x: Node, r: seq<Node>)
    ensures UniqueIds([x] + r) <==> x.id !in Ids(r) && UniqueIds(r)
  {
    var s := [x] + r;
    assert s[1..] == r && s[0] == x;
    if UniqueIds(s) {
      forall i, j | 0 <= i < j < |r| ensures r[i].id != r[j].id {
        assert s[i + 1] == r[i] && s[j + 1] == r[j];
      }
    }
    if x.id !in Ids(r) && UniqueIds(r) {
      forall i, j | 0 <= i < j < |s| ensures s[i].id != s[j].id {
        if i == 0 {
          assert s[0] == x;
          assert s[j] == r[j - 1];
          assert r[j - 1].id in Ids(r);
        } else {
          assert s[i] == r[i - 1] && s[j] == r[j - 1];
        }
      }
      assert UniqueIds(s);
    }
  }

  /** Filtering a list with unique ids keeps them unique. */
  lemma {:induction false} FilterKeepsUniqueIds(nodes: seq<Node>, keep: Node -> bool)
    requires UniqueIds(nodes)
    ensures UniqueIds(Filter(nodes, keep))
    decreases |nodes|
  {
    if |nodes| > 0 {
      UniqueIdsCons(nodes[0], nodes[1..]);
      assert [nodes[0]] + nodes[1..] == nodes;
      FilterKeepsUniqueIds(nodes[1..], keep);
      if keep(nodes[0]) {
        var r := Filter(nodes[1..], keep);
        assert forall n :: n in r ==> n in nodes[1..];
        UniqueIdsCons(nodes[0], r);
      }
    }
  }
}
