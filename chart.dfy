/** The invariant of the chart list and the three ways the editor changes its
    parent graph: appending a new leaf card (`addNode`, `addSelectedToOrg`,
    a pool drop), removing a closed set of cards (`deleteNode`) and pointing
    one card at a new parent (the reparent `map` of `handleDrop`). */
module Chart {
  import opened Util
  import opened Nodes
  import opened Closure

  /** Every parent a card names is a card of the chart. */
  predicate ParentsExist(nodes: seq<Node>)
  {
    forall n :: n in nodes && n.parentId.Some? ==> n.parentId.value in Ids(nodes)
  }

  /** The state the editor keeps: the president card is first (the card the
      chart is drawn from) and is the only card without a parent, the CEO
      card is present, ids are unique, parents exist, the parent graph has no
      cycle and only org cards have children. */
  predicate WellFormed(nodes: seq<Node>)
  {
    && |nodes| > 0
    && nodes[0].id == PresidentId && nodes[0].parentId.None? && nodes[0].kind.Org?
    && (forall n :: n in nodes && n.parentId.None? ==> n.id == PresidentId)
    && CeoId in Ids(nodes)
    && UniqueIds(nodes)
    && ParentsExist(nodes)
    && Acyclic(nodes)
    && PersonsAreLeaves(nodes)
  }

  lemma InitialWellFormed()
    ensures WellFormed(InitialNodes)
  {
    var g := InitialNodes;
    assert g[0].id == PresidentId && g[1].id == CeoId;
    assert Ids(g) == {PresidentId, CeoId};
    DescOfLeaf(g, CeoId);
    forall n | n in g && n.parentId.Some? ensures n.parentId.value !in Desc(g, {n.id}) {
      assert n == g[1];
    }
  }

  /** Every card hangs below the president: the recursive rendering that
      starts from the first card reaches every card of a well-formed chart. */
  lemma {:induction false} ReachesRoot(nodes: seq<Node>, n: Node)
    requires WellFormed(nodes) && n in nodes
    ensures n.id in Desc(nodes, {PresidentId})
    decreases Ids(nodes) - Desc(nodes, {n.id})
  {
    DescClosed(nodes, {PresidentId});
    if n.parentId.Some? {
      var p := n.parentId.value;
      var m :| m in nodes && m.id == p;
      ChildBelow(nodes, p, n);
      assert Desc(nodes, {m.id}) <= Ids(nodes) && Desc(nodes, {n.id}) <= Ids(nodes);
      ReachesRoot(nodes, m);
    }
  }

  /** A fresh card reaches at most itself beyond what was reached before. */
  lemma AppendDesc(nodes: seq<Node>, n: Node, s: set<string>)
    requires FreshId(nodes, n.id)
    ensures Desc(nodes + [n], s) <= Desc(nodes, s) + {n.id}
  {
    var t := Desc(nodes, s) + {n.id};
    DescClosed(nodes, s);
    forall m | m in nodes + [n] && ParentIn(m, t) ensures m.id in t {
      if m != n {
        assert m in nodes;
      }
    }
    DescLeast(nodes + [n], s, t);
  }

  /** Appending a card with a fresh id below an existing org card keeps the
      chart well formed. */
  lemma AppendWellFormed(nodes: seq<Node>, n: Node)
    requires WellFormed(nodes) && FreshId(nodes, n.id)
    requires n.parentId.Some? && IsOrgId(nodes, n.parentId.value)
    ensures WellFormed(nodes + [n])
  {
    var r := nodes + [n];
    var p := n.parentId.value;
    assert r[0] == nodes[0];
    assert Ids(r) == Ids(nodes) + {n.id};
    var f := Find(nodes, p).value;
    assert p in Ids(nodes);
    forall i, j | 0 <= i < j < |r| ensures r[i].id != r[j].id {
      if j == |nodes| {
        assert r[i] in nodes;
      } else {
        assert r[i] == nodes[i] && r[j] == nodes[j];
      }
    }
    forall m | m in r && m.parentId.Some? ensures m.parentId.value !in Desc(r, {m.id}) {
      AppendDesc(nodes, n, {m.id});
      if m == n {
        DescOfLeaf(nodes, n.id);
      } else {
        assert m in nodes && m.parentId.value in Ids(nodes);
      }
    }
    forall a, b | a in r && b in r && b.parentId == Some(a.id) ensures a.kind.Org? {
      if b == n {
        if a != n {
          FindUnique(nodes, a);
        }
      } else {
        assert b in nodes;
      }
    }
  }

  /** Two lists agree, index by index, on each card's id, parent and kind. */
  predicate SameShape(nodes: seq<Node>, r: seq<Node>)
  {
    |r| == |nodes| &&
    forall i :: 0 <= i < |r| ==>
      r[i].id == nodes[i].id && r[i].parentId == nodes[i].parentId && r[i].kind == nodes[i].kind
  }

  lemma SameShapeLinks(nodes: seq<Node>, r: seq<Node>)
    requires SameShape(nodes, r)
    ensures Links(r) == Links(nodes) && Ids(r) == Ids(nodes)
  {
    forall l | l in Links(nodes) ensures l in Links(r) {
      var i :| 0 <= i < |nodes| && Link(nodes[i]) == l;
      assert Link(r[i]) == l;
    }
    forall l | l in Links(r) ensures l in Links(nodes) {
      var i :| 0 <= i < |r| && Link(r[i]) == l;
      assert Link(nodes[i]) == l;
    }
    forall x | x in Ids(nodes) ensures x in Ids(r) {
      var i :| 0 <= i < |nodes| && nodes[i].id == x;
      assert r[i].id == x;
    }
    forall x | x in Ids(r) ensures x in Ids(nodes) {
      var i :| 0 <= i < |r| && r[i].id == x;
      assert nodes[i].id == x;
    }
  }

  lemma SameShapeCards(nodes: seq<Node>, r: seq<Node>)
    requires SameShape(nodes, r) && WellFormed(nodes)
    ensures UniqueIds(r) && PersonsAreLeaves(r)
    ensures forall m :: m in r ==> exists k :: k in nodes && Link(k) == Link(m)
  {
    forall a, b | a in r && b in r && b.parentId == Some(a.id) ensures a.kind.Org? {
      var i :| 0 <= i < |r| && r[i] == a;
      var j :| 0 <= j < |r| && r[j] == b;
      assert nodes[j].parentId == Some(nodes[i].id) && nodes[i] in nodes && nodes[j] in nodes;
    }
    forall m | m in r ensures exists k :: k in nodes && Link(k) == Link(m) {
      var i :| 0 <= i < |r| && r[i] == m;
      assert nodes[i] in nodes && Link(nodes[i]) == Link(m);
    }
  }

  /** Two lists of the same shape are well formed together: captions and
      levels play no part in the invariant. */
  lemma SameShapeWellFormed(nodes: seq<Node>, r: seq<Node>)
    requires SameShape(nodes, r) && WellFormed(nodes)
    ensures WellFormed(r)
  {
    SameShapeLinks(nodes, r);
    SameShapeCards(nodes, r);
    AcyclicByLinks(r, nodes);
    forall m | m in r && m.parentId.Some? ensures m.parentId.value in Ids(r) {
      var k :| k in nodes && Link(k) == Link(m);
    }
    forall m | m in r && m.parentId.None? ensures m.id == PresidentId {
      var k :| k in nodes && Link(k) == Link(m);
    }
  }

  /** `nodes` without the cards whose id is in `doomed`, in their order. */
  function Without(nodes: seq<Node>, doomed: set<string>): (r: seq<Node>)
    ensures SubSeq(r, nodes)
    ensures forall n :: n in r <==> n in nodes && n.id !in doomed
  {
    FilterIsSubSeq(nodes, (n: Node) => n.id !in doomed);
    Filter(nodes, (n: Node) => n.id !in doomed)
  }

  /** With unique ids the contract of `Without` fixes its result: a sub-list
      of the chart that keeps exactly the cards outside `doomed` is it. */
  lemma WithoutExact(nodes: seq<Node>, doomed: set<string>, r: seq<Node>)
    requires UniqueIds(nodes) && SubSeq(r, nodes)
    requires forall n :: n in r <==> n in nodes && n.id !in doomed
    ensures r == Without(nodes, doomed)
  {
    SubSeqDetermined(r, Without(nodes, doomed), nodes);
  }

  /** Removing a closed set of cards that holds neither root card keeps the
      chart well formed. */
  lemma WithoutWellFormed(nodes: seq<Node>, doomed: set<string>)
    requires WellFormed(nodes) && Closed(nodes, doomed)
    requires PresidentId !in doomed && CeoId !in doomed
    ensures WellFormed(Without(nodes, doomed))
  {
    var keep := (n: Node) => n.id !in doomed;
    var r := Without(nodes, doomed);
    FilterKeepsHead(nodes, keep);
    FilterKeepsUniqueIds(nodes, keep);
    var ceo :| ceo in nodes && ceo.id == CeoId;
    assert ceo in r;
    forall m | m in r && m.parentId.Some? ensures m.parentId.value in Ids(r) {
      var q :| q in nodes && q.id == m.parentId.value;
      assert q in r;
    }
    assert Links(r) <= Links(nodes);
    AcyclicByLinks(r, nodes);
  }

  /** The reparent `map`: every card with id `d` gets parent `t`. */
  function Reparent(nodes: seq<Node>, d: string, t: string): (r: seq<Node>)
    ensures |r| == |nodes|
    ensures forall i :: 0 <= i < |r| ==> r[i].(parentId := nodes[i].parentId) == nodes[i]
    ensures forall i :: 0 <= i < |r| && nodes[i].id != d ==> r[i] == nodes[i]
    ensures forall i :: 0 <= i < |r| && nodes[i].id == d ==> r[i].parentId == Some(t)
  {
    seq(|nodes|, i requires 0 <= i < |nodes| =>
      if nodes[i].id == d then nodes[i].(parentId := Some(t)) else nodes[i])
  }

  lemma ReparentMembers(nodes: seq<Node>, d: string, t: string)
    ensures forall m :: m in Reparent(nodes, d, t) && m.id != d ==> m in nodes
    ensures forall m :: m in Reparent(nodes, d, t) && m.id == d ==> m.parentId == Some(t)
    ensures Ids(Reparent(nodes, d, t)) == Ids(nodes)
  {
    var r := Reparent(nodes, d, t);
    forall x | x in Ids(nodes) ensures x in Ids(r) {
      var i :| 0 <= i < |nodes| && nodes[i].id == x;
      assert r[i].id == x;
    }
  }

  /** After the relink, a set reaches at most what it and `d` reached before. */
  lemma ReparentDescBound(nodes: seq<Node>, d: string, t: string, s: set<string>)
    ensures Desc(Reparent(nodes, d, t), s) <= Desc(nodes, s) + Desc(nodes, {d})
  {
    var r := Reparent(nodes, d, t);
    var u := Desc(nodes, s) + Desc(nodes, {d});
    ReparentMembers(nodes, d, t);
    DescClosed(nodes, s);
    DescClosed(nodes, {d});
    forall m | m in r && ParentIn(m, u) ensures m.id in u {
      if m.id != d {
        assert m in nodes;
      }
    }
    DescLeast(r, s, u);
  }

  /** When the new parent was not reachable from `s`, nothing new becomes so. */
  lemma ReparentDescAvoiding(nodes: seq<Node>, d: string, t: string, s: set<string>)
    requires t !in Desc(nodes, s)
    ensures Desc(Reparent(nodes, d, t), s) <= Desc(nodes, s)
  {
    var r := Reparent(nodes, d, t);
    var u := Desc(nodes, s);
    ReparentMembers(nodes, d, t);
    DescClosed(nodes, s);
    forall m | m in r && ParentIn(m, u) ensures m.id in u {
      if m.id != d {
        assert m in nodes;
      }
    }
    DescLeast(r, s, u);
  }

  /** Relinking `d` below a card `t` that `d` does not reach keeps the graph
      acyclic. */
  lemma ReparentAcyclic(nodes: seq<Node>, d: string, t: string)
    requires Acyclic(nodes) && t !in Desc(nodes, {d})
    ensures Acyclic(Reparent(nodes, d, t))
  {
    var r := Reparent(nodes, d, t);
    ReparentMembers(nodes, d, t);
    forall m | m in r && m.parentId.Some? ensures m.parentId.value !in Desc(r, {m.id}) {
      var q := m.parentId.value;
      if m.id == d {
        ReparentDescAvoiding(nodes, d, t, {d});
      } else if t in Desc(nodes, {m.id}) {
        assert m in nodes;
        ReparentDescBound(nodes, d, t, {m.id});
        if q in Desc(nodes, {d}) {
          DescClosed(nodes, {d});
          DescMonotone(nodes, {m.id}, Desc(nodes, {d}));
          DescLeast(nodes, Desc(nodes, {d}), Desc(nodes, {d}));
          assert false;
        }
      } else {
        ReparentDescAvoiding(nodes, d, t, {m.id});
      }
    }
  }

  /** Pointing a card other than the president at an org card it does not
      reach keeps the chart well formed. */
  lemma ReparentWellFormed(nodes: seq<Node>, d: string, t: string)
    requires WellFormed(nodes) && d != PresidentId
    requires IsOrgId(nodes, t) && t !in Desc(nodes, {d})
    ensures WellFormed(Reparent(nodes, d, t))
  {
    var r := Reparent(nodes, d, t);
    ReparentMembers(nodes, d, t);
    ReparentAcyclic(nodes, d, t);
    assert r[0] == nodes[0];
    forall i, j | 0 <= i < j < |r| ensures r[i].id != r[j].id {
      assert r[i].id == nodes[i].id && r[j].id == nodes[j].id;
    }
    forall m | m in r && m.parentId.Some? ensures m.parentId.value in Ids(r) {
      if m.id != d {
        assert m in nodes;
      }
    }
    forall a, b | a in r && b in r && b.parentId == Some(a.id) ensures a.kind.Org? {
      var i :| 0 <= i < |r| && r[i] == a;
      assert nodes[i].kind == a.kind && nodes[i].id == a.id;
      if b.id == d {
        FindUnique(nodes, nodes[i]);
      } else {
        assert b in nodes;
      }
    }
  }
}
