/** The parent graph of the chart: the set of ids reachable downwards from a
    seed set (what `deleteNode` collects), the acyclicity it relies on, and
    the recursive `isDescendant` check of `handleDrop`. */
module Closure {
  import opened Util
  import opened Nodes

  /** No node whose parent is in `s` is missing from `s`. */
  predicate Closed(nodes: seq<Node>, s: set<string>)
  {
    forall n :: n in nodes && ParentIn(n, s) ==> n.id in s
  }

  /** `s` with the ids of all nodes whose parent is in `s` added. */
  function Step(nodes: seq<Node>, s: set<string>): set<string>
  {
    s + set n | n in nodes && ParentIn(n, s) :: n.id
  }

  /** A step that changes the set adds the id of some node to it. */
  lemma StepShrinks(nodes: seq<Node>, s: set<string>)
    requires Step(nodes, s) != s
    ensures Ids(nodes) - Step(nodes, s) < Ids(nodes) - s
  {
    var next := Step(nodes, s);
    var x: string :| x in next && x !in s;
    var n :| n in nodes && ParentIn(n, s) && n.id == x;
    assert x in Ids(nodes);
  }

  /** The seeds together with every node whose chain of parents reaches a
      seed: the least closed superset of `s` (see `DescClosed`, `DescLeast`). */
  function Desc(nodes: seq<Node>, s: set<string>): (d: set<string>)
    ensures s <= d <= s + Ids(nodes)
    decreases Ids(nodes) - s
  {
    var next := Step(nodes, s);
    if next == s then s
    else
      StepShrinks(nodes, s);
      Desc(nodes, next)
  }

  lemma {:induction false} DescClosed(nodes: seq<Node>, s: set<string>)
    ensures Closed(nodes, Desc(nodes, s))
    decreases Ids(nodes) - s
  {
    var next := Step(nodes, s);
    if next != s {
      StepShrinks(nodes, s);
      DescClosed(nodes, next);
    }
  }

  lemma {:induction false} DescLeast(nodes: seq<Node>, s: set<string>, t: set<string>)
    requires s <= t && Closed(nodes, t)
    ensures Desc(nodes, s) <= t
    decreases Ids(nodes) - s
  {
    var next := Step(nodes, s);
    if next != s {
      StepShrinks(nodes, s);
      DescLeast(nodes, next, t);
    }
  }

  /** Every id the closure adds is the id of a node whose parent is in it. */
  lemma DescSupported(nodes: seq<Node>, s: set<string>, x: string)
    requires x in Desc(nodes, s) && x !in s
    ensures exists n :: n in nodes && n.id == x && ParentIn(n, Desc(nodes, s))
  {
    var d := Desc(nodes, s);
    var t := set y | y in d && (y in s || exists n :: n in nodes && n.id == y && ParentIn(n, d));
    DescClosed(nodes, s);
    forall n | n in nodes && ParentIn(n, t) ensures n.id in t {
      assert n.id in d;
    }
    DescLeast(nodes, s, t);
  }

  /** A closure grows with its seeds. */
  lemma DescMonotone(nodes: seq<Node>, s: set<string>, t: set<string>)
    requires s <= t
    ensures Desc(nodes, s) <= Desc(nodes, t)
  {
    DescClosed(nodes, t);
    DescLeast(nodes, s, Desc(nodes, t));
  }

  /** An id nobody names as parent reaches only itself. */
  lemma DescOfLeaf(nodes: seq<Node>, x: string)
    requires forall n :: n in nodes ==> n.parentId != Some(x)
    ensures Desc(nodes, {x}) == {x}
  {
    DescLeast(nodes, {x}, {x});
  }

  /** The closure depends on the nodes only through their (id, parent) pairs:
      a list whose links are among another's has the smaller closures. */
  lemma DescByLinks(a: seq<Node>, b: seq<Node>, s: set<string>)
    requires Links(a) <= Links(b)
    ensures Desc(a, s) <= Desc(b, s)
  {
    var d := Desc(b, s);
    DescClosed(b, s);
    forall n | n in a && ParentIn(n, d) ensures n.id in d {
      assert Link(n) in Links(b);
      var m :| m in b && Link(m) == Link(n);
      assert ParentIn(m, d);
    }
    DescLeast(a, s, d);
  }

  /** The parent graph has no cycle: no node's parent lies below the node. */
  predicate Acyclic(nodes: seq<Node>)
  {
    forall n :: n in nodes && n.parentId.Some? ==> n.parentId.value !in Desc(nodes, {n.id})
  }

  /** Acyclicity depends only on the links, and survives losing some. */
  lemma AcyclicByLinks(a: seq<Node>, b: seq<Node>)
    requires Links(a) <= Links(b) && Acyclic(b)
    ensures Acyclic(a)
  {
    forall n | n in a && n.parentId.Some? ensures n.parentId.value !in Desc(a, {n.id}) {
      assert Link(n) in Links(b);
      var m :| m in b && Link(m) == Link(n);
      DescByLinks(a, b, {n.id});
    }
  }

  /** `prev.filter(n => n.parentId === p)`. */
  function Children(nodes: seq<Node>, p: string): (kids: seq<Node>)
    ensures forall k :: k in kids <==> k in nodes && k.parentId == Some(p)
  {
    Filter(nodes, (n: Node) => n.parentId == Some(p))
  }

  /** Below an acyclic graph, a child lies below its parent, does not reach
      it, and reaches strictly less than it. */
  lemma ChildrenShrink(nodes: seq<Node>, p: string)
    requires Acyclic(nodes)
    ensures forall k :: k in Children(nodes, p) ==>
      k.id in Desc(nodes, {p}) && p !in Desc(nodes, {k.id}) && Desc(nodes, {k.id}) < Desc(nodes, {p})
  {
    forall k | k in Children(nodes, p)
      ensures k.id in Desc(nodes, {p}) && p !in Desc(nodes, {k.id}) && Desc(nodes, {k.id}) < Desc(nodes, {p})
    {
      ChildBelow(nodes, p, k);
    }
  }

  lemma ChildBelow(nodes: seq<Node>, p: string, k: Node)
    requires Acyclic(nodes) && k in nodes && k.parentId == Some(p)
    ensures k.id in Desc(nodes, {p})
    ensures Desc(nodes, {k.id}) < Desc(nodes, {p})
  {
    DescClosed(nodes, {p});
    DescLeast(nodes, {k.id}, Desc(nodes, {p}));
  }

  /** `isDescendant(p, c)`: some child of `p` is `c`, or some child of `p`
      has `c` below it. It terminates because the graph is acyclic, and what
      it finds lies strictly below `p`. */
  function IsDescendant(nodes: seq<Node>, p: string, c: string): (b: bool)
    requires Acyclic(nodes)
    ensures b ==> c in Desc(nodes, {p}) && c != p
    decreases Desc(nodes, {p})
  {
    var kids := Children(nodes, p);
    ChildrenShrink(nodes, p);
    (exists k | k in kids :: k.id == c)
    || (exists k | k in kids :: IsDescendant(nodes, k.id, c))
  }

  /** The recursive check agrees with the closure: `c` is a descendant of `p`
      exactly when `c` is reachable below `p` and is not `p` itself. */
  lemma IsDescendantIff(nodes: seq<Node>, p: string, c: string)
    requires Acyclic(nodes)
    ensures IsDescendant(nodes, p, c) <==> c in Desc(nodes, {p}) && c != p
  {
    if c in Desc(nodes, {p}) && c != p {
      IsDescendantComplete(nodes, p, c);
    }
  }

  /** What lies strictly below `p` lies below one of its children. */
  lemma DescSplit(nodes: seq<Node>, p: string, c: string)
    requires c in Desc(nodes, {p}) && c != p
    ensures exists k :: k in Children(nodes, p) && c in Desc(nodes, {k.id})
  {
    var kids := Children(nodes, p);
    var u := {p} + set k, x | k in kids && x in Desc(nodes, {k.id}) :: x;
    forall n | n in nodes && ParentIn(n, u) ensures n.id in u {
      if n.parentId.value == p {
        assert n in kids && n.id in Desc(nodes, {n.id});
      } else {
        var k, x :| k in kids && x in Desc(nodes, {k.id}) && x == n.parentId.value;
        DescClosed(nodes, {k.id});
      }
    }
    DescLeast(nodes, {p}, u);
  }

  lemma {:induction false} IsDescendantComplete(nodes: seq<Node>, p: string, c: string)
    requires Acyclic(nodes) && c in Desc(nodes, {p}) && c != p
    ensures IsDescendant(nodes, p, c)
    decreases Desc(nodes, {p})
  {
    var kids := Children(nodes, p);
    ChildrenShrink(nodes, p);
    DescSplit(nodes, p, c);
    var k :| k in kids && c in Desc(nodes, {k.id});
    if k.id != c {
      IsDescendantComplete(nodes, k.id, c);
    }
  }

  lemma ClosedByIndex(nodes: seq<Node>, s: set<string>)
    requires forall j :: 0 <= j < |nodes| && ParentIn(nodes[j], s) ==> nodes[j].id in s
    ensures Closed(nodes, s)
  {
    forall n | n in nodes && ParentIn(n, s) ensures n.id in s {
      var j :| 0 <= j < |nodes| && nodes[j] == n;
    }
  }

  /** One pass of the `forEach` in `deleteNode`: every node whose parent is
      already collected is added, seeing the additions made earlier in the
      same pass. A pass that adds nothing proves the set closed; a pass never
      leaves a closed set that contains its start. */
  method Sweep(nodes: seq<Node>, s: set<string>, ghost bound: set<string>) returns (t: set<string>)
    requires s <= bound && Closed(nodes, bound)
    ensures s <= t <= bound
    ensures t == s || |t| > |s|
    ensures t == s ==> Closed(nodes, s)
  {
    t := s;
    for i := 0 to |nodes|
      invariant s <= t <= bound
      invariant t == s || |t| > |s|
      invariant t == s ==>
        forall j :: 0 <= j < i && ParentIn(nodes[j], t) ==> nodes[j].id in t
    {
      var n := nodes[i];
      if n.parentId.Some? && n.parentId.value in t && n.id !in t {
        t := t + {n.id};
      }
    }
    if t == s {
      ClosedByIndex(nodes, t);
    }
  }

  /** The collection loop of `deleteNode`: starting from `{id}`, sweep the
      list until a sweep no longer changes the size of the set. What it
      collects is exactly the card and everything below it. */
  method CollectDoomed(nodes: seq<Node>, id: string) returns (toDelete: set<string>)
    ensures toDelete == Desc(nodes, {id})
  {
    ghost var d := Desc(nodes, {id});
    DescClosed(nodes, {id});
    toDelete := {id};
    var size := 0;
    while size != |toDelete|
      invariant {id} <= toDelete <= d
      invariant size <= |toDelete|
      invariant size == |toDelete| ==> Closed(nodes, toDelete)
      decreases d - toDelete, |toDelete| - size
    {
      size := |toDelete|;
      ghost var before := toDelete;
      toDelete := Sweep(nodes, toDelete, d);
      if toDelete != before {
        var x: string :| x in toDelete && x !in before;
        assert x in d - before && x !in d - toDelete;
      }
    }
    DescLeast(nodes, {id}, toDelete);
  }
}
