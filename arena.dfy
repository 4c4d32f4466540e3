/** The tree's parent/child graph as an arena: node `i` sits at index `i` of a
    sequence and records its single parent, its children in insertion order,
    and the reference point it was inserted with. This stands in for the
    directed graph of the source, of which only the tree structure is used. */
module Arena {
  import opened Wrappers
  import opened Geometry

  /** One graph node: the edge to its parent (none for the root), the
      `indeces_children` list, and the `local_reference` attribute (the root
      is created without one). */
  datatype Node = Node(parent: Option<nat>, children: seq<nat>, localReference: Option<Vec>)

  /** Strictly increasing, hence free of repetitions. */
  ghost predicate Ascending(s: seq<nat>)
  {
    forall i, j :: 0 <= i < j < |s| ==> s[i] < s[j]
  }

  /** Node 0 is the only node without a parent, and the only one created
      without a reference point. */
  ghost predicate RootedAtZero(nodes: seq<Node>)
  {
    |nodes| > 0 &&
    (forall i :: 0 <= i < |nodes| ==> (nodes[i].parent.None? <==> i == 0)) &&
    (forall i :: 0 <= i < |nodes| ==> (nodes[i].localReference.None? <==> i == 0))
  }

  /** A child list names existing nodes whose parent is the list's owner. */
  ghost predicate ChildrenKnowParent(nodes: seq<Node>)
  {
    forall p: nat, c: nat {:trigger c in nodes[p].children} :: p < |nodes| && c in nodes[p].children ==> c < |nodes| && nodes[c].parent == Some(p)
  }

  /** Every parent was inserted before its child, and lists the child. */
  ghost predicate ParentsKnowChild(nodes: seq<Node>)
  {
    forall c :: 0 <= c < |nodes| && nodes[c].parent.Some? ==>
      nodes[c].parent.value < c && c in nodes[nodes[c].parent.value].children
  }

  /** Child lists are in insertion order. */
  ghost predicate ChildrenAscending(nodes: seq<Node>)
  {
    forall p :: 0 <= p < |nodes| ==> Ascending(nodes[p].children)
  }

  /** A single rooted tree over the indices `0 .. |nodes| - 1`. */
  ghost predicate WellFormed(nodes: seq<Node>)
  {
    RootedAtZero(nodes) && ChildrenKnowParent(nodes)
    && ParentsKnowChild(nodes) && ChildrenAscending(nodes)
  }

  /** The graph after `add_component` inserts node `|nodes|` under `parent`:
      the new node records its parent and reference point, and its index is
      appended to the parent's child list. */
  function AddChild(nodes: seq<Node>, parent: nat, reference: Vec): (r: seq<Node>)
    requires parent < |nodes|
    ensures |r| == |nodes| + 1
    ensures r[|nodes|] == Node(Some(parent), [], Some(reference))
    ensures r[parent] == nodes[parent].(children := nodes[parent].children + [|nodes|])
    ensures forall i :: 0 <= i < |nodes| && i != parent ==> r[i] == nodes[i]
  {
    var withNode := nodes + [Node(Some(parent), [], Some(reference))];
    withNode[parent := withNode[parent].(children := withNode[parent].children + [|nodes|])]
  }

  /** The graph steps of `add_component` as written: the new node is added
      first, and only then is `parent` looked up, so `parent` may also name
      the node just added. */
  function AddChildAsWritten(nodes: seq<Node>, parent: nat, reference: Vec): seq<Node>
    requires parent <= |nodes|
  {
    var withNode := nodes + [Node(None, [], Some(reference))];
    var linked := withNode[parent := withNode[parent].(children := withNode[parent].children + [|nodes|])];
    linked[|nodes| := linked[|nodes|].(parent := Some(parent))]
  }

  /** For a parent that existed before the call, the steps as written build
      exactly `AddChild`. */
  lemma AddChildAsWrittenAgrees(nodes: seq<Node>, parent: nat, reference: Vec)
    requires parent < |nodes|
    ensures AddChildAsWritten(nodes, parent, reference) == AddChild(nodes, parent, reference)
  {
    var n := |nodes|;
    var w := AddChildAsWritten(nodes, parent, reference);
    var r := AddChild(nodes, parent, reference);
    forall i | 0 <= i < |r| ensures w[i] == r[i] {
      if i < n && i != parent { assert w[i] == nodes[i]; }
    }
  }

  /** As written, a parent index equal to the current node count is accepted:
      the new node becomes its own parent and its own child, and the graph is
      no longer a tree rooted at node 0. */
  lemma SelfParentAccepted(nodes: seq<Node>, reference: Vec)
    requires WellFormed(nodes)
    ensures var r := AddChildAsWritten(nodes, |nodes|, reference);
            |r| == |nodes| + 1 &&
            r[|nodes|].parent == Some(|nodes|) && |nodes| in r[|nodes|].children &&
            !WellFormed(r)
  {
    var n := |nodes|;
    var r := AddChildAsWritten(nodes, n, reference);
    assert r[n].parent == Some(n);
    assert r[n].children == [n];
    assert !(r[n].parent.value < n);
  }

  /** Inserting a child under an existing node keeps the graph a single rooted tree. */
  lemma AddChildWellFormed(nodes: seq<Node>, parent: nat, reference: Vec)
    requires WellFormed(nodes) && parent < |nodes|
    ensures WellFormed(AddChild(nodes, parent, reference))
  {
    AddChildKeepsChildrenKnowParent(nodes, parent, reference);
    AddChildKeepsParentsKnowChild(nodes, parent, reference);
    AddChildKeepsChildrenAscending(nodes, parent, reference);
  }

  lemma AddChildKeepsChildrenKnowParent(nodes: seq<Node>, parent: nat, reference: Vec)
    requires WellFormed(nodes) && parent < |nodes|
    ensures ChildrenKnowParent(AddChild(nodes, parent, reference))
  {
    var n := |nodes|;
    var r := AddChild(nodes, parent, reference);
    forall p: nat, c: nat | p < |r| && c in r[p].children
      ensures c < |r| && r[c].parent == Some(p)
    {
      if p < n && !(p == parent && c == n) {
        assert c in nodes[p].children;
        if c != parent { assert r[c] == nodes[c]; }
      }
    }
  }

  lemma AddChildKeepsParentsKnowChild(nodes: seq<Node>, parent: nat, reference: Vec)
    requires WellFormed(nodes) && parent < |nodes|
    ensures ParentsKnowChild(AddChild(nodes, parent, reference))
  {
    var n := |nodes|;
    var r := AddChild(nodes, parent, reference);
    forall c | 0 <= c < |r| && r[c].parent.Some?
      ensures r[c].parent.value < c && c in r[r[c].parent.value].children
    {
      if c < n {
        var q := nodes[c].parent.value;
        assert c in nodes[q].children;
        assert r[c].parent == nodes[c].parent;
        if q != parent { assert r[q] == nodes[q]; }
      } else {
        assert r[parent].children[|r[parent].children| - 1] == c;
      }
    }
  }

  lemma AddChildKeepsChildrenAscending(nodes: seq<Node>, parent: nat, reference: Vec)
    requires WellFormed(nodes) && parent < |nodes|
    ensures ChildrenAscending(AddChild(nodes, parent, reference))
  {
    var n := |nodes|;
    var r := AddChild(nodes, parent, reference);
    var ch := nodes[parent].children;
    forall k | 0 <= k < |ch| ensures ch[k] < n {
      assert ch[k] in nodes[parent].children;
    }
    assert Ascending(r[parent].children);
    forall p | 0 <= p < |r| ensures Ascending(r[p].children) {
      if p != parent && p != n { assert r[p] == nodes[p]; }
    }
  }

  /** The nodes met walking parent edges from `i` up to the root. */
  function PathToRoot(nodes: seq<Node>, i: nat): (path: seq<nat>)
    requires WellFormed(nodes) && i < |nodes|
    ensures |path| > 0 && path[0] == i && path[|path| - 1] == 0
    ensures forall k :: 0 <= k < |path| ==> path[k] < |nodes|
    ensures forall k :: 0 <= k < |path| - 1 ==> nodes[path[k]].parent == Some(path[k + 1])
    ensures forall k :: 0 <= k < |path| - 1 ==> path[k] > path[k + 1]
    decreases i
  {
    if i == 0 then [0]
    else [i] + PathToRoot(nodes, nodes[i].parent.value)
  }

  /** No node is its own ancestor: a walk up from `i` never comes back to `i`. */
  lemma NoCycle(nodes: seq<Node>, i: nat)
    requires WellFormed(nodes) && i < |nodes|
    ensures i !in PathToRoot(nodes, i)[1..]
  {
    var path := PathToRoot(nodes, i);
    StrictlyDecreasing(path);
  }

  lemma {:induction false} StrictlyDecreasing(path: seq<nat>)
    requires |path| > 0
    requires forall k :: 0 <= k < |path| - 1 ==> path[k] > path[k + 1]
    ensures forall k :: 1 <= k < |path| ==> path[k] < path[0]
  {
    if |path| > 1 {
      StrictlyDecreasing(path[1..]);
      forall k | 1 <= k < |path| ensures path[k] < path[0] {
        if k > 1 { assert path[k] == path[1..][k - 1]; }
      }
    }
  }

  /** A non-root node sits in exactly one child list: its parent's. */
  lemma UniqueParent(nodes: seq<Node>, c: nat, p: nat)
    requires WellFormed(nodes) && c < |nodes| && p < |nodes|
    ensures c in nodes[p].children <==> nodes[c].parent == Some(p)
  {
  }
}
