/**
 The collapsible context tree of the monitoring console: nodes point at their parents, a set of collapsed
 ids hides what lies below them, and three clicks change that set.
 */
module Topology {
  import opened Bytes

  // ---- The graph ----

  /** A parent as the feed gives it: missing, null, or a text (an empty text counts as none). */
  datatype Parent = Undefined | Null | Given(name: string) {
    function AsString(): string {
      match this
      case Undefined => "undefined"
      case Null => "null"
      case Given(name) => name
    }

    function AsText(): string {
      match this
      case Given(name) => name
      case _ => ""
    }
  }

  datatype RawNode = RawNode(id: string, parent: Parent)

  datatype Node = Node(id: string, parent: string)

  datatype Edge = Edge(parentId: string, childId: string)

  function Normalised(raw: RawNode): Node {
    Node(raw.id, raw.parent.AsText())
  }

  function Nodes(raw: seq<RawNode>): (nodes: seq<Node>)
    ensures |nodes| == |raw|
  {
    seq(|raw|, i requires 0 <= i < |raw| => Normalised(raw[i]))
  }

  type Index = map<string, Node>

  function NodeById(nodes: seq<Node>): Index {
    if nodes == [] then map[]
    else NodeById(nodes[..|nodes| - 1])[nodes[|nodes| - 1].id := nodes[|nodes| - 1]]
  }

  predicate HasExistingParent(n: Node, byId: Index) {
    n.parent != "" && n.parent in byId
  }

  function Edges(nodes: seq<Node>, byId: Index): seq<Edge> {
    if nodes == [] then []
    else
      var n := nodes[|nodes| - 1];
      Edges(nodes[..|nodes| - 1], byId) + if HasExistingParent(n, byId) then [Edge(n.parent, n.id)] else []
  }

  /** The edges are the links of nodes to the parents that exist. */
  lemma {:induction false} EdgesAreLinks(nodes: seq<Node>, byId: Index, e: Edge)
    ensures e in Edges(nodes, byId)
       <==> exists n <- nodes :: n.id == e.childId && n.parent == e.parentId && n.parent != "" && n.parent in byId
  {
    if nodes != [] {
      var front, last := nodes[..|nodes| - 1], nodes[|nodes| - 1];
      EdgesAreLinks(front, byId, e);
      assert nodes == front + [last];
    }
  }

  /** The edges come in the order of the nodes. */
  lemma {:induction false} EdgesJoin(a: seq<Node>, b: seq<Node>, byId: Index)
    ensures Edges(a + b, byId) == Edges(a, byId) + Edges(b, byId)
    ensures |b| == 1 ==>
      Edges(b, byId) == if b[0].parent != "" && b[0].parent in byId then [Edge(b[0].parent, b[0].id)] else []
  {
    if b == [] {
      assert a + b == a;
    } else {
      var front, last := b[..|b| - 1], b[|b| - 1];
      EdgesJoin(a, front, byId);
      assert (a + b)[..|a + b| - 1] == a + front;
    }
  }

  /** With distinct ids no node has two edges to its parent. */
  lemma {:induction false} OneEdgePerChild(nodes: seq<Node>, byId: Index, i: nat, j: nat)
    requires DistinctIds(nodes) && i < j < |Edges(nodes, byId)|
    ensures Edges(nodes, byId)[i].childId != Edges(nodes, byId)[j].childId
  {
    var front, last := nodes[..|nodes| - 1], nodes[|nodes| - 1];
    var edges := Edges(front, byId);
    assert nodes == front + [last];
    if j < |edges| {
      OneEdgePerChild(front, byId, i, j);
    } else {
      EdgesAreLinks(front, byId, edges[i]);
      var n :| n in front && n.id == edges[i].childId;
      assert n.id != last.id;
    }
  }

  predicate DistinctIds(nodes: seq<Node>) {
    forall i, j :: 0 <= i < j < |nodes| ==> nodes[i].id != nodes[j].id
  }

  lemma {:induction false} IndexHoldsNodes(nodes: seq<Node>)
    ensures forall id <- NodeById(nodes) :: NodeById(nodes)[id] in nodes && NodeById(nodes)[id].id == id
    ensures forall n <- nodes :: n.id in NodeById(nodes)
  {
    if nodes != [] {
      var front, last := nodes[..|nodes| - 1], nodes[|nodes| - 1];
      IndexHoldsNodes(front);
      assert nodes == front + [last];
      assert last in nodes;
      forall n <- nodes
        ensures n.id in NodeById(nodes)
      {
        if n in front {
          assert n.id in NodeById(front);
        }
      }
    }
  }

  /** Of nodes with one id the index keeps the last. */
  lemma {:induction false} IndexIsLast(nodes: seq<Node>, i: nat)
    requires i < |nodes| && forall j :: i < j < |nodes| ==> nodes[j].id != nodes[i].id
    ensures nodes[i].id in NodeById(nodes) && NodeById(nodes)[nodes[i].id] == nodes[i]
  {
    var n := |nodes| - 1;
    if i < n {
      IndexIsLast(nodes[..n], i);
    }
  }

  lemma IndexFindsNode(nodes: seq<Node>, n: Node)
    requires DistinctIds(nodes) && n in nodes
    ensures n.id in NodeById(nodes) && NodeById(nodes)[n.id] == n
  {
    IndexHoldsNodes(nodes);
    var i :| 0 <= i < |nodes| && nodes[i] == n;
    var j :| 0 <= j < |nodes| && nodes[j] == NodeById(nodes)[n.id];
    assert i == j;
  }

  // ---- Walking up ----

  function Up(byId: Index, id: string): string {
    if id != "" && id in byId then byId[id].parent else ""
  }

  /** The id reached from `id` after `k` steps up; empty once the walk has ended. */
  function Chain(byId: Index, id: string, k: nat): string {
    if k == 0 then id else Up(byId, Chain(byId, id, k - 1))
  }

  ghost predicate Acyclic(byId: Index) {
    forall id: string, k: nat :: k > 0 && Chain(byId, id, k) != "" ==> Chain(byId, id, k) != id
  }

  lemma {:induction false} ChainComposes(byId: Index, id: string, j: nat, k: nat)
    ensures Chain(byId, Chain(byId, id, j), k) == Chain(byId, id, j + k)
  {
    if k > 0 {
      ChainComposes(byId, id, j, k - 1);
      assert j + (k - 1) == (j + k) - 1;
    }
  }

  lemma {:induction false} EndedStaysEnded(byId: Index, id: string, j: nat, k: nat)
    requires j <= k && Chain(byId, id, j) == ""
    ensures Chain(byId, id, k) == ""
    decreases k
  {
    if j < k {
      EndedStaysEnded(byId, id, j, k - 1);
    }
  }

  lemma {:induction false} Laps(byId: Index, id: string, k: nat, laps: nat)
    requires Chain(byId, id, k) == id
    ensures k * laps >= 0 && Chain(byId, id, k * laps) == id
  {
    if laps > 0 {
      Laps(byId, id, k, laps - 1);
      ChainComposes(byId, id, k * (laps - 1), k);
      assert k * (laps - 1) + k == k * laps;
    } else {
      assert k * laps == 0;
    }
  }

  lemma LapsAreSteps(k: nat, laps: nat)
    requires k > 0
    ensures k * laps >= laps
  {
  }

  /** A walk that ends has not come back to where it was. */
  lemma EndedHasNoLap(byId: Index, id: string, k: nat, end: nat)
    requires k > 0 && id != "" && Chain(byId, id, end) == ""
    ensures Chain(byId, id, k) != id
  {
    if Chain(byId, id, k) == id {
      Laps(byId, id, k, end);
      LapsAreSteps(k, end);
      EndedStaysEnded(byId, id, end, k * end);
      assert false;
    }
  }

  lemma ChainIsDistinct(byId: Index, id: string, i: nat, j: nat, end: nat)
    requires i < j && Chain(byId, id, j) != "" && Chain(byId, id, end) == ""
    ensures Chain(byId, id, i) != Chain(byId, id, j)
  {
    if end <= j {
      EndedStaysEnded(byId, id, end, j);
      assert false;
    }
    ChainComposes(byId, id, i, j - i);
    ChainComposes(byId, id, i, end - i);
    if Chain(byId, id, i) != "" {
      EndedHasNoLap(byId, Chain(byId, id, i), j - i, end - i);
    }
  }

  /** The ids passed in the first `k` steps. */
  ghost function Passed(byId: Index, id: string, k: nat): set<string> {
    if k == 0 then {} else Passed(byId, id, k - 1) + {Chain(byId, id, k - 1)}
  }

  lemma {:induction false} NotPassed(byId: Index, id: string, k: nat, at: string)
    requires forall i: nat :: i < k ==> Chain(byId, id, i) != at
    ensures at !in Passed(byId, id, k)
  {
    if k > 0 {
      NotPassed(byId, id, k - 1, at);
    }
  }

  lemma {:induction false} PassedAreNodes(byId: Index, id: string, k: nat, end: nat)
    requires (k > 0 ==> Chain(byId, id, k) != "") && Chain(byId, id, end) == ""
    ensures Passed(byId, id, k) <= byId.Keys && |Passed(byId, id, k)| == k
  {
    if k > 0 {
      assert Chain(byId, id, k - 1) != "";
      PassedAreNodes(byId, id, k - 1, end);
      forall i: nat | i < k - 1
        ensures Chain(byId, id, i) != Chain(byId, id, k - 1)
      {
        ChainIsDistinct(byId, id, i, k - 1, end);
      }
      NotPassed(byId, id, k - 1, Chain(byId, id, k - 1));
    }
  }

  lemma SubsetSize(a: set<string>, b: set<string>)
    requires a <= b
    ensures |a| <= |b|
  {
    assert b == a + (b - a);
  }

  predicate WalkEnds(byId: Index, id: string) {
    Chain(byId, id, |byId| + 1) == ""
  }

  /** A walk that ends at all ends within as many steps as there are nodes, and one more. */
  lemma EndsWithinNodes(byId: Index, id: string, end: nat)
    requires Chain(byId, id, end) == ""
    ensures WalkEnds(byId, id)
  {
    var n := |byId| + 1;
    if Chain(byId, id, n) != "" {
      PassedAreNodes(byId, id, n, end);
      SubsetSize(Passed(byId, id, n), byId.Keys);
      assert false;
    }
  }

  /** Every walk ends exactly when none meets itself. */
  lemma WalksEnd(byId: Index)
    ensures Acyclic(byId) <==> forall id: string :: WalkEnds(byId, id)
  {
    var n := |byId| + 1;
    if Acyclic(byId) {
      forall id: string
        ensures WalkEnds(byId, id)
      {
        AcyclicWalkEnds(byId, id);
      }
    }
    if forall id: string :: WalkEnds(byId, id) {
      forall id: string, k: nat | k > 0 && Chain(byId, id, k) != ""
        ensures Chain(byId, id, k) != id
      {
        assert WalkEnds(byId, id);
        if id != "" {
          EndedHasNoLap(byId, id, k, n);
        }
      }
    }
  }

  lemma AcyclicWalkEnds(byId: Index, id: string)
    requires Acyclic(byId)
    ensures WalkEnds(byId, id)
  {
    var n := |byId| + 1;
    if Chain(byId, id, n) != "" {
      AcyclicPassed(byId, id, n);
      SubsetSize(Passed(byId, id, n), byId.Keys);
      assert false;
    }
  }

  lemma {:induction false} AcyclicPassed(byId: Index, id: string, k: nat)
    requires Acyclic(byId) && (k > 0 ==> Chain(byId, id, k) != "")
    ensures Passed(byId, id, k) <= byId.Keys && |Passed(byId, id, k)| == k
  {
    if k > 0 {
      assert Chain(byId, id, k - 1) != "";
      AcyclicPassed(byId, id, k - 1);
      forall i: nat | i < k - 1
        ensures Chain(byId, id, i) != Chain(byId, id, k - 1)
      {
        ChainComposes(byId, id, i, k - 1 - i);
      }
      NotPassed(byId, id, k - 1, Chain(byId, id, k - 1));
    }
  }

  // ---- Visibility ----

  /** Some id above the node is collapsed. */
  ghost predicate Hidden(byId: Index, collapsed: set<string>, n: Node) {
    exists k: nat :: Chain(byId, n.parent, k) != "" && Chain(byId, n.parent, k) in collapsed
  }

  /** At its `k`th turn the ancestor walk has nowhere to go, or stands under a collapsed id. */
  predicate ExitsAt(byId: Index, collapsed: set<string>, n: Node, k: nat) {
    Chain(byId, n.parent, k) == "" || Chain(byId, n.parent, k) in collapsed
  }

  /** The walk up from a node, which a collapsed id cuts short, comes to an end. */
  ghost predicate Stops(byId: Index, collapsed: set<string>, n: Node) {
    WalkEnds(byId, n.parent) || Hidden(byId, collapsed, n)
  }

  /**
   The ancestor walk leaves its loop exactly when the parents run out within the number of nodes, or some
   id above is collapsed. Otherwise every turn finds one more parent that exists and is not collapsed.
   */
  lemma WalkExits(byId: Index, collapsed: set<string>, n: Node)
    ensures (exists k: nat :: ExitsAt(byId, collapsed, n, k)) <==> Stops(byId, collapsed, n)
    ensures !Stops(byId, collapsed, n) ==>
      forall k: nat :: Chain(byId, n.parent, k) in byId && Chain(byId, n.parent, k) !in collapsed
  {
    forall k: nat | ExitsAt(byId, collapsed, n, k)
      ensures Stops(byId, collapsed, n)
    {
      if Chain(byId, n.parent, k) == "" {
        EndsWithinNodes(byId, n.parent, k);
      }
    }
    if WalkEnds(byId, n.parent) {
      assert ExitsAt(byId, collapsed, n, |byId| + 1);
    } else if Hidden(byId, collapsed, n) {
      var k: nat :| Chain(byId, n.parent, k) != "" && Chain(byId, n.parent, k) in collapsed;
      assert ExitsAt(byId, collapsed, n, k);
    } else {
      forall k: nat
        ensures Chain(byId, n.parent, k) in byId && Chain(byId, n.parent, k) !in collapsed
      {
        assert !ExitsAt(byId, collapsed, n, k) && !ExitsAt(byId, collapsed, n, k + 1);
      }
    }
  }

  /** Two nodes that name each other: with nothing collapsed the walk goes on for ever; collapsing one ends it. */
  lemma WalkAroundTwo()
    ensures var a, b := Node("a", "b"), Node("b", "a");
      var byId := NodeById([a, b]);
      && !Stops(byId, {}, a) && (forall k: nat :: !ExitsAt(byId, {}, a, k))
      && Stops(byId, {"b"}, a) && Stops(byId, {"b"}, b) && !Acyclic(byId)
  {
    var a, b := Node("a", "b"), Node("b", "a");
    var byId := NodeById([a, b]);
    assert [a, b][..1] == [a] && [a][..0] == [];
    assert NodeById([a]) == map["a" := a];
    assert byId == map["a" := a, "b" := b];
    forall k: nat
      ensures !ExitsAt(byId, {}, a, k)
    {
      AroundTwo(byId, k);
    }
    WalkExits(byId, {}, a);
    assert Chain(byId, "b", 0) == "b" && Chain(byId, "a", 0) == "a";
    assert Chain(byId, "a", 1) == "b";
    assert Chain(byId, "b", 2) == Up(byId, Chain(byId, "b", 1)) == "b";
  }

  lemma {:induction false} AroundTwo(byId: Index, k: nat)
    requires byId == map["a" := Node("a", "b"), "b" := Node("b", "a")]
    ensures Chain(byId, "b", k) in {"a", "b"}
  {
    if k > 0 {
      AroundTwo(byId, k - 1);
    }
  }

  ghost function VisibleNodes(nodes: seq<Node>, byId: Index, collapsed: set<string>): seq<Node> {
    if nodes == [] then []
    else
      var n := nodes[|nodes| - 1];
      VisibleNodes(nodes[..|nodes| - 1], byId, collapsed) + if Hidden(byId, collapsed, n) then [] else [n]
  }

  lemma {:induction false} VisibleMeansNotHidden(nodes: seq<Node>, byId: Index, collapsed: set<string>, n: Node)
    ensures n in VisibleNodes(nodes, byId, collapsed) <==> n in nodes && !Hidden(byId, collapsed, n)
  {
    hide Hidden;
    if nodes != [] {
      VisibleMeansNotHidden(nodes[..|nodes| - 1], byId, collapsed, n);
      assert nodes == nodes[..|nodes| - 1] + [nodes[|nodes| - 1]];
    }
  }

  lemma VisibleNext(front: seq<Node>, n: Node, byId: Index, collapsed: set<string>)
    ensures VisibleNodes([], byId, collapsed) == []
    ensures VisibleNodes(front + [n], byId, collapsed)
         == VisibleNodes(front, byId, collapsed) + if Hidden(byId, collapsed, n) then [] else [n]
  {
    hide Hidden;
    assert (front + [n])[..|front|] == front;
  }

  /** The visible nodes keep the order of the nodes. */
  lemma {:induction false} VisibleJoin(a: seq<Node>, b: seq<Node>, byId: Index, collapsed: set<string>)
    ensures VisibleNodes(a + b, byId, collapsed) == VisibleNodes(a, byId, collapsed) + VisibleNodes(b, byId, collapsed)
  {
    hide Hidden;
    hide VisibleNodes;
    if b == [] {
      assert a + b == a;
      VisibleNext([], Node("", ""), byId, collapsed);
    } else {
      var front, last := b[..|b| - 1], b[|b| - 1];
      VisibleJoin(a, front, byId, collapsed);
      assert a + b == a + front + [last] && b == front + [last];
      VisibleNext(a + front, last, byId, collapsed);
      VisibleNext(front, last, byId, collapsed);
    }
  }

  lemma HiddenWithParent(byId: Index, collapsed: set<string>, n: Node)
    requires HasExistingParent(n, byId)
    ensures Hidden(byId, collapsed, byId[n.parent]) ==> Hidden(byId, collapsed, n)
  {
    var parent := byId[n.parent];
    if Hidden(byId, collapsed, parent) {
      var k: nat :| Chain(byId, parent.parent, k) != "" && Chain(byId, parent.parent, k) in collapsed;
      ChainComposes(byId, n.parent, 1, k);
      assert Chain(byId, n.parent, 0) == n.parent;
      assert Chain(byId, n.parent, 1) == parent.parent;
      assert Chain(byId, n.parent, 1 + k) in collapsed;
    }
  }

  /** The existing parent of a visible node is visible. */
  lemma ParentIsVisible(nodes: seq<Node>, collapsed: set<string>, n: Node)
    requires n in VisibleNodes(nodes, NodeById(nodes), collapsed) && HasExistingParent(n, NodeById(nodes))
    ensures NodeById(nodes)[n.parent] in VisibleNodes(nodes, NodeById(nodes), collapsed)
  {
    var byId := NodeById(nodes);
    var parent := byId[n.parent];
    VisibleMeansNotHidden(nodes, byId, collapsed, n);
    VisibleMeansNotHidden(nodes, byId, collapsed, parent);
    IndexHoldsNodes(nodes);
    HiddenWithParent(byId, collapsed, n);
  }

  ghost function Ids(nodes: seq<Node>): set<string> {
    set n <- nodes :: n.id
  }

  function KeepEdges(edges: seq<Edge>, ids: set<string>): seq<Edge> {
    if edges == [] then []
    else
      var e := edges[|edges| - 1];
      KeepEdges(edges[..|edges| - 1], ids) + if e.parentId in ids && e.childId in ids then [e] else []
  }

  lemma KeepNext(front: seq<Edge>, e: Edge, ids: set<string>)
    ensures KeepEdges([], ids) == []
    ensures KeepEdges(front + [e], ids) == KeepEdges(front, ids) + if e.parentId in ids && e.childId in ids then [e] else []
  {
    assert (front + [e])[..|front|] == front;
  }

  /** An edge is kept, in its place, when both its ends are. */
  lemma {:induction false} KeepJoin(a: seq<Edge>, b: seq<Edge>, ids: set<string>)
    ensures KeepEdges(a + b, ids) == KeepEdges(a, ids) + KeepEdges(b, ids)
    ensures forall e :: e in KeepEdges(b, ids) <==> e in b && e.parentId in ids && e.childId in ids
  {
    hide KeepEdges;
    if b == [] {
      assert a + b == a;
      KeepNext([], Edge("", ""), ids);
    } else {
      var front, last := b[..|b| - 1], b[|b| - 1];
      KeepJoin(a, front, ids);
      assert a + b == a + front + [last] && b == front + [last];
      KeepNext(a + front, last, ids);
      KeepNext(front, last, ids);
    }
  }

  /**
   With distinct ids, the edges drawn are exactly one for each visible node with an existing parent, in the
   order of the nodes.
   */
  lemma VisibleEdges(nodes: seq<Node>, collapsed: set<string>)
    requires DistinctIds(nodes)
    ensures var byId := NodeById(nodes);
      var visible := VisibleNodes(nodes, byId, collapsed);
      KeepEdges(Edges(nodes, byId), Ids(visible)) == Edges(visible, byId)
  {
    hide Hidden;
    hide NodeById;
    hide DistinctIds;
    hide Ids;
    var byId := NodeById(nodes);
    var ids := Ids(VisibleNodes(nodes, byId, collapsed));
    forall n <- nodes | HasExistingParent(n, byId)
      ensures n.parent in ids && n.id in ids <==> !Hidden(byId, collapsed, n)
    {
      EdgeIsKept(nodes, collapsed, n);
    }
    KeptEdges(nodes, byId, collapsed, ids);
  }

  lemma {:induction false} KeptEdges(nodes: seq<Node>, byId: Index, collapsed: set<string>, ids: set<string>)
    requires forall n <- nodes | HasExistingParent(n, byId) ::
      n.parent in ids && n.id in ids <==> !Hidden(byId, collapsed, n)
    ensures KeepEdges(Edges(nodes, byId), ids) == Edges(VisibleNodes(nodes, byId, collapsed), byId)
  {
    hide Hidden;
    if nodes != [] {
      hide HasExistingParent;
      hide KeepEdges;
      hide Edges;
      var front, n := nodes[..|nodes| - 1], nodes[|nodes| - 1];
      assert nodes == front + [n];
      KeptEdges(front, byId, collapsed, ids);
      NextNode(front, n, byId, ids);
      var seen := VisibleNodes(front, byId, collapsed);
      NextNode(seen, n, byId, ids);
      assert n in nodes;
      if Hidden(byId, collapsed, n) {
        assert VisibleNodes(nodes, byId, collapsed) == seen;
      } else {
        assert VisibleNodes(nodes, byId, collapsed) == seen + [n];
      }
    }
  }

  lemma NextNode(front: seq<Node>, n: Node, byId: Index, ids: set<string>)
    ensures !HasExistingParent(n, byId) ==> Edges(front + [n], byId) == Edges(front, byId)
    ensures HasExistingParent(n, byId) ==>
      var edge := Edge(n.parent, n.id);
      && Edges(front + [n], byId) == Edges(front, byId) + [edge]
      && KeepEdges(Edges(front + [n], byId), ids)
         == if n.parent in ids && n.id in ids then KeepEdges(Edges(front, byId), ids) + [edge] else KeepEdges(Edges(front, byId), ids)
  {
    assert (front + [n])[..|front|] == front;
    var edges := Edges(front, byId);
    assert (edges + [Edge(n.parent, n.id)])[..|edges|] == edges;
  }

  lemma EdgeIsKept(nodes: seq<Node>, collapsed: set<string>, n: Node)
    requires DistinctIds(nodes) && n in nodes && HasExistingParent(n, NodeById(nodes))
    ensures var ids := Ids(VisibleNodes(nodes, NodeById(nodes), collapsed));
      n.parent in ids && n.id in ids <==> !Hidden(NodeById(nodes), collapsed, n)
  {
    hide Hidden;
    hide NodeById;
    var byId := NodeById(nodes);
    var visible := VisibleNodes(nodes, byId, collapsed);
    IndexHoldsNodes(nodes);
    IndexFindsNode(nodes, n);
    VisibleMeansNotHidden(nodes, byId, collapsed, n);
    if n in visible {
      ParentIsVisible(nodes, collapsed, n);
    }
    if n.id in Ids(visible) {
      var other :| other in visible && other.id == n.id;
      VisibleMeansNotHidden(nodes, byId, collapsed, other);
      IndexFindsNode(nodes, other);
    }
  }

  // ---- Clicks ----

  predicate IsParent(raw: seq<RawNode>, id: string) {
    exists c <- raw :: c.parent.AsString() == id
  }

  function ParentIds(raw: seq<RawNode>): set<string> {
    set n <- raw | IsParent(raw, n.id) :: n.id
  }

  function RootIds(raw: seq<RawNode>): set<string> {
    set n <- raw | n.parent.AsText() == "" :: n.id
  }

  /** The feed names a node's parent, or gives none: missing, null, or an empty text. */
  lemma NodesAreTheFeed(raw: seq<RawNode>, i: nat)
    requires i < |raw|
    ensures var n := Nodes(raw)[i];
      && n.id == raw[i].id
      && n.parent == if raw[i].parent in {Undefined, Null, Given("")} then "" else raw[i].parent.name
  {
  }

  lemma RootsOfFeed(raw: seq<RawNode>, id: string)
    ensures id in RootIds(raw) <==> exists r <- raw :: r.id == id && r.parent in {Undefined, Null, Given("")}
    ensures id in ParentIds(raw) <==>
      && (exists n <- raw :: n.id == id)
      && (exists c <- raw ::
        c.parent == Given(id) || (c.parent == Undefined && id == "undefined") || (c.parent == Null && id == "null"))
  {
    if id in ParentIds(raw) {
      var c :| c in raw && c.parent.AsString() == id;
      assert c.parent == Given(id) || (c.parent == Undefined && id == "undefined") || (c.parent == Null && id == "null");
    }
    if (exists n <- raw :: n.id == id) && exists c <- raw ::
      c.parent == Given(id) || (c.parent == Undefined && id == "undefined") || (c.parent == Null && id == "null") {
      var c :| c in raw && (
        c.parent == Given(id) || (c.parent == Undefined && id == "undefined") || (c.parent == Null && id == "null"));
      assert c.parent.AsString() == id;
      assert IsParent(raw, id);
    }
  }

  /**
   Collapse-all shows exactly the nodes that the feed gives no parent, those under such a node, and those whose
   parent is no node and was not collapsed by name before.
   */
  lemma CollapseAllShows(raw: seq<RawNode>, before: set<string>, i: nat)
    requires DistinctIds(Nodes(raw)) && i < |raw|
    ensures var after := before + ParentIds(raw) - RootIds(raw);
      !Hidden(NodeById(Nodes(raw)), after, Nodes(raw)[i])
      <==> || raw[i].parent in {Undefined, Null, Given("")}
           || (exists r <- raw :: raw[i].parent == Given(r.id) && r.parent in {Undefined, Null, Given("")})
           || (&& raw[i].parent.Given? && raw[i].parent.name !in before
               && forall r <- raw :: r.id != raw[i].parent.name)
  {
    hide Hidden;
    hide NodeById;
    hide RootIds;
    hide ParentIds;
    NodesAreTheFeed(raw, i);
    CollapseAllHides(raw, before, i);
    var p := Nodes(raw)[i].parent;
    RootsOfFeed(raw, p);
    IdsOfFeed(raw, p);
  }

  lemma IdsOfFeed(raw: seq<RawNode>, id: string)
    ensures id in Ids(Nodes(raw)) <==> exists r <- raw :: r.id == id
  {
    var nodes := Nodes(raw);
    if id in Ids(nodes) {
      var j :| 0 <= j < |nodes| && nodes[j].id == id;
      assert raw[j] in raw;
    }
    if r :| r in raw && r.id == id {
      var j :| 0 <= j < |raw| && raw[j] == r;
      assert nodes[j] in nodes;
    }
  }

  lemma CollapseAllHides(raw: seq<RawNode>, before: set<string>, i: nat)
    requires DistinctIds(Nodes(raw)) && i < |raw|
    ensures var nodes := Nodes(raw);
      var after := before + ParentIds(raw) - RootIds(raw);
      !Hidden(NodeById(nodes), after, nodes[i])
      <==> nodes[i].parent == "" || nodes[i].parent in RootIds(raw)
           || (nodes[i].parent !in Ids(nodes) && nodes[i].parent !in before)
  {
    var nodes := Nodes(raw);
    var byId, after := NodeById(nodes), before + ParentIds(raw) - RootIds(raw);
    var p := nodes[i].parent;
    IndexHoldsNodes(nodes);
    assert Chain(byId, p, 0) == p;
    if p in Ids(nodes) {
      var j :| 0 <= j < |nodes| && nodes[j].id == p;
      IndexFindsNode(nodes, nodes[j]);
      assert raw[j] in raw && raw[i] in raw;
      if p != "" && p !in RootIds(raw) {
        assert raw[i].parent.AsString() == p;
        assert p in ParentIds(raw);
      }
    } else {
      assert p !in RootIds(raw) && p !in ParentIds(raw) by {
        assert forall n <- raw :: n.id in Ids(nodes) by {
          forall n <- raw ensures n.id in Ids(nodes) {
            var j :| 0 <= j < |raw| && raw[j] == n;
            assert nodes[j] in nodes;
          }
        }
      }
    }
    RootEndsWalk(raw, p);
  }

  lemma RootEndsWalk(raw: seq<RawNode>, p: string)
    requires DistinctIds(Nodes(raw))
    ensures var byId := NodeById(Nodes(raw));
      p == "" || p in RootIds(raw) || p !in Ids(Nodes(raw)) ==> forall k: nat :: k > 0 ==> Chain(byId, p, k) == ""
  {
    var nodes := Nodes(raw);
    var byId := NodeById(nodes);
    IndexHoldsNodes(nodes);
    if p == "" || p in RootIds(raw) || p !in Ids(nodes) {
      if p in RootIds(raw) {
        var n :| n in raw && n.parent.AsText() == "" && n.id == p;
        var j :| 0 <= j < |raw| && raw[j] == n;
        assert nodes[j] in nodes;
        IndexFindsNode(nodes, nodes[j]);
      }
      assert Chain(byId, p, 0) == p;
      assert Chain(byId, p, 1) == "";
      forall k: nat | k > 0
        ensures Chain(byId, p, k) == ""
      {
        EndedStaysEnded(byId, p, 1, k);
      }
    }
  }

  /** The node lies strictly below the id. */
  ghost predicate Below(byId: Index, n: Node, id: string) {
    exists k: nat :: Chain(byId, n.parent, k) == id && id != ""
  }

  /** Collapsing one more id hides exactly what lies below it. */
  lemma CollapseHidesBelow(byId: Index, collapsed: set<string>, id: string, n: Node)
    ensures Hidden(byId, collapsed + {id}, n) <==> Hidden(byId, collapsed, n) || Below(byId, n, id)
  {
    if Hidden(byId, collapsed, n) {
      var k: nat :| Chain(byId, n.parent, k) != "" && Chain(byId, n.parent, k) in collapsed;
      assert Chain(byId, n.parent, k) in collapsed + {id};
    }
    if Below(byId, n, id) {
      var k: nat :| Chain(byId, n.parent, k) == id && id != "";
      assert Chain(byId, n.parent, k) in collapsed + {id};
    }
    if Hidden(byId, collapsed + {id}, n) {
      var k: nat :| Chain(byId, n.parent, k) != "" && Chain(byId, n.parent, k) in collapsed + {id};
      assert Chain(byId, n.parent, k) in collapsed || Chain(byId, n.parent, k) == id;
    }
  }

  class TreeState {
    var collapsed: set<string>
    var selectedEdge: string

    constructor ()
      ensures collapsed == {} && selectedEdge == ""
    {
      collapsed, selectedEdge := {}, "";
    }

    method ExpandAll()
      modifies this
      ensures collapsed == {} && selectedEdge == ""
      ensures forall byId: Index, n: Node :: !Hidden(byId, collapsed, n)
    {
      collapsed, selectedEdge := {}, "";
    }

    method CollapseAll(raw: seq<RawNode>)
      modifies this
      ensures collapsed == old(collapsed) + ParentIds(raw) - RootIds(raw) && selectedEdge == ""
      ensures forall id :: id in collapsed <==>
        && (|| id in old(collapsed)
            || (&& (exists n <- raw :: n.id == id)
                && exists c <- raw ::
                  c.parent == Given(id) || (c.parent == Undefined && id == "undefined") || (c.parent == Null && id == "null")))
        && !exists r <- raw :: r.id == id && r.parent in {Undefined, Null, Given("")}
    {
      for i := 0 to |raw|
        invariant collapsed == old(collapsed) + (set n <- raw[..i] | IsParent(raw, n.id) :: n.id)
      {
        if IsParent(raw, raw[i].id) {
          collapsed := collapsed + {raw[i].id};
        }
        assert raw[..i + 1] == raw[..i] + [raw[i]];
      }
      assert raw[..|raw|] == raw;
      ghost var added := collapsed;
      for i := 0 to |raw|
        invariant collapsed == added - RootIds(raw[..i])
      {
        if raw[i].parent.AsText() == "" {
          collapsed := collapsed - {raw[i].id};
        }
        assert raw[..i + 1] == raw[..i] + [raw[i]];
      }
      selectedEdge := "";
      forall id
        ensures id in RootIds(raw) <==> exists r <- raw :: r.id == id && r.parent in {Undefined, Null, Given("")}
        ensures id in ParentIds(raw) <==>
          && (exists n <- raw :: n.id == id)
          && (exists c <- raw ::
            c.parent == Given(id) || (c.parent == Undefined && id == "undefined") || (c.parent == Null && id == "null"))
      {
        RootsOfFeed(raw, id);
      }
    }

    method Toggle(id: string)
      modifies this
      ensures (id in collapsed) != (id in old(collapsed)) && collapsed - {id} == old(collapsed) - {id}
      ensures selectedEdge == ""
    {
      if id in collapsed {
        collapsed := collapsed - {id};
      } else {
        collapsed := collapsed + {id};
      }
      selectedEdge := "";
    }

    method HasCollapsedAncestor(node: Node, byId: Index) returns (found: bool)
      requires Stops(byId, collapsed, node)
      ensures found <==> Hidden(byId, collapsed, node)
    {
      var cursor := Some(node);
      ghost var k: nat := 0;
      WalkExits(byId, collapsed, node);
      ghost var last: nat :| ExitsAt(byId, collapsed, node, last);
      while cursor.Some? && cursor.value.parent != ""
        invariant Chain(byId, node.parent, k) == if cursor.Some? then cursor.value.parent else ""
        invariant forall i: nat :: i < k ==> Chain(byId, node.parent, i) !in collapsed
        invariant Chain(byId, node.parent, k) != "" ==> k <= last
        decreases last - k
      {
        var parent := cursor.value.parent;
        if parent in collapsed {
          return true;
        }
        if k == last {
          assert false;
        }
        cursor := if parent in byId then Some(byId[parent]) else None;
        k := k + 1;
      }
      forall i: nat
        ensures Chain(byId, node.parent, i) == "" || Chain(byId, node.parent, i) !in collapsed
      {
        if i >= k {
          EndedStaysEnded(byId, node.parent, k, i);
        }
      }
      found := false;
    }

    method VisibleGraph(nodes: seq<Node>) returns (visible: seq<Node>, edges: seq<Edge>)
      requires forall n <- nodes :: Stops(NodeById(nodes), collapsed, n)
      ensures visible == VisibleNodes(nodes, NodeById(nodes), collapsed)
      ensures edges == KeepEdges(Edges(nodes, NodeById(nodes)), Ids(visible))
    {
      var byId := NodeById(nodes);
      visible := [];
      for i := 0 to |nodes|
        invariant visible == VisibleNodes(nodes[..i], byId, collapsed)
      {
        var hidden := HasCollapsedAncestor(nodes[i], byId);
        if !hidden {
          visible := visible + [nodes[i]];
        }
        assert nodes[..i + 1][..i] == nodes[..i];
      }
      assert nodes[..|nodes|] == nodes;
      edges := KeepEdges(Edges(nodes, byId), set n <- visible :: n.id);
    }
  }
}
