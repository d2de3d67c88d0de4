/** Causal connectivity: the search over parent and link edges, and what it says about whole traces. */
module Connectivity {
  import opened Outcomes
  import Counting
  import opened Graphs
  import opened Spans
  import opened Topology
  import opened Links

  ghost predicate LinksInRange(nodes: seq<SpanNode>, links: seq<SpanLink>) {
    forall link | link in links :: link.source < |nodes| && link.target < |nodes|
  }

  ghost predicate Linked(links: seq<SpanLink>, a: nat, b: nat) {
    exists link | link in links :: (link.source == a && link.target == b) || (link.source == b && link.target == a)
  }

  /** An undirected edge: parent and child, or the two ends of a typed link. */
  ghost predicate Adjacent(nodes: seq<SpanNode>, index: Index, links: seq<SpanLink>, a: nat, b: nat)
    requires IsIndex(nodes, index)
  {
    && a < |nodes| && b < |nodes|
    && (ParentAt(nodes, index, a) == Some(b) || ParentAt(nodes, index, b) == Some(a) || Linked(links, a, b))
  }

  ghost function SpanEdge(nodes: seq<SpanNode>, index: Index, links: seq<SpanLink>): (nat, nat) -> bool
    requires IsIndex(nodes, index)
  {
    (a: nat, b: nat) => Adjacent(nodes, index, links, a, b)
  }

  ghost predicate Reaches(nodes: seq<SpanNode>, index: Index, links: seq<SpanLink>, a: nat, b: nat)
    requires IsIndex(nodes, index)
  {
    Connected(SpanEdge(nodes, index, links), a, b)
  }

  // ----- the adjacency lists -----

  type Neighbours = seq<seq<nat>>

  /** An edge given by the parents of the first `n` nodes or by the first `m` links. */
  ghost predicate EdgeAmong(nodes: seq<SpanNode>, index: Index, links: seq<SpanLink>, n: nat, m: nat, a: nat, b: nat)
    requires IsIndex(nodes, index) && n <= |nodes| && m <= |links|
  {
    && a < |nodes| && b < |nodes|
    && (|| (a < n && ParentAt(nodes, index, a) == Some(b))
        || (b < n && ParentAt(nodes, index, b) == Some(a))
        || Linked(links[..m], a, b))
  }

  /** The lists hold exactly those edges. */
  ghost predicate ListsEdges(nodes: seq<SpanNode>, index: Index, links: seq<SpanLink>, n: nat, m: nat,
                             adjacency: Neighbours)
    requires IsIndex(nodes, index) && n <= |nodes| && m <= |links|
  {
    && |adjacency| == |nodes|
    && forall a: nat, b: nat | a < |nodes| :: (b in adjacency[a] <==> EdgeAmong(nodes, index, links, n, m, a, b))
  }

  function Push(adjacency: Neighbours, at: nat, neighbour: nat): (r: Neighbours)
    requires at < |adjacency|
    ensures |r| == |adjacency|
    ensures forall a, b: nat | 0 <= a < |r| :: b in r[a] <==> b in adjacency[a] || (a == at && b == neighbour)
  {
    adjacency[at := adjacency[at] + [neighbour]]
  }

  lemma LinkedNext(links: seq<SpanLink>, m: nat, a: nat, b: nat)
    requires m < |links|
    ensures Linked(links[..m + 1], a, b) <==>
            || Linked(links[..m], a, b)
            || (links[m].source == a && links[m].target == b)
            || (links[m].source == b && links[m].target == a)
  {
    assert links[..m + 1] == links[..m] + [links[m]];
  }

  method BuildAdjacency(nodes: seq<SpanNode>, index: Index, links: seq<SpanLink>) returns (r: Option<Neighbours>)
    requires IsIndex(nodes, index) && LinksInRange(nodes, links)
    ensures r.Some? <==> ParentsResolve(nodes, index)
    ensures r.Some? ==> ListsEdges(nodes, index, links, |nodes|, |links|, r.value)
  {
    var adjacency: Neighbours := seq(|nodes|, _ => []);
    for child := 0 to |nodes|
      invariant ListsEdges(nodes, index, links, child, 0, adjacency)
      invariant forall i | 0 <= i < child && nodes[i].parent.Some? :: ParentAt(nodes, index, i).Some?
    {
      if nodes[child].parent.Some? {
        var parent := ParentAt(nodes, index, child);
        if parent.None? {
          return None;
        }
        adjacency := Push(adjacency, child, parent.value);
        adjacency := Push(adjacency, parent.value, child);
      }
    }
    for j := 0 to |links|
      invariant ListsEdges(nodes, index, links, |nodes|, j, adjacency)
    {
      assert links[j] in links;
      forall a: nat, b: nat
        ensures Linked(links[..j + 1], a, b) <==>
                || Linked(links[..j], a, b)
                || (links[j].source == a && links[j].target == b)
                || (links[j].source == b && links[j].target == a)
      {
        LinkedNext(links, j, a, b);
      }
      adjacency := Push(adjacency, links[j].source, links[j].target);
      adjacency := Push(adjacency, links[j].target, links[j].source);
    }
    return Some(adjacency);
  }

  lemma NeighbourOf(nodes: seq<SpanNode>, index: Index, links: seq<SpanLink>, adjacency: Neighbours, a: nat, b: nat)
    requires IsIndex(nodes, index) && ListsEdges(nodes, index, links, |nodes|, |links|, adjacency) && a < |nodes|
    ensures b in adjacency[a] <==> Adjacent(nodes, index, links, a, b)
  {
    assert links[..|links|] == links;
  }

  // ----- the search -----

  /** Everything found is connected to the root, and what is next to a visited node is found. */
  ghost predicate Exploring(edge: (nat, nat) -> bool, root: nat, n: nat, reachable: set<nat>, frontier: seq<nat>) {
    && (root in reachable || root in frontier)
    && (forall i: nat | i in reachable || i in frontier :: i < n && Connected(edge, root, i))
    && (forall i: nat, j: nat | i in reachable && edge(i, j) :: j in reachable || j in frontier)
  }

  lemma Explore(edge: (nat, nat) -> bool, root: nat, n: nat, reachable: set<nat>, frontier: seq<nat>,
                neighbours: seq<nat>)
    requires frontier != [] && Exploring(edge, root, n, reachable, frontier)
    requires forall j: nat :: j in neighbours <==> j < n && edge(frontier[0], j)
    requires forall j: nat | edge(frontier[0], j) :: j < n
    ensures frontier[0] in reachable ==> Exploring(edge, root, n, reachable, frontier[1..])
    ensures Exploring(edge, root, n, reachable + {frontier[0]}, frontier[1..] + neighbours)
  {
    hide Connected;
    var position, rest := frontier[0], frontier[1..];
    assert frontier == [position] + rest && position in frontier;
    assert forall i: nat :: i in frontier <==> i == position || i in rest;
    assert forall i: nat :: i in rest + neighbours <==> i in rest || i in neighbours;
    forall j: nat | j in neighbours
      ensures Connected(edge, root, j)
    {
      ConnectedStep(edge, root, position, j);
    }
  }

  lemma Explored(edge: (nat, nat) -> bool, root: nat, n: nat, reachable: set<nat>)
    requires Exploring(edge, root, n, reachable, [])
    ensures forall i: nat :: i in reachable <==> Connected(edge, root, i)
  {
    hide Connected;
    forall i: nat | Connected(edge, root, i)
      ensures i in reachable
    {
      ClosedContains(edge, x => x in reachable, root, i);
    }
  }

  /** Breadth-first search; a node may be queued more than once. It ends with exactly the nodes
      connected to the root. */
  method Search(nodes: seq<SpanNode>, index: Index, links: seq<SpanLink>, adjacency: Neighbours, root: nat)
    returns (reachable: set<nat>)
    requires IsIndex(nodes, index) && LinksInRange(nodes, links) && root < |nodes|
    requires ListsEdges(nodes, index, links, |nodes|, |links|, adjacency)
    ensures forall i: nat :: i in reachable <==> Reaches(nodes, index, links, root, i)
    ensures forall i | i in reachable :: i < |nodes|
  {
    hide Connected, ListsEdges, Adjacent;
    ghost var edge := SpanEdge(nodes, index, links);
    ConnectedToItself(edge, root);
    reachable := {};
    var frontier := [root];
    while frontier != []
      invariant Exploring(edge, root, |nodes|, reachable, frontier)
      decreases |nodes| - |reachable|, |frontier|
    {
      var position := frontier[0];
      assert position in frontier;
      NeighboursOf(nodes, index, links, adjacency, position);
      Explore(edge, root, |nodes|, reachable, frontier, adjacency[position]);
      Counting.Pigeonhole(reachable + {position}, |nodes|);
      frontier := frontier[1..];
      if position !in reachable {
        reachable := reachable + {position};
        frontier := frontier + adjacency[position];
      }
    }
    Explored(edge, root, |nodes|, reachable);
  }

  lemma NeighboursOf(nodes: seq<SpanNode>, index: Index, links: seq<SpanLink>, adjacency: Neighbours, a: nat)
    requires IsIndex(nodes, index) && ListsEdges(nodes, index, links, |nodes|, |links|, adjacency) && a < |nodes|
    ensures |adjacency| == |nodes|
    ensures forall b: nat :: b in adjacency[a] <==> b < |nodes| && SpanEdge(nodes, index, links)(a, b)
    ensures forall b: nat | SpanEdge(nodes, index, links)(a, b) :: b < |nodes|
  {
    forall b: nat
      ensures b in adjacency[a] <==> Adjacent(nodes, index, links, a, b)
    {
      NeighbourOf(nodes, index, links, adjacency, a, b);
    }
  }

  datatype ConnectivityFault = NoSingleAnchorRoot | ParentLookup | Disconnected

  ghost predicate AllReached(nodes: seq<SpanNode>, index: Index, links: seq<SpanLink>, root: nat)
    requires IsIndex(nodes, index)
  {
    forall i: nat | i < |nodes| :: Reaches(nodes, index, links, root, i)
  }

  ghost function AnchorRoots(anchor: string, nodes: seq<SpanNode>, roots: set<nat>): set<nat> {
    set r: nat | r in roots && r < |nodes| && nodes[r].traceId == anchor
  }

  /** On resolved parents it accepts exactly when the anchor has one root and every span is connected to it. */
  method ValidateCausalConnectivity(anchor: string, nodes: seq<SpanNode>, index: Index, roots: set<nat>,
                                    links: seq<SpanLink>)
    returns (fault: Option<ConnectivityFault>)
    requires IsIndex(nodes, index) && LinksInRange(nodes, links)
    requires forall r | r in roots :: r < |nodes|
    ensures fault.None? <==>
            && ParentsResolve(nodes, index)
            && exists root :: AnchorRoots(anchor, nodes, roots) == {root} && AllReached(nodes, index, links, root)
    ensures fault == Some(Disconnected) ==>
            exists root, i: nat :: root in roots && i < |nodes| && !Reaches(nodes, index, links, root, i)
  {
    var anchorRoots := set r: nat | r in roots && r < |nodes| && nodes[r].traceId == anchor;
    if |anchorRoots| != 1 {
      assert forall root: nat :: anchorRoots == {root} ==> |anchorRoots| == 1;
      return Some(NoSingleAnchorRoot);
    }
    var root :| root in anchorRoots;
    Counting.SubsetCount({root}, anchorRoots);
    assert anchorRoots == {root};
    var adjacency := BuildAdjacency(nodes, index, links);
    if adjacency.None? {
      return Some(ParentLookup);
    }
    var reachable := Search(nodes, index, links, adjacency.value, root);
    Counting.Pigeonhole(reachable, |nodes|);
    if |reachable| != |nodes| {
      SomeMissing(reachable, |nodes|);
      return Some(Disconnected);
    }
    return None;
  }

  lemma SomeMissing(s: set<nat>, n: nat)
    requires |s| != n && forall x | x in s :: x < n
    ensures exists i: nat :: i < n && i !in s
  {
    if forall i: nat | i < n :: i in s {
      Counting.SubsetCount(s, Counting.Below(n));
      Counting.SubsetCount(Counting.Below(n), s);
    }
  }

  // ----- the graph of traces -----

  /** Two different traces joined by a typed link. */
  ghost predicate Joins(nodes: seq<SpanNode>, link: SpanLink, t: string, u: string) {
    && link.source < |nodes| && link.target < |nodes| && t != u
    && ((nodes[link.source].traceId == t && nodes[link.target].traceId == u)
        || (nodes[link.source].traceId == u && nodes[link.target].traceId == t))
  }

  ghost function TraceEdge(nodes: seq<SpanNode>, links: seq<SpanLink>): (string, string) -> bool {
    (t, u) => exists link | link in links :: Joins(nodes, link, t, u)
  }

  ghost predicate TracesConnected(nodes: seq<SpanNode>, links: seq<SpanLink>, anchor: string) {
    forall t | t in TraceIds(nodes) :: Connected(TraceEdge(nodes, links), anchor, t)
  }

  lemma SpanEdgeSymmetric(nodes: seq<SpanNode>, index: Index, links: seq<SpanLink>)
    requires IsIndex(nodes, index)
    ensures Symmetric(SpanEdge(nodes, index, links))
  {
  }

  /** Climbing the parents of a span keeps it connected. */
  lemma {:induction false} ReachesAncestor(nodes: seq<SpanNode>, index: Index, links: seq<SpanLink>, i: nat, k: nat)
    requires IsIndex(nodes, index) && i < |nodes| && Up(nodes, index, i, k).Some?
    ensures Reaches(nodes, index, links, i, Up(nodes, index, i, k).value)
  {
    var edge := SpanEdge(nodes, index, links);
    if k == 0 {
      ConnectedToItself(edge, i);
    } else {
      ReachesAncestor(nodes, index, links, i, k - 1);
      var a := Up(nodes, index, i, k - 1).value;
      assert edge(a, Up(nodes, index, i, k).value);
      ConnectedStep(edge, i, a, Up(nodes, index, i, k).value);
    }
  }

  /** In a parent forest any two spans of one trace are connected, through their root. */
  lemma SameTraceConnected(nodes: seq<SpanNode>, index: Index, links: seq<SpanLink>, i: nat, j: nat)
    requires IsIndex(nodes, index) && ParentForest(nodes, index)
    requires i < |nodes| && j < |nodes| && nodes[i].traceId == nodes[j].traceId
    ensures Reaches(nodes, index, links, i, j)
  {
    var edge := SpanEdge(nodes, index, links);
    var k, root := ChainsReachTheRoot(nodes, index, i);
    var m, same := ChainsReachTheRoot(nodes, index, j);
    ReachesAncestor(nodes, index, links, i, k);
    ReachesAncestor(nodes, index, links, j, m);
    SpanEdgeSymmetric(nodes, index, links);
    ConnectedBack(edge, j, root);
    ConnectedThrough(edge, i, root, j);
  }

  /** Connected spans lie in connected traces. */
  lemma ConnectedSpansGiveTraces(nodes: seq<SpanNode>, index: Index, links: seq<SpanLink>, i: nat, j: nat)
    requires IsIndex(nodes, index) && i < |nodes| && j < |nodes| && Reaches(nodes, index, links, i, j)
    ensures Connected(TraceEdge(nodes, links), nodes[i].traceId, nodes[j].traceId)
  {
    var edge := SpanEdge(nodes, index, links);
    var above := TraceEdge(nodes, links);
    var start := nodes[i].traceId;
    var inside := (x: nat) => x < |nodes| && Connected(above, start, nodes[x].traceId);
    forall x: nat, y: nat | inside(x) && edge(x, y)
      ensures inside(y)
    {
      if nodes[x].traceId != nodes[y].traceId {
        var link :| link in links && ((link.source == x && link.target == y) || (link.source == y && link.target == x));
        assert Joins(nodes, link, nodes[x].traceId, nodes[y].traceId);
        ConnectedStep(above, start, nodes[x].traceId, nodes[y].traceId);
      }
    }
    ConnectedToItself(above, start);
    ClosedContains(edge, inside, i, j);
  }

  /** In a parent forest, spans of connected traces are connected. */
  lemma ConnectedTracesGiveSpans(nodes: seq<SpanNode>, index: Index, links: seq<SpanLink>, i: nat, j: nat)
    requires IsIndex(nodes, index) && ParentForest(nodes, index) && LinksInRange(nodes, links)
    requires i < |nodes| && j < |nodes| && Connected(TraceEdge(nodes, links), nodes[i].traceId, nodes[j].traceId)
    ensures Reaches(nodes, index, links, i, j)
  {
    var edge := SpanEdge(nodes, index, links);
    var above := TraceEdge(nodes, links);
    var inside := (t: string) => forall x: nat | x < |nodes| && nodes[x].traceId == t :: Connected(edge, i, x);
    forall t, u | inside(t) && above(t, u)
      ensures inside(u)
    {
      var link :| link in links && Joins(nodes, link, t, u);
      var (near, far) :=
          if nodes[link.source].traceId == t then (link.source, link.target) else (link.target, link.source);
      assert edge(near, far);
      ConnectedStep(edge, i, near, far);
      forall x: nat | x < |nodes| && nodes[x].traceId == u
        ensures Connected(edge, i, x)
      {
        SameTraceConnected(nodes, index, links, far, x);
        ConnectedThrough(edge, i, far, x);
      }
    }
    forall x: nat | x < |nodes| && nodes[x].traceId == nodes[i].traceId
      ensures Connected(edge, i, x)
    {
      SameTraceConnected(nodes, index, links, i, x);
    }
    ClosedContains(above, inside, nodes[i].traceId, nodes[j].traceId);
  }

  /** Once every trace is a tree, all spans are connected exactly when all traces are connected by links. */
  lemma SpansConnectedIffTracesAre(nodes: seq<SpanNode>, index: Index, links: seq<SpanLink>, root: nat)
    requires IsIndex(nodes, index) && ParentForest(nodes, index) && LinksInRange(nodes, links) && root < |nodes|
    ensures AllReached(nodes, index, links, root) <==> TracesConnected(nodes, links, nodes[root].traceId)
  {
    if AllReached(nodes, index, links, root) {
      forall t | t in TraceIds(nodes)
        ensures Connected(TraceEdge(nodes, links), nodes[root].traceId, t)
      {
        var i: nat :| i < |nodes| && nodes[i].traceId == t;
        ConnectedSpansGiveTraces(nodes, index, links, root, i);
      }
    }
    if TracesConnected(nodes, links, nodes[root].traceId) {
      forall i: nat | i < |nodes|
        ensures Reaches(nodes, index, links, root, i)
      {
        assert nodes[i].traceId in TraceIds(nodes);
        ConnectedTracesGiveSpans(nodes, index, links, root, i);
      }
    }
  }

  /** The positions of the links that join two different traces. */
  ghost function JoiningLinks(nodes: seq<SpanNode>, links: seq<SpanLink>): set<nat> {
    set j: nat | j < |links| && links[j].source < |nodes| && links[j].target < |nodes|
                 && nodes[links[j].source].traceId != nodes[links[j].target].traceId
  }

  /** Both ends of a joining link lie in the given traces. */
  ghost predicate EndsIn(nodes: seq<SpanNode>, links: seq<SpanLink>, j: nat, traces: set<string>)
    requires j in JoiningLinks(nodes, links)
  {
    nodes[links[j].source].traceId in traces && nodes[links[j].target].traceId in traces
  }

  /** While some trace is left out, a link joins one of the traces outside to one inside. */
  lemma NextJoiningLink(nodes: seq<SpanNode>, links: seq<SpanLink>, anchor: string, joined: set<string>)
    returns (j: nat, u: string)
    requires TracesConnected(nodes, links, anchor)
    requires anchor in joined && joined < TraceIds(nodes)
    ensures j in JoiningLinks(nodes, links) && u in TraceIds(nodes) && u !in joined
    ensures !EndsIn(nodes, links, j, joined) && EndsIn(nodes, links, j, joined + {u})
  {
    var far :| far in TraceIds(nodes) && far !in joined;
    var t;
    t, u := Crossing(TraceEdge(nodes, links), joined, anchor, far);
    var link :| link in links && Joins(nodes, link, t, u);
    j :| 0 <= j < |links| && links[j] == link;
  }

  /** Traces joined to the anchor by one link less than there are of them. */
  ghost predicate JoinedBy(nodes: seq<SpanNode>, links: seq<SpanLink>, anchor: string, joined: set<string>,
                           used: set<nat>) {
    && anchor in joined && joined <= TraceIds(nodes)
    && used <= JoiningLinks(nodes, links) && |used| == |joined| - 1
    && forall j | j in used :: EndsIn(nodes, links, j, joined)
  }

  lemma JoinOneMore(nodes: seq<SpanNode>, links: seq<SpanLink>, anchor: string, joined: set<string>, used: set<nat>,
                    j: nat, u: string)
    requires JoinedBy(nodes, links, anchor, joined, used)
    requires j in JoiningLinks(nodes, links) && u in TraceIds(nodes) && u !in joined
    requires !EndsIn(nodes, links, j, joined) && EndsIn(nodes, links, j, joined + {u})
    ensures JoinedBy(nodes, links, anchor, joined + {u}, used + {j})
  {
    assert j !in used;
  }

  lemma {:induction false} JoinTheOthers(nodes: seq<SpanNode>, links: seq<SpanLink>, anchor: string,
                                         joined: set<string>, used: set<nat>)
    requires TracesConnected(nodes, links, anchor) && JoinedBy(nodes, links, anchor, joined, used)
    ensures |JoiningLinks(nodes, links)| >= |TraceIds(nodes)| - 1
    decreases TraceIds(nodes) - joined
  {
    if joined == TraceIds(nodes) {
      Counting.SubsetCount(used, JoiningLinks(nodes, links));
    } else {
      var j, u := NextJoiningLink(nodes, links, anchor, joined);
      JoinOneMore(nodes, links, anchor, joined, used, j, u);
      JoinTheOthers(nodes, links, anchor, joined + {u}, used + {j});
    }
  }

  /** Connecting `k` traces takes at least `k - 1` links between different traces. */
  lemma JoiningLinksCount(nodes: seq<SpanNode>, links: seq<SpanLink>, anchor: string)
    requires anchor in TraceIds(nodes) && TracesConnected(nodes, links, anchor)
    ensures |JoiningLinks(nodes, links)| >= |TraceIds(nodes)| - 1
  {
    JoinTheOthers(nodes, links, anchor, {anchor}, {});
  }
}
