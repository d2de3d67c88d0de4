/** The parent forest: one rooted tree of spans per trace. */
module Topology {
  import opened Outcomes
  import Counting
  import opened Spans

  /** The position of a node's parent, when it has one and it can be looked up. */
  function ParentAt(nodes: seq<SpanNode>, index: Index, i: nat): (p: Option<nat>)
    requires i < |nodes| && IsIndex(nodes, index)
    ensures p.Some? ==> p.value < |nodes| && nodes[p.value].traceId == nodes[i].traceId
  {
    var parent := nodes[i].parent;
    if parent.Some? && (nodes[i].traceId, parent.value) in index
    then Some(index[(nodes[i].traceId, parent.value)]) else None
  }

  /** The `k`-th ancestor of a node. */
  ghost function Up(nodes: seq<SpanNode>, index: Index, i: nat, k: nat): (a: Option<nat>)
    requires i < |nodes| && IsIndex(nodes, index)
    ensures a.Some? ==> a.value < |nodes| && nodes[a.value].traceId == nodes[i].traceId
  {
    if k == 0 then Some(i)
    else
      match Up(nodes, index, i, k - 1)
      case None => None
      case Some(a) => ParentAt(nodes, index, a)
  }

  predicate IsRoot(nodes: seq<SpanNode>, i: nat) { i < |nodes| && nodes[i].parent.None? }

  ghost function TraceIds(nodes: seq<SpanNode>): set<string> { set i | 0 <= i < |nodes| :: nodes[i].traceId }

  ghost predicate ParentsResolve(nodes: seq<SpanNode>, index: Index)
    requires IsIndex(nodes, index)
  {
    forall i | 0 <= i < |nodes| && nodes[i].parent.Some? :: ParentAt(nodes, index, i).Some?
  }

  ghost predicate SingleRoot(nodes: seq<SpanNode>, traceId: string) {
    exists r: nat :: IsRoot(nodes, r) && nodes[r].traceId == traceId
             && forall other: nat | IsRoot(nodes, other) && nodes[other].traceId == traceId :: other == r
  }

  ghost predicate Cyclic(nodes: seq<SpanNode>, index: Index, i: nat, k: nat)
    requires IsIndex(nodes, index)
  {
    i < |nodes| && k > 0 && Up(nodes, index, i, k) == Some(i)
  }

  ghost predicate Acyclic(nodes: seq<SpanNode>, index: Index)
    requires IsIndex(nodes, index)
  {
    forall i: nat, k: nat :: !Cyclic(nodes, index, i, k)
  }

  /** Every parent is a span of the same trace, every trace has exactly one root, and no chain of
      parents comes back to where it started. */
  ghost predicate ParentForest(nodes: seq<SpanNode>, index: Index)
    requires IsIndex(nodes, index)
  {
    && ParentsResolve(nodes, index)
    && (forall traceId | traceId in TraceIds(nodes) :: SingleRoot(nodes, traceId))
    && Acyclic(nodes, index)
  }

  // ----- chains -----

  /** The chain of parents from `i` has exactly `k` steps. */
  ghost predicate EndsAfter(nodes: seq<SpanNode>, index: Index, i: nat, k: nat)
    requires i < |nodes| && IsIndex(nodes, index)
  {
    Up(nodes, index, i, k).Some? && Up(nodes, index, i, k + 1).None?
  }

  lemma {:induction false} UpUp(nodes: seq<SpanNode>, index: Index, i: nat, a: nat, b: nat)
    requires i < |nodes| && IsIndex(nodes, index) && Up(nodes, index, i, a).Some?
    ensures Up(nodes, index, i, a + b) == Up(nodes, index, Up(nodes, index, i, a).value, b)
  {
    if b > 0 {
      UpUp(nodes, index, i, a, b - 1);
    }
  }

  lemma {:induction false} UpStops(nodes: seq<SpanNode>, index: Index, i: nat, a: nat, b: nat)
    requires i < |nodes| && IsIndex(nodes, index) && a <= b && Up(nodes, index, i, b).Some?
    ensures Up(nodes, index, i, a).Some?
  {
    if a < b {
      UpStops(nodes, index, i, a, b - 1);
    }
  }

  /** A node on a cycle has ancestors without end. */
  lemma {:induction false} CycleForever(nodes: seq<SpanNode>, index: Index, i: nat, k: nat, n: nat)
    requires IsIndex(nodes, index) && Cyclic(nodes, index, i, k)
    ensures Up(nodes, index, i, n).Some?
  {
    if n <= k {
      UpStops(nodes, index, i, n, k);
    } else {
      UpUp(nodes, index, i, k, n - k);
      CycleForever(nodes, index, i, k, n - k);
    }
  }

  /** The positions met in the first `n` steps. */
  ghost function Visited(nodes: seq<SpanNode>, index: Index, i: nat, n: nat): (met: set<nat>)
    requires i < |nodes| && IsIndex(nodes, index)
    ensures forall a | a in met :: a < |nodes|
  {
    set k: nat | k < n && Up(nodes, index, i, k).Some? :: Up(nodes, index, i, k).value
  }

  /** Either the next position was met before, or there is one more; never more than there are spans. */
  lemma VisitedNext(nodes: seq<SpanNode>, index: Index, i: nat, n: nat)
    requires i < |nodes| && IsIndex(nodes, index) && Up(nodes, index, i, n).Some?
    requires |Visited(nodes, index, i, n)| == n
    ensures var current := Up(nodes, index, i, n).value;
            if current in Visited(nodes, index, i, n)
            then !Acyclic(nodes, index)
            else && Visited(nodes, index, i, n + 1) == Visited(nodes, index, i, n) + {current}
                 && |Visited(nodes, index, i, n + 1)| == n + 1 <= |nodes|
  {
    var current := Up(nodes, index, i, n).value;
    if current in Visited(nodes, index, i, n) {
      var k: nat :| k < n && Up(nodes, index, i, k).Some? && Up(nodes, index, i, k).value == current;
      Repeats(nodes, index, i, k, n);
    } else {
      assert Visited(nodes, index, i, n + 1) == Visited(nodes, index, i, n) + {current};
      Counting.Pigeonhole(Visited(nodes, index, i, n + 1), |nodes|);
    }
  }

  /** Meeting the same position twice is a cycle. */
  lemma Repeats(nodes: seq<SpanNode>, index: Index, i: nat, a: nat, b: nat)
    requires i < |nodes| && IsIndex(nodes, index) && a < b
    requires Up(nodes, index, i, a).Some? && Up(nodes, index, i, a) == Up(nodes, index, i, b)
    ensures Cyclic(nodes, index, Up(nodes, index, i, a).value, b - a)
  {
    UpUp(nodes, index, i, a, b - a);
  }

  /** Without cycles the number of positions met grows with every step. */
  lemma {:induction false} VisitedCount(nodes: seq<SpanNode>, index: Index, i: nat, n: nat)
    requires i < |nodes| && IsIndex(nodes, index) && Acyclic(nodes, index)
    requires Up(nodes, index, i, n).Some?
    ensures |Visited(nodes, index, i, n + 1)| == n + 1 <= |nodes|
  {
    if n == 0 {
      assert Visited(nodes, index, i, 0) == {};
    } else {
      UpStops(nodes, index, i, n - 1, n);
      VisitedCount(nodes, index, i, n - 1);
    }
    VisitedNext(nodes, index, i, n);
  }

  /** In a parent forest of `n` spans every chain of parents ends at the one root of its trace
      after fewer than `n` steps. */
  lemma ChainsReachTheRoot(nodes: seq<SpanNode>, index: Index, i: nat) returns (k: nat, root: nat)
    requires i < |nodes| && IsIndex(nodes, index) && ParentForest(nodes, index)
    ensures k < |nodes| && Up(nodes, index, i, k) == Some(root)
    ensures IsRoot(nodes, root) && nodes[root].traceId == nodes[i].traceId
    ensures forall other: nat | IsRoot(nodes, other) && nodes[other].traceId == nodes[i].traceId :: other == root
  {
    k, root := 0, i;
    while nodes[root].parent.Some?
      invariant k < |nodes| && Up(nodes, index, i, k) == Some(root)
      decreases |nodes| - k
    {
      root := ParentAt(nodes, index, root).value;
      k := k + 1;
      VisitedCount(nodes, index, i, k);
    }
    assert nodes[i].traceId in TraceIds(nodes);
  }

  // ----- the checks -----

  datatype TopologyFault = DanglingParent | MissingRoot | ManyRoots | ParentCycle

  ghost predicate TopologyFaultHolds(fault: TopologyFault, nodes: seq<SpanNode>, index: Index)
    requires IsIndex(nodes, index)
  {
    match fault
    case DanglingParent => !ParentsResolve(nodes, index)
    case MissingRoot => exists t | t in TraceIds(nodes) :: forall r: nat | IsRoot(nodes, r) :: nodes[r].traceId != t
    case ManyRoots => exists r: nat, other: nat | IsRoot(nodes, r) && IsRoot(nodes, other) ::
        r != other && nodes[r].traceId == nodes[other].traceId
    case ParentCycle => !Acyclic(nodes, index)
  }

  lemma TopologyFaultRefuses(fault: TopologyFault, nodes: seq<SpanNode>, index: Index)
    requires IsIndex(nodes, index) && TopologyFaultHolds(fault, nodes, index)
    ensures !ParentForest(nodes, index)
  {
    if fault.ManyRoots? {
      var r: nat, other: nat :| IsRoot(nodes, r) && IsRoot(nodes, other) && r != other
          && nodes[r].traceId == nodes[other].traceId;
      assert nodes[r].traceId in TraceIds(nodes);
    }
  }

  /** Follow the parents of one span until a root or a position seen before. */
  method WalkToRoot(nodes: seq<SpanNode>, index: Index, start: nat) returns (ends: bool)
    requires start < |nodes| && IsIndex(nodes, index) && ParentsResolve(nodes, index)
    ensures ends ==> ChainEnds(nodes, index, start)
    ensures !ends ==> !Acyclic(nodes, index)
  {
    var seen: set<nat> := {};
    var current := start;
    ghost var k := 0;
    while true
      invariant k <= |nodes| && current < |nodes| && Up(nodes, index, start, k) == Some(current)
      invariant seen == Visited(nodes, index, start, k) && |seen| == k
      decreases |nodes| - k
    {
      VisitedNext(nodes, index, start, k);
      if current in seen {
        return false;
      }
      seen := seen + {current};
      if nodes[current].parent.None? {
        assert EndsAfter(nodes, index, start, k);
        return true;
      }
      current := ParentAt(nodes, index, current).value;
      k := k + 1;
    }
  }

  ghost predicate ChainEnds(nodes: seq<SpanNode>, index: Index, i: nat)
    requires i < |nodes| && IsIndex(nodes, index)
  {
    exists k :: EndsAfter(nodes, index, i, k)
  }

  method CheckAcyclic(nodes: seq<SpanNode>, index: Index) returns (acyclic: bool)
    requires IsIndex(nodes, index) && ParentsResolve(nodes, index)
    ensures acyclic <==> Acyclic(nodes, index)
  {
    for start := 0 to |nodes|
      invariant forall i: nat | i < start :: ChainEnds(nodes, index, i)
    {
      var ends := WalkToRoot(nodes, index, start);
      if !ends {
        return false;
      }
    }
    forall i: nat, k: nat | Cyclic(nodes, index, i, k)
      ensures false
    {
      assert ChainEnds(nodes, index, i);
      var n: nat :| EndsAfter(nodes, index, i, n);
      CycleForever(nodes, index, i, k, n + 1);
    }
    return true;
  }

  /** The roots of one trace among the first `n` nodes. */
  ghost function RootsOf(nodes: seq<SpanNode>, n: nat, traceId: string): set<nat>
    requires n <= |nodes|
  {
    set r: nat | r < n && IsRoot(nodes, r) && nodes[r].traceId == traceId
  }

  /** Roots grouped by trace, a trace without roots having no entry. */
  ghost predicate RootsCollected(nodes: seq<SpanNode>, n: nat, roots: map<string, set<nat>>)
    requires n <= |nodes|
  {
    && (forall t | t in roots :: roots[t] == RootsOf(nodes, n, t) != {})
    && forall r: nat | r < n && IsRoot(nodes, r) :: nodes[r].traceId in roots
  }

  lemma CollectOne(nodes: seq<SpanNode>, n: nat, roots: map<string, set<nat>>)
    requires n < |nodes| && RootsCollected(nodes, n, roots)
    ensures nodes[n].parent.Some? ==> RootsCollected(nodes, n + 1, roots)
    ensures nodes[n].parent.None? ==>
            var t := nodes[n].traceId;
            RootsCollected(nodes, n + 1, roots[t := (if t in roots then roots[t] else {}) + {n}])
  {
    var here := nodes[n].traceId;
    forall t
      ensures RootsOf(nodes, n + 1, t)
           == RootsOf(nodes, n, t) + if t == here && nodes[n].parent.None? then {n} else {}
    {
    }
    if here !in roots {
      assert RootsOf(nodes, n, here) == {};
    }
  }

  method CollectRoots(nodes: seq<SpanNode>, index: Index) returns (roots: Option<map<string, set<nat>>>)
    requires IsIndex(nodes, index)
    ensures roots.Some? <==> ParentsResolve(nodes, index)
    ensures roots.Some? ==> RootsCollected(nodes, |nodes|, roots.value)
  {
    var found: map<string, set<nat>> := map[];
    for i := 0 to |nodes|
      invariant forall j | 0 <= j < i && nodes[j].parent.Some? :: ParentAt(nodes, index, j).Some?
      invariant RootsCollected(nodes, i, found)
    {
      CollectOne(nodes, i, found);
      var traceId := nodes[i].traceId;
      match nodes[i].parent {
        case Some(parent) =>
          if (traceId, parent) !in index {
            return None;
          }
        case None =>
          found := found[traceId := (if traceId in found then found[traceId] else {}) + {i}];
      }
    }
    return Some(found);
  }

  lemma RootCountMatches(nodes: seq<SpanNode>, roots: map<string, set<nat>>)
    requires RootsCollected(nodes, |nodes|, roots)
    ensures |roots| == |TraceIds(nodes)| <==> roots.Keys == TraceIds(nodes)
    ensures roots.Keys <= TraceIds(nodes)
  {
    forall t | t in roots
      ensures t in TraceIds(nodes)
    {
      var r :| r in roots[t];
    }
    Counting.SubsetCount(roots.Keys, TraceIds(nodes));
    assert |roots| == |roots.Keys|;
  }

  lemma SingleRoots(nodes: seq<SpanNode>, roots: map<string, set<nat>>, traceId: string)
    requires RootsCollected(nodes, |nodes|, roots) && traceId in roots && |roots[traceId]| == 1
    ensures SingleRoot(nodes, traceId)
  {
    var r :| r in roots[traceId];
    assert IsRoot(nodes, r) && nodes[r].traceId == traceId;
    forall other: nat | IsRoot(nodes, other) && nodes[other].traceId == traceId
      ensures other == r
    {
      assert other in roots[traceId];
      Counting.SubsetCount({r}, roots[traceId]);
    }
  }

  lemma TraceWithoutRoot(nodes: seq<SpanNode>, roots: map<string, set<nat>>)
    requires RootsCollected(nodes, |nodes|, roots) && |roots| != |TraceIds(nodes)|
    ensures exists t | t in TraceIds(nodes) :: forall r: nat | IsRoot(nodes, r) :: nodes[r].traceId != t
  {
    RootCountMatches(nodes, roots);
    var t :| t in TraceIds(nodes) && t !in roots;
  }

  lemma TraceWithManyRoots(nodes: seq<SpanNode>, roots: map<string, set<nat>>, t: string)
    requires RootsCollected(nodes, |nodes|, roots) && t in roots && |roots[t]| != 1
    ensures exists r: nat, other: nat | IsRoot(nodes, r) && IsRoot(nodes, other) ::
              r != other && nodes[r].traceId == nodes[other].traceId
  {
    var r :| r in roots[t];
    assert |{r}| == 1;
    assert roots[t] != {r};
    var other :| other in roots[t] && other != r;
    assert IsRoot(nodes, r) && IsRoot(nodes, other);
  }

  /** Accepts exactly the parent forests, and returns their roots. */
  method ValidateParentTopology(nodes: seq<SpanNode>, index: Index) returns (r: Result<set<nat>, TopologyFault>)
    requires IsIndex(nodes, index)
    ensures r.Ok? <==> ParentForest(nodes, index)
    ensures r.Ok? ==> r.value == set i | 0 <= i < |nodes| && IsRoot(nodes, i)
    ensures r.Err? ==> TopologyFaultHolds(r.error, nodes, index)
  {
    var collected := CollectRoots(nodes, index);
    if collected.None? {
      return Err(DanglingParent);
    }
    var roots := collected.value;
    RootCountMatches(nodes, roots);
    if |roots| != |set i | 0 <= i < |nodes| :: nodes[i].traceId| {
      TraceWithoutRoot(nodes, roots);
      return Err(MissingRoot);
    }
    if exists t | t in roots :: |roots[t]| != 1 {
      ghost var t :| t in roots && |roots[t]| != 1;
      TraceWithManyRoots(nodes, roots, t);
      return Err(ManyRoots);
    }
    forall t | t in TraceIds(nodes)
      ensures SingleRoot(nodes, t)
    {
      SingleRoots(nodes, roots, t);
    }
    var acyclic := CheckAcyclic(nodes, index);
    if !acyclic {
      return Err(ParentCycle);
    }
    return Ok(set i | 0 <= i < |nodes| && IsRoot(nodes, i));
  }

  // ----- ancestors -----

  datatype AncestorFault = LookupFailed | ChainCycle

  ghost predicate HasAncestor(nodes: seq<SpanNode>, index: Index, start: nat, ancestors: set<nat>)
    requires start < |nodes| && IsIndex(nodes, index)
  {
    exists k: nat :: k > 0 && Up(nodes, index, start, k).Some? && Up(nodes, index, start, k).value in ancestors
  }

  /** The first `n` proper ancestors. */
  ghost function Above(nodes: seq<SpanNode>, index: Index, i: nat, n: nat): (met: set<nat>)
    requires i < |nodes| && IsIndex(nodes, index)
    ensures forall a | a in met :: a < |nodes|
  {
    set k: nat | 0 < k <= n && Up(nodes, index, i, k).Some? :: Up(nodes, index, i, k).value
  }

  /** Is a proper ancestor of the span among the given ones? Terminates on every input; exact whenever
      it answers, and it always answers on a parent forest. */
  method HasParentAncestor(nodes: seq<SpanNode>, index: Index, start: nat, ancestors: set<nat>)
    returns (r: Result<bool, AncestorFault>)
    requires start < |nodes| && IsIndex(nodes, index)
    ensures r.Ok? ==> (r.value <==> HasAncestor(nodes, index, start, ancestors))
    ensures r.Err? ==> !HasAncestor(nodes, index, start, ancestors) && !ParentForest(nodes, index)
  {
    hide Above, HasAncestor, ParentsResolve, Acyclic, IsIndex;
    var current := start;
    var seen: set<nat> := {};
    ghost var k := 0;
    NothingAbove(nodes, index, start);
    while true
      invariant k <= |nodes| && current < |nodes| && Up(nodes, index, start, k) == Some(current)
      invariant seen == Above(nodes, index, start, k) && |seen| == k
      invariant seen !! ancestors
      decreases |nodes| - k
    {
      if nodes[current].parent.None? {
        NoneBeyond(nodes, index, start, k, ancestors);
        return Ok(false);
      }
      var parent := ParentAt(nodes, index, current);
      if parent.None? {
        NoneBeyond(nodes, index, start, k, ancestors);
        Dangling(nodes, index, current);
        return Err(LookupFailed);
      }
      current := parent.value;
      if current in ancestors {
        AncestorFound(nodes, index, start, k + 1, ancestors);
        return Ok(true);
      }
      AboveNext(nodes, index, start, k, ancestors);
      if current in seen {
        return Err(ChainCycle);
      }
      seen := seen + {current};
      k := k + 1;
    }
  }

  lemma NothingAbove(nodes: seq<SpanNode>, index: Index, i: nat)
    requires i < |nodes| && IsIndex(nodes, index)
    ensures Above(nodes, index, i, 0) == {}
  {
  }

  lemma Dangling(nodes: seq<SpanNode>, index: Index, i: nat)
    requires i < |nodes| && IsIndex(nodes, index) && nodes[i].parent.Some? && ParentAt(nodes, index, i).None?
    ensures !ParentsResolve(nodes, index)
  {
  }

  lemma AncestorFound(nodes: seq<SpanNode>, index: Index, start: nat, k: nat, ancestors: set<nat>)
    requires start < |nodes| && IsIndex(nodes, index) && k > 0
    requires Up(nodes, index, start, k).Some? && Up(nodes, index, start, k).value in ancestors
    ensures HasAncestor(nodes, index, start, ancestors)
  {
  }

  lemma AboveNext(nodes: seq<SpanNode>, index: Index, i: nat, n: nat, ancestors: set<nat>)
    requires i < |nodes| && IsIndex(nodes, index) && Up(nodes, index, i, n + 1).Some?
    requires |Above(nodes, index, i, n)| == n && Above(nodes, index, i, n) !! ancestors
    ensures var next := Up(nodes, index, i, n + 1).value;
            if next in Above(nodes, index, i, n)
            then !HasAncestor(nodes, index, i, ancestors) && !Acyclic(nodes, index)
            else && Above(nodes, index, i, n + 1) == Above(nodes, index, i, n) + {next}
                 && |Above(nodes, index, i, n + 1)| == n + 1 <= |nodes|
  {
    var next := Up(nodes, index, i, n + 1).value;
    if next in Above(nodes, index, i, n) {
      var k: nat :| 0 < k <= n && Up(nodes, index, i, k).Some? && Up(nodes, index, i, k).value == next;
      Repeats(nodes, index, i, k, n + 1);
      forall m: nat | m > 0 && Up(nodes, index, i, m).Some?
        ensures Up(nodes, index, i, m).value !in ancestors
      {
        var j := LoopMember(nodes, index, i, k, n + 1, m);
        assert Up(nodes, index, i, m).value in Above(nodes, index, i, n);
      }
    } else {
      assert Above(nodes, index, i, n + 1) == Above(nodes, index, i, n) + {next};
      Counting.Pigeonhole(Above(nodes, index, i, n + 1), |nodes|);
    }
  }

  lemma NoneBeyond(nodes: seq<SpanNode>, index: Index, i: nat, n: nat, ancestors: set<nat>)
    requires i < |nodes| && IsIndex(nodes, index)
    requires Above(nodes, index, i, n) !! ancestors
    requires Up(nodes, index, i, n + 1).None?
    ensures !HasAncestor(nodes, index, i, ancestors)
  {
    forall m: nat | m > 0 && Up(nodes, index, i, m).Some?
      ensures Up(nodes, index, i, m).value !in ancestors
    {
      if m > n {
        UpStops(nodes, index, i, n + 1, m);
      } else {
        assert Up(nodes, index, i, m).value in Above(nodes, index, i, n);
      }
    }
  }

  /** Once a chain repeats, all later ancestors were met before. */
  lemma {:induction false} LoopMember(nodes: seq<SpanNode>, index: Index, i: nat, j: nat, m: nat, n: nat)
    returns (k: nat)
    requires i < |nodes| && IsIndex(nodes, index) && 0 < j < m && n > 0
    requires Up(nodes, index, i, j).Some? && Up(nodes, index, i, j) == Up(nodes, index, i, m)
    ensures 0 < k < m && Up(nodes, index, i, n) == Up(nodes, index, i, k)
    decreases n
  {
    hide Up, IsIndex;
    if n < m {
      k := n;
    } else {
      UpUp(nodes, index, i, m, n - m);
      UpUp(nodes, index, i, j, n - m);
      k := LoopMember(nodes, index, i, j, m, n - m + j);
    }
  }
}
