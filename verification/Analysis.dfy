/** The causal graph of the fetched traces, and the spans in it that the later stages look for. */
module Analysis {
  import opened Outcomes
  import RustText
  import Strings
  import TraceModel
  import Counting
  import Crawl
  import opened Spans
  import opened Topology
  import Links
  import Connectivity
  import Evidence

  // ----- the spans of the journey -----

  function Messaging(destination: string, operation: string): Evidence.Wanted {
    [("messaging.system", "rabbitmq"), ("messaging.destination.name", destination),
     ("messaging.operation.name", operation), ("commerce.event.type", "order.paid")]
  }

  function Producers(nodes: seq<SpanNode>): seq<nat> {
    Evidence.MatchingSpans(nodes, "checkout", Messaging("commerce.events", "send"))
  }

  function OrderConsumers(nodes: seq<SpanNode>): seq<nat> {
    Evidence.MatchingSpans(nodes, "fulfillment", Messaging("fulfillment.orders", "process"))
  }

  function AnalyticsConsumers(nodes: seq<SpanNode>): seq<nat> {
    Evidence.MatchingSpans(nodes, "fulfillment", Messaging("analytics.events", "process"))
  }

  predicate IsCheckoutSpan(anchor: string, node: SpanNode) {
    node.traceId == anchor && node.span.service == Some("checkout") && node.span.name == Some("checkout")
  }

  function CheckoutSpans(anchor: string, nodes: seq<SpanNode>): (r: set<nat>)
    ensures forall i | i in r :: i < |nodes|
  {
    set i: nat | i < |nodes| && IsCheckoutSpan(anchor, nodes[i])
  }

  function Services(nodes: seq<SpanNode>): set<string> {
    set i: nat | i < |nodes| && nodes[i].span.service.Some? && nodes[i].span.service.value != "" ::
        nodes[i].span.service.value
  }

  predicate Contains(text: string, part: string) {
    exists i: nat :: i <= |text| && part <= text[i..]
  }

  function Truncated(text: string): string {
    if |text| <= TraceModel.MAX_ATTRIBUTE_JSON_BYTES then text else text[..TraceModel.MAX_ATTRIBUTE_JSON_BYTES]
  }

  /** Name, kind, service and raw attributes in lower case, separated by spaces. */
  function SearchableText(span: TraceModel.Span): string {
    var fields := [span.name, span.kind, span.service,
                   if span.attributes.JsonText? then Some(span.attributes.raw) else None];
    var texts := TextsOf(fields);
    Strings.Join(texts, ' ')
  }

  function TextsOf(fields: seq<Option<string>>): seq<string> {
    if fields == [] then []
    else (if fields[0].Some? then [RustText.AsciiLowercased(Truncated(fields[0].value))] else []) + TextsOf(fields[1..])
  }

  /** The services and span names that every checkout must show. */
  predicate JourneyEvidence(nodes: seq<SpanNode>) {
    var services := Services(nodes);
    && {"checkout", "catalog", "pricing", "inventory", "payment"} <= services
    && ("web" in services || "storefront" in services ==> {"web", "storefront"} <= services)
    && (forall required | required in ["checkout", "pricing.quote", "inventory.reserve"] ::
          exists node | node in nodes ::
              node.span.name.Some? && RustText.AsciiLowercased(node.span.name.value) == required)
    && exists node | node in nodes ::
          node.span.service == Some("payment") && Contains(SearchableText(node.span), "authorize")
  }

  // ----- the graph stages -----

  datatype AnalysisFault =
    | BadAnchor | CollectStage(collect: CollectFault) | DuplicateSpan | TopologyStage(topology: TopologyFault)
    | LinkStage | ConnectivityStage(connectivity: Connectivity.ConnectivityFault)
    | Journey | EdgeSources | CheckoutSpan | BaggageStage | RabbitStage | TracestatesDiffer
    | IdentityStage(identity: Evidence.IdentityFault) | NotificationStage

  predicate GraphFault(f: AnalysisFault) {
    f.BadAnchor? || f.CollectStage? || f.DuplicateSpan? || f.TopologyStage? || f.LinkStage? || f.ConnectivityStage?
  }

  predicate MessagingFault(f: AnalysisFault) {
    f.EdgeSources? || f.CheckoutSpan? || f.BaggageStage? || f.RabbitStage? || f.TracestatesDiffer?
  }

  datatype Graph = Graph(nodes: seq<SpanNode>, index: Index, links: seq<Links.SpanLink>)

  /** The traces are one causal forest of spans joined by valid typed links. */
  ghost predicate GraphAccepted(anchor: string, traces: seq<TraceModel.Trace>, g: Graph) {
    && TraceModel.IsTraceId(anchor) && Collectable(anchor, traces)
    && g.nodes == Flatten(traces)
    && IsIndex(g.nodes, g.index) && ParentForest(g.nodes, g.index)
    && Links.LinksValid(g.nodes, g.index) && g.links == Links.ResolvedLinks(g.nodes, g.index, |g.nodes|)
    && exists root: nat ::
          IsRoot(g.nodes, root) && g.nodes[root].traceId == anchor
              && Connectivity.AllReached(g.nodes, g.index, g.links, root)
  }

  lemma IndexUnique(nodes: seq<SpanNode>, one: Index, other: Index)
    requires IsIndex(nodes, one) && IsIndex(nodes, other)
    ensures one == other
  {
    forall key
      ensures key in one <==> key in other
      ensures key in one ==> one[key] == other[key]
    {
      if key in one {
        assert KeyOf(nodes[one[key]]) == key;
      }
      if key in other {
        assert KeyOf(nodes[other[key]]) == key;
      }
    }
  }

  lemma IndexMeansDistinct(nodes: seq<SpanNode>, index: Index)
    requires IsIndex(nodes, index)
    ensures DistinctIdentities(nodes)
  {
    forall i, j | 0 <= i < j < |nodes|
      ensures KeyOf(nodes[i]) != KeyOf(nodes[j])
    {
      assert index[KeyOf(nodes[i])] == i && index[KeyOf(nodes[j])] == j;
    }
  }

  lemma AnchorRootOf(anchor: string, nodes: seq<SpanNode>, index: Index, roots: set<nat>, root: nat)
    requires IsIndex(nodes, index) && ParentForest(nodes, index)
    requires roots == set i | 0 <= i < |nodes| && IsRoot(nodes, i)
    ensures Connectivity.AnchorRoots(anchor, nodes, roots) == {root} <==>
              IsRoot(nodes, root) && nodes[root].traceId == anchor
  {
    var mine := Connectivity.AnchorRoots(anchor, nodes, roots);
    if IsRoot(nodes, root) && nodes[root].traceId == anchor {
      assert anchor in TraceIds(nodes);
      assert forall other: nat | IsRoot(nodes, other) && nodes[other].traceId == anchor :: other == root;
      assert root in mine;
    }
    if mine == {root} {
      assert root in mine;
    }
  }

  method CheckGraph(anchor: string, traces: seq<TraceModel.Trace>) returns (r: Result<Graph, AnalysisFault>)
    ensures r.Ok? ==> GraphAccepted(anchor, traces, r.value)
    ensures r.Err? ==> GraphFault(r.error)
    ensures r == Err(BadAnchor) ==> !TraceModel.IsTraceId(anchor)
    ensures r.Err? && r.error.CollectStage? ==> CollectFaultHolds(r.error.collect, anchor, traces)
    ensures r.Err? ==> forall g :: !GraphAccepted(anchor, traces, g)
  {
    if !TraceModel.IsTraceId(anchor) {
      return Err(BadAnchor);
    }
    var collected := CollectSpanNodes(anchor, traces);
    if collected.Err? {
      return Err(CollectStage(collected.error));
    }
    var nodes := collected.value;
    var indexed := IndexSpans(nodes);
    if indexed.None? {
      forall g | GraphAccepted(anchor, traces, g)
        ensures false
      {
        IndexMeansDistinct(g.nodes, g.index);
      }
      return Err(DuplicateSpan);
    }
    var index := indexed.value;
    forall g | GraphAccepted(anchor, traces, g)
      ensures g.index == index && g.nodes == nodes && g.links == Links.ResolvedLinks(nodes, index, |nodes|)
    {
      IndexUnique(nodes, index, g.index);
    }
    var roots := ValidateParentTopology(nodes, index);
    if roots.Err? {
      return Err(TopologyStage(roots.error));
    }
    var links := Links.ValidateTypedLinks(nodes, index);
    if links.None? {
      return Err(LinkStage);
    }
    Links.ResolvedAreSound(nodes, index, |nodes|);
    var fault := Connectivity.ValidateCausalConnectivity(anchor, nodes, index, roots.value, links.value);
    forall root: nat
      ensures Connectivity.AnchorRoots(anchor, nodes, roots.value) == {root} <==>
                IsRoot(nodes, root) && nodes[root].traceId == anchor
    {
      AnchorRootOf(anchor, nodes, index, roots.value, root);
    }
    if fault.Some? {
      return Err(ConnectivityStage(fault.value));
    }
    return Ok(Graph(nodes, index, links.value));
  }

  lemma {:induction false} FlattenedTraceIds(traces: seq<TraceModel.Trace>)
    requires forall trace | trace in traces :: TraceOk(trace)
    ensures TraceIds(Flatten(traces)) == set id | id in Crawl.IdsOf(traces)
  {
    var nodes := Flatten(traces);
    if traces != [] {
      var n := |traces| - 1;
      var last := NodesOf(traces[n]);
      var before := Flatten(traces[..n]);
      FlattenedTraceIds(traces[..n]);
      assert Crawl.IdsOf(traces) == Crawl.IdsOf(traces[..n]) + [traces[n].traceId.value];
      assert nodes == before + last && last[0].traceId == traces[n].traceId.value;
      forall id
        ensures id in TraceIds(nodes) <==> id in Crawl.IdsOf(traces)
      {
        if id in TraceIds(before) {
          var i :| 0 <= i < |before| && before[i].traceId == id;
          assert nodes[i] == before[i];
        }
        if id == traces[n].traceId.value {
          assert nodes[|before|] == last[0];
        }
      }
    }
  }

  /** An accepted graph of `k` traces has at least `k - 1` typed links that join different traces,
      and those links alone connect every trace to the anchor. */
  lemma AcceptedTracesAreLinked(anchor: string, traces: seq<TraceModel.Trace>, g: Graph)
    requires GraphAccepted(anchor, traces, g)
    ensures Connectivity.TracesConnected(g.nodes, g.links, anchor)
    ensures |Connectivity.JoiningLinks(g.nodes, g.links)| >= |traces| - 1
  {
    Links.ResolvedAreSound(g.nodes, g.index, |g.nodes|);
    var root: nat :| IsRoot(g.nodes, root) && g.nodes[root].traceId == anchor
        && Connectivity.AllReached(g.nodes, g.index, g.links, root);
    Connectivity.SpansConnectedIffTracesAre(g.nodes, g.index, g.links, root);
    FlattenedTraceIds(traces);
    assert anchor in TraceIds(g.nodes);
    Connectivity.JoiningLinksCount(g.nodes, g.links, anchor);
    Counting.DistinctCount(Crawl.IdsOf(traces));
    assert TraceIds(g.nodes) == Counting.Elements(Crawl.IdsOf(traces));
  }
}
