/** The requirements on the messages, the identity and the notification, and what acceptance comes to in full. */
module AcceptanceRequirements {
  import opened Outcomes
  import opened TraceModel
  import opened Spans
  import opened Headers
  import opened Requirements
  import opened EvidenceRequirements
  import opened Evidence
  import opened Analysis
  import Acceptance
  import Connectivity
  import Counting
  import Crawl
  import Links
  import RustText
  import Topology

  // ----- the messages -----

  /** Link `j` goes from span `i` to a producer. */
  ghost predicate GoesToProducer(nodes: seq<SpanNode>, links: seq<Links.SpanLink>, i: nat, j: nat) {
    j < |links| && links[j].source == i && IsProducer(nodes, links[j].target)
  }

  /** Just one link goes from the span to a producer, and its carrier is that of the producer. */
  ghost predicate HasOneCarrier(nodes: seq<SpanNode>, links: seq<Links.SpanLink>, i: nat, baggage: map<string, string>,
                                tracestate: Entries) {
    exists j: nat ::
      && GoesToProducer(nodes, links, i, j)
      && (forall other: nat | GoesToProducer(nodes, links, i, other) :: other == j)
      && CarrierIs(links[j].attributes, nodes[links[j].target], baggage, tracestate)
  }

  ghost predicate IsCheckout(anchor: string, nodes: seq<SpanNode>, i: nat) {
    && i < |nodes| && nodes[i].traceId == anchor
    && nodes[i].span.service == Some("checkout") && nodes[i].span.name == Some("checkout")
  }

  /** One checkout span in the anchor trace; its baggage on every producer and consumer; consumers of both kinds;
      and for each of them one link, whose carrier has that baggage and the one tracestate. */
  ghost predicate MessagingIs(anchor: string, nodes: seq<SpanNode>, links: seq<Links.SpanLink>, checkout: nat,
                              baggage: map<string, string>, tracestate: Entries) {
    && IsCheckout(anchor, nodes, checkout) && (forall i: nat | IsCheckout(anchor, nodes, i) :: i == checkout)
    && HasBaggage(nodes[checkout].span, baggage)
    && (forall i: nat | IsProducer(nodes, i) || IsOrderConsumer(nodes, i) || IsAnalyticsConsumer(nodes, i) ::
          HasBaggage(nodes[i].span, baggage))
    && (exists i: nat :: IsOrderConsumer(nodes, i)) && (exists i: nat :: IsAnalyticsConsumer(nodes, i))
    && forall i: nat | IsOrderConsumer(nodes, i) || IsAnalyticsConsumer(nodes, i) ::
         HasOneCarrier(nodes, links, i, baggage, tracestate)
  }

  ghost predicate EdgeFrom(links: seq<Links.SpanLink>, producers: seq<nat>, c: nat, j: nat) {
    j < |links| && links[j].source == c && links[j].target in producers
  }

  ghost predicate OnlyEdge(links: seq<Links.SpanLink>, producers: seq<nat>, c: nat, j: nat) {
    EdgeFrom(links, producers, c, j) && forall other: nat | EdgeFrom(links, producers, c, other) :: other == j
  }

  ghost predicate OneEdge(nodes: seq<SpanNode>, links: seq<Links.SpanLink>, producers: seq<nat>, c: nat,
                          baggage: BusinessBaggage, tracestate: Entries)
  {
    exists j: nat ::
      && OnlyEdge(links, producers, c, j)
      && links[j].target < |nodes| && EdgeTracestate(nodes, links[j], baggage) == Some(tracestate)
  }

  lemma OneEdgeMore(links: seq<Links.SpanLink>, producers: seq<nat>, some: seq<nat>, c: nat, j: nat)
    requires c !in some && OnlyEdge(links, producers, c, j)
    ensures Edges(links, some + [c], producers) == Edges(links, some, producers) + {j}
    ensures j !in Edges(links, some, producers)
  {
    forall k: nat
      ensures k in Edges(links, some + [c], producers) <==> k in Edges(links, some, producers) || k == j
    {
      if k < |links| && links[k].source == c && links[k].target in producers {
        assert EdgeFrom(links, producers, c, k);
      }
    }
  }

  /** One edge from each of some consumers: as many edges as there are of these. */
  lemma {:induction false} EdgesOfSome(links: seq<Links.SpanLink>, producers: seq<nat>, some: seq<nat>)
    requires Counting.Distinct(some)
    requires forall c | c in some :: exists j: nat :: OnlyEdge(links, producers, c, j)
    ensures |Edges(links, some, producers)| == |some|
  {
    if some == [] {
      assert Edges(links, some, producers) == {};
    } else {
      hide OnlyEdge, Edges;
      var n := |some| - 1;
      assert some[n] in some && some == some[..n] + [some[n]];
      var j: nat :| OnlyEdge(links, producers, some[n], j);
      OneEdgeMore(links, producers, some[..n], some[n], j);
      assert forall c | c in some[..n] :: c in some;
      EdgesOfSome(links, producers, some[..n]);
    }
  }

  /** The counts and the scan of the edges come to one sound edge for each consumer. */
  lemma EdgesIff(nodes: seq<SpanNode>, links: seq<Links.SpanLink>, consumers: seq<nat>, producers: seq<nat>,
                 baggage: BusinessBaggage, tracestate: Entries)
    requires TargetsInRange(nodes, links) && Counting.Distinct(consumers)
    ensures RequireLinkSemantics(links, consumers, producers)
              && RabbitEdges(links, nodes, producers, consumers, baggage, tracestate)
       <==> consumers != [] && forall c | c in consumers :: OneEdge(nodes, links, producers, c, baggage, tracestate)
  {
    hide EdgeTracestate, TargetsInRange;
    if RequireLinkSemantics(links, consumers, producers)
       && RabbitEdges(links, nodes, producers, consumers, baggage, tracestate) {
      forall c | c in consumers
        ensures OneEdge(nodes, links, producers, c, baggage, tracestate)
      {
        EdgeOfConsumer(nodes, links, consumers, producers, c, baggage, tracestate);
      }
    }
    if consumers != [] && forall c | c in consumers :: OneEdge(nodes, links, producers, c, baggage, tracestate) {
      EdgesAreRabbit(nodes, links, consumers, producers, baggage, tracestate);
    }
  }

  lemma EdgeOfConsumer(nodes: seq<SpanNode>, links: seq<Links.SpanLink>, consumers: seq<nat>, producers: seq<nat>,
                       c: nat, baggage: BusinessBaggage, tracestate: Entries)
    requires TargetsInRange(nodes, links) && Counting.Distinct(consumers) && c in consumers
    requires RequireLinkSemantics(links, consumers, producers)
    requires RabbitEdges(links, nodes, producers, consumers, baggage, tracestate)
    ensures OneEdge(nodes, links, producers, c, baggage, tracestate)
  {
    hide EdgeTracestate, RequireLinkSemantics;
    var j := ExactlyOneEdgeEach(links, consumers, producers, c);
    forall other: nat | EdgeFrom(links, producers, c, other)
      ensures other == j
    {
      assert other in Edges(links, consumers, producers);
    }
    assert OnlyEdge(links, producers, c, j) && links[j] in links;
  }

  lemma EdgesAreRabbit(nodes: seq<SpanNode>, links: seq<Links.SpanLink>, consumers: seq<nat>, producers: seq<nat>,
                       baggage: BusinessBaggage, tracestate: Entries)
    requires TargetsInRange(nodes, links) && Counting.Distinct(consumers) && consumers != []
    requires forall c | c in consumers :: OneEdge(nodes, links, producers, c, baggage, tracestate)
    ensures RequireLinkSemantics(links, consumers, producers)
    ensures RabbitEdges(links, nodes, producers, consumers, baggage, tracestate)
  {
    hide EdgeTracestate;
    EdgesOfSome(links, producers, consumers);
    var edges := Edges(links, consumers, producers);
    forall c | c in consumers
      ensures exists j: nat :: EdgeFrom(links, producers, c, j) && j in edges && links[j] in links
    {
      var j: nat :| EdgeFrom(links, producers, c, j);
      assert j in edges && links[j] in links;
    }
    forall j | j in edges
      ensures links[j] in links && EdgeTracestate(nodes, links[j], baggage) == Some(tracestate)
    {
      assert EdgeFrom(links, producers, links[j].source, j);
    }
    assert consumers[0] in consumers;
    assert exists j: nat :: EdgeFrom(links, producers, consumers[0], j) && j in edges && links[j] in links;
  }

  /** Each span and each link target has an id of its own. */
  ghost predicate GoodIds(nodes: seq<SpanNode>) { forall i | 0 <= i < |nodes| :: IsSpanId(nodes[i].spanId) }

  lemma OneCarrierIff(nodes: seq<SpanNode>, links: seq<Links.SpanLink>, c: nat, baggage: BusinessBaggage,
                      tracestate: Entries)
    requires GoodSpans(nodes) && GoodIds(nodes) && TargetsInRange(nodes, links) && IsBusinessBaggage(baggage)
    ensures OneEdge(nodes, links, Producers(nodes), c, baggage, tracestate) <==>
              HasOneCarrier(nodes, links, c, baggage, tracestate)
  {
    hide GoodSpans, Producers, EdgeTracestate, CarrierIs, IsProducer, IsBusinessBaggage, IsSpanId;
    RolesIff(nodes);
    forall j: nat
      ensures EdgeFrom(links, Producers(nodes), c, j) <==> GoesToProducer(nodes, links, c, j)
    {
    }
    forall j: nat | j < |links|
      ensures links[j].target < |nodes|
      ensures EdgeTracestate(nodes, links[j], baggage) == Some(tracestate) <==>
                CarrierIs(links[j].attributes, nodes[links[j].target], baggage, tracestate)
    {
      assert links[j] in links;
      CarrierIff(nodes, links[j], baggage, tracestate);
    }
    if OneEdge(nodes, links, Producers(nodes), c, baggage, tracestate) {
      var j: nat :| OnlyEdge(links, Producers(nodes), c, j) && links[j].target < |nodes|
          && EdgeTracestate(nodes, links[j], baggage) == Some(tracestate);
      assert GoesToProducer(nodes, links, c, j);
    }
    if HasOneCarrier(nodes, links, c, baggage, tracestate) {
      var j: nat :| GoesToProducer(nodes, links, c, j)
          && (forall other: nat | GoesToProducer(nodes, links, c, other) :: other == j)
          && CarrierIs(links[j].attributes, nodes[links[j].target], baggage, tracestate);
      assert OnlyEdge(links, Producers(nodes), c, j);
    }
  }

  lemma MessagingIff(anchor: string, g: Graph, checkout: nat, baggage: BusinessBaggage, tracestate: Entries)
    requires GoodSpans(g.nodes) && GoodIds(g.nodes) && TargetsInRange(g.nodes, g.links)
    ensures Acceptance.MessagingAccepted(anchor, g, checkout, baggage, tracestate) <==>
              MessagingIs(anchor, g.nodes, g.links, checkout, baggage, tracestate)
  {
    hide GoodSpans, RequireLinkSemantics, RabbitEdges, Producers, OrderConsumers, AnalyticsConsumers, OneEdge;
    hide HasBaggage;
    hide IsProducer, IsOrderConsumer, IsAnalyticsConsumer, HasOneCarrier, IsBusinessBaggage, IsSpanId, GoodIds;
    hide Acceptance.BaggageAccepted, IsCheckout;
    var orders, analytics := OrderConsumers(g.nodes), AnalyticsConsumers(g.nodes);
    var producers := Producers(g.nodes);
    RolesIff(g.nodes);
    BaggageStageIff(anchor, g.nodes, checkout, baggage);
    MatchingAreDistinct(g.nodes);
    EdgesIff(g.nodes, g.links, orders, producers, baggage, tracestate);
    EdgesIff(g.nodes, g.links, analytics, producers, baggage, tracestate);
    if IsBusinessBaggage(baggage) {
      forall c: nat
        ensures OneEdge(g.nodes, g.links, producers, c, baggage, tracestate) <==>
                  HasOneCarrier(g.nodes, g.links, c, baggage, tracestate)
      {
        OneCarrierIff(g.nodes, g.links, c, baggage, tracestate);
      }
    }
    assert orders != [] <==> exists i: nat :: IsOrderConsumer(g.nodes, i) by {
      if orders != [] {
        assert orders[0] in orders;
      }
    }
    assert analytics != [] <==> exists i: nat :: IsAnalyticsConsumer(g.nodes, i) by {
      if analytics != [] {
        assert analytics[0] in analytics;
      }
    }
  }

  lemma MatchingAreDistinct(nodes: seq<SpanNode>)
    ensures Counting.Distinct(OrderConsumers(nodes)) && Counting.Distinct(AnalyticsConsumers(nodes))
  {
  }

  /** One checkout span, and its baggage on it and on every producer and consumer. */
  lemma BaggageStageIff(anchor: string, nodes: seq<SpanNode>, checkout: nat, baggage: BusinessBaggage)
    requires GoodSpans(nodes)
    ensures Acceptance.BaggageAccepted(anchor, nodes, checkout, baggage) <==>
              && IsCheckout(anchor, nodes, checkout) && (forall i: nat | IsCheckout(anchor, nodes, i) :: i == checkout)
              && HasBaggage(nodes[checkout].span, baggage)
              && forall i: nat | IsProducer(nodes, i) || IsOrderConsumer(nodes, i) || IsAnalyticsConsumer(nodes, i) ::
                   HasBaggage(nodes[i].span, baggage)
    ensures Acceptance.BaggageAccepted(anchor, nodes, checkout, baggage) ==> IsBusinessBaggage(baggage)
  {
    hide SpanIsGood, Producers, OrderConsumers, AnalyticsConsumers, HasBaggage, IsBusinessBaggage, SpanMatches;
    hide BusinessBaggageOf, SpanAttributes, Handles;
    RolesIff(nodes);
    OneCheckoutIff(anchor, nodes, checkout);
    if checkout < |nodes| {
      assert SpanIsGood(nodes[checkout].span);
      BaggageIff(nodes[checkout].span, baggage);
      if HasBaggage(nodes[checkout].span, baggage) {
        HeldIsBusiness(nodes[checkout].span, baggage);
        forall i: nat | i < |nodes|
          ensures SpanMatches(nodes[i].span, baggage) <==> HasBaggage(nodes[i].span, baggage)
        {
          MatchIff(nodes[i].span, baggage);
        }
        AllMatchIff(nodes, baggage);
      }
    }
  }

  lemma OneCheckoutIff(anchor: string, nodes: seq<SpanNode>, checkout: nat)
    ensures CheckoutSpans(anchor, nodes) == {checkout} && checkout < |nodes| <==>
              IsCheckout(anchor, nodes, checkout) && (forall i: nat | IsCheckout(anchor, nodes, i) :: i == checkout)
  {
    var found := CheckoutSpans(anchor, nodes);
    assert forall i: nat :: i in found <==> IsCheckout(anchor, nodes, i);
    if found == {checkout} {
      assert checkout in found;
    }
  }

  lemma AllMatchIff(nodes: seq<SpanNode>, baggage: BusinessBaggage)
    requires GoodSpans(nodes)
    requires forall i: nat | i < |nodes| :: SpanMatches(nodes[i].span, baggage) <==> HasBaggage(nodes[i].span, baggage)
    ensures Acceptance.AllMatch(nodes, Acceptance.MessagingSpans(nodes), baggage) <==>
              forall i: nat | IsProducer(nodes, i) || IsOrderConsumer(nodes, i) || IsAnalyticsConsumer(nodes, i) ::
                HasBaggage(nodes[i].span, baggage)
  {
    hide GoodSpans, Producers, OrderConsumers, AnalyticsConsumers, HasBaggage, SpanMatches, Handles;
    RolesIff(nodes);
    forall i: nat
      ensures i in Acceptance.MessagingSpans(nodes) <==>
                i in Producers(nodes) || i in OrderConsumers(nodes) || i in AnalyticsConsumers(nodes)
    {
    }
  }

  // ----- the identity -----

  /** The span has this text under this key, and it is not blank. */
  ghost predicate Shows(span: Span, key: string, value: string) { Says(span, key, value) && HasText(Some(value)) }

  /** Nothing under this key, or this text. */
  ghost predicate SaysNoOther(span: Span, key: string, value: string) { IsSilent(span, key) || Says(span, key, value) }

  /** The producers have the event, the consumers its tenant, event and type, the order consumers also its order,
      and no analytics consumer another order. */
  ghost predicate IdentityIs(nodes: seq<SpanNode>, baggage: map<string, string>, identity: Identity) {
    && "tenant.id" in baggage && identity.tenantId == baggage["tenant.id"]
    && identity.eventType == "order.paid" && identity.eventKey == identity.orderId + ":paid"
    && (forall i: nat | IsProducer(nodes, i) :: Shows(nodes[i].span, "messaging.message.id", identity.eventId))
    && (forall i: nat | IsOrderConsumer(nodes, i) || IsAnalyticsConsumer(nodes, i) ::
          && Shows(nodes[i].span, "tenant.id", identity.tenantId)
          && Shows(nodes[i].span, "messaging.message.id", identity.eventId)
          && Shows(nodes[i].span, "commerce.event.type", "order.paid"))
    && (forall i: nat | IsOrderConsumer(nodes, i) :: Shows(nodes[i].span, "order.id", identity.orderId))
    && forall i: nat | IsAnalyticsConsumer(nodes, i) :: SaysNoOther(nodes[i].span, "order.id", identity.orderId)
  }

  lemma ShowsIff(span: Span, key: string, value: string)
    requires SpanIsGood(span)
    ensures RequiredAttribute(span, key) == Some(value) <==> Shows(span, key, value)
  {
    hide SpanIsGood, Says, AttributeString, RustText.Blank, HasText;
    SaysIff(span, key, value);
    BlankIff(value);
  }

  lemma NoOtherIff(span: Span, key: string, value: string)
    requires SpanIsGood(span)
    ensures SpanAttributes(span).Some?
    ensures Acceptance.AttributeAgrees(SpanAttributes(span).value, key, value) <==> SaysNoOther(span, key, value)
    ensures key == "order.id" ==> (AnalyticsOrderOk(span, value) <==> SaysNoOther(span, key, value))
  {
    hide SpanIsGood;
    var fields := FieldsOf(span);
  }

  lemma IdentityIff(nodes: seq<SpanNode>, baggage: BusinessBaggage, identity: Identity)
    requires GoodSpans(nodes) && "tenant.id" in baggage
    ensures Positions(nodes, Producers(nodes)) && Positions(nodes, OrderConsumers(nodes))
    ensures Positions(nodes, AnalyticsConsumers(nodes))
    ensures OneIdentity(nodes, Producers(nodes), OrderConsumers(nodes), AnalyticsConsumers(nodes), baggage, identity)
       <==> IdentityIs(nodes, baggage, identity)
  {
    hide SpanIsGood, Producers, OrderConsumers, AnalyticsConsumers, RequiredAttribute, Shows, SaysNoOther, Handles;
    hide AnalyticsOrderOk;
    Acceptance.MessagingPositions(nodes);
    RolesIff(nodes);
    forall i: nat, key, value | i < |nodes|
      ensures RequiredAttribute(nodes[i].span, key) == Some(value) <==> Shows(nodes[i].span, key, value)
    {
      ShowsIff(nodes[i].span, key, value);
    }
    forall i: nat, value | i < |nodes|
      ensures AnalyticsOrderOk(nodes[i].span, value) <==> SaysNoOther(nodes[i].span, "order.id", value)
    {
      NoOtherIff(nodes[i].span, "order.id", value);
    }
  }

  // ----- the notification -----

  /** A notification span below an order consumer, with the baggage and no other order, event type or message. */
  ghost predicate NotificationIs(nodes: seq<SpanNode>, baggage: map<string, string>, identity: Identity, i: nat) {
    && i < |nodes| && nodes[i].span.service == Some("notifications")
    && (exists chain :: IsChain(nodes, chain) && |chain| > 1 && chain[0] == i
                        && IsOrderConsumer(nodes, chain[|chain| - 1]))
    && HasBaggage(nodes[i].span, baggage)
    && SaysNoOther(nodes[i].span, "order.id", identity.orderId)
    && SaysNoOther(nodes[i].span, "commerce.event.type", identity.eventType)
    && SaysNoOther(nodes[i].span, "messaging.message.id", identity.eventId)
  }

  lemma BelowIff(nodes: seq<SpanNode>, index: Index, i: nat)
    requires GoodSpans(nodes) && IsIndex(nodes, index) && i < |nodes|
    ensures Topology.HasAncestor(nodes, index, i, Counting.Elements(OrderConsumers(nodes))) <==>
              exists chain :: IsChain(nodes, chain) && |chain| > 1 && chain[0] == i
                              && IsOrderConsumer(nodes, chain[|chain| - 1])
  {
    hide GoodSpans, IsIndex, OrderConsumers, IsOrderConsumer, Topology.Up, ParentIs;
    RolesIff(nodes);
    var orders := Counting.Elements(OrderConsumers(nodes));
    if Topology.HasAncestor(nodes, index, i, orders) {
      var k: nat :| k > 0 && Topology.Up(nodes, index, i, k).Some? && Topology.Up(nodes, index, i, k).value in orders;
      var chain := ChainOf(nodes, index, i, k);
      assert IsOrderConsumer(nodes, chain[|chain| - 1]);
    }
    if chain :| IsChain(nodes, chain) && |chain| > 1 && chain[0] == i && IsOrderConsumer(nodes, chain[|chain| - 1]) {
      ChainGoesUp(nodes, index, chain);
      assert Topology.Up(nodes, index, i, |chain| - 1).value in orders;
    }
  }

  lemma NotificationIff(nodes: seq<SpanNode>, index: Index, baggage: BusinessBaggage, identity: Identity, i: nat)
    requires GoodSpans(nodes) && IsIndex(nodes, index) && IsBusinessBaggage(baggage)
    ensures Acceptance.NotificationAt(nodes, index, OrderConsumers(nodes), baggage, identity, i)
       <==> NotificationIs(nodes, baggage, identity, i)
  {
    hide SpanIsGood, IsIndex, OrderConsumers, IsOrderConsumer, IsChain, Topology.HasAncestor, SpanMatches, HasBaggage;
    hide SaysNoOther, Acceptance.AttributeAgrees, SpanAttributes, IsBusinessBaggage;
    if i < |nodes| {
      assert SpanIsGood(nodes[i].span);
      BelowIff(nodes, index, i);
      MatchIff(nodes[i].span, baggage);
      NoOtherIff(nodes[i].span, "order.id", identity.orderId);
      NoOtherIff(nodes[i].span, "commerce.event.type", identity.eventType);
      NoOtherIff(nodes[i].span, "messaging.message.id", identity.eventId);
    }
  }

  // ----- acceptance -----

  ghost predicate GraphIs(anchor: string, traces: seq<Trace>, g: Graph) {
    && TracesAreGood(anchor, traces) && Lists(traces, g.nodes) && Indexes(g.nodes, g.index)
    && IsForest(g.nodes) && ListsLinks(g.nodes, g.links) && IsConnected(anchor, g.nodes, g.links)
  }

  /** All requirements on the traces and on what is found in them. */
  ghost predicate Required(anchor: string, traces: seq<Trace>, g: Graph, e: Acceptance.Findings) {
    && GraphIs(anchor, traces, g)
    && JourneyIsShown(g.nodes)
    && MessagingIs(anchor, g.nodes, g.links, e.checkout, e.baggage, e.tracestate)
    && IdentityIs(g.nodes, e.baggage, e.identity)
    && exists i: nat :: NotificationIs(g.nodes, e.baggage, e.identity, i)
  }

  lemma ListedAreGood(anchor: string, traces: seq<Trace>, nodes: seq<SpanNode>)
    requires TracesAreGood(anchor, traces) && Lists(traces, nodes)
    ensures GoodSpans(nodes) && GoodIds(nodes)
  {
    hide SpanIsGood, IsSpanId;
    forall i: nat | i < |nodes|
      ensures SpanIsGood(nodes[i].span) && IsSpanId(nodes[i].spanId)
    {
      var t, k := TraceOfPosition(traces, |traces|, i);
      assert ListedAt(traces, nodes, t, k);
      NodeIsGood(nodes[i], traces[t], traces[t].spans.value[k]);
    }
  }

  lemma NodeIsGood(node: SpanNode, trace: Trace, span: Span)
    requires IsNodeOf(node, trace, span) && SpanIsGood(span)
    ensures SpanIsGood(node.span) && IsSpanId(node.spanId)
  {
    hide IsSpanId;
    IdIff(node.spanId);
  }

  lemma ListedInRange(nodes: seq<SpanNode>, links: seq<Links.SpanLink>)
    requires ListsLinks(nodes, links)
    ensures Connectivity.LinksInRange(nodes, links) && TargetsInRange(nodes, links)
  {
    hide HexId, IsRabbit, NamesMessage;
    forall a: nat | a < |links|
      ensures links[a].source < |nodes| && links[a].target < |nodes|
    {
      var i, k := SpanOfLink(nodes, |nodes|, a);
      assert LinkListedAt(nodes, links, i, k);
    }
  }

  lemma ConnectedIff(anchor: string, g: Graph)
    requires IsIndex(g.nodes, g.index) && Connectivity.LinksInRange(g.nodes, g.links)
    ensures IsConnected(anchor, g.nodes, g.links) <==>
              exists root: nat ::
                Topology.IsRoot(g.nodes, root) && g.nodes[root].traceId == anchor
                  && Connectivity.AllReached(g.nodes, g.index, g.links, root)
  {
    hide IsIndex, CanWalk, Connectivity.Reaches;
    forall root: nat, i: nat
      ensures Connectivity.Reaches(g.nodes, g.index, g.links, root, i) <==> CanWalk(g.nodes, g.links, root, i)
    {
      ReachIff(g.nodes, g.index, g.links, root, i);
    }
    forall root: nat
      ensures RootOf(g.nodes, root, anchor) <==> Topology.IsRoot(g.nodes, root) && g.nodes[root].traceId == anchor
    {
    }
    if IsConnected(anchor, g.nodes, g.links) {
      var root: nat :| RootOf(g.nodes, root, anchor)
          && forall i: nat | i < |g.nodes| :: CanWalk(g.nodes, g.links, root, i);
      assert Connectivity.AllReached(g.nodes, g.index, g.links, root);
    }
    if root: nat :| Topology.IsRoot(g.nodes, root) && g.nodes[root].traceId == anchor
                    && Connectivity.AllReached(g.nodes, g.index, g.links, root) {
      assert RootOf(g.nodes, root, anchor);
    }
  }

  /** The graph stages accept the traces that are good, form one forest and are joined by good links. */
  lemma GraphIff(anchor: string, traces: seq<Trace>, g: Graph)
    ensures GraphAccepted(anchor, traces, g) <==> GraphIs(anchor, traces, g)
  {
    hide Collectable, TracesAreGood, Lists, IsIndex, Indexes, IsForest, ListsLinks, IsConnected, Links.LinksValid;
    hide Topology.ParentForest, Connectivity.AllReached, IsTraceId, TraceOk;
    CollectableIff(anchor, traces);
    if Collectable(anchor, traces) {
      CollectableAnchor(anchor, traces);
      ListIff(traces, g.nodes);
      IndexIff(g.nodes, g.index);
      if Lists(traces, g.nodes) && IsIndex(g.nodes, g.index) {
        ListedAreGood(anchor, traces, g.nodes);
        ForestIff(g.nodes, g.index);
        LinksIff(g.nodes, g.index, g.links);
        if ListsLinks(g.nodes, g.links) {
          ListedInRange(g.nodes, g.links);
          ConnectedIff(anchor, g);
        }
      }
    }
  }

  lemma CollectableAnchor(anchor: string, traces: seq<Trace>)
    requires Collectable(anchor, traces)
    ensures IsTraceId(anchor) && forall trace | trace in traces :: TraceOk(trace)
  {
    hide SpanOk, IsTraceId, SpanTotal, Counting.Distinct;
    var t: nat :| t < |traces| && Crawl.IdsOf(traces)[t] == anchor;
    assert traces[t] in traces && TraceOk(traces[t]);
  }

  /** The stages accept exactly the traces that meet the requirements, with exactly these findings. */
  lemma AcceptedIff(anchor: string, traces: seq<Trace>, g: Graph, e: Acceptance.Findings)
    ensures Acceptance.Accepted(anchor, traces, g, e) <==> Required(anchor, traces, g, e)
  {
    hide GraphAccepted, GraphIs, JourneyEvidence, JourneyIsShown, Acceptance.MessagingAccepted, MessagingIs;
    hide OneIdentity;
    hide IdentityIs, Acceptance.NotificationAt, NotificationIs, IsBusinessBaggage, GoodSpans, GoodIds, TargetsInRange;
    hide IsIndex, Producers, OrderConsumers, AnalyticsConsumers;
    GraphIff(anchor, traces, g);
    if GraphIs(anchor, traces, g) {
      GraphIsGood(anchor, traces, g);
      JourneyIff(g.nodes);
      MessagingIff(anchor, g, e.checkout, e.baggage, e.tracestate);
      if MessagingIs(anchor, g.nodes, g.links, e.checkout, e.baggage, e.tracestate) {
        MessagingBaggage(anchor, g, e.checkout, e.baggage, e.tracestate);
        IdentityIff(g.nodes, e.baggage, e.identity);
        forall i: nat
          ensures Acceptance.NotificationAt(g.nodes, g.index, OrderConsumers(g.nodes), e.baggage, e.identity, i)
             <==> NotificationIs(g.nodes, e.baggage, e.identity, i)
        {
          NotificationIff(g.nodes, g.index, e.baggage, e.identity, i);
        }
      }
    }
  }

  lemma GraphIsGood(anchor: string, traces: seq<Trace>, g: Graph)
    requires GraphIs(anchor, traces, g)
    ensures IsIndex(g.nodes, g.index) && GoodSpans(g.nodes) && GoodIds(g.nodes) && TargetsInRange(g.nodes, g.links)
  {
    hide TracesAreGood, Lists, IsForest, ListsLinks, IsConnected, GoodSpans, GoodIds, IsIndex, Indexes, TargetsInRange;
    IndexIff(g.nodes, g.index);
    ListedAreGood(anchor, traces, g.nodes);
    ListedInRange(g.nodes, g.links);
  }

  lemma MessagingBaggage(anchor: string, g: Graph, checkout: nat, baggage: BusinessBaggage, tracestate: Entries)
    requires MessagingIs(anchor, g.nodes, g.links, checkout, baggage, tracestate)
    ensures IsBusinessBaggage(baggage) && "tenant.id" in baggage
  {
    hide HasBaggage, HasOneCarrier, IsBusinessBaggage;
    HeldIsBusiness(g.nodes[checkout].span, baggage);
    KeysAreThere(g.nodes[checkout].span, baggage);
  }

  /** On acceptance: the five services, both browser services or none, the three named spans and a payment span
      that mentions the authorization. */
  lemma AcceptedJourney(anchor: string, traces: seq<Trace>, g: Graph, e: Acceptance.Findings)
    requires Acceptance.Accepted(anchor, traces, g, e)
    ensures forall service | service in ["checkout", "catalog", "pricing", "inventory", "payment"] ::
              ServiceShown(g.nodes, service)
    ensures (exists node | node in g.nodes :: node.span.service == Some("web")) <==>
              exists node | node in g.nodes :: node.span.service == Some("storefront")
    ensures forall name | name in ["checkout", "pricing.quote", "inventory.reserve"] :: NameShown(g.nodes, name)
    ensures exists node | node in g.nodes ::
              && node.span.service == Some("payment")
              && node.span.name.Some? && node.span.service.Some? && node.span.attributes.JsonText?
              && exists i: nat :: AuthorizeAt(TextOf(node.span), i)
  {
    hide GraphIs, MessagingIs, IdentityIs, NotificationIs, NameShown, AuthorizeAt, TextOf, Acceptance.Accepted;
    AcceptedIff(anchor, traces, g, e);
    assert forall i | 0 <= i < |g.nodes| :: g.nodes[i] in g.nodes;
    if node :| node in g.nodes && node.span.service == Some("web") {
      assert ServiceShown(g.nodes, "web");
    }
    if node :| node in g.nodes && node.span.service == Some("storefront") {
      assert ServiceShown(g.nodes, "storefront");
    }
    var i :| 0 <= i < |g.nodes| && g.nodes[i].span.service == Some("payment") && MentionsAuthorize(g.nodes[i].span);
  }

  /** On acceptance every link goes from the consuming to the producing span of one RabbitMQ message. */
  lemma AcceptedLinks(anchor: string, traces: seq<Trace>, g: Graph, e: Acceptance.Findings, link: Links.SpanLink)
    requires Acceptance.Accepted(anchor, traces, g, e) && link in g.links
    ensures link.source < |g.nodes| && link.target < |g.nodes| && link.source != link.target
    ensures var (source, target) := (g.nodes[link.source].span, g.nodes[link.target].span);
            && Says(source, "messaging.system", "rabbitmq") && Says(target, "messaging.system", "rabbitmq")
            && Says(source, "messaging.operation.name", "process") && source.kind == Some("SPAN_KIND_CONSUMER")
            && Says(target, "messaging.operation.name", "send") && target.kind == Some("SPAN_KIND_PRODUCER")
            && exists id :: Shows(source, "messaging.message.id", id) && Shows(target, "messaging.message.id", id)
  {
    hide TracesAreGood, Lists, Indexes, IsForest, IsConnected, JourneyIsShown, MessagingIs, IdentityIs, NotificationIs;
    hide Says, HasText, HexId, Acceptance.Accepted;
    AcceptedIff(anchor, traces, g, e);
    var a: nat :| a < |g.links| && g.links[a] == link;
    var i, k := SpanOfLink(g.nodes, |g.nodes|, a);
    assert LinkListedAt(g.nodes, g.links, i, k);
    var source, target := g.nodes[link.source].span, g.nodes[link.target].span;
    var id :| NamesMessage(source, id) && NamesMessage(target, id);
    assert Shows(source, "messaging.message.id", id) && Shows(target, "messaging.message.id", id);
  }

  /** What the verification reports. */
  lemma ResultIs(anchor: string, traces: seq<Trace>, g: Graph, e: Acceptance.Findings)
    requires Acceptance.Accepted(anchor, traces, g, e)
    ensures var r := Acceptance.ResultOf(traces, g, e);
            && r.summary.traces == |traces| && r.summary.spans == First(traces, |traces|)
            && (forall service :: service in r.summary.services <==> ServiceShown(g.nodes, service))
            && HasBaggage(g.nodes[e.checkout].span, r.businessBaggage)
            && IdentityIs(g.nodes, r.businessBaggage, r.identity)
  {
    hide IsForest, ListsLinks, IsConnected, JourneyIsShown, HasBaggage, IdentityIs, NotificationIs, SpanIsGood, Indexes;
    hide Acceptance.Accepted, MessagingIs, TracesAreGood, ServiceShown, Services;
    AcceptedIff(anchor, traces, g, e);
    ListedAreGood(anchor, traces, g.nodes);
    CheckoutHasBaggage(anchor, g, e);
    ServicesIff(g.nodes);
  }

  lemma CheckoutHasBaggage(anchor: string, g: Graph, e: Acceptance.Findings)
    requires MessagingIs(anchor, g.nodes, g.links, e.checkout, e.baggage, e.tracestate)
    ensures e.checkout < |g.nodes| && HasBaggage(g.nodes[e.checkout].span, e.baggage)
  {
    hide HasBaggage, HasOneCarrier;
  }

  lemma ServicesIff(nodes: seq<SpanNode>)
    requires GoodSpans(nodes)
    ensures forall service :: service in Services(nodes) <==> ServiceShown(nodes, service)
  {
    hide SpanIsGood;
    forall i: nat | i < |nodes|
      ensures nodes[i].span.service.Some? && nodes[i].span.service.value != ""
    {
      ServiceIsText(nodes[i].span);
    }
  }

  lemma ServiceIsText(span: Span)
    requires SpanIsGood(span)
    ensures span.service.Some? && span.service.value != ""
  {
  }
}
