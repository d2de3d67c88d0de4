/** The evidence stages put together, and the facts that hold only because all of them passed. */
module Acceptance {
  import opened Outcomes
  import RustText
  import Strings
  import opened TraceModel
  import Headers
  import Counting
  import opened Crawl
  import opened Spans
  import Topology
  import Links
  import opened Evidence
  import opened Analysis

  // ----- the messaging stages -----

  /** What the graph stages hand on. */
  ghost predicate SoundGraph(g: Graph) {
    && IsIndex(g.nodes, g.index) && Topology.ParentForest(g.nodes, g.index)
    && forall link | link in g.links :: Links.SoundLink(g.nodes, link)
  }

  ghost predicate AllMatch(nodes: seq<SpanNode>, positions: seq<nat>, baggage: BusinessBaggage) {
    forall p | p in positions :: p < |nodes| && SpanMatches(nodes[p].span, baggage)
  }

  function MessagingSpans(nodes: seq<SpanNode>): seq<nat> {
    Producers(nodes) + OrderConsumers(nodes) + AnalyticsConsumers(nodes)
  }

  ghost predicate BaggageAccepted(anchor: string, nodes: seq<SpanNode>, checkout: nat, baggage: BusinessBaggage) {
    && CheckoutSpans(anchor, nodes) == {checkout} && checkout < |nodes|
    && SpanAttributes(nodes[checkout].span).Some?
    && BusinessBaggageOf(SpanAttributes(nodes[checkout].span).value) == Some(baggage)
    && AllMatch(nodes, MessagingSpans(nodes), baggage)
  }

  /** Both kinds of consumers are linked to the producers, and everything on the way carries the
      business baggage of the checkout span. */
  ghost predicate MessagingAccepted(anchor: string, g: Graph, checkout: nat, baggage: BusinessBaggage,
                                    tracestate: Headers.Entries) {
    && RequireLinkSemantics(g.links, OrderConsumers(g.nodes), Producers(g.nodes))
    && RequireLinkSemantics(g.links, AnalyticsConsumers(g.nodes), Producers(g.nodes))
    && BaggageAccepted(anchor, g.nodes, checkout, baggage)
    && TargetsInRange(g.nodes, g.links)
    && RabbitEdges(g.links, g.nodes, Producers(g.nodes), OrderConsumers(g.nodes), baggage, tracestate)
    && RabbitEdges(g.links, g.nodes, Producers(g.nodes), AnalyticsConsumers(g.nodes), baggage, tracestate)
  }

  method CheckAllMatch(nodes: seq<SpanNode>, positions: seq<nat>, baggage: BusinessBaggage) returns (ok: bool)
    requires Positions(nodes, positions)
    ensures ok <==> AllMatch(nodes, positions, baggage)
  {
    for i := 0 to |positions|
      invariant AllMatch(nodes, positions[..i], baggage)
    {
      assert positions[..i + 1] == positions[..i] + [positions[i]];
      assert positions[i] in positions;
      var one := RequireSpanBusinessBaggage(nodes[positions[i]].span, baggage);
      if !one {
        return false;
      }
    }
    assert positions[..|positions|] == positions;
    return true;
  }

  method CheckBaggage(anchor: string, nodes: seq<SpanNode>) returns (r: Result<(nat, BusinessBaggage), AnalysisFault>)
    ensures r.Ok? ==> BaggageAccepted(anchor, nodes, r.value.0, r.value.1)
    ensures r.Err? ==> MessagingFault(r.error)
    ensures r.Err? ==> forall checkout: nat, baggage :: !BaggageAccepted(anchor, nodes, checkout, baggage)
  {
    var candidates := CheckoutSpans(anchor, nodes);
    if |candidates| != 1 {
      forall checkout: nat, baggage
        ensures !BaggageAccepted(anchor, nodes, checkout, baggage)
      {
        assert candidates == {checkout} ==> |candidates| == 1;
      }
      return Err(CheckoutSpan);
    }
    var checkout :| checkout in candidates;
    Counting.SubsetCount({checkout}, candidates);
    var attributes := SpanAttributes(nodes[checkout].span);
    forall other, baggage | BaggageAccepted(anchor, nodes, other, baggage)
      ensures other == checkout
    {
      assert checkout in {other};
    }
    if attributes.None? {
      return Err(BaggageStage);
    }
    var baggage := FromAttributeObject(attributes.value);
    if baggage.None? {
      return Err(BaggageStage);
    }
    assert Positions(nodes, MessagingSpans(nodes));
    var agree := CheckAllMatch(nodes, MessagingSpans(nodes), baggage.value);
    if !agree {
      return Err(BaggageStage);
    }
    return Ok((checkout, baggage.value));
  }

  lemma SoundTargets(g: Graph)
    requires SoundGraph(g)
    ensures TargetsInRange(g.nodes, g.links)
  {
  }

  lemma OneBaggage(anchor: string, nodes: seq<SpanNode>, c1: nat, b1: BusinessBaggage, c2: nat, b2: BusinessBaggage)
    requires BaggageAccepted(anchor, nodes, c1, b1) && BaggageAccepted(anchor, nodes, c2, b2)
    ensures c1 == c2 && b1 == b2
  {
    assert c1 in {c2};
  }

  lemma OneTracestate(g: Graph, consumers: seq<nat>, baggage: BusinessBaggage, one: Headers.Entries,
                      other: Headers.Entries)
    requires TargetsInRange(g.nodes, g.links)
    requires RabbitEdges(g.links, g.nodes, Producers(g.nodes), consumers, baggage, one)
    requires RabbitEdges(g.links, g.nodes, Producers(g.nodes), consumers, baggage, other)
    ensures one == other
  {
    var j :| j in Edges(g.links, consumers, Producers(g.nodes));
  }

  method CheckMessaging(anchor: string, g: Graph)
    returns (r: Result<(nat, BusinessBaggage, Headers.Entries), AnalysisFault>)
    requires SoundGraph(g)
    ensures r.Ok? ==> MessagingAccepted(anchor, g, r.value.0, r.value.1, r.value.2)
    ensures r.Err? ==> MessagingFault(r.error)
    ensures r.Err? ==> forall checkout, baggage, tracestate ::
              !MessagingAccepted(anchor, g, checkout, baggage, tracestate)
  {
    hide RabbitEdges, Producers, OrderConsumers, AnalyticsConsumers, Links.LinkSemantics, BaggageAccepted;
    hide Topology.ParentForest;
    var producers := Producers(g.nodes);
    var orders := OrderConsumers(g.nodes);
    var analytics := AnalyticsConsumers(g.nodes);
    if !RequireLinkSemantics(g.links, orders, producers) || !RequireLinkSemantics(g.links, analytics, producers) {
      return Err(EdgeSources);
    }
    var checked := CheckBaggage(anchor, g.nodes);
    if checked.Err? {
      return Err(checked.error);
    }
    var (checkout, baggage) := checked.value;
    SoundTargets(g);
    forall c, b, t | MessagingAccepted(anchor, g, c, b, t)
      ensures c == checkout && b == baggage
    {
      OneBaggage(anchor, g.nodes, checkout, baggage, c, b);
    }
    var first := ValidateCheckoutRabbitEdges(g.links, g.nodes, producers, orders, baggage);
    if first.None? {
      return Err(RabbitStage);
    }
    var second := ValidateCheckoutRabbitEdges(g.links, g.nodes, producers, analytics, baggage);
    if second.None? {
      return Err(RabbitStage);
    }
    if first.value != second.value {
      forall t | MessagingAccepted(anchor, g, checkout, baggage, t)
        ensures false
      {
        OneTracestate(g, orders, baggage, first.value, t);
        OneTracestate(g, analytics, baggage, second.value, t);
      }
      return Err(TracestatesDiffer);
    }
    return Ok((checkout, baggage, first.value));
  }

  // ----- the identity, after the messaging stages -----

  lemma BaggageIsBusiness(anchor: string, nodes: seq<SpanNode>, checkout: nat, baggage: BusinessBaggage)
    requires BaggageAccepted(anchor, nodes, checkout, baggage)
    ensures IsBusinessBaggage(baggage)
  {
    var attributes := SpanAttributes(nodes[checkout].span).value;
    forall key | key in REQUIRED_KEYS
      ensures key in baggage
    {
      assert BusinessKey(key) && Lookup(baggage, key) == TextAt(attributes, key);
    }
  }

  lemma MessagingPositions(nodes: seq<SpanNode>)
    ensures Positions(nodes, Producers(nodes)) && Positions(nodes, OrderConsumers(nodes))
              && Positions(nodes, AnalyticsConsumers(nodes))
    ensures forall p | p in OrderConsumers(nodes) + AnalyticsConsumers(nodes) :: p in MessagingSpans(nodes)
    ensures forall p | p in OrderConsumers(nodes) + AnalyticsConsumers(nodes) ::
              p < |nodes| && AttributeString(nodes[p].span, EVENT_TYPE) == Some("order.paid")
  {
    forall p | p in OrderConsumers(nodes) + AnalyticsConsumers(nodes)
      ensures p < |nodes| && AttributeString(nodes[p].span, EVENT_TYPE) == Some("order.paid")
    {
      assert ("commerce.event.type", "order.paid") == Messaging("fulfillment.orders", "process")[3];
      assert ("commerce.event.type", "order.paid") == Messaging("analytics.events", "process")[3];
    }
  }

  /** The link, matching and baggage stages have passed. */
  ghost predicate ConsumersReady(g: Graph, baggage: BusinessBaggage) {
    && (forall link | link in g.links :: Links.SoundLink(g.nodes, link))
    && RequireLinkSemantics(g.links, OrderConsumers(g.nodes), Producers(g.nodes))
    && RequireLinkSemantics(g.links, AnalyticsConsumers(g.nodes), Producers(g.nodes))
    && IsBusinessBaggage(baggage)
    && AllMatch(g.nodes, MessagingSpans(g.nodes), baggage)
    && Positions(g.nodes, Producers(g.nodes)) && Positions(g.nodes, OrderConsumers(g.nodes))
    && Positions(g.nodes, AnalyticsConsumers(g.nodes))
  }

  lemma ReadyOnceAccepted(anchor: string, g: Graph, checkout: nat, baggage: BusinessBaggage,
                          tracestate: Headers.Entries)
    requires SoundGraph(g) && MessagingAccepted(anchor, g, checkout, baggage, tracestate)
    ensures ConsumersReady(g, baggage)
  {
    MessagingPositions(g.nodes);
    BaggageIsBusiness(anchor, g.nodes, checkout, baggage);
  }

  lemma ConsumerTenant(span: Span, baggage: BusinessBaggage)
    requires IsBusinessBaggage(baggage) && SpanMatches(span, baggage)
    ensures RequiredAttribute(span, "tenant.id") == Some(TenantOf(baggage))
  {
    assert "tenant.id" == REQUIRED_KEYS[0] && "tenant.id" in REQUIRED_KEYS;
    SpanCarries(span, baggage, "tenant.id");
  }

  lemma ConsumerEventType(span: Span)
    requires AttributeString(span, EVENT_TYPE) == Some("order.paid")
    ensures RequiredAttribute(span, EVENT_TYPE) == Some("order.paid")
  {
    assert "order.paid"[0] in "order.paid" && !RustText.WhiteSpace("order.paid"[0]);
  }

  lemma ConsumerProducer(g: Graph, p: nat) returns (q: nat)
    requires forall link | link in g.links :: Links.SoundLink(g.nodes, link)
    requires
      || (p in OrderConsumers(g.nodes)
          && RequireLinkSemantics(g.links, OrderConsumers(g.nodes), Producers(g.nodes)))
      || (p in AnalyticsConsumers(g.nodes)
          && RequireLinkSemantics(g.links, AnalyticsConsumers(g.nodes), Producers(g.nodes)))
    ensures p < |g.nodes| && q in Producers(g.nodes) && q < |g.nodes|
    ensures RequiredAttribute(g.nodes[p].span, MESSAGE_ID) == RequiredAttribute(g.nodes[q].span, MESSAGE_ID)
    ensures RequiredAttribute(g.nodes[p].span, MESSAGE_ID).Some?
  {
    var link :| link in g.links && link.source == p && link.target in Producers(g.nodes);
    q := link.target;
    assert Links.SoundLink(g.nodes, link);
  }

  /** A consumer that passed the earlier stages has the tenant of the baggage, the message of a
      producer and the paid event type. */
  lemma ConsumerIsSettled(g: Graph, baggage: BusinessBaggage, p: nat) returns (q: nat)
    requires ConsumersReady(g, baggage)
    requires p in OrderConsumers(g.nodes) + AnalyticsConsumers(g.nodes)
    ensures p < |g.nodes| && q in Producers(g.nodes) && q < |g.nodes|
    ensures RequiredAttribute(g.nodes[p].span, "tenant.id") == Some(TenantOf(baggage))
    ensures RequiredAttribute(g.nodes[p].span, EVENT_TYPE) == Some("order.paid")
    ensures RequiredAttribute(g.nodes[p].span, MESSAGE_ID) == RequiredAttribute(g.nodes[q].span, MESSAGE_ID)
    ensures RequiredAttribute(g.nodes[p].span, MESSAGE_ID).Some?
  {
    MessagingPositions(g.nodes);
    ConsumerTenant(g.nodes[p].span, baggage);
    ConsumerEventType(g.nodes[p].span);
    q := ConsumerProducer(g, p);
  }

  /** A fault over a producer's message identity or over an order identity. */
  predicate ProducerOrOrder(fault: IdentityFault) {
    || fault.ProducerMessageMissing? || fault.ProducerMessagesDiffer?
    || fault.OrderIdMissing? || fault.ConsumerOrder? || fault.AnalyticsOrder?
  }

  /** Once the link, matching and baggage stages have passed, the identity stage can reject only over
      a producer's message identity, missing or not shared, or over an order identity: the tenant,
      message and event-type checks on consumers cannot fail. */
  lemma IdentityRejectsOnlyProducersAndOrders(g: Graph, baggage: BusinessBaggage, fault: IdentityFault)
    requires ConsumersReady(g, baggage)
    requires IdentityRejected(g.nodes, Producers(g.nodes), OrderConsumers(g.nodes), AnalyticsConsumers(g.nodes),
              baggage, fault)
    ensures ProducerOrOrder(fault)
  {
    var producers, orders, analytics := Producers(g.nodes), OrderConsumers(g.nodes), AnalyticsConsumers(g.nodes);
    forall p | p in orders + analytics
      ensures p < |g.nodes|
      ensures RequiredAttribute(g.nodes[p].span, "tenant.id") == Some(TenantOf(baggage))
      ensures RequiredAttribute(g.nodes[p].span, EVENT_TYPE) == Some("order.paid")
      ensures ProducersAgree(g.nodes, producers) ==>
              RequiredAttribute(g.nodes[p].span, MESSAGE_ID) == FirstAttribute(g.nodes, producers, MESSAGE_ID)
    {
      var q := ConsumerIsSettled(g, baggage, p);
      assert producers[0] in producers;
    }
    assert orders[0] in orders + analytics;
  }

  ghost predicate OneOrder(nodes: seq<SpanNode>, orderId: string) {
    && (forall p | p in OrderConsumers(nodes) ::
          p < |nodes| && RequiredAttribute(nodes[p].span, ORDER_ID) == Some(orderId))
    && forall p | p in AnalyticsConsumers(nodes) :: p < |nodes| && AnalyticsOrderOk(nodes[p].span, orderId)
  }

  /** After those stages there is one identity exactly when the producers share a message identity and
      the consumers one order. */
  lemma IdentityExistsIff(g: Graph, baggage: BusinessBaggage)
    requires ConsumersReady(g, baggage)
    ensures (exists identity ::
              OneIdentity(g.nodes, Producers(g.nodes), OrderConsumers(g.nodes), AnalyticsConsumers(g.nodes), baggage,
                  identity))
       <==> ProducersAgree(g.nodes, Producers(g.nodes)) && exists orderId :: OneOrder(g.nodes, orderId)
  {
    var producers, orders, analytics := Producers(g.nodes), OrderConsumers(g.nodes), AnalyticsConsumers(g.nodes);
    if identity :| OneIdentity(g.nodes, producers, orders, analytics, baggage, identity) {
      assert ShareMessage(g.nodes, producers, identity.eventId);
      assert OneOrder(g.nodes, identity.orderId);
    }
    if eventId, orderId :| ShareMessage(g.nodes, producers, eventId) && OneOrder(g.nodes, orderId) {
      var identity := IdentityFrom(g, baggage, eventId, orderId);
    }
  }

  lemma IdentityFrom(g: Graph, baggage: BusinessBaggage, eventId: string, orderId: string) returns (identity: Identity)
    requires ConsumersReady(g, baggage)
    requires ShareMessage(g.nodes, Producers(g.nodes), eventId) && OneOrder(g.nodes, orderId)
    ensures OneIdentity(g.nodes, Producers(g.nodes), OrderConsumers(g.nodes), AnalyticsConsumers(g.nodes), baggage,
              identity)
  {
    var orders, analytics := OrderConsumers(g.nodes), AnalyticsConsumers(g.nodes);
    identity := Identity(TenantOf(baggage), eventId, "order.paid", orderId + ":paid", orderId);
    forall p | p in orders || p in analytics
      ensures p < |g.nodes| && SpanHasIdentity(g.nodes[p].span, identity, false)
    {
      assert p in orders + analytics;
      var q := ConsumerIsSettled(g, baggage, p);
    }
  }

  // ----- the notification -----

  predicate AttributeAgrees(attributes: Attributes, key: string, expected: string) {
    key in attributes ==> TextAt(attributes, key) == Some(expected)
  }

  /** A notification span below an order consumer, with the same baggage and nothing that contradicts
      the identity. */
  ghost predicate NotificationAt(nodes: seq<SpanNode>, index: Index, orders: seq<nat>, baggage: BusinessBaggage,
                                 identity: Identity, i: nat)
    requires IsIndex(nodes, index)
  {
    && i < |nodes| && nodes[i].span.service == Some("notifications")
    && Topology.HasAncestor(nodes, index, i, Counting.Elements(orders))
    && SpanMatches(nodes[i].span, baggage)
    && SpanAttributes(nodes[i].span).Some?
    && var attributes := SpanAttributes(nodes[i].span).value;
       && AttributeAgrees(attributes, ORDER_ID, identity.orderId)
       && AttributeAgrees(attributes, EVENT_TYPE, identity.eventType)
       && AttributeAgrees(attributes, MESSAGE_ID, identity.eventId)
  }

  method RequireNotificationEvidence(nodes: seq<SpanNode>, index: Index, orders: seq<nat>, baggage: BusinessBaggage,
                                     identity: Identity)
    returns (ok: bool)
    requires IsIndex(nodes, index)
    ensures ok ==> exists i: nat :: NotificationAt(nodes, index, orders, baggage, identity, i)
    ensures !ok && Topology.ParentForest(nodes, index) ==> forall i: nat ::
              !NotificationAt(nodes, index, orders, baggage, identity, i)
  {
    var ancestors := set p | p in orders;
    assert ancestors == Counting.Elements(orders);
    for i := 0 to |nodes|
      invariant forall j: nat | j < i :: !NotificationAt(nodes, index, orders, baggage, identity, j)
    {
      if nodes[i].span.service == Some("notifications") {
        var below := Topology.HasParentAncestor(nodes, index, i, ancestors);
        if below.Err? {
          return false;
        }
        if below.value {
          var matches := RequireSpanBusinessBaggage(nodes[i].span, baggage);
          var attributes := SpanAttributes(nodes[i].span);
          if && matches && attributes.Some?
             && AttributeAgrees(attributes.value, ORDER_ID, identity.orderId)
             && AttributeAgrees(attributes.value, EVENT_TYPE, identity.eventType)
             && AttributeAgrees(attributes.value, MESSAGE_ID, identity.eventId)
          {
            assert NotificationAt(nodes, index, orders, baggage, identity, i);
            return true;
          }
        }
      }
    }
    return false;
  }

  // ----- acceptance -----

  datatype Findings = Findings(checkout: nat, baggage: BusinessBaggage, tracestate: Headers.Entries, identity: Identity)

  ghost predicate EvidenceAccepted(anchor: string, g: Graph, e: Findings)
    requires IsIndex(g.nodes, g.index)
  {
    && JourneyEvidence(g.nodes)
    && MessagingAccepted(anchor, g, e.checkout, e.baggage, e.tracestate)
    && Positions(g.nodes, Producers(g.nodes)) && Positions(g.nodes, OrderConsumers(g.nodes))
    && Positions(g.nodes, AnalyticsConsumers(g.nodes))
    && OneIdentity(g.nodes, Producers(g.nodes), OrderConsumers(g.nodes), AnalyticsConsumers(g.nodes), e.baggage,
          e.identity)
    && exists i: nat :: NotificationAt(g.nodes, g.index, OrderConsumers(g.nodes), e.baggage, e.identity, i)
  }

  ghost predicate Accepted(anchor: string, traces: seq<Trace>, g: Graph, e: Findings) {
    GraphAccepted(anchor, traces, g) && EvidenceAccepted(anchor, g, e)
  }

  datatype Summary = Summary(traces: nat, spans: nat, services: set<string>)

  datatype AnalysisResult = AnalysisResult(summary: Summary, businessBaggage: BusinessBaggage, identity: Identity)

  function ResultOf(traces: seq<Trace>, g: Graph, e: Findings): AnalysisResult {
    AnalysisResult(Summary(|traces|, |g.nodes|, Services(g.nodes)), e.baggage, e.identity)
  }

  lemma OneIdentityOnly(nodes: seq<SpanNode>, producers: seq<nat>, orders: seq<nat>, analytics: seq<nat>,
                        baggage: BusinessBaggage, one: Identity, other: Identity)
    requires Positions(nodes, producers) && Positions(nodes, orders) && Positions(nodes, analytics)
    requires producers != [] && orders != []
    requires OneIdentity(nodes, producers, orders, analytics, baggage, one)
    requires OneIdentity(nodes, producers, orders, analytics, baggage, other)
    ensures one == other
  {
    assert producers[0] in producers && orders[0] in orders;
  }

  lemma MessagingUnique(anchor: string, g: Graph, c1: nat, b1: BusinessBaggage, t1: Headers.Entries, c2: nat,
                        b2: BusinessBaggage, t2: Headers.Entries)
    requires MessagingAccepted(anchor, g, c1, b1, t1) && MessagingAccepted(anchor, g, c2, b2, t2)
    ensures c1 == c2 && b1 == b2
  {
    OneBaggage(anchor, g.nodes, c1, b1, c2, b2);
  }

  /** The identity and notification stages. */
  method CheckIdentity(anchor: string, g: Graph, checkout: nat, baggage: BusinessBaggage, tracestate: Headers.Entries)
    returns (r: Result<Identity, AnalysisFault>)
    requires SoundGraph(g) && JourneyEvidence(g.nodes) && MessagingAccepted(anchor, g, checkout, baggage, tracestate)
    ensures r.Ok? ==> EvidenceAccepted(anchor, g, Findings(checkout, baggage, tracestate, r.value))
    ensures r.Err? ==> forall e :: !EvidenceAccepted(anchor, g, e)
    ensures r.Err? ==> r.error.NotificationStage? || (r.error.IdentityStage? && ProducerOrOrder(r.error.identity))
  {
    MessagingPositions(g.nodes);
    var producers, orders, analytics := Producers(g.nodes), OrderConsumers(g.nodes), AnalyticsConsumers(g.nodes);
    var identity := VerifiedCommerceIdentity(g.nodes, producers, orders, analytics, baggage);
    forall e | EvidenceAccepted(anchor, g, e)
      ensures e.baggage == baggage
    {
      MessagingUnique(anchor, g, checkout, baggage, tracestate, e.checkout, e.baggage, e.tracestate);
    }
    if identity.Err? {
      ReadyOnceAccepted(anchor, g, checkout, baggage, tracestate);
      IdentityRejectsOnlyProducersAndOrders(g, baggage, identity.error);
      forall e | EvidenceAccepted(anchor, g, e)
        ensures false
      {
        RejectedHasNoIdentity(g.nodes, producers, orders, analytics, baggage, identity.error, e.identity);
      }
      return Err(IdentityStage(identity.error));
    }
    forall e | EvidenceAccepted(anchor, g, e)
      ensures e.identity == identity.value
    {
      OneIdentityOnly(g.nodes, producers, orders, analytics, baggage, identity.value, e.identity);
    }
    var notified := RequireNotificationEvidence(g.nodes, g.index, orders, baggage, identity.value);
    if !notified {
      return Err(NotificationStage);
    }
    return Ok(identity.value);
  }

  /** Accepts exactly when every stage holds; a rejection by the identity stage is about a producer's
      message identity or an order identity. */
  method AnalyzeDetails(anchor: string, traces: seq<Trace>)
    returns (r: Result<AnalysisResult, AnalysisFault>, ghost g: Graph, ghost e: Findings)
    ensures r.Ok? ==> Accepted(anchor, traces, g, e)
    ensures r.Ok? ==>
            && r.value == ResultOf(traces, g, e)
            && |g.nodes| == |Flatten(traces)|
    ensures r.Err? ==> forall g, e :: !Accepted(anchor, traces, g, e)
    ensures r.Err? && r.error.IdentityStage? ==> ProducerOrOrder(r.error.identity)
    ensures r == Err(BadAnchor) ==> !IsTraceId(anchor)
    ensures r.Err? && r.error.CollectStage? ==> CollectFaultHolds(r.error.collect, anchor, traces)
  {
    hide JourneyEvidence, MessagingAccepted, Collectable, Links.LinksValid, Topology.ParentForest, OneIdentity;
    hide NotificationAt;
    hide Links.LinkSemantics;
    g, e := Graph([], map[], []), Findings(0, map[], map[], Identity("", "", "", "", ""));
    var graph := CheckGraph(anchor, traces);
    if graph.Err? {
      r := Err(graph.error);
      return;
    }
    g := graph.value;
    GraphUnique(anchor, traces, graph.value);
    if !JourneyEvidence(graph.value.nodes) {
      r := Err(Journey);
      return;
    }
    Links.ResolvedAreSound(g.nodes, g.index, |g.nodes|);
    var messaging := CheckMessaging(anchor, graph.value);
    if messaging.Err? {
      r := Err(messaging.error);
      return;
    }
    var (checkout, baggage, tracestate) := messaging.value;
    var identity := CheckIdentity(anchor, graph.value, checkout, baggage, tracestate);
    if identity.Err? {
      r := Err(identity.error);
      return;
    }
    e := Findings(checkout, baggage, tracestate, identity.value);
    var summary := Summary(|traces|, |graph.value.nodes|, Services(graph.value.nodes));
    r := Ok(AnalysisResult(summary, baggage, identity.value));
  }

  // ----- the crawl and the analysis -----

  datatype AttemptFault = CrawlFailed | Rejected(fault: AnalysisFault) | NotConfirmed

  ghost predicate Gives(backend: Backend, anchor: string, traces: seq<Trace>, g: Graph, e: Findings,
                        result: AnalysisResult) {
    CrawlResult(backend, anchor, traces) && Accepted(anchor, traces, g, e) && result == ResultOf(traces, g, e)
  }

  /** The crawl of the backend is accepted, with this result. */
  ghost predicate Accepts(backend: Backend, anchor: string, result: AnalysisResult) {
    exists traces, g, e :: Gives(backend, anchor, traces, g, e, result)
  }

  lemma AcceptedOnce(anchor: string, traces: seq<Trace>, g: Graph, e: Findings, g2: Graph, e2: Findings)
    requires Accepted(anchor, traces, g, e) && Accepted(anchor, traces, g2, e2)
    ensures g == g2 && e.baggage == e2.baggage && e.identity == e2.identity
  {
    hide GraphAccepted, MessagingAccepted, OneIdentity, JourneyEvidence, NotificationAt, Producers, OrderConsumers;
    hide AnalyticsConsumers;
    GraphUnique(anchor, traces, g);
    MessagingUnique(anchor, g, e.checkout, e.baggage, e.tracestate, e2.checkout, e2.baggage, e2.tracestate);
    MessagingIsNotEmpty(anchor, g, e.checkout, e.baggage, e.tracestate);
    OneIdentityOnly(g.nodes, Producers(g.nodes), OrderConsumers(g.nodes), AnalyticsConsumers(g.nodes),
                    e.baggage, e.identity, e2.identity);
  }

  lemma MessagingIsNotEmpty(anchor: string, g: Graph, checkout: nat, baggage: BusinessBaggage,
                            tracestate: Headers.Entries)
    requires MessagingAccepted(anchor, g, checkout, baggage, tracestate)
    ensures Producers(g.nodes) != [] && OrderConsumers(g.nodes) != []
  {
  }

  /** One backend and anchor are accepted with one result. */
  lemma AcceptsOnce(backend: Backend, anchor: string, one: AnalysisResult, other: AnalysisResult)
    requires Accepts(backend, anchor, one) && Accepts(backend, anchor, other)
    ensures one == other
  {
    hide CrawlResult, Accepted;
    var t1, g1, e1 :| Gives(backend, anchor, t1, g1, e1, one);
    var t2, g2, e2 :| Gives(backend, anchor, t2, g2, e2, other);
    CrawlUnique(backend, anchor, t1, t2);
    AcceptedOnce(anchor, t1, g1, e1, g2, e2);
  }

  /** The backend is accepted, and the event store gives this answer to what was found. */
  ghost predicate AcceptsWith(backend: Backend, anchor: string, confirmed: (BusinessBaggage, Identity) -> bool,
                              answer: bool)
  {
    exists result :: Accepts(backend, anchor, result) && confirmed(result.businessBaggage, result.identity) == answer
  }

  /** One attempt; `confirmed` is the answer of the event store. It succeeds exactly if the crawl of the
      backend is accepted and confirmed. After a crawl, the checks of the flattening on the anchor, on
      duplicate traces and on sizes never fire. */
  method VerifyAttempt(backend: Backend, anchor: string, confirmed: (BusinessBaggage, Identity) -> bool)
    returns (r: Result<AnalysisResult, AttemptFault>)
    ensures r.Ok? ==> Accepts(backend, anchor, r.value)
    ensures r.Ok? <==> AcceptsWith(backend, anchor, confirmed, true)
    ensures r == Err(NotConfirmed) <==> AcceptsWith(backend, anchor, confirmed, false)
    ensures r == Err(CrawlFailed) <==> !CanCrawl(backend, anchor)
    ensures r.Err? && r.error.Rejected? ==>
            && (forall result :: !Accepts(backend, anchor, result))
            && !r.error.fault.BadAnchor?
            && (r.error.fault.CollectStage? ==> r.error.fault.collect.EmptyTrace? || r.error.fault.collect.BadSpan?)
  {
    hide Accepted, CrawlResult, CanCrawl, CollectFaultHolds, IsTraceId, Accepts;
    var traces, requests := FetchTraceGraph(backend, anchor);
    if traces.None? {
      forall result
        ensures !Accepts(backend, anchor, result)
      {
        AcceptedIsCrawled(backend, anchor, result);
      }
      return Err(CrawlFailed);
    }
    var analysis, g, e := AnalyzeDetails(anchor, traces.value);
    if analysis.Err? {
      CrawledAnchor(backend, anchor, traces.value);
      if analysis.error.CollectStage? {
        CrawledTracesAreSound(backend, anchor, traces.value, analysis.error.collect);
      }
      forall result
        ensures !Accepts(backend, anchor, result)
      {
        NotAccepted(backend, anchor, traces.value, result);
      }
      return Err(Rejected(analysis.error));
    }
    var result := analysis.value;
    AcceptedHere(backend, anchor, traces.value, g, e, result);
    forall other | Accepts(backend, anchor, other)
      ensures other == result
    {
      AcceptsOnce(backend, anchor, result, other);
    }
    if !confirmed(result.businessBaggage, result.identity) {
      return Err(NotConfirmed);
    }
    return Ok(result);
  }

  lemma AcceptedIsCrawled(backend: Backend, anchor: string, result: AnalysisResult)
    ensures Accepts(backend, anchor, result) ==> CanCrawl(backend, anchor)
  {
    hide Accepted;
    if traces, g, e :| Gives(backend, anchor, traces, g, e, result) {
      assert Crawlable(backend, anchor, IdsOf(traces));
    }
  }

  lemma NotAccepted(backend: Backend, anchor: string, traces: seq<Trace>, result: AnalysisResult)
    requires CrawlResult(backend, anchor, traces) && forall g, e :: !Accepted(anchor, traces, g, e)
    ensures !Accepts(backend, anchor, result)
  {
    hide CrawlResult, Accepted;
    if other, g, e :| Gives(backend, anchor, other, g, e, result) {
      CrawlUnique(backend, anchor, traces, other);
    }
  }

  lemma AcceptedHere(backend: Backend, anchor: string, traces: seq<Trace>, g: Graph, e: Findings,
                     result: AnalysisResult)
    requires CrawlResult(backend, anchor, traces) && Accepted(anchor, traces, g, e) && result == ResultOf(traces, g, e)
    ensures Accepts(backend, anchor, result)
  {
    hide CrawlResult, Accepted;
    assert Gives(backend, anchor, traces, g, e, result);
  }

  lemma CrawledAnchor(backend: Backend, anchor: string, traces: seq<Trace>)
    requires CrawlResult(backend, anchor, traces)
    ensures IsTraceId(anchor)
  {
  }

  lemma GraphUnique(anchor: string, traces: seq<Trace>, g: Graph)
    requires GraphAccepted(anchor, traces, g)
    ensures forall other | GraphAccepted(anchor, traces, other) :: other == g
  {
    forall other | GraphAccepted(anchor, traces, other)
      ensures other == g
    {
      IndexUnique(g.nodes, g.index, other.index);
    }
  }

  // ----- what acceptance means -----

  lemma OneLink(g: Graph, consumers: seq<nat>, p: nat) returns (j: nat)
    requires Counting.Distinct(consumers) && RequireLinkSemantics(g.links, consumers, Producers(g.nodes))
              && p in consumers
    requires |Edges(g.links, consumers, Producers(g.nodes))| == |consumers|
    ensures j < |g.links| && g.links[j].source == p && g.links[j].target in Producers(g.nodes)
    ensures forall other: nat | other < |g.links| && g.links[other].source == p
              && g.links[other].target in Producers(g.nodes) :: other == j
  {
    j := ExactlyOneEdgeEach(g.links, consumers, Producers(g.nodes), p);
    forall other: nat | other < |g.links| && g.links[other].source == p && g.links[other].target in Producers(g.nodes)
      ensures other == j
    {
      assert other in Edges(g.links, consumers, Producers(g.nodes));
    }
  }

  /** Once the messaging stages have passed, every order consumer and every analytics consumer has
      exactly one link to a checkout producer of the paid order. */
  lemma ConsumersHaveOneLink(anchor: string, g: Graph, checkout: nat, baggage: BusinessBaggage,
                             tracestate: Headers.Entries, p: nat)
    returns (j: nat)
    requires MessagingAccepted(anchor, g, checkout, baggage, tracestate)
    requires p in OrderConsumers(g.nodes) || p in AnalyticsConsumers(g.nodes)
    ensures j < |g.links| && g.links[j].source == p && g.links[j].target in Producers(g.nodes)
    ensures forall other: nat | other < |g.links| && g.links[other].source == p
              && g.links[other].target in Producers(g.nodes) :: other == j
  {
    if p in OrderConsumers(g.nodes) {
      j := OneLink(g, OrderConsumers(g.nodes), p);
    } else {
      j := OneLink(g, AnalyticsConsumers(g.nodes), p);
    }
  }

  lemma SpansCarry(nodes: seq<SpanNode>, positions: seq<nat>, baggage: BusinessBaggage, key: string)
    requires IsBusinessBaggage(baggage) && AllMatch(nodes, positions, baggage) && BusinessKey(key)
    ensures forall p | p in positions :: p < |nodes| && AttributeString(nodes[p].span, key) == Lookup(baggage, key)
  {
    forall p | p in positions
      ensures p < |nodes| && AttributeString(nodes[p].span, key) == Lookup(baggage, key)
    {
      SpanCarries(nodes[p].span, baggage, key);
    }
  }

  lemma BaggageOfKey(span: Span, baggage: BusinessBaggage, key: string)
    requires BusinessKey(key) && SpanAttributes(span).Some?
    requires BusinessBaggageOf(SpanAttributes(span).value) == Some(baggage)
    ensures AttributeString(span, key) == Lookup(baggage, key)
  {
  }

  /** Once the messaging stages have passed, the six business keys, an absent session included, have
      the values of the checkout span on every producer and consumer. */
  lemma MessagingSpansAgree(anchor: string, g: Graph, checkout: nat, baggage: BusinessBaggage,
                            tracestate: Headers.Entries, key: string)
    requires MessagingAccepted(anchor, g, checkout, baggage, tracestate)
    requires key in {"tenant.id", "user.tier", "customer.segment", "region", "request.priority", "session.id"}
    ensures IsCheckoutSpan(anchor, g.nodes[checkout])
    ensures forall p | p in MessagingSpans(g.nodes) ::
              p < |g.nodes| && AttributeString(g.nodes[p].span, key) == AttributeString(g.nodes[checkout].span, key)
  {
    hide RabbitEdges, RequireLinkSemantics, AllMatch, IsBusinessBaggage, BusinessKey, SpanAttributes, Producers;
    hide OrderConsumers, AnalyticsConsumers, MessagingSpans, TargetsInRange;
    BaggageIsBusiness(anchor, g.nodes, checkout, baggage);
    SixBusinessKeys();
    BaggageOfKey(g.nodes[checkout].span, baggage, key);
    assert checkout in CheckoutSpans(anchor, g.nodes);
    SpansCarry(g.nodes, MessagingSpans(g.nodes), baggage, key);
  }

  lemma BaggageOfKeys(anchor: string, g: Graph, checkout: nat, baggage: BusinessBaggage)
    requires BaggageAccepted(anchor, g.nodes, checkout, baggage)
    ensures checkout < |g.nodes|
    ensures forall key | BusinessKey(key) :: AttributeString(g.nodes[checkout].span, key) == Lookup(baggage, key)
  {
    hide CheckoutSpans, AllMatch, SpanAttributes, BusinessKey;
    forall key | BusinessKey(key)
      ensures AttributeString(g.nodes[checkout].span, key) == Lookup(baggage, key)
    {
      BaggageOfKey(g.nodes[checkout].span, baggage, key);
    }
  }

  lemma SomeNotification(anchor: string, g: Graph, e: Findings) returns (i: nat)
    requires IsIndex(g.nodes, g.index) && EvidenceAccepted(anchor, g, e)
    ensures BaggageAccepted(anchor, g.nodes, e.checkout, e.baggage)
    ensures NotificationAt(g.nodes, g.index, OrderConsumers(g.nodes), e.baggage, e.identity, i)
  {
    hide RabbitEdges, JourneyEvidence, RequireLinkSemantics, OneIdentity, NotificationAt, BaggageAccepted;
    i :| NotificationAt(g.nodes, g.index, OrderConsumers(g.nodes), e.baggage, e.identity, i);
  }

  /** On acceptance some notification span below an order consumer agrees with them too, and names no other
      order, event type or message. */
  lemma NotificationAgrees(anchor: string, g: Graph, e: Findings) returns (i: nat)
    requires IsIndex(g.nodes, g.index) && EvidenceAccepted(anchor, g, e)
    ensures i < |g.nodes| && g.nodes[i].span.service == Some("notifications")
    ensures Topology.HasAncestor(g.nodes, g.index, i, Counting.Elements(OrderConsumers(g.nodes)))
    ensures forall key |
              key in {"tenant.id", "user.tier", "customer.segment", "region", "request.priority", "session.id"} ::
              AttributeString(g.nodes[i].span, key) == AttributeString(g.nodes[e.checkout].span, key)
    ensures SpanAttributes(g.nodes[i].span).Some?
    ensures var attributes := SpanAttributes(g.nodes[i].span).value;
            && ("order.id" in attributes ==> attributes["order.id"] == Text(e.identity.orderId))
            && ("commerce.event.type" in attributes ==> attributes["commerce.event.type"] == Text(e.identity.eventType))
            && ("messaging.message.id" in attributes ==> attributes["messaging.message.id"] == Text(e.identity.eventId))
  {
    hide EvidenceAccepted, BaggageAccepted, Topology.HasAncestor, Counting.Elements, IsBusinessBaggage, SpanMatches;
    hide OrderConsumers, BusinessKey, IsIndex;
    i := SomeNotification(anchor, g, e);
    BaggageIsBusiness(anchor, g.nodes, e.checkout, e.baggage);
    BaggageOfKeys(anchor, g, e.checkout, e.baggage);
    SixBusinessKeys();
    forall key | key in {"tenant.id", "user.tier", "customer.segment", "region", "request.priority", "session.id"}
      ensures AttributeString(g.nodes[i].span, key) == AttributeString(g.nodes[e.checkout].span, key)
    {
      SpanCarries(g.nodes[i].span, e.baggage, key);
    }
  }

  lemma TraceparentShape(value: string, traceId: string, spanId: string) returns (trace: string, flags: string)
    requires TraceparentNames(value, traceId, spanId)
    ensures value == "00-" + trace + "-" + spanId + "-" + flags
    ensures RustText.AsciiLowercased(trace) == RustText.AsciiLowercased(traceId) && IsHex(flags, 2)
  {
    var parts := Strings.Split(value, '-');
    Strings.JoinOfSplit(value, '-');
    trace, flags := parts[1], parts[3];
    assert parts[1..][1..][1..] == [parts[3]];
    assert Strings.Join(parts[1..][1..], '-') == parts[2] + ['-'] + parts[3];
    assert Strings.Join(parts[1..], '-') == parts[1] + ['-'] + (parts[2] + ['-'] + parts[3]);
  }

  lemma CarrierAgrees(nodes: seq<SpanNode>, link: Links.SpanLink, baggage: BusinessBaggage, tracestate: Headers.Entries)
    returns (carrier: Carrier, trace: string, flags: string)
    requires link.target < |nodes| && IsBusinessBaggage(baggage)
    requires EdgeTracestate(nodes, link, baggage) == Some(tracestate)
    ensures CarrierOf(link.attributes) == Some(carrier) && carrier.tracestate == tracestate
    ensures forall key | BusinessKey(key) :: Lookup(carrier.baggage, key) == Lookup(baggage, key)
    ensures carrier.traceparent == "00-" + trace + "-" + nodes[link.target].spanId + "-" + flags
    ensures RustText.AsciiLowercased(trace) == RustText.AsciiLowercased(nodes[link.target].traceId) && IsHex(flags, 2)
  {
    carrier := CarrierOf(link.attributes).value;
    trace, flags := TraceparentShape(carrier.traceparent, nodes[link.target].traceId, nodes[link.target].spanId);
    MatchIsAgreement(baggage, carrier.baggage);
  }

  lemma EdgeIsSound(g: Graph, consumers: seq<nat>, baggage: BusinessBaggage, tracestate: Headers.Entries, j: nat)
    requires TargetsInRange(g.nodes, g.links) && j < |g.links|
    requires RabbitEdges(g.links, g.nodes, Producers(g.nodes), consumers, baggage, tracestate)
    requires IsEdge(g.links[j], consumers, Producers(g.nodes))
    ensures g.links[j].target < |g.nodes| && EdgeTracestate(g.nodes, g.links[j], baggage) == Some(tracestate)
  {
    assert j in Edges(g.links, consumers, Producers(g.nodes));
  }

  /** Once the messaging stages have passed, every carrier between a consumer and a checkout producer
      holds the six business values of the checkout span and the one tracestate, and its traceparent
      is that of its own producer span. */
  lemma CarriersAgree(anchor: string, g: Graph, checkout: nat, baggage: BusinessBaggage, tracestate: Headers.Entries,
                      j: nat)
    returns (carrier: Carrier, trace: string, flags: string)
    requires MessagingAccepted(anchor, g, checkout, baggage, tracestate) && j < |g.links|
    requires IsEdge(g.links[j], OrderConsumers(g.nodes), Producers(g.nodes))
              || IsEdge(g.links[j], AnalyticsConsumers(g.nodes), Producers(g.nodes))
    ensures g.links[j].target < |g.nodes|
    ensures CarrierOf(g.links[j].attributes) == Some(carrier) && carrier.tracestate == tracestate
    ensures forall key |
              key in {"tenant.id", "user.tier", "customer.segment", "region", "request.priority", "session.id"} ::
              Lookup(carrier.baggage, key) == AttributeString(g.nodes[checkout].span, key)
    ensures carrier.traceparent == "00-" + trace + "-" + g.nodes[g.links[j].target].spanId + "-" + flags
    ensures RustText.AsciiLowercased(trace) == RustText.AsciiLowercased(g.nodes[g.links[j].target].traceId)
              && IsHex(flags, 2)
  {
    hide BaggageAccepted, RabbitEdges, RequireLinkSemantics, EdgeTracestate, BusinessKey, SpanAttributes, Producers;
    hide OrderConsumers, AnalyticsConsumers, TargetsInRange, IsBusinessBaggage, RustText.AsciiLowercased, IsEdge;
    var orders := IsEdge(g.links[j], OrderConsumers(g.nodes), Producers(g.nodes));
    EdgeIsSound(g, if orders then OrderConsumers(g.nodes) else AnalyticsConsumers(g.nodes), baggage, tracestate, j);
    BaggageIsBusiness(anchor, g.nodes, checkout, baggage);
    carrier, trace, flags := CarrierAgrees(g.nodes, g.links[j], baggage, tracestate);
    SixBusinessKeys();
    BaggageOfKeys(anchor, g, checkout, baggage);
  }
}
