/** The evidence stages: business baggage, RabbitMQ edges and their carriers, the event identity and
    the notification. */
module Evidence {
  import opened Outcomes
  import RustText
  import Strings
  import opened TraceModel
  import opened Headers
  import Counting
  import opened Spans
  import Links

  // ----- business baggage -----

  const REQUIRED_KEYS: seq<string> := ["tenant.id", "user.tier", "customer.segment", "region", "request.priority"]
  const SESSION_KEY := "session.id"

  type BusinessBaggage = map<string, string>

  predicate BusinessKey(key: string) { key in REQUIRED_KEYS || key == SESSION_KEY }

  function Lookup(entries: map<string, string>, key: string): Option<string> {
    if key in entries then Some(entries[key]) else None
  }

  /** The five required keys hold text that is not blank; the session is absent or holds such text. */
  predicate HoldsBusinessBaggage(attributes: Attributes) {
    && (forall key | key in REQUIRED_KEYS :: NonBlank(TextAt(attributes, key)).Some?)
    && (SESSION_KEY in attributes ==> NonBlank(TextAt(attributes, SESSION_KEY)).Some?)
  }

  ghost function BusinessBaggageOf(attributes: Attributes): (r: Option<BusinessBaggage>)
    ensures r.Some? ==> forall key | BusinessKey(key) :: Lookup(r.value, key) == TextAt(attributes, key)
    ensures r.Some? ==> forall key | key in r.value :: BusinessKey(key)
  {
    if HoldsBusinessBaggage(attributes)
    then Some(map key | key in attributes && BusinessKey(key) :: TextAt(attributes, key).value)
    else None
  }

  lemma BaggageIs(attributes: Attributes, values: BusinessBaggage)
    requires HoldsBusinessBaggage(attributes)
    requires forall key :: key in values <==> BusinessKey(key) && key in attributes
    requires forall key | key in values :: TextAt(attributes, key) == Some(values[key])
    ensures BusinessBaggageOf(attributes) == Some(values)
  {
    var spec := BusinessBaggageOf(attributes).value;
    forall key
      ensures key in values <==> key in spec
      ensures key in values ==> values[key] == spec[key]
    {
      assert BusinessKey(key) ==> Lookup(spec, key) == TextAt(attributes, key);
    }
    assert values == spec;
  }

  /** `from_attribute_object`: one pass over the required keys and the optional one. */
  method FromAttributeObject(attributes: Attributes) returns (r: Option<BusinessBaggage>)
    ensures r == BusinessBaggageOf(attributes)
  {
    var keys := REQUIRED_KEYS + [SESSION_KEY];
    var values: BusinessBaggage := map[];
    for i := 0 to |keys|
      invariant forall key :: key in values <==> key in keys[..i] && key in attributes
      invariant forall key | key in values :: TextAt(attributes, key) == Some(values[key])
      invariant forall key | key in keys[..i] && (key in attributes || key in REQUIRED_KEYS) ::
                NonBlank(TextAt(attributes, key)).Some?
    {
      assert keys[..i + 1] == keys[..i] + [keys[i]];
      var key := keys[i];
      if key !in attributes {
        if key in REQUIRED_KEYS {
          return None;
        }
        continue;
      }
      var value := TextAt(attributes, key);
      if NonBlank(value).None? {
        assert key in REQUIRED_KEYS || key == SESSION_KEY;
        return None;
      }
      values := values[key := value.value];
    }
    assert keys[..|keys|] == keys;
    assert forall key :: key in keys <==> BusinessKey(key);
    BaggageIs(attributes, values);
    return Some(values);
  }

  /** `ensure_matches`: every expected value is there, and no session appears out of nothing. */
  predicate Matches(expected: BusinessBaggage, actual: map<string, string>) {
    && (forall key | key in expected :: Lookup(actual, key) == Some(expected[key]))
    && (SESSION_KEY !in expected ==> SESSION_KEY !in actual)
  }

  ghost predicate IsBusinessBaggage(baggage: BusinessBaggage) {
    (forall key | key in REQUIRED_KEYS :: key in baggage) && forall key | key in baggage :: BusinessKey(key)
  }

  lemma SixKeys(key: string)
    ensures key in REQUIRED_KEYS <==>
              || key == "tenant.id" || key == "user.tier" || key == "customer.segment" || key == "region"
              || key == "request.priority"
    ensures SESSION_KEY == "session.id"
  {
    assert REQUIRED_KEYS[0] in REQUIRED_KEYS && REQUIRED_KEYS[1] in REQUIRED_KEYS && REQUIRED_KEYS[2] in REQUIRED_KEYS;
    assert REQUIRED_KEYS[3] in REQUIRED_KEYS && REQUIRED_KEYS[4] in REQUIRED_KEYS;
  }

  lemma SixBusinessKeys()
    ensures forall key |
              key in {"tenant.id", "user.tier", "customer.segment", "region", "request.priority", "session.id"} ::
              BusinessKey(key)
  {
    forall key | key in {"tenant.id", "user.tier", "customer.segment", "region", "request.priority", "session.id"}
      ensures BusinessKey(key)
    {
      SixKeys(key);
    }
  }

  /** A match is agreement on all six keys, absence included. */
  lemma MatchIsAgreement(expected: BusinessBaggage, actual: map<string, string>)
    requires IsBusinessBaggage(expected)
    ensures Matches(expected, actual) <==> forall key | BusinessKey(key) :: Lookup(actual, key) == Lookup(expected, key)
  {
    assert BusinessKey(SESSION_KEY);
  }

  ghost predicate SpanMatches(span: Span, expected: BusinessBaggage) {
    && SpanAttributes(span).Some?
    && BusinessBaggageOf(SpanAttributes(span).value).Some?
    && Matches(expected, BusinessBaggageOf(SpanAttributes(span).value).value)
  }

  method RequireSpanBusinessBaggage(span: Span, expected: BusinessBaggage) returns (ok: bool)
    ensures ok <==> SpanMatches(span, expected)
  {
    var attributes := SpanAttributes(span);
    if attributes.None? {
      return false;
    }
    var actual := FromAttributeObject(attributes.value);
    return actual.Some? && Matches(expected, actual.value);
  }

  /** On a span that matches, all six attributes carry the expected baggage. */
  lemma SpanCarries(span: Span, expected: BusinessBaggage, key: string)
    requires IsBusinessBaggage(expected) && SpanMatches(span, expected) && BusinessKey(key)
    ensures AttributeString(span, key) == Lookup(expected, key)
    ensures key in REQUIRED_KEYS ==> RequiredAttribute(span, key) == Lookup(expected, key)
  {
    MatchIsAgreement(expected, BusinessBaggageOf(SpanAttributes(span).value).value);
  }

  // ----- positions of spans -----

  type Wanted = seq<(string, string)>

  predicate SpanIs(span: Span, service: string, wanted: Wanted) {
    span.service == Some(service) && forall pair | pair in wanted :: AttributeString(span, pair.0) == Some(pair.1)
  }

  /** `matching_span_indices`, in order. */
  function MatchingSpans(nodes: seq<SpanNode>, service: string, wanted: Wanted): (r: seq<nat>)
    ensures forall i: nat :: i in r <==> i < |nodes| && SpanIs(nodes[i].span, service, wanted)
    ensures (forall k | 0 <= k < |r| :: r[k] < |nodes|) && Counting.Distinct(r)
  {
    if nodes == [] then []
    else
      var n := |nodes| - 1;
      var before := MatchingSpans(nodes[..n], service, wanted);
      if SpanIs(nodes[n].span, service, wanted) then before + [n] else before
  }

  predicate RequireLinkSemantics(links: seq<Links.SpanLink>, sources: seq<nat>, targets: seq<nat>) {
    && sources != [] && targets != []
    && forall s | s in sources :: exists link | link in links :: link.source == s && link.target in targets
  }

  // ----- RabbitMQ edges -----

  datatype Carrier = Carrier(traceparent: string, tracestate: Entries, baggage: Entries)

  /** The carrier is the nested `carrier` object when there is one, else the attributes themselves. */
  function CarrierObject(attributes: Attributes): Attributes {
    if "carrier" in attributes && attributes["carrier"].Object? then attributes["carrier"].fields else attributes
  }

  function CarrierOf(attributes: Attributes): Option<Carrier> {
    var carrier := CarrierObject(attributes);
    match (NonBlank(TextAt(carrier, "traceparent")), NonBlank(TextAt(carrier, "tracestate")),
           NonBlank(TextAt(carrier, "baggage")))
    case (Some(traceparent), Some(tracestate), Some(baggage)) =>
      (match (Tracestate.Parse(tracestate), Baggage.Parse(baggage))
       case (Some(state), Some(items)) => Some(Carrier(traceparent, state, items))
       case _ => None)
    case _ => None
  }

  /** `validate_traceparent_for_span`: version 00, the trace of the span in any letter case, the span itself. */
  predicate TraceparentNames(value: string, traceId: string, spanId: string) {
    var parts := Strings.Split(value, '-');
    && |parts| == 4 && parts[0] == "00"
    && RustText.AsciiLowercased(parts[1]) == RustText.AsciiLowercased(traceId) && IsTraceId(parts[1])
    && IsSpanId(parts[2]) && IsHex(parts[3], 2)
    && parts[2] == spanId
  }

  predicate CarrierNames(carrier: Carrier, target: SpanNode, expected: BusinessBaggage) {
    && TraceparentNames(carrier.traceparent, target.traceId, target.spanId)
    && Matches(expected, carrier.baggage)
  }

  /** The tracestate of an edge whose carrier is sound: it names the target span and carries the
      expected baggage. */
  function EdgeTracestate(nodes: seq<SpanNode>, link: Links.SpanLink, expected: BusinessBaggage): Option<Entries>
    requires link.target < |nodes|
  {
    var carrier := CarrierOf(link.attributes);
    if carrier.Some? && CarrierNames(carrier.value, nodes[link.target], expected)
    then Some(carrier.value.tracestate) else None
  }

  ghost predicate TargetsInRange(nodes: seq<SpanNode>, links: seq<Links.SpanLink>) {
    forall link | link in links :: link.target < |nodes|
  }

  /** The tracestates of all links, sound edges or not. */
  lemma TracestatesOf(nodes: seq<SpanNode>, links: seq<Links.SpanLink>, expected: BusinessBaggage)
    returns (carried: seq<Option<Entries>>)
    requires TargetsInRange(nodes, links)
    ensures |carried| == |links|
    ensures forall j {:trigger EdgeTracestate(nodes, links[j], expected)} | 0 <= j < |links| ::
              links[j] in links && carried[j] == EdgeTracestate(nodes, links[j], expected)
  {
    assert forall j | 0 <= j < |links| :: links[j] in links;
    carried := seq(|links|, j requires 0 <= j < |links| => EdgeTracestate(nodes, links[j], expected));
  }

  predicate IsEdge(link: Links.SpanLink, consumers: seq<nat>, producers: seq<nat>) {
    link.source in consumers && link.target in producers
  }

  ghost function EdgesBelow(links: seq<Links.SpanLink>, n: nat, consumers: seq<nat>, producers: seq<nat>): set<nat>
    requires n <= |links|
  {
    set j: nat | j < n && IsEdge(links[j], consumers, producers)
  }

  ghost function Edges(links: seq<Links.SpanLink>, consumers: seq<nat>, producers: seq<nat>): set<nat> {
    EdgesBelow(links, |links|, consumers, producers)
  }

  /** Exactly as many edges as consumers, at least one, all with sound carriers of one tracestate. */
  ghost predicate RabbitEdges(links: seq<Links.SpanLink>, nodes: seq<SpanNode>, producers: seq<nat>,
                              consumers: seq<nat>, expected: BusinessBaggage, tracestate: Entries)
    requires TargetsInRange(nodes, links)
  {
    var edges := Edges(links, consumers, producers);
    && |edges| == |consumers| && edges != {}
    && forall j | j in edges :: links[j] in links && EdgeTracestate(nodes, links[j], expected) == Some(tracestate)
  }

  ghost predicate AllCarry(carried: seq<Option<Entries>>, edges: set<nat>, tracestate: Entries) {
    forall j | j in edges :: j < |carried| && carried[j] == Some(tracestate)
  }

  /** What the loop has found among the first `n` links. */
  ghost predicate Scanned(carried: seq<Option<Entries>>, edges: set<nat>, count: nat, tracestate: Option<Entries>) {
    && count == |edges|
    && (tracestate.None? <==> edges == {})
    && (tracestate.Some? ==> AllCarry(carried, edges, tracestate.value))
  }

  lemma RabbitEdgesCarried(links: seq<Links.SpanLink>, nodes: seq<SpanNode>, producers: seq<nat>, consumers: seq<nat>,
                           expected: BusinessBaggage, carried: seq<Option<Entries>>, tracestate: Entries)
    requires TargetsInRange(nodes, links) && |carried| == |links|
    requires forall j {:trigger EdgeTracestate(nodes, links[j], expected)} | 0 <= j < |links| ::
               links[j] in links && carried[j] == EdgeTracestate(nodes, links[j], expected)
    ensures RabbitEdges(links, nodes, producers, consumers, expected, tracestate) <==>
            var edges := Edges(links, consumers, producers);
            |edges| == |consumers| && edges != {} && AllCarry(carried, edges, tracestate)
  {
    assert forall j | 0 <= j < |links| :: links[j] in links && carried[j] == EdgeTracestate(nodes, links[j], expected);
  }

  ghost predicate NoneCarried(carried: seq<Option<Entries>>, edges: set<nat>) {
    forall tracestate :: !AllCarry(carried, edges, tracestate)
  }

  lemma ScanOne(carried: seq<Option<Entries>>, edges: set<nat>, all: set<nat>, count: nat, before: Option<Entries>,
                i: nat)
    requires Scanned(carried, edges, count, before) && edges <= all && i in all && i !in edges && i < |carried|
    ensures if carried[i].None? || (before.Some? && before != carried[i])
            then NoneCarried(carried, all)
            else Scanned(carried, edges + {i}, count + 1, carried[i])
  {
    if before.Some? && before != carried[i] {
      var j :| j in edges;
      assert j in all;
    }
  }

  lemma EdgesNext(links: seq<Links.SpanLink>, n: nat, consumers: seq<nat>, producers: seq<nat>)
    requires n < |links|
    ensures EdgesBelow(links, n + 1, consumers, producers)
         == EdgesBelow(links, n, consumers, producers) + if IsEdge(links[n], consumers, producers) then {n} else {}
    ensures n !in EdgesBelow(links, n, consumers, producers)
    ensures EdgesBelow(links, n + 1, consumers, producers) <= Edges(links, consumers, producers)
  {
  }

  /** The loop over the links: count the edges and compare their tracestates. */
  method ScanEdges(links: seq<Links.SpanLink>, nodes: seq<SpanNode>, producers: seq<nat>, consumers: seq<nat>,
                   expected: BusinessBaggage, ghost carried: seq<Option<Entries>>)
    returns (r: Option<(nat, Option<Entries>)>)
    requires TargetsInRange(nodes, links) && |carried| == |links|
    requires forall j {:trigger EdgeTracestate(nodes, links[j], expected)} | 0 <= j < |links| ::
               links[j] in links && carried[j] == EdgeTracestate(nodes, links[j], expected)
    ensures r.Some? ==> Scanned(carried, Edges(links, consumers, producers), r.value.0, r.value.1)
    ensures r.None? ==> NoneCarried(carried, Edges(links, consumers, producers))
  {
    var tracestate: Option<Entries> := None;
    var count := 0;
    for i := 0 to |links|
      invariant Scanned(carried, EdgesBelow(links, i, consumers, producers), count, tracestate)
    {
      ghost var edges := EdgesBelow(links, i, consumers, producers);
      EdgesNext(links, i, consumers, producers);
      assert links[i] in links;
      if IsEdge(links[i], consumers, producers) {
        assert i in edges + {i};
        ScanOne(carried, edges, Edges(links, consumers, producers), count, tracestate, i);
        count := count + 1;
        var next := EdgeTracestate(nodes, links[i], expected);
        if next.None? || (tracestate.Some? && tracestate != next) {
          return None;
        }
        tracestate := next;
      }
    }
    return Some((count, tracestate));
  }

  /** Accepts exactly when the edges are as required, and returns their tracestate. */
  method ValidateCheckoutRabbitEdges(links: seq<Links.SpanLink>, nodes: seq<SpanNode>, producers: seq<nat>,
                                     consumers: seq<nat>, expected: BusinessBaggage)
    returns (r: Option<Entries>)
    requires TargetsInRange(nodes, links)
    ensures r.Some? ==> RabbitEdges(links, nodes, producers, consumers, expected, r.value)
    ensures r.None? ==> forall tracestate :: !RabbitEdges(links, nodes, producers, consumers, expected, tracestate)
  {
    ghost var carried := TracestatesOf(nodes, links, expected);
    var scan := ScanEdges(links, nodes, producers, consumers, expected, carried);
    r := if scan.Some? && scan.value.0 == |consumers| then scan.value.1 else None;
    forall other
      ensures RabbitEdges(links, nodes, producers, consumers, expected, other) <==> r == Some(other)
    {
      RabbitEdgesCarried(links, nodes, producers, consumers, expected, carried, other);
      if scan.Some? && AllCarry(carried, Edges(links, consumers, producers), other) && scan.value.1.Some? {
        var j :| j in Edges(links, consumers, producers);
      }
    }
  }

  /** Choose one edge per consumer; the chosen ones are as many as the consumers. */
  lemma {:induction false} ChooseEdges(links: seq<Links.SpanLink>, some: seq<nat>, consumers: seq<nat>,
                                       producers: seq<nat>)
    returns (chosen: set<nat>)
    requires Counting.Distinct(some) && RequireLinkSemantics(links, consumers, producers)
    requires forall c | c in some :: c in consumers
    ensures chosen <= Edges(links, consumers, producers) && |chosen| == |some|
    ensures forall j | j in chosen :: links[j].source in some
    ensures forall j, k | j in chosen && k in chosen && links[j].source == links[k].source :: j == k
  {
    if some == [] {
      chosen := {};
    } else {
      var n := |some| - 1;
      var before := ChooseEdges(links, some[..n], consumers, producers);
      assert some[n] in some;
      var j := AnEdgeOf(links, consumers, producers, some[n]);
      assert some[n] !in some[..n];
      chosen := before + {j};
    }
  }

  lemma AnEdgeOf(links: seq<Links.SpanLink>, consumers: seq<nat>, producers: seq<nat>, c: nat) returns (j: nat)
    requires RequireLinkSemantics(links, consumers, producers) && c in consumers
    ensures j in Edges(links, consumers, producers) && links[j].source == c
  {
    var link :| link in links && link.source == c && link.target in producers;
    j :| 0 <= j < |links| && links[j] == link;
  }

  /** At least one edge for each consumer and as many edges as consumers: exactly one edge each. */
  lemma ExactlyOneEdgeEach(links: seq<Links.SpanLink>, consumers: seq<nat>, producers: seq<nat>, c: nat)
    returns (j: nat)
    requires Counting.Distinct(consumers) && RequireLinkSemantics(links, consumers, producers) && c in consumers
    requires |Edges(links, consumers, producers)| == |consumers|
    ensures j in Edges(links, consumers, producers) && links[j].source == c
    ensures forall other | other in Edges(links, consumers, producers) && links[other].source == c :: other == j
  {
    var chosen := ChooseEdges(links, consumers, consumers, producers);
    Counting.SubsetCount(chosen, Edges(links, consumers, producers));
    j := AnEdgeOf(links, consumers, producers, c);
  }

  // ----- the event identity -----

  datatype Identity = Identity(tenantId: string, eventId: string, eventType: string, eventKey: string, orderId: string)

  datatype IdentityFault =
    | ProducerMessageMissing | ProducerMessagesDiffer
    | EventTypeMissing | OrderIdMissing | EventTypeNotPaid
    | ConsumerTenant | ConsumerMessage | ConsumerEventType | ConsumerOrder | AnalyticsOrder

  const MESSAGE_ID := "messaging.message.id"
  const EVENT_TYPE := "commerce.event.type"
  const ORDER_ID := "order.id"

  function TenantOf(baggage: BusinessBaggage): string {
    if "tenant.id" in baggage then baggage["tenant.id"] else ""
  }

  ghost predicate Positions(nodes: seq<SpanNode>, positions: seq<nat>) {
    forall p | p in positions :: p < |nodes|
  }

  ghost predicate ShareMessage(nodes: seq<SpanNode>, producers: seq<nat>, eventId: string)
    requires Positions(nodes, producers)
  {
    forall p | p in producers :: RequiredAttribute(nodes[p].span, MESSAGE_ID) == Some(eventId)
  }

  /** An analytics consumer may leave the order out, but not name another one. */
  predicate AnalyticsOrderOk(span: Span, orderId: string) {
    && SpanAttributes(span).Some?
    && (ORDER_ID in SpanAttributes(span).value ==> TextAt(SpanAttributes(span).value, ORDER_ID) == Some(orderId))
  }

  predicate SpanHasIdentity(span: Span, identity: Identity, requireOrder: bool) {
    && RequiredAttribute(span, "tenant.id") == Some(identity.tenantId)
    && RequiredAttribute(span, MESSAGE_ID) == Some(identity.eventId)
    && RequiredAttribute(span, EVENT_TYPE) == Some(identity.eventType)
    && (requireOrder ==> RequiredAttribute(span, ORDER_ID) == Some(identity.orderId))
  }

  /** One event: all producers and consumers agree with the identity. */
  ghost predicate OneIdentity(nodes: seq<SpanNode>, producers: seq<nat>, orders: seq<nat>, analytics: seq<nat>,
                              expected: BusinessBaggage, identity: Identity)
    requires Positions(nodes, producers) && Positions(nodes, orders) && Positions(nodes, analytics)
  {
    && ShareMessage(nodes, producers, identity.eventId)
    && identity.tenantId == TenantOf(expected)
    && identity.eventType == "order.paid"
    && identity.eventKey == identity.orderId + ":paid"
    && (forall p | p in orders :: SpanHasIdentity(nodes[p].span, identity, true))
    && forall p | p in analytics ::
          SpanHasIdentity(nodes[p].span, identity, false) && AnalyticsOrderOk(nodes[p].span, identity.orderId)
  }

  ghost predicate ProducersAgree(nodes: seq<SpanNode>, producers: seq<nat>)
    requires Positions(nodes, producers)
  {
    exists eventId :: ShareMessage(nodes, producers, eventId)
  }

  ghost predicate SomeDiffers(nodes: seq<SpanNode>, positions: seq<nat>, key: string, expected: Option<string>)
    requires Positions(nodes, positions)
  {
    exists p | p in positions :: RequiredAttribute(nodes[p].span, key) != expected
  }

  ghost predicate SomeMessageMissing(nodes: seq<SpanNode>, producers: seq<nat>)
    requires Positions(nodes, producers)
  {
    exists p | p in producers :: RequiredAttribute(nodes[p].span, MESSAGE_ID).None?
  }

  /** The first producer has a message identity, and some producer has another one. */
  ghost predicate SomeMessageDiffers(nodes: seq<SpanNode>, producers: seq<nat>, first: Option<string>)
    requires Positions(nodes, producers)
  {
    exists p | p in producers :: RequiredAttribute(nodes[p].span, MESSAGE_ID).Some? && first.Some?
                                 && RequiredAttribute(nodes[p].span, MESSAGE_ID) != first
  }

  /** The attribute of the first of some positions. */
  ghost function FirstAttribute(nodes: seq<SpanNode>, positions: seq<nat>, key: string): Option<string>
    requires Positions(nodes, positions) && positions != []
  {
    assert positions[0] in positions;
    RequiredAttribute(nodes[positions[0]].span, key)
  }

  /** Why the stage rejects: the fault it reports and, past the producers, that these agreed. */
  ghost predicate IdentityRejected(nodes: seq<SpanNode>, producers: seq<nat>, orders: seq<nat>, analytics: seq<nat>,
                                   expected: BusinessBaggage, fault: IdentityFault)
    requires Positions(nodes, producers) && Positions(nodes, orders) && Positions(nodes, analytics)
    requires producers != [] && orders != []
  {
    var message := FirstAttribute(nodes, producers, MESSAGE_ID);
    var order := FirstAttribute(nodes, orders, ORDER_ID);
    var eventType := FirstAttribute(nodes, orders, EVENT_TYPE);
    && (fault.ProducerMessageMissing? || fault.ProducerMessagesDiffer? || ProducersAgree(nodes, producers))
    && match fault
       case ProducerMessageMissing => SomeMessageMissing(nodes, producers)
       case ProducerMessagesDiffer => SomeMessageDiffers(nodes, producers, message)
       case EventTypeMissing => eventType.None?
       case OrderIdMissing => order.None?
       case EventTypeNotPaid => eventType != Some("order.paid")
       case ConsumerTenant => SomeDiffers(nodes, orders + analytics, "tenant.id", Some(TenantOf(expected)))
       case ConsumerMessage => SomeDiffers(nodes, orders + analytics, MESSAGE_ID, message)
       case ConsumerEventType => SomeDiffers(nodes, orders + analytics, EVENT_TYPE, Some("order.paid"))
       case ConsumerOrder => SomeDiffers(nodes, orders, ORDER_ID, order)
       case AnalyticsOrder => order.Some? && exists p | p in analytics :: !AnalyticsOrderOk(nodes[p].span, order.value)
  }

  lemma RejectedHasNoIdentity(nodes: seq<SpanNode>, producers: seq<nat>, orders: seq<nat>, analytics: seq<nat>,
                              expected: BusinessBaggage, fault: IdentityFault, identity: Identity)
    requires Positions(nodes, producers) && Positions(nodes, orders) && Positions(nodes, analytics)
    requires producers != [] && orders != []
    requires IdentityRejected(nodes, producers, orders, analytics, expected, fault)
    ensures !OneIdentity(nodes, producers, orders, analytics, expected, identity)
  {
    assert producers[0] in producers && orders[0] in orders;
    assert forall p :: p in orders + analytics ==> p in orders || p in analytics;
  }

  method SharedMessage(nodes: seq<SpanNode>, producers: seq<nat>) returns (r: Result<string, IdentityFault>)
    requires Positions(nodes, producers) && producers != []
    ensures r.Ok? ==>
              ShareMessage(nodes, producers, r.value) && FirstAttribute(nodes, producers, MESSAGE_ID) == Some(r.value)
    ensures r.Err? ==>
            || (r.error.ProducerMessageMissing? && SomeMessageMissing(nodes, producers))
            || (r.error.ProducerMessagesDiffer?
                && SomeMessageDiffers(nodes, producers, FirstAttribute(nodes, producers, MESSAGE_ID)))
  {
    assert producers[0] in producers;
    var first := RequiredAttribute(nodes[producers[0]].span, MESSAGE_ID);
    if first.None? {
      return Err(ProducerMessageMissing);
    }
    for i := 0 to |producers|
      invariant forall p | p in producers[..i] ::
                p in producers && RequiredAttribute(nodes[p].span, MESSAGE_ID) == first
    {
      assert producers[..i + 1] == producers[..i] + [producers[i]];
      assert producers[i] in producers;
      var id := RequiredAttribute(nodes[producers[i]].span, MESSAGE_ID);
      if id.None? {
        return Err(ProducerMessageMissing);
      }
      if id != first {
        return Err(ProducerMessagesDiffer);
      }
    }
    assert producers[..|producers|] == producers;
    return Ok(first.value);
  }

  /** The first consumer that disagrees with the identity, if any. */
  method CheckConsumers(nodes: seq<SpanNode>, consumers: seq<nat>, identity: Identity, orders: bool)
    returns (fault: Option<(IdentityFault, nat)>)
    requires Positions(nodes, consumers)
    ensures fault.None? ==> forall p | p in consumers ::
              SpanHasIdentity(nodes[p].span, identity, orders)
                  && (!orders ==> AnalyticsOrderOk(nodes[p].span, identity.orderId))
    ensures fault.Some? ==>
            var (what, p) := fault.value;
            && p in consumers
            && (match what
                case ConsumerTenant => RequiredAttribute(nodes[p].span, "tenant.id") != Some(identity.tenantId)
                case ConsumerMessage => RequiredAttribute(nodes[p].span, MESSAGE_ID) != Some(identity.eventId)
                case ConsumerEventType => RequiredAttribute(nodes[p].span, EVENT_TYPE) != Some(identity.eventType)
                case ConsumerOrder => orders && RequiredAttribute(nodes[p].span, ORDER_ID) != Some(identity.orderId)
                case AnalyticsOrder => !orders && !AnalyticsOrderOk(nodes[p].span, identity.orderId)
                case _ => false)
  {
    for i := 0 to |consumers|
      invariant forall p | p in consumers[..i] ::
          && p in consumers && SpanHasIdentity(nodes[p].span, identity, orders)
          && (!orders ==> AnalyticsOrderOk(nodes[p].span, identity.orderId))
    {
      assert consumers[..i + 1] == consumers[..i] + [consumers[i]];
      var p := consumers[i];
      assert p in consumers;
      var span := nodes[p].span;
      if RequiredAttribute(span, "tenant.id") != Some(identity.tenantId) {
        return Some((ConsumerTenant, p));
      }
      if RequiredAttribute(span, MESSAGE_ID) != Some(identity.eventId) {
        return Some((ConsumerMessage, p));
      }
      if RequiredAttribute(span, EVENT_TYPE) != Some(identity.eventType) {
        return Some((ConsumerEventType, p));
      }
      if orders && RequiredAttribute(span, ORDER_ID) != Some(identity.orderId) {
        return Some((ConsumerOrder, p));
      }
      if !orders && !AnalyticsOrderOk(span, identity.orderId) {
        return Some((AnalyticsOrder, p));
      }
    }
    assert consumers[..|consumers|] == consumers;
    return None;
  }

  method VerifiedCommerceIdentity(nodes: seq<SpanNode>, producers: seq<nat>, orders: seq<nat>, analytics: seq<nat>,
                                  expected: BusinessBaggage)
    returns (r: Result<Identity, IdentityFault>)
    requires Positions(nodes, producers) && Positions(nodes, orders) && Positions(nodes, analytics)
    requires producers != [] && orders != []
    ensures r.Ok? ==> OneIdentity(nodes, producers, orders, analytics, expected, r.value)
    ensures r.Err? ==> IdentityRejected(nodes, producers, orders, analytics, expected, r.error)
  {
    var shared := SharedMessage(nodes, producers);
    if shared.Err? {
      return Err(shared.error);
    }
    assert producers[0] in producers && orders[0] in orders;
    var eventType := RequiredAttribute(nodes[orders[0]].span, EVENT_TYPE);
    if eventType.None? {
      return Err(EventTypeMissing);
    }
    var orderId := RequiredAttribute(nodes[orders[0]].span, ORDER_ID);
    if orderId.None? {
      return Err(OrderIdMissing);
    }
    if eventType.value != "order.paid" {
      return Err(EventTypeNotPaid);
    }
    var identity := Identity(TenantOf(expected), shared.value, eventType.value, orderId.value + ":paid", orderId.value);
    var fault := CheckConsumers(nodes, orders, identity, true);
    if fault.Some? {
      assert fault.value.1 in orders + analytics;
      return Err(fault.value.0);
    }
    fault := CheckConsumers(nodes, analytics, identity, false);
    if fault.Some? {
      assert fault.value.1 in orders + analytics;
      return Err(fault.value.0);
    }
    return Ok(identity);
  }
}
