/** The traces of one complete checkout with its messages, everything in them that the verifier lets vary
    being a parameter. */
module Journeys {
  import opened Outcomes
  import RustText
  import Strings
  import opened TraceModel
  import Counting
  import opened Headers
  import opened Evidence

  /** The ids are those of the checkout, fulfillment and analytics traces, and of their ten spans in order.
      `context` holds the attributes that the checkout span shares with the messaging spans; `flags`,
      `tracestate` and `baggage` are carried by the links; `raw` is the text of any JSON field. */
  datatype Journey = Journey(
    traceIds: seq<string>,
    spanIds: seq<string>,
    context: Attributes,
    messageId: string,
    orderId: string,
    flags: string,
    tracestate: string,
    baggage: string,
    raw: string)

  const MESSAGING_KEYS: seq<string> :=
    ["messaging.system", "messaging.destination.name", "messaging.operation.name", "messaging.message.id",
     "commerce.event.type", "order.id"]

  /** The values are well formed, and the carried headers say what the context says. */
  ghost predicate Proper(trip: Journey) {
    && |trip.traceIds| == 3 && Counting.Distinct(trip.traceIds) && (forall id | id in trip.traceIds :: IsTraceId(id))
    && |trip.spanIds| == 10 && Counting.Distinct(trip.spanIds) && (forall id | id in trip.spanIds :: IsSpanId(id))
    && HoldsBusinessBaggage(trip.context) && (forall key | key in MESSAGING_KEYS :: key !in trip.context)
    && !RustText.Blank(trip.messageId) && !RustText.Blank(trip.orderId)
    && IsHex(trip.flags, 2)
    && !RustText.Blank(trip.tracestate) && Tracestate.Parse(trip.tracestate).Some?
    && !RustText.Blank(trip.baggage) && Baggage.Parse(trip.baggage).Some?
    && (forall key | BusinessKey(key) ::
          Lookup(Baggage.Parse(trip.baggage).value, key) == TextAt(trip.context, key))
    && RustText.ByteLength(trip.raw) <= MAX_LINK_ATTRIBUTES_BYTES
  }

  // ----- identifiers -----

  function TraceName(trip: Journey, t: nat): string { if t < |trip.traceIds| then trip.traceIds[t] else "" }

  function SpanName(trip: Journey, i: nat): string { if i < |trip.spanIds| then trip.spanIds[i] else "" }

  lemma RawFits(trip: Journey)
    requires Proper(trip)
    ensures RustText.ByteLength(trip.raw) <= MAX_LINK_ATTRIBUTES_BYTES && IsHex(trip.flags, 2)
  {
  }

  lemma ValuesAreText(trip: Journey)
    requires Proper(trip)
    ensures !RustText.Blank(trip.messageId) && !RustText.Blank(trip.orderId) && !RustText.Blank(Tenant(trip))
    ensures TextAt(trip.context, "tenant.id") == Some(Tenant(trip)) && TenantOf(Carried(trip)) == Tenant(trip)
  {
    hide RustText.Blank;
    assert "tenant.id" == REQUIRED_KEYS[0] && "tenant.id" in REQUIRED_KEYS && BusinessKey("tenant.id");
    assert Lookup(Carried(trip), "tenant.id") == TextAt(trip.context, "tenant.id");
  }

  lemma HexHasNoHyphen(s: string, length: nat)
    requires IsHex(s, length)
    ensures '-' !in s
  {
  }

  lemma TraceNames(trip: Journey, t: nat)
    requires Proper(trip) && t <= 2
    ensures IsTraceId(TraceName(trip, t)) && '-' !in TraceName(trip, t)
    ensures forall u: nat | u <= 2 && t != u :: TraceName(trip, t) != TraceName(trip, u)
  {
    assert trip.traceIds[t] in trip.traceIds;
    HexHasNoHyphen(trip.traceIds[t], 32);
  }

  lemma SpanNames(trip: Journey, i: nat)
    requires Proper(trip) && i <= 9
    ensures IsSpanId(SpanName(trip, i)) && '-' !in SpanName(trip, i)
    ensures forall j: nat | j <= 9 && i != j :: SpanName(trip, i) != SpanName(trip, j)
  {
    assert trip.spanIds[i] in trip.spanIds;
    HexHasNoHyphen(trip.spanIds[i], 16);
  }

  // ----- attributes -----

  function Rabbit(trip: Journey, destination: string, operation: string): Attributes {
    trip.context["messaging.system" := Text("rabbitmq")]["messaging.destination.name" := Text(destination)]
                ["messaging.operation.name" := Text(operation)]["messaging.message.id" := Text(trip.messageId)]
  }

  function Paid(trip: Journey, destination: string, operation: string): Attributes {
    Rabbit(trip, destination, operation)["commerce.event.type" := Text("order.paid")]
  }

  lemma MessagingIsNoBusiness()
    ensures forall key | key in MESSAGING_KEYS :: !BusinessKey(key)
  {
  }

  lemma ContextText(trip: Journey)
    requires Proper(trip)
    ensures TextAt(trip.context, "messaging.system").None? && TextAt(trip.context, "commerce.event.type").None?
    ensures "order.id" !in trip.context && "commerce.event.type" !in trip.context
    ensures "messaging.message.id" !in trip.context
  {
    assert MESSAGING_KEYS[0] in MESSAGING_KEYS && MESSAGING_KEYS[3] in MESSAGING_KEYS;
    assert MESSAGING_KEYS[4] in MESSAGING_KEYS && MESSAGING_KEYS[5] in MESSAGING_KEYS;
  }

  lemma RabbitText(trip: Journey, destination: string, operation: string)
    requires Proper(trip)
    ensures var a := Rabbit(trip, destination, operation);
            && TextAt(a, "messaging.system") == Some("rabbitmq")
            && TextAt(a, "messaging.destination.name") == Some(destination)
            && TextAt(a, "messaging.operation.name") == Some(operation)
            && TextAt(a, "messaging.message.id") == Some(trip.messageId)
            && TextAt(a, "commerce.event.type").None?
            && "order.id" !in a
    ensures forall key | BusinessKey(key) ::
              && TextAt(Rabbit(trip, destination, operation), key) == TextAt(trip.context, key)
              && (key in Rabbit(trip, destination, operation) <==> key in trip.context)
  {
    hide Proper;
    ContextText(trip);
  }

  lemma PaidText(trip: Journey, destination: string, operation: string)
    requires Proper(trip)
    ensures var a := Paid(trip, destination, operation);
            && TextAt(a, "messaging.system") == Some("rabbitmq")
            && TextAt(a, "messaging.destination.name") == Some(destination)
            && TextAt(a, "messaging.operation.name") == Some(operation)
            && TextAt(a, "messaging.message.id") == Some(trip.messageId)
            && TextAt(a, "commerce.event.type") == Some("order.paid")
            && "order.id" !in a
    ensures forall key | BusinessKey(key) ::
              && TextAt(Paid(trip, destination, operation), key) == TextAt(trip.context, key)
              && (key in Paid(trip, destination, operation) <==> key in trip.context)
  {
    hide Rabbit, Proper;
    RabbitText(trip, destination, operation);
  }

  // ----- the business baggage -----

  /** The baggage of the checkout span, and of every span that shares its attributes. */
  ghost function Carried(trip: Journey): BusinessBaggage
    requires Proper(trip)
  {
    BusinessBaggageOf(trip.context).value
  }

  function Tenant(trip: Journey): string {
    var tenant := TextAt(trip.context, "tenant.id");
    if tenant.Some? then tenant.value else ""
  }

  lemma ContextIsCarried(trip: Journey)
    requires Proper(trip)
    ensures BusinessBaggageOf(trip.context) == Some(Carried(trip))
  {
  }

  lemma SameBaggage(trip: Journey, attributes: Attributes)
    requires Proper(trip)
    requires forall key | BusinessKey(key) ::
               && TextAt(attributes, key) == TextAt(trip.context, key) && (key in attributes <==> key in trip.context)
    ensures BusinessBaggageOf(attributes) == Some(Carried(trip)) && Matches(Carried(trip), Carried(trip))
  {
    assert forall key | key in REQUIRED_KEYS :: BusinessKey(key);
    assert BusinessKey(SESSION_KEY);
    assert HoldsBusinessBaggage(attributes);
    BaggageIs(attributes, Carried(trip));
  }

  lemma CarriedIsBusiness(trip: Journey)
    requires Proper(trip)
    ensures IsBusinessBaggage(Carried(trip))
  {
    forall key | key in REQUIRED_KEYS
      ensures key in Carried(trip)
    {
      assert BusinessKey(key) && Lookup(Carried(trip), key) == TextAt(trip.context, key);
    }
  }

  // ----- the carriers -----

  function Traceparent(traceId: string, spanId: string, flags: string): string {
    Strings.Join(["00", traceId, spanId, flags], '-')
  }

  function CarrierAttributes(trip: Journey, traceId: string, spanId: string): Attributes {
    map["traceparent" := Text(Traceparent(traceId, spanId, trip.flags)), "tracestate" := Text(trip.tracestate),
        "baggage" := Text(trip.baggage)]
  }

  lemma TextIsNotBlank(text: string)
    requires text != "" && !RustText.WhiteSpace(text[0])
    ensures !RustText.Blank(text)
  {
    assert text[0] in text;
  }

  lemma TraceparentIsRead(traceId: string, spanId: string, flags: string)
    requires IsTraceId(traceId) && IsSpanId(spanId) && IsHex(flags, 2)
    ensures TraceparentNames(Traceparent(traceId, spanId, flags), traceId, spanId)
    ensures !RustText.Blank(Traceparent(traceId, spanId, flags))
  {
    HexHasNoHyphen(traceId, 32);
    HexHasNoHyphen(spanId, 16);
    HexHasNoHyphen(flags, 2);
    hide IsTraceId, IsSpanId, IsHex;
    var parts := ["00", traceId, spanId, flags];
    assert '-' !in "00";
    Strings.SplitOfJoin(parts, '-');
    var text := Traceparent(traceId, spanId, flags);
    assert text == "00" + ['-'] + Strings.Join(parts[1..], '-');
    assert text[0] == '0';
    TextIsNotBlank(text);
  }

  ghost function StateOf(trip: Journey): Entries
    requires Proper(trip)
  {
    Tracestate.Parse(trip.tracestate).value
  }

  ghost function ItemsOf(trip: Journey): Entries
    requires Proper(trip)
  {
    Baggage.Parse(trip.baggage).value
  }

  lemma CarrierIsRead(trip: Journey, traceId: string, spanId: string)
    requires Proper(trip) && IsTraceId(traceId) && IsSpanId(spanId)
    ensures CarrierOf(CarrierAttributes(trip, traceId, spanId))
         == Some(Carrier(Traceparent(traceId, spanId, trip.flags), StateOf(trip), ItemsOf(trip)))
  {
    hide IsTraceId, IsSpanId, Traceparent, RustText.Blank;
    hide Tracestate.Parse, Baggage.Parse;
    TraceparentIsRead(traceId, spanId, trip.flags);
  }

  lemma ItemsMatch(trip: Journey)
    requires Proper(trip)
    ensures Matches(Carried(trip), ItemsOf(trip))
  {
    CarriedIsBusiness(trip);
    MatchIsAgreement(Carried(trip), ItemsOf(trip));
  }
}
