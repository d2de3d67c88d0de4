/** The traces of every proper journey are accepted: ten spans in three traces, joined by two links. */
module CompleteTraces {
  import opened Outcomes
  import opened RustText
  import Strings
  import opened TraceModel
  import Counting
  import Graphs
  import opened Crawl
  import opened Spans
  import opened Topology
  import opened Links
  import Connectivity
  import opened Evidence
  import opened Analysis
  import opened Acceptance
  import opened Journeys

  // ----- the ten spans -----

  const CHECKOUT: nat := 0
  const PRODUCER: nat := 5
  const ORDER_CONSUMER: nat := 6
  const NOTIFICATION: nat := 7
  const ANALYTICS_CONSUMER: nat := 9

  function TraceAt(i: nat): nat { if i < 6 then 0 else if i < 9 then 1 else 2 }

  function ParentIx(i: nat): Option<nat> {
    if i == CHECKOUT || i == ORDER_CONSUMER || i >= ANALYTICS_CONSUMER then None
    else if i < 5 then Some(i - 1)
    else if i == PRODUCER then Some(CHECKOUT)
    else Some(ORDER_CONSUMER)
  }

  function ServiceAt(i: nat): string {
    if i == 0 || i == 5 then "checkout"
    else if i == 1 then "catalog"
    else if i == 2 then "pricing"
    else if i == 3 then "inventory"
    else if i == 4 then "payment"
    else if i == 7 then "notifications"
    else "fulfillment"
  }

  function NameAt(i: nat): string {
    if i == 0 then "checkout"
    else if i == 1 || i == 7 then "HTTP POST"
    else if i == 2 then "pricing.quote"
    else if i == 3 then "inventory.reserve"
    else if i == 4 then "Payment/Authorize"
    else if i == 5 then "checkout.outbox.publish"
    else if i == 6 then "order.consumer"
    else if i == 8 then "analytics.publish"
    else "analytics.consumer"
  }

  function KindAt(i: nat): string {
    if i == 0 then "SERVER"
    else if i == 5 || i == 8 then "SPAN_KIND_PRODUCER"
    else if i == 6 || i == 9 then "SPAN_KIND_CONSUMER"
    else "CLIENT"
  }

  function AttributesAt(trip: Journey, i: nat): Attributes {
    if i == 0 || i == 7 then trip.context
    else if i == 5 then Paid(trip, "commerce.events", "send")
    else if i == 6 then Paid(trip, "fulfillment.orders", "process")["order.id" := Text(trip.orderId)]
    else if i == 8 then Rabbit(trip, "commerce.events", "send")
    else if i == 9 then Paid(trip, "analytics.events", "process")
    else map[]
  }

  function LinkAttributes(trip: Journey): Attributes {
    CarrierAttributes(trip, TraceName(trip, 0), SpanName(trip, PRODUCER))
  }

  function LinkTo(trip: Journey): TypedLink {
    TypedLink(Some(TraceName(trip, 0)), Some(SpanName(trip, PRODUCER)),
              JsonText(trip.raw, Some(Object(LinkAttributes(trip)))))
  }

  function LinksAt(trip: Journey, i: nat): seq<TypedLink> {
    if i == ORDER_CONSUMER || i == ANALYTICS_CONSUMER then [LinkTo(trip)] else []
  }

  function SpanAt(trip: Journey, i: nat): Span {
    Span(Some(SpanName(trip, i)),
         if ParentIx(i).None? then NullParent else ParentText(SpanName(trip, ParentIx(i).value)),
         Some(NameAt(i)), Some(ServiceAt(i)), Some(KindAt(i)),
         JsonText(trip.raw, Some(Object(AttributesAt(trip, i)))), Some(LinksAt(trip, i)))
  }

  function NodeAt(trip: Journey, i: nat): SpanNode {
    SpanNode(TraceName(trip, TraceAt(i)), SpanName(trip, i),
             if ParentIx(i).None? then None else Some(SpanName(trip, ParentIx(i).value)), SpanAt(trip, i))
  }

  lemma NamesAreText(i: nat)
    ensures !Blank(NameAt(i)) && !Blank(ServiceAt(i))
  {
    hide Blank, WhiteSpace;
    LettersAreText();
    TextIsNotBlank(NameAt(i));
    TextIsNotBlank(ServiceAt(i));
  }

  lemma LettersAreText()
    ensures !WhiteSpace('c') && !WhiteSpace('H') && !WhiteSpace('p') && !WhiteSpace('i') && !WhiteSpace('P')
    ensures !WhiteSpace('o') && !WhiteSpace('a') && !WhiteSpace('n') && !WhiteSpace('f')
  {
  }

  lemma SpanIsOk(trip: Journey, i: nat)
    requires Proper(trip) && i <= 9
    ensures SpanOk(SpanAt(trip, i)) && NodeOf(TraceName(trip, TraceAt(i)), SpanAt(trip, i)) == NodeAt(trip, i)
    ensures SpanAttributes(SpanAt(trip, i)) == Some(AttributesAt(trip, i))
  {
    hide Proper, IsSpanId, Blank, NameAt, ServiceAt, KindAt, AttributesAt, SpanName, LinkTo, ByteLength;
    NamesAreText(i);
    RawFits(trip);
    SpanNames(trip, i);
    if ParentIx(i).Some? {
      SpanNames(trip, ParentIx(i).value);
    }
  }

  // ----- the traces and their nodes -----

  function SpansFrom(trip: Journey, first: nat, count: nat): (spans: seq<Span>)
    ensures |spans| == count && forall k | 0 <= k < count :: spans[k] == SpanAt(trip, first + k)
  {
    seq(count, k requires 0 <= k < count => SpanAt(trip, first + k))
  }

  function Traces(trip: Journey): (traces: seq<Trace>)
    ensures |traces| == 3 && forall t | 0 <= t < 3 :: traces[t].spans.Some?
  {
    [Trace(Some(TraceName(trip, 0)), Some(SpansFrom(trip, 0, 6))),
     Trace(Some(TraceName(trip, 1)), Some(SpansFrom(trip, 6, 3))),
     Trace(Some(TraceName(trip, 2)), Some(SpansFrom(trip, 9, 1)))]
  }

  function Nodes(trip: Journey): (nodes: seq<SpanNode>)
    ensures |nodes| == 10 && forall i | 0 <= i < 10 :: nodes[i] == NodeAt(trip, i)
  {
    seq(10, i requires 0 <= i < 10 => NodeAt(trip, i))
  }

  lemma TraceIsOk(trip: Journey, t: nat, first: nat, count: nat)
    requires Proper(trip) && t <= 2 && 0 < count <= 6 && first + count <= 10
    requires forall i: nat | first <= i < first + count :: TraceAt(i) == t
    ensures var trace := Trace(Some(TraceName(trip, t)), Some(SpansFrom(trip, first, count)));
            TraceOk(trace) && NodesOf(trace) == Nodes(trip)[first..first + count]
  {
    hide Proper, SpanOk, SpanAt, NodeAt, IsTraceId, SpanFieldsOk, NodeOf, TraceAt;
    TraceNames(trip, t);
    var trace := Trace(Some(TraceName(trip, t)), Some(SpansFrom(trip, first, count)));
    var spans := trace.spans.value;
    forall k | 0 <= k < count
      ensures SpanOk(spans[k]) && SpanFieldsOk(spans[k])
                && NodeOf(TraceName(trip, t), spans[k]) == NodeAt(trip, first + k)
    {
      assert TraceAt(first + k) == t;
      SpanIsOk(trip, first + k);
      OkMeansFields(spans[k]);
    }
    assert forall span | span in spans :: SpanOk(span);
  }

  lemma OkMeansFields(span: Span)
    requires SpanOk(span)
    ensures SpanFieldsOk(span)
  {
  }

  lemma TracesAreOk(trip: Journey)
    requires Proper(trip)
    ensures TraceOk(Traces(trip)[0]) && NodesOf(Traces(trip)[0]) == Nodes(trip)[0..6]
    ensures TraceOk(Traces(trip)[1]) && NodesOf(Traces(trip)[1]) == Nodes(trip)[6..9]
    ensures TraceOk(Traces(trip)[2]) && NodesOf(Traces(trip)[2]) == Nodes(trip)[9..10]
  {
    hide TraceOk, NodesOf, Nodes, TraceName, SpansFrom, Proper;
    TraceIsOk(trip, 0, 0, 6);
    TraceIsOk(trip, 1, 6, 3);
    TraceIsOk(trip, 2, 9, 1);
  }

  lemma FlattenThree(traces: seq<Trace>)
    requires |traces| == 3 && TraceOk(traces[0]) && TraceOk(traces[1]) && TraceOk(traces[2])
    ensures forall trace | trace in traces :: TraceOk(trace)
    ensures Flatten(traces) == NodesOf(traces[0]) + NodesOf(traces[1]) + NodesOf(traces[2])
    ensures SpanTotal(traces) == |NodesOf(traces[0])| + |NodesOf(traces[1])| + |NodesOf(traces[2])|
  {
    hide TraceOk, NodesOf, SpanTotal;
    TotalOfMore([], traces[0]);
    TotalOfMore([traces[0]], traces[1]);
    TotalOfMore([traces[0], traces[1]], traces[2]);
    assert [] + [traces[0]] == [traces[0]] && [traces[0]] + [traces[1]] == [traces[0], traces[1]];
    assert traces == [traces[0], traces[1]] + [traces[2]];
    var one, two := traces[..1], traces[..2];
    assert one[..0] == [] && two[..1] == one && two[1] == traces[1] && one[0] == traces[0];
    assert [] + NodesOf(traces[0]) == NodesOf(traces[0]);
    assert Flatten(one) == NodesOf(traces[0]);
  }

  lemma TotalOfMore(before: seq<Trace>, trace: Trace)
    requires TraceOk(trace)
    ensures SpanTotal([]) == 0 && SpanTotal(before + [trace]) == SpanTotal(before) + |NodesOf(trace)|
  {
    assert (before + [trace])[..|before|] == before;
  }

  lemma TraceNamesAre(trip: Journey)
    requires Proper(trip)
    ensures IdsOf(Traces(trip)) == [TraceName(trip, 0), TraceName(trip, 1), TraceName(trip, 2)]
              && Counting.Distinct(IdsOf(Traces(trip)))
  {
    hide Proper, TraceName, SpansFrom;
    TraceNames(trip, 0);
    TraceNames(trip, 1);
    TraceNames(trip, 2);
  }

  lemma TracesAreCollectable(trip: Journey)
    requires Proper(trip)
    ensures Collectable(TraceName(trip, 0), Traces(trip)) && Flatten(Traces(trip)) == Nodes(trip)
  {
    hide TraceOk, NodesOf, Nodes, TraceName, Traces, Proper, SpanTotal;
    TracesAreOk(trip);
    FlattenThree(Traces(trip));
    TraceNamesAre(trip);
    assert Nodes(trip)[0..6] + Nodes(trip)[6..9] + Nodes(trip)[9..10] == Nodes(trip);
  }

  // ----- the index -----

  function IndexUpTo(nodes: seq<SpanNode>, n: nat): Index
    requires n <= |nodes|
  {
    if n == 0 then map[] else IndexUpTo(nodes, n - 1)[KeyOf(nodes[n - 1]) := n - 1]
  }

  lemma OneMoreIndexed(nodes: seq<SpanNode>, n: nat, index: Index)
    requires n < |nodes| && IsIndex(nodes[..n], index) && KeyOf(nodes[n]) !in index
    ensures IsIndex(nodes[..n + 1], index[KeyOf(nodes[n]) := n])
  {
    assert forall i | 0 <= i < n :: nodes[..n][i] == nodes[i] && KeyOf(nodes[..n][i]) in index;
  }

  lemma NotYetIndexed(nodes: seq<SpanNode>, n: nat, index: Index)
    requires n < |nodes| && DistinctIdentities(nodes) && IsIndex(nodes[..n], index)
    ensures KeyOf(nodes[n]) !in index
  {
    hide KeyOf;
    assert forall i | 0 <= i < n :: KeyOf(nodes[i]) != KeyOf(nodes[n]);
  }

  lemma {:induction false} IndexOfPrefix(nodes: seq<SpanNode>, n: nat)
    requires n <= |nodes| && DistinctIdentities(nodes)
    ensures IsIndex(nodes[..n], IndexUpTo(nodes, n))
  {
    hide IsIndex, DistinctIdentities, KeyOf;
    if n == 0 {
      NothingIndexed(nodes);
    } else {
      IndexOfPrefix(nodes, n - 1);
      var before := IndexUpTo(nodes, n - 1);
      NotYetIndexed(nodes, n - 1, before);
      OneMoreIndexed(nodes, n - 1, before);
    }
  }

  lemma NothingIndexed(nodes: seq<SpanNode>)
    ensures IsIndex(nodes[..0], map[])
  {
  }

  function TheIndex(trip: Journey): Index { IndexUpTo(Nodes(trip), 10) }

  lemma NodesAreIndexed(trip: Journey)
    requires Proper(trip)
    ensures IsIndex(Nodes(trip), TheIndex(trip))
  {
    hide Proper, Nodes, SpanAt, SpanName, TraceAt;
    forall i, j | 0 <= i < j < 10
      ensures KeyOf(Nodes(trip)[i]) != KeyOf(Nodes(trip)[j])
    {
      SpanNames(trip, i);
      SpanNames(trip, j);
    }
    IndexOfPrefix(Nodes(trip), 10);
    assert Nodes(trip)[..10] == Nodes(trip);
  }

  lemma IndexFinds(trip: Journey, i: nat)
    requires Proper(trip)
    requires i <= 9
    ensures var key := (TraceName(trip, TraceAt(i)), SpanName(trip, i));
            key in TheIndex(trip) && TheIndex(trip)[key] == i
  {
    hide Proper;
    NodesAreIndexed(trip);
    assert KeyOf(Nodes(trip)[i]) == (TraceName(trip, TraceAt(i)), SpanName(trip, i));
  }

  // ----- the parents -----

  lemma ParentIs(trip: Journey, i: nat)
    requires Proper(trip)
    requires i <= 9
    ensures IsIndex(Nodes(trip), TheIndex(trip)) && ParentAt(Nodes(trip), TheIndex(trip), i) == ParentIx(i)
  {
    hide Proper, TheIndex, IsIndex, SpanAt, SpanName, TraceName;
    NodesAreIndexed(trip);
    if ParentIx(i).Some? {
      IndexFinds(trip, ParentIx(i).value);
      assert TraceAt(ParentIx(i).value) == TraceAt(i);
    }
  }

  /** Where every parent comes before its child, there is no cycle. */
  lemma {:induction false} UpGoesDown(nodes: seq<SpanNode>, index: Index, i: nat, k: nat)
    requires i < |nodes| && IsIndex(nodes, index) && k > 0 && Up(nodes, index, i, k).Some?
    requires forall j | 0 <= j < |nodes| && ParentAt(nodes, index, j).Some? :: ParentAt(nodes, index, j).value < j
    ensures Up(nodes, index, i, k).value < i
  {
    hide IsIndex;
    if k > 1 {
      UpGoesDown(nodes, index, i, k - 1);
    }
  }

  lemma NodesAreAForest(trip: Journey)
    requires Proper(trip)
    ensures IsIndex(Nodes(trip), TheIndex(trip)) && ParentForest(Nodes(trip), TheIndex(trip))
  {
    hide Proper, TheIndex, IsIndex, Nodes, SpanAt, SpanName, TraceName, ParentAt;
    var nodes, index := Nodes(trip), TheIndex(trip);
    NodesAreIndexed(trip);
    forall i: nat | i <= 9
      ensures ParentAt(nodes, index, i) == ParentIx(i)
    {
      ParentIs(trip, i);
    }
    forall i: nat, k: nat
      ensures !Cyclic(nodes, index, i, k)
    {
      if i < 10 && k > 0 && Up(nodes, index, i, k).Some? {
        UpGoesDown(nodes, index, i, k);
      }
    }
    forall traceId | traceId in TraceIds(nodes)
      ensures SingleRoot(nodes, traceId)
    {
      var i: nat :| i < 10 && nodes[i].traceId == traceId;
      TraceHasRoot(trip, i);
    }
  }

  lemma TraceHasRoot(trip: Journey, i: nat)
    requires Proper(trip)
    requires i <= 9
    ensures SingleRoot(Nodes(trip), Nodes(trip)[i].traceId)
  {
    hide Proper, TraceName, SpanName, SpanAt;
    var nodes := Nodes(trip);
    TraceNames(trip, TraceAt(i));
    var root := if i < 6 then CHECKOUT else if i < 9 then ORDER_CONSUMER else ANALYTICS_CONSUMER;
    assert IsRoot(nodes, root) && nodes[root].traceId == nodes[i].traceId;
    forall other: nat | IsRoot(nodes, other) && nodes[other].traceId == nodes[i].traceId
      ensures other == root
    {
      TraceNames(trip, TraceAt(other));
      assert TraceAt(other) == TraceAt(i);
    }
  }

  // ----- the links -----

  lemma TextOf(trip: Journey, i: nat, key: string)
    requires Proper(trip) && i <= 9
    ensures AttributeString(SpanAt(trip, i), key) == TextAt(AttributesAt(trip, i), key)
    ensures RequiredAttribute(SpanAt(trip, i), key) == NonBlank(TextAt(AttributesAt(trip, i), key))
  {
    hide Proper, AttributesAt, SpanAt, NonBlank;
    SpanIsOk(trip, i);
  }

  /** What the messaging spans say. */
  lemma MessagingText(trip: Journey, i: nat)
    requires Proper(trip)
    requires i == PRODUCER || i == ORDER_CONSUMER || i == ANALYTICS_CONSUMER
    ensures TextAt(AttributesAt(trip, i), "messaging.system") == Some("rabbitmq")
    ensures TextAt(AttributesAt(trip, i), "messaging.operation.name")
         == Some(if i == PRODUCER then "send" else "process")
    ensures TextAt(AttributesAt(trip, i), "messaging.destination.name")
         == Some(if i == PRODUCER then "commerce.events"
                 else if i == ORDER_CONSUMER then "fulfillment.orders" else "analytics.events")
    ensures TextAt(AttributesAt(trip, i), MESSAGE_ID) == Some(trip.messageId)
    ensures TextAt(AttributesAt(trip, i), EVENT_TYPE) == Some("order.paid")
    ensures i == ORDER_CONSUMER ==> TextAt(AttributesAt(trip, i), ORDER_ID) == Some(trip.orderId)
    ensures i != ORDER_CONSUMER ==> ORDER_ID !in AttributesAt(trip, i)
  {
    hide Proper, Paid;
    PaidText(trip, "commerce.events", "send");
    PaidText(trip, "fulfillment.orders", "process");
    PaidText(trip, "analytics.events", "process");
  }

  lemma TextsAreThere(trip: Journey)
    requires Proper(trip)
    ensures !Blank(trip.messageId) && !Blank("order.paid") && !Blank(trip.orderId) && !Blank(Tenant(trip))
  {
    hide Proper, Blank, WhiteSpace;
    LettersAreText();
    TextIsNotBlank("order.paid");
    ValuesAreText(trip);
  }

  lemma LinkIsSound(trip: Journey, i: nat)
    requires Proper(trip) && (i == ORDER_CONSUMER || i == ANALYTICS_CONSUMER)
    ensures LinkSemantics(SpanAt(trip, i), SpanAt(trip, PRODUCER))
  {
    hide AttributesAt, AttributeString, RequiredAttribute, LinksAt, ServiceAt, NameAt, SpanName, Blank, Proper;
    MessagingText(trip, i);
    MessagingText(trip, PRODUCER);
    TextsAreThere(trip);
    TextOf(trip, i, "messaging.system");
    TextOf(trip, i, "messaging.operation.name");
    TextOf(trip, i, MESSAGE_ID);
    TextOf(trip, PRODUCER, "messaging.system");
    TextOf(trip, PRODUCER, "messaging.operation.name");
    TextOf(trip, PRODUCER, MESSAGE_ID);
  }

  lemma LinkResolves(trip: Journey, i: nat)
    requires Proper(trip) && (i == ORDER_CONSUMER || i == ANALYTICS_CONSUMER)
    ensures IsIndex(Nodes(trip), TheIndex(trip))
    ensures Resolve(Nodes(trip), TheIndex(trip), i, LinkTo(trip)) == Some(SpanLink(i, PRODUCER, LinkAttributes(trip)))
  {
    hide Proper, IsIndex, TheIndex, LinkSemantics, IsTraceId, IsSpanId, TraceName, SpanName, SpanAt, LinkAttributes;
    RawFits(trip);
    NodesAreIndexed(trip);
    IndexFinds(trip, PRODUCER);
    TraceNames(trip, 0);
    SpanNames(trip, PRODUCER);
    LinkIsSound(trip, i);
  }

  function TheLinks(trip: Journey): seq<SpanLink> {
    [SpanLink(ORDER_CONSUMER, PRODUCER, LinkAttributes(trip)),
     SpanLink(ANALYTICS_CONSUMER, PRODUCER, LinkAttributes(trip))]
  }

  lemma LinksOfNode(trip: Journey, i: nat)
    requires Proper(trip)
    requires i <= 9
    ensures LinksOf(Nodes(trip)[i].span) == LinksAt(trip, i)
  {
    hide Proper;
  }

  lemma NoLinksAt(trip: Journey, n: nat)
    requires Proper(trip)
    requires IsIndex(Nodes(trip), TheIndex(trip)) && n <= 9 && n != ORDER_CONSUMER && n != ANALYTICS_CONSUMER
    ensures ResolvedLinks(Nodes(trip), TheIndex(trip), n + 1) == ResolvedLinks(Nodes(trip), TheIndex(trip), n)
  {
    hide Proper, IsIndex, TheIndex, Nodes;
    LinksOfNode(trip, n);
    assert ResolvedLinks(Nodes(trip), TheIndex(trip), n) + [] == ResolvedLinks(Nodes(trip), TheIndex(trip), n);
  }

  lemma OneResolved(nodes: seq<SpanNode>, index: Index, source: nat, link: TypedLink)
    requires source < |nodes| && IsIndex(nodes, index) && Resolve(nodes, index, source, link).Some?
    ensures ResolvedOf(nodes, index, source, [link]) == [Resolve(nodes, index, source, link).value]
  {
    hide IsIndex, Resolve;
    assert [link][..0] == [];
    assert ResolvedOf(nodes, index, source, []) == [];
  }

  lemma OneLinkAt(trip: Journey, n: nat)
    requires IsIndex(Nodes(trip), TheIndex(trip)) && Proper(trip) && (n == ORDER_CONSUMER || n == ANALYTICS_CONSUMER)
    ensures ResolvedLinks(Nodes(trip), TheIndex(trip), n + 1)
         == ResolvedLinks(Nodes(trip), TheIndex(trip), n) + [SpanLink(n, PRODUCER, LinkAttributes(trip))]
  {
    hide IsIndex, TheIndex, Nodes, Resolve, ResolvedOf, LinksOf, LinkTo, LinkAttributes, Proper;
    LinkResolves(trip, n);
    LinksOfNode(trip, n);
    OneResolved(Nodes(trip), TheIndex(trip), n, LinkTo(trip));
  }

  lemma LinksAre(trip: Journey)
    requires Proper(trip)
    ensures IsIndex(Nodes(trip), TheIndex(trip)) && ResolvedLinks(Nodes(trip), TheIndex(trip), 10) == TheLinks(trip)
  {
    hide IsIndex, TheIndex, Nodes, LinkAttributes, ResolvedLinks, Proper;
    NodesAreIndexed(trip);
    ResolvedFromNone(trip);
    NoLinksAt(trip, 0);
    NoLinksAt(trip, 1);
    NoLinksAt(trip, 2);
    NoLinksAt(trip, 3);
    NoLinksAt(trip, 4);
    NoLinksAt(trip, 5);
    OneLinkAt(trip, 6);
    NoLinksAt(trip, 7);
    NoLinksAt(trip, 8);
    OneLinkAt(trip, 9);
  }

  lemma ResolvedFromNone(trip: Journey)
    requires Proper(trip)
    requires IsIndex(Nodes(trip), TheIndex(trip))
    ensures ResolvedLinks(Nodes(trip), TheIndex(trip), 0) == []
  {
    hide Proper;
  }

  lemma {:induction false} SumIsSmall<T>(s: seq<T>, weight: T -> nat)
    requires forall i | 0 <= i < |s| :: weight(s[i]) <= 1
    ensures Counting.Sum(s, weight) <= |s|
  {
    if s != [] {
      SumIsSmall(s[..|s| - 1], weight);
    }
  }

  lemma LinksAreValid(trip: Journey)
    requires Proper(trip)
    ensures IsIndex(Nodes(trip), TheIndex(trip)) && LinksValid(Nodes(trip), TheIndex(trip))
  {
    hide IsIndex, TheIndex, LinkAttributes, ResolvedLinks, Resolve, TraceName, SpanName, LinkTo, Proper;
    LinksAre(trip);
    forall i | 0 <= i < 10
      ensures LinksResolve(Nodes(trip), TheIndex(trip), i)
    {
      if i == ORDER_CONSUMER || i == ANALYTICS_CONSUMER {
        LinkResolves(trip, i);
      }
    }
    SumIsSmall(Nodes(trip), (node: SpanNode) => |LinksOf(node.span)|);
  }

  // ----- the causal graph -----

  lemma LinkedToProducer(trip: Journey, i: nat)
    requires Proper(trip)
    requires i == ORDER_CONSUMER || i == ANALYTICS_CONSUMER
    ensures IsIndex(Nodes(trip), TheIndex(trip))
              && Connectivity.Adjacent(Nodes(trip), TheIndex(trip), TheLinks(trip), PRODUCER, i)
  {
    hide Proper, IsIndex, TheIndex, Nodes, LinkAttributes;
    NodesAreIndexed(trip);
    var link := TheLinks(trip)[if i == ORDER_CONSUMER then 0 else 1];
    assert link in TheLinks(trip) && link.source == i && link.target == PRODUCER;
  }

  lemma AllAreReached(trip: Journey)
    requires Proper(trip)
    ensures IsIndex(Nodes(trip), TheIndex(trip))
              && Connectivity.AllReached(Nodes(trip), TheIndex(trip), TheLinks(trip), CHECKOUT)
  {
    hide Proper, IsIndex, TheIndex, TheLinks, ParentForest, Connectivity.Adjacent, Graphs.Connected, TraceName;
    hide SpanName, SpanAt;
    var nodes, index := Nodes(trip), TheIndex(trip);
    NodesAreAForest(trip);
    var edge := Connectivity.SpanEdge(nodes, index, TheLinks(trip));
    Connectivity.SameTraceConnected(nodes, index, TheLinks(trip), CHECKOUT, PRODUCER);
    LinkedToProducer(trip, ORDER_CONSUMER);
    LinkedToProducer(trip, ANALYTICS_CONSUMER);
    Graphs.ConnectedStep<nat>(edge, CHECKOUT, PRODUCER, ORDER_CONSUMER);
    Graphs.ConnectedStep<nat>(edge, CHECKOUT, PRODUCER, ANALYTICS_CONSUMER);
    forall i: nat | i < 10
      ensures Connectivity.Reaches(nodes, index, TheLinks(trip), CHECKOUT, i)
    {
      var near := if i < 6 then CHECKOUT else if i < 9 then ORDER_CONSUMER else ANALYTICS_CONSUMER;
      Connectivity.SameTraceConnected(nodes, index, TheLinks(trip), near, i);
      Graphs.ConnectedToItself<nat>(edge, CHECKOUT);
      Graphs.ConnectedThrough<nat>(edge, CHECKOUT, near, i);
    }
  }

  function TheGraph(trip: Journey): Graph { Graph(Nodes(trip), TheIndex(trip), TheLinks(trip)) }

  lemma GraphIsAccepted(trip: Journey)
    requires Proper(trip)
    ensures GraphAccepted(TraceName(trip, 0), Traces(trip), TheGraph(trip))
  {
    hide IsIndex, TheIndex, TheLinks, ParentForest, Connectivity.AllReached, LinksValid, Collectable, IsTraceId, Traces;
    hide Proper;
    TraceNames(trip, 0);
    TracesAreCollectable(trip);
    NodesAreAForest(trip);
    LinksAre(trip);
    LinksAreValid(trip);
    AllAreReached(trip);
    assert IsRoot(Nodes(trip), CHECKOUT);
  }

  // ----- the journey -----

  lemma ServiceIsSeen(trip: Journey, i: nat)
    requires Proper(trip)
    requires i <= 9
    ensures ServiceAt(i) in Services(Nodes(trip))
  {
    hide Proper;
    NamesAreText(i);
    assert Nodes(trip)[i].span.service == Some(ServiceAt(i));
  }

  lemma NameIsSeen(trip: Journey, i: nat, name: string)
    requires Proper(trip)
    requires i <= 9 && AsciiLowercased(NameAt(i)) == name
    ensures exists node | node in Nodes(trip) :: node.span.name.Some? && AsciiLowercased(node.span.name.value) == name
  {
    hide Proper, AsciiLowercased, NameAt;
    var node := Nodes(trip)[i];
    assert node in Nodes(trip) && node.span.name == Some(NameAt(i));
  }

  lemma LowercaseNames()
    ensures AsciiLowercased(NameAt(0)) == "checkout" && AsciiLowercased(NameAt(2)) == "pricing.quote"
    ensures AsciiLowercased(NameAt(3)) == "inventory.reserve" && AsciiLowercased(NameAt(4)) == "payment/authorize"
  {
  }

  lemma Authorizes(trip: Journey)
    requires Proper(trip)
    ensures Contains(SearchableText(SpanAt(trip, 4)), "authorize")
  {
    hide Proper, AsciiLowercased, AttributesAt, SpanName, Contains;
    LowercaseNames();
    var span := SpanAt(trip, 4);
    var fields := [span.name, span.kind, span.service,
                   if span.attributes.JsonText? then Some(span.attributes.raw) else None];
    var texts := TextsOf(fields);
    assert |TextsOf(fields[1..])| > 0 by {
      assert fields[1..][0] == Some(KindAt(4));
    }
    assert |NameAt(4)| == 17 && Truncated(NameAt(4)) == NameAt(4);
    hide Truncated, TextsOf;
    assert texts[0] == "payment/authorize" && |texts| > 1;
    assert SearchableText(span) == "payment/authorize" + [' '] + Strings.Join(texts[1..], ' ');
    FoundAt(SearchableText(span), "authorize", 8);
  }

  lemma FoundAt(text: string, part: string, i: nat)
    requires i <= |text| && part <= text[i..]
    ensures Contains(text, part)
  {
  }

  function TheServices(): set<string> {
    {"catalog", "checkout", "fulfillment", "inventory", "notifications", "payment", "pricing"}
  }

  lemma NoOtherService(trip: Journey)
    requires Proper(trip)
    ensures Services(Nodes(trip)) <= TheServices()
  {
    hide Proper, AttributesAt, NameAt, KindAt, SpanName;
    assert forall i: nat :: ServiceAt(i) in TheServices();
  }

  lemma ServicesAre(trip: Journey)
    requires Proper(trip)
    ensures Services(Nodes(trip)) == TheServices()
  {
    hide Proper, Services, Nodes;
    NoOtherService(trip);
    ServiceIsSeen(trip, 0);
    ServiceIsSeen(trip, 1);
    ServiceIsSeen(trip, 2);
    ServiceIsSeen(trip, 3);
    ServiceIsSeen(trip, 4);
    ServiceIsSeen(trip, 6);
    ServiceIsSeen(trip, 7);
  }

  lemma SpansAreSeen(trip: Journey)
    requires Proper(trip)
    ensures forall required | required in ["checkout", "pricing.quote", "inventory.reserve"] ::
              exists node | node in Nodes(trip) ::
                node.span.name.Some? && AsciiLowercased(node.span.name.value) == required
  {
    hide Proper, Nodes, AsciiLowercased, NameAt;
    LowercaseNames();
    NameIsSeen(trip, 0, "checkout");
    NameIsSeen(trip, 2, "pricing.quote");
    NameIsSeen(trip, 3, "inventory.reserve");
  }

  lemma PaymentIsSeen(trip: Journey)
    requires Proper(trip)
    ensures exists node | node in Nodes(trip) ::
              node.span.service == Some("payment") && Contains(SearchableText(node.span), "authorize")
  {
    hide Proper, SearchableText, Contains, NameAt, AttributesAt, SpanName;
    Authorizes(trip);
    var node := Nodes(trip)[4];
    assert node in Nodes(trip) && node.span == SpanAt(trip, 4) && node.span.service == Some("payment");
  }

  lemma JourneyIsSeen(trip: Journey)
    requires Proper(trip)
    ensures JourneyEvidence(Nodes(trip))
  {
    hide Proper, Nodes, Services, AsciiLowercased, SearchableText, Contains;
    ServicesAre(trip);
    assert "web" !in TheServices() && "storefront" !in TheServices();
    SpansAreSeen(trip);
    PaymentIsSeen(trip);
  }

  // ----- the messaging spans -----

  lemma Singleton(r: seq<nat>, only: nat)
    requires Counting.Distinct(r) && forall i: nat :: i in r <==> i == only
    ensures r == [only]
  {
    assert only in r;
    assert Counting.Elements(r) == {only};
    Counting.DistinctCount(r);
    assert r[0] in r;
  }

  lemma SpanIsIff(trip: Journey, i: nat, service: string, destination: string, operation: string)
    requires Proper(trip) && i <= 9
    ensures SpanIs(SpanAt(trip, i), service, Messaging(destination, operation)) <==>
            && ServiceAt(i) == service
            && TextAt(AttributesAt(trip, i), "messaging.system") == Some("rabbitmq")
            && TextAt(AttributesAt(trip, i), "messaging.destination.name") == Some(destination)
            && TextAt(AttributesAt(trip, i), "messaging.operation.name") == Some(operation)
            && TextAt(AttributesAt(trip, i), "commerce.event.type") == Some("order.paid")
  {
    hide Proper, AttributesAt, ServiceAt, AttributeString, NameAt, KindAt;
    var wanted := Messaging(destination, operation);
    TextOf(trip, i, "messaging.system");
    TextOf(trip, i, "messaging.destination.name");
    TextOf(trip, i, "messaging.operation.name");
    TextOf(trip, i, "commerce.event.type");
    assert wanted[0] in wanted && wanted[1] in wanted && wanted[2] in wanted && wanted[3] in wanted;
  }

  lemma OthersAreNotPaid(trip: Journey, i: nat)
    requires Proper(trip)
    requires i <= 9 && i != PRODUCER && i != ORDER_CONSUMER && i != ANALYTICS_CONSUMER
    ensures TextAt(AttributesAt(trip, i), "commerce.event.type").None?
  {
    hide Proper, Rabbit;
    ContextText(trip);
    RabbitText(trip, "commerce.events", "send");
  }

  lemma OnlyMatch(trip: Journey, service: string, destination: string, operation: string, only: nat)
    requires Proper(trip) && (only == PRODUCER || only == ORDER_CONSUMER || only == ANALYTICS_CONSUMER)
    requires service == ServiceAt(only)
    requires TextAt(AttributesAt(trip, only), "messaging.destination.name") == Some(destination)
    requires TextAt(AttributesAt(trip, only), "messaging.operation.name") == Some(operation)
    requires destination == "commerce.events" || destination == "fulfillment.orders"
              || destination == "analytics.events"
    ensures MatchingSpans(Nodes(trip), service, Messaging(destination, operation)) == [only]
  {
    hide AttributesAt, ServiceAt, SpanIs, SpanAt, Messaging, MatchingSpans, Proper;
    forall i: nat | i <= 9
      ensures SpanIs(SpanAt(trip, i), service, Messaging(destination, operation)) <==> i == only
    {
      SpanIsIff(trip, i, service, destination, operation);
      if i == PRODUCER || i == ORDER_CONSUMER || i == ANALYTICS_CONSUMER {
        MessagingText(trip, i);
        MessagingText(trip, only);
        Destinations();
      } else {
        OthersAreNotPaid(trip, i);
      }
    }
    Singleton(MatchingSpans(Nodes(trip), service, Messaging(destination, operation)), only);
  }

  lemma Destinations()
    ensures "commerce.events" != "fulfillment.orders" && "commerce.events" != "analytics.events"
    ensures "fulfillment.orders" != "analytics.events"
  {
    assert "commerce.events"[0] != "analytics.events"[0];
  }

  lemma MessagingSpansAre(trip: Journey)
    requires Proper(trip)
    ensures Producers(Nodes(trip)) == [PRODUCER] && OrderConsumers(Nodes(trip)) == [ORDER_CONSUMER]
    ensures AnalyticsConsumers(Nodes(trip)) == [ANALYTICS_CONSUMER]
  {
    hide AttributesAt, MatchingSpans, Nodes, Messaging, Proper;
    MessagingText(trip, PRODUCER);
    MessagingText(trip, ORDER_CONSUMER);
    MessagingText(trip, ANALYTICS_CONSUMER);
    OnlyMatch(trip, "checkout", "commerce.events", "send", PRODUCER);
    OnlyMatch(trip, "fulfillment", "fulfillment.orders", "process", ORDER_CONSUMER);
    OnlyMatch(trip, "fulfillment", "analytics.events", "process", ANALYTICS_CONSUMER);
  }

  lemma CheckoutIs(trip: Journey)
    requires Proper(trip)
    ensures CheckoutSpans(TraceName(trip, 0), Nodes(trip)) == {CHECKOUT}
  {
    hide Proper, AttributesAt, KindAt, SpanName, TraceName;
    TraceNames(trip, 0);
    forall i: nat
      ensures i in CheckoutSpans(TraceName(trip, 0), Nodes(trip)) <==> i == CHECKOUT
    {
      if i <= 9 {
        assert Nodes(trip)[i] == NodeAt(trip, i);
      }
    }
  }

  /** The spans that carry the business baggage. */
  lemma SpanShares(trip: Journey, i: nat)
    requires Proper(trip)
    requires i == CHECKOUT || i == PRODUCER || i == ORDER_CONSUMER || i == NOTIFICATION || i == ANALYTICS_CONSUMER
    ensures SpanMatches(SpanAt(trip, i), Carried(trip))
  {
    hide Paid, SpanAt, BusinessKey, Proper;
    SpanIsOk(trip, i);
    PaidText(trip, "commerce.events", "send");
    PaidText(trip, "fulfillment.orders", "process");
    PaidText(trip, "analytics.events", "process");
    MessagingIsNoBusiness();
    SameBaggage(trip, AttributesAt(trip, i));
  }

  lemma BaggageIsAccepted(trip: Journey)
    requires Proper(trip)
    ensures BaggageAccepted(TraceName(trip, 0), Nodes(trip), CHECKOUT, Carried(trip))
  {
    hide SpanAt, SpanMatches, Producers, OrderConsumers, AnalyticsConsumers, CheckoutSpans, Proper, TraceName;
    CheckoutIs(trip);
    MessagingSpansAre(trip);
    SpanIsOk(trip, CHECKOUT);
    ContextIsCarried(trip);
    SpanShares(trip, PRODUCER);
    SpanShares(trip, ORDER_CONSUMER);
    SpanShares(trip, ANALYTICS_CONSUMER);
    assert MessagingSpans(Nodes(trip)) == [PRODUCER, ORDER_CONSUMER, ANALYTICS_CONSUMER];
  }

  // ----- the edges -----

  lemma EdgeIsCarried(trip: Journey, link: SpanLink)
    requires Proper(trip)
    requires link in TheLinks(trip)
    ensures link.target < 10 && EdgeTracestate(Nodes(trip), link, Carried(trip)) == Some(StateOf(trip))
  {
    hide Proper, SpanAt, TraceName, SpanName, Traceparent, TraceparentNames, CarrierAttributes, CarrierOf, Matches;
    hide IsTraceId;
    hide IsSpanId;
    TraceNames(trip, 0);
    SpanNames(trip, PRODUCER);
    CarrierIsRead(trip, TraceName(trip, 0), SpanName(trip, PRODUCER));
    RawFits(trip);
    TraceparentIsRead(TraceName(trip, 0), SpanName(trip, PRODUCER), trip.flags);
    ItemsMatch(trip);
  }

  lemma EdgesOf(trip: Journey, consumer: nat, j: nat)
    requires Proper(trip)
    requires (consumer == ORDER_CONSUMER && j == 0) || (consumer == ANALYTICS_CONSUMER && j == 1)
    ensures Edges(TheLinks(trip), [consumer], [PRODUCER]) == {j}
  {
    hide Proper, LinkAttributes;
    forall k: nat
      ensures k in Edges(TheLinks(trip), [consumer], [PRODUCER]) <==> k == j
    {
    }
  }

  lemma EdgesAreAccepted(trip: Journey, consumer: nat)
    requires Proper(trip)
    requires consumer == ORDER_CONSUMER || consumer == ANALYTICS_CONSUMER
    ensures TargetsInRange(Nodes(trip), TheLinks(trip))
    ensures RequireLinkSemantics(TheLinks(trip), [consumer], [PRODUCER])
    ensures RabbitEdges(TheLinks(trip), Nodes(trip), [PRODUCER], [consumer], Carried(trip), StateOf(trip))
  {
    hide Proper, LinkAttributes, EdgeTracestate, Nodes, Edges;
    var j: nat := if consumer == ORDER_CONSUMER then 0 else 1;
    EdgesOf(trip, consumer, j);
    var link := TheLinks(trip)[j];
    assert link in TheLinks(trip) && link.source == consumer;
    EdgeIsCarried(trip, link);
  }

  lemma MessagingIsAccepted(trip: Journey)
    requires Proper(trip)
    ensures MessagingAccepted(TraceName(trip, 0), TheGraph(trip), CHECKOUT, Carried(trip), StateOf(trip))
  {
    hide BaggageAccepted, RabbitEdges, RequireLinkSemantics, TargetsInRange, TheLinks, TheIndex, Nodes, Proper;
    hide Producers, OrderConsumers, AnalyticsConsumers;
    MessagingSpansAre(trip);
    BaggageIsAccepted(trip);
    EdgesAreAccepted(trip, ORDER_CONSUMER);
    EdgesAreAccepted(trip, ANALYTICS_CONSUMER);
  }

  // ----- the identity and the notification -----

  function TheIdentity(trip: Journey): Identity {
    Identity(Tenant(trip), trip.messageId, "order.paid", trip.orderId + ":paid", trip.orderId)
  }

  lemma TenantIs(trip: Journey, i: nat)
    requires Proper(trip) && (i == ORDER_CONSUMER || i == ANALYTICS_CONSUMER)
    ensures TenantOf(Carried(trip)) == Tenant(trip)
    ensures RequiredAttribute(SpanAt(trip, i), "tenant.id") == Some(Tenant(trip))
  {
    hide SpanAt, SpanMatches, Proper;
    ValuesAreText(trip);
    assert "tenant.id" == REQUIRED_KEYS[0] && "tenant.id" in REQUIRED_KEYS && BusinessKey("tenant.id");
    CarriedIsBusiness(trip);
    SpanShares(trip, i);
    SpanCarries(SpanAt(trip, i), Carried(trip), "tenant.id");
  }

  lemma ConsumerHasIdentity(trip: Journey, i: nat)
    requires Proper(trip) && (i == ORDER_CONSUMER || i == ANALYTICS_CONSUMER)
    ensures SpanHasIdentity(SpanAt(trip, i), TheIdentity(trip), i == ORDER_CONSUMER)
    ensures AnalyticsOrderOk(SpanAt(trip, i), trip.orderId)
  {
    hide SpanAt, AttributesAt, RequiredAttribute, Blank, Proper;
    SpanIsOk(trip, i);
    TenantIs(trip, i);
    MessagingText(trip, i);
    TextsAreThere(trip);
    TextOf(trip, i, MESSAGE_ID);
    TextOf(trip, i, EVENT_TYPE);
    TextOf(trip, i, ORDER_ID);
  }

  lemma IdentityIsOne(trip: Journey)
    requires Proper(trip)
    ensures OneIdentity(Nodes(trip), [PRODUCER], [ORDER_CONSUMER], [ANALYTICS_CONSUMER], Carried(trip),
              TheIdentity(trip))
  {
    hide SpanAt, SpanHasIdentity, AnalyticsOrderOk, RequiredAttribute, Blank, Proper;
    MessagingText(trip, PRODUCER);
    TextsAreThere(trip);
    TextOf(trip, PRODUCER, MESSAGE_ID);
    TenantIs(trip, ORDER_CONSUMER);
    ConsumerHasIdentity(trip, ORDER_CONSUMER);
    ConsumerHasIdentity(trip, ANALYTICS_CONSUMER);
    assert trip.orderId + ":paid" == trip.orderId + ":paid";
  }

  lemma NotificationDescends(trip: Journey)
    requires Proper(trip)
    ensures IsIndex(Nodes(trip), TheIndex(trip))
    ensures HasAncestor(Nodes(trip), TheIndex(trip), NOTIFICATION, Counting.Elements([ORDER_CONSUMER]))
  {
    hide Proper, TheIndex, IsIndex, Nodes, ParentAt;
    ParentIs(trip, NOTIFICATION);
    assert Up(Nodes(trip), TheIndex(trip), NOTIFICATION, 1) == Some(ORDER_CONSUMER);
    assert ORDER_CONSUMER in Counting.Elements([ORDER_CONSUMER]);
  }

  lemma NotificationSays(trip: Journey)
    requires Proper(trip)
    ensures SpanAt(trip, NOTIFICATION).service == Some("notifications")
    ensures SpanAttributes(SpanAt(trip, NOTIFICATION)) == Some(trip.context)
  {
    hide Proper;
    SpanIsOk(trip, NOTIFICATION);
  }

  lemma NotificationIsThere(trip: Journey)
    requires Proper(trip)
    ensures IsIndex(Nodes(trip), TheIndex(trip))
    ensures NotificationAt(Nodes(trip), TheIndex(trip), [ORDER_CONSUMER], Carried(trip), TheIdentity(trip),
              NOTIFICATION)
  {
    hide SpanMatches, TheIndex, IsIndex, Proper, HasAncestor, SpanAt;
    NotificationDescends(trip);
    NotificationSays(trip);
    SpanShares(trip, NOTIFICATION);
    ContextText(trip);
  }

  /** The traces of every proper journey meet the condition of every stage. */
  lemma CompleteTracesAreAccepted(trip: Journey) returns (e: Findings)
    requires Proper(trip)
    ensures Accepted(TraceName(trip, 0), Traces(trip), TheGraph(trip), e)
    ensures e.identity == TheIdentity(trip)
  {
    hide GraphAccepted, JourneyEvidence, MessagingAccepted, OneIdentity, NotificationAt, IsIndex;
    hide Producers, OrderConsumers, AnalyticsConsumers, Nodes, TheIndex, TheLinks, Traces, Proper;
    e := Findings(CHECKOUT, Carried(trip), StateOf(trip), TheIdentity(trip));
    GraphIsAccepted(trip);
    JourneyIsSeen(trip);
    MessagingIsAccepted(trip);
    MessagingSpansAre(trip);
    IdentityIsOne(trip);
    NotificationIsThere(trip);
  }

  // ----- the backend that serves them -----

  function Served(trip: Journey): Backend {
    map[TraceName(trip, 0) :=
          Response(Some(Traces(trip)[0]), Some([Some(TraceName(trip, 1)), Some(TraceName(trip, 2))])),
        TraceName(trip, 1) := Response(Some(Traces(trip)[1]), Some([])),
        TraceName(trip, 2) := Response(Some(Traces(trip)[2]), Some([]))]
  }

  lemma ServedAnswers(trip: Journey)
    requires Proper(trip)
    ensures TraceName(trip, 0) in Served(trip) && TraceName(trip, 1) in Served(trip)
              && TraceName(trip, 2) in Served(trip)
    ensures Served(trip)[TraceName(trip, 0)]
         == Response(Some(Traces(trip)[0]), Some([Some(TraceName(trip, 1)), Some(TraceName(trip, 2))]))
    ensures Served(trip)[TraceName(trip, 1)] == Response(Some(Traces(trip)[1]), Some([]))
    ensures Served(trip)[TraceName(trip, 2)] == Response(Some(Traces(trip)[2]), Some([]))
  {
    hide Proper, TraceName, Traces;
    TraceNames(trip, 0);
    TraceNames(trip, 1);
    TraceNames(trip, 2);
  }

  /** Six spans at most, with one typed link each at most, to this trace. */
  ghost predicate NamesOnly(spans: seq<Span>, traceId: string) {
    && |spans| <= 6
    && forall span | span in spans ::
         && SpanLinksWellFormed(span) && |LinksOf(span)| <= 1
         && forall link | link in LinksOf(span) :: link.traceId == Some(traceId)
  }

  /** A trace as the crawl reads it. */
  lemma ServedSpans(trip: Journey, t: nat)
    requires Proper(trip) && t <= 2
    ensures Traces(trip)[t].traceId == Some(TraceName(trip, t))
    ensures NamesOnly(Traces(trip)[t].spans.value, TraceName(trip, 0))
  {
    hide TraceName, SpanName, AttributesAt, NameAt, ServiceAt, KindAt, IsTraceId, LinkAttributes, Proper;
    TraceNames(trip, 0);
  }

  lemma ServedIsReadable(trip: Journey, t: nat)
    requires Proper(trip) && t <= 2
    ensures Readable(Served(trip), TraceName(trip, t))
              && Served(trip)[TraceName(trip, t)].trace == Some(Traces(trip)[t])
    ensures SpanWeight(Served(trip))(TraceName(trip, t)) <= 6 && LinkWeight(Served(trip))(TraceName(trip, t)) <= 6
    ensures forall id | Names(Served(trip)[TraceName(trip, t)], id) ::
              id == TraceName(trip, 0) || (t == 0 && (id == TraceName(trip, 1) || id == TraceName(trip, 2)))
  {
    hide TraceName, Traces, Served, SpanLinksWellFormed, IsTraceId, Proper;
    TraceNames(trip, 0);
    TraceNames(trip, 1);
    TraceNames(trip, 2);
    ServedAnswers(trip);
    ServedSpans(trip, t);
    FewLinks(Traces(trip)[t].spans.value);
  }

  lemma {:induction false} FewLinks(spans: seq<Span>)
    requires forall span | span in spans :: |LinksOf(span)| <= 1
    ensures LinkCountOf(spans) <= |spans|
  {
    if spans != [] {
      var n := |spans| - 1;
      assert spans == spans[..n] + [spans[n]];
      FewLinks(spans[..n]);
    }
  }

  function TheIds(trip: Journey): seq<string> { [TraceName(trip, 0), TraceName(trip, 1), TraceName(trip, 2)] }

  /** The order in which the crawl meets the traces. */
  lemma DiscoveryIs(trip: Journey)
    requires Proper(trip)
    ensures Discovered(Served(trip), TraceName(trip, 0), 3) == TheIds(trip)
  {
    hide TraceName, Traces, Served, Proper, NamedInOrder, Discovered, Counting.Distinct;
    ServedAnswers(trip);
    var backend, start := Served(trip), TraceName(trip, 0);
    FirstDiscovered(backend, start);
    NamedFirst(trip);
    ServedDiscovers(trip);
    NothingNew(trip, 1);
    NothingNew(trip, 2);
  }

  lemma FirstDiscovered(backend: Backend, start: string)
    ensures Discovered(backend, start, 0) == [start]
  {
  }

  /** The checkout trace has no typed links, and its linked traces are the other two. */
  lemma NamedFirst(trip: Journey)
    requires Proper(trip)
    ensures NamedInOrder(Served(trip)[TraceName(trip, 0)]) == [TraceName(trip, 1), TraceName(trip, 2)]
  {
    hide TraceName, Traces, Served, Proper, LinkedIds;
    ServedAnswers(trip);
    NoNamedLinks(trip);
    var linked := [Some(TraceName(trip, 1)), Some(TraceName(trip, 2))];
    assert linked[..1] == [Some(TraceName(trip, 1))] && linked[..1][..0] == [];
    assert TextIds(linked[..1]) == [TraceName(trip, 1)];
    assert TextIds(linked) == [TraceName(trip, 1), TraceName(trip, 2)];
  }

  lemma NoNamedLinks(trip: Journey)
    requires Proper(trip)
    ensures Traces(trip)[0].spans.Some? && NamedInSpans(Traces(trip)[0].spans.value) == []
  {
    hide Proper, TraceName, SpanName, AttributesAt, NameAt, ServiceAt, KindAt;
    NamesNothing(Traces(trip)[0].spans.value);
  }

  lemma {:induction false} NamesNothing(spans: seq<Span>)
    requires forall span | span in spans :: span.typedLinks == Some([])
    ensures NamedInSpans(spans) == []
  {
    if spans != [] {
      var n := |spans| - 1;
      assert spans == spans[..n] + [spans[n]];
      NamesNothing(spans[..n]);
      assert LinkedIds(spans[n]).Some? ==> LinkedIds(spans[n]).value == [];
    }
  }

  lemma ServedDiscovers(trip: Journey)
    requires Proper(trip) && Discovered(Served(trip), TraceName(trip, 0), 0) == [TraceName(trip, 0)]
    requires NamedInOrder(Served(trip)[TraceName(trip, 0)]) == [TraceName(trip, 1), TraceName(trip, 2)]
    ensures Discovered(Served(trip), TraceName(trip, 0), 1) == TheIds(trip)
  {
    hide TraceName, Traces, Served, NamedInOrder, Proper;
    ServedAnswers(trip);
    TraceNames(trip, 0);
    TraceNames(trip, 1);
    TraceNames(trip, 2);
    DiscoveredNext(Served(trip), TraceName(trip, 0), 0, TraceName(trip, 0));
    var known, ids := [TraceName(trip, 0)], [TraceName(trip, 1), TraceName(trip, 2)];
    assert ids[..1] == [TraceName(trip, 1)] && ids[..1][..0] == [];
    assert Extend(known, ids[..1]) == [TraceName(trip, 0), TraceName(trip, 1)];
    assert Extend(known, ids) == TheIds(trip);
  }

  lemma {:induction false} ExtendByKnown(known: seq<string>, ids: seq<string>)
    requires forall id | id in ids :: id in known
    ensures Extend(known, ids) == known
  {
    if ids != [] {
      assert ids[|ids| - 1] in ids;
      ExtendByKnown(known, ids[..|ids| - 1]);
    }
  }

  lemma NothingNew(trip: Journey, t: nat)
    requires Proper(trip) && 1 <= t <= 2 && Discovered(Served(trip), TraceName(trip, 0), t) == TheIds(trip)
    ensures Discovered(Served(trip), TraceName(trip, 0), t + 1) == TheIds(trip)
  {
    hide TraceName, Traces, Served, NamedInOrder, Proper, Discovered, Names;
    ServedAnswers(trip);
    ServedIsReadable(trip, t);
    var response := Served(trip)[TraceName(trip, t)];
    NamedInOrderAre(response);
    assert forall id | id in NamedInOrder(response) :: id in TheIds(trip);
    ExtendByKnown(TheIds(trip), NamedInOrder(response));
    DiscoveredNext(Served(trip), TraceName(trip, 0), t, TraceName(trip, t));
  }

  lemma ServedIsCrawled(trip: Journey)
    requires Proper(trip)
    ensures CrawlResult(Served(trip), TraceName(trip, 0), Traces(trip))
  {
    hide TraceName, Traces, Served, Proper, Readable, Names, Discovered, SpanWeight, LinkWeight;
    TraceNamesAre(trip);
    DiscoveryIs(trip);
    var backend, ids := Served(trip), TheIds(trip);
    ServedIsReadable(trip, 0);
    ServedIsReadable(trip, 1);
    ServedIsReadable(trip, 2);
    SumOfThree(ids, SpanWeight(backend));
    SumOfThree(ids, LinkWeight(backend));
    ServedIsLeast(trip);
  }

  lemma SumOfThree(ids: seq<string>, weight: string -> nat)
    requires |ids| == 3
    ensures Counting.Sum(ids, weight) == weight(ids[0]) + weight(ids[1]) + weight(ids[2])
  {
    assert ids[..2][..1] == ids[..1] && ids[..1][..0] == [];
    assert Counting.Sum(ids[..1], weight) == weight(ids[0]);
    assert Counting.Sum(ids[..2], weight) == weight(ids[0]) + weight(ids[1]);
  }

  lemma ServedIsLeast(trip: Journey)
    requires Proper(trip)
    ensures Least(Served(trip), TraceName(trip, 0), TheIds(trip))
  {
    hide TraceName, Traces, Served, Proper;
    ServedAnswers(trip);
    var first := Served(trip)[TraceName(trip, 0)];
    assert Some(TraceName(trip, 1)) in LinkedOf(first) && Some(TraceName(trip, 2)) in LinkedOf(first);
    assert Names(first, TraceName(trip, 1)) && Names(first, TraceName(trip, 2));
  }

  /** A backend that serves the traces of a proper journey is accepted, with the identity they carry. */
  lemma ServedIsAccepted(trip: Journey) returns (result: AnalysisResult)
    requires Proper(trip)
    ensures Accepts(Served(trip), TraceName(trip, 0), result)
    ensures result.identity == TheIdentity(trip) && result.summary == Summary(3, 10, TheServices())
  {
    hide CrawlResult, Accepted, Traces, Served, Proper, Services, Nodes, TheServices;
    ServicesAre(trip);
    var e := CompleteTracesAreAccepted(trip);
    result := ResultOf(Traces(trip), TheGraph(trip), e);
    ServedIsCrawled(trip);
    AcceptedHere(Served(trip), TraceName(trip, 0), Traces(trip), TheGraph(trip), e, result);
  }
}
