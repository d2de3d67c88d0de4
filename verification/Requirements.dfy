/** What an accepted set of traces is, said over the fields of the traces and their spans alone: the stages of
    the verification accept exactly the traces that meet these requirements. */
module Requirements {
  import opened Outcomes
  import opened RustText
  import opened TraceModel
  import opened Spans
  import opened Topology
  import Counting
  import Crawl
  import Graphs
  import opened Links
  import Connectivity

  // ----- texts -----

  /** Hexadecimal digits, not all of them zero. */
  ghost predicate HexId(s: string, length: nat) {
    && |s| == length
    && (forall i | 0 <= i < |s| :: '0' <= s[i] <= '9' || 'a' <= s[i] <= 'f' || 'A' <= s[i] <= 'F')
    && exists i | 0 <= i < |s| :: s[i] != '0'
  }

  ghost predicate HasText(field: Option<string>) {
    field.Some? && exists i | 0 <= i < |field.value| :: !WhiteSpace(field.value[i])
  }

  lemma IdIff(s: string)
    ensures IsTraceId(s) <==> HexId(s, 32)
    ensures IsSpanId(s) <==> HexId(s, 16)
  {
    assert forall i | 0 <= i < |s| :: s[i] in s;
  }

  lemma TextIff(field: Option<string>)
    ensures NonEmptyText(field) <==> HasText(field)
  {
    hide WhiteSpace;
    if field.Some? {
      assert forall i | 0 <= i < |field.value| :: field.value[i] in field.value;
    }
  }

  // ----- the spans -----

  /** An id, a name and a service, attributes that are a JSON object within 64 KiB, no parent or the id of one,
      and at most 128 typed links. */
  ghost predicate SpanIsGood(span: Span) {
    && span.spanId.Some? && HexId(span.spanId.value, 16)
    && HasText(span.name) && HasText(span.service)
    && span.attributes.JsonText? && ByteLength(span.attributes.raw) <= 65536
    && span.attributes.parsed.Some? && span.attributes.parsed.value.Object?
    && (span.parentSpanId.NullParent? || (span.parentSpanId.ParentText? && HexId(span.parentSpanId.id, 16)))
    && span.typedLinks.Some? && |span.typedLinks.value| <= 128
  }

  lemma SpanIff(span: Span)
    ensures SpanOk(span) <==> SpanIsGood(span)
  {
    hide HexId, IsSpanId, HasText, NonEmptyText, ByteLength;
    TextIff(span.name);
    TextIff(span.service);
    if span.spanId.Some? {
      IdIff(span.spanId.value);
    }
    if span.parentSpanId.ParentText? {
      IdIff(span.parentSpanId.id);
    }
  }

  function SpansIn(trace: Trace): seq<Span> { if trace.spans.Some? then trace.spans.value else [] }

  /** The position of the first span of a trace in the list of all. */
  function First(traces: seq<Trace>, t: nat): nat
    requires t <= |traces|
  {
    if t == 0 then 0 else First(traces, t - 1) + |SpansIn(traces[t - 1])|
  }

  /** One to 32 traces with different ids, the anchor among them, each of 1 to 4096 good spans, at most 8192 in
      all. */
  ghost predicate TracesAreGood(anchor: string, traces: seq<Trace>) {
    && 1 <= |traces| <= 32 && First(traces, |traces|) <= 8192
    && (forall t | 0 <= t < |traces| ::
          && traces[t].traceId.Some? && HexId(traces[t].traceId.value, 32)
          && traces[t].spans.Some? && 1 <= |traces[t].spans.value| <= 4096
          && forall k | 0 <= k < |traces[t].spans.value| :: SpanIsGood(traces[t].spans.value[k]))
    && (forall t, u | 0 <= t < u < |traces| :: traces[t].traceId != traces[u].traceId)
    && exists t | 0 <= t < |traces| :: traces[t].traceId == Some(anchor)
  }

  /** The list of all spans, trace by trace, each with the id of its trace, its own and its parent's. */
  ghost predicate Lists(traces: seq<Trace>, nodes: seq<SpanNode>) {
    && |nodes| == First(traces, |traces|)
    && forall t: nat, k: nat | t < |traces| && k < |SpansIn(traces[t])| :: ListedAt(traces, nodes, t, k)
  }

  ghost predicate ListedAt(traces: seq<Trace>, nodes: seq<SpanNode>, t: nat, k: nat)
    requires t < |traces| && k < |SpansIn(traces[t])|
  {
    First(traces, t) + k < |nodes| && IsNodeOf(nodes[First(traces, t) + k], traces[t], SpansIn(traces[t])[k])
  }

  ghost predicate IsNodeOf(node: SpanNode, trace: Trace, span: Span) {
    && Some(node.traceId) == trace.traceId && Some(node.spanId) == span.spanId && node.span == span
    && node.parent == (if span.parentSpanId.ParentText? then Some(span.parentSpanId.id) else None)
  }

  lemma TraceIff(trace: Trace)
    ensures TraceOk(trace) <==>
              && trace.traceId.Some? && HexId(trace.traceId.value, 32)
              && trace.spans.Some? && 1 <= |trace.spans.value| <= 4096
              && forall k | 0 <= k < |trace.spans.value| :: SpanIsGood(trace.spans.value[k])
  {
    hide SpanOk, SpanIsGood, HexId, IsTraceId;
    if trace.traceId.Some? {
      IdIff(trace.traceId.value);
    }
    if trace.spans.Some? {
      var spans := trace.spans.value;
      forall span
        ensures SpanOk(span) <==> SpanIsGood(span)
      {
        SpanIff(span);
      }
      assert forall k | 0 <= k < |spans| :: spans[k] in spans;
    }
  }

  lemma {:induction false} FirstOfPrefix(traces: seq<Trace>, n: nat, t: nat)
    requires t <= n <= |traces|
    ensures First(traces[..n], t) == First(traces, t)
  {
    if t > 0 {
      FirstOfPrefix(traces, n, t - 1);
    }
  }

  lemma {:induction false} TotalIsFirst(traces: seq<Trace>)
    ensures SpanTotal(traces) == First(traces, |traces|)
  {
    if traces != [] {
      var n := |traces| - 1;
      TotalIsFirst(traces[..n]);
      FirstOfPrefix(traces, n, n);
    }
  }

  lemma DistinctIff(traces: seq<Trace>)
    requires forall t | 0 <= t < |traces| :: traces[t].traceId.Some?
    ensures Counting.Distinct(Crawl.IdsOf(traces)) <==>
              forall t, u | 0 <= t < u < |traces| :: traces[t].traceId != traces[u].traceId
    ensures forall id :: id in Crawl.IdsOf(traces) <==> exists t | 0 <= t < |traces| :: traces[t].traceId == Some(id)
  {
    var ids := Crawl.IdsOf(traces);
    forall id
      ensures id in ids <==> exists t | 0 <= t < |traces| :: traces[t].traceId == Some(id)
    {
      if t :| 0 <= t < |traces| && traces[t].traceId == Some(id) {
        assert ids[t] == id;
      }
    }
    assert forall t | 0 <= t < |traces| :: traces[t].traceId == Some(ids[t]);
  }

  lemma CollectableIff(anchor: string, traces: seq<Trace>)
    ensures Collectable(anchor, traces) <==> TracesAreGood(anchor, traces)
  {
    hide TraceOk, SpanTotal, Counting.Distinct, HexId, SpanIsGood;
    TotalIsFirst(traces);
    forall trace
      ensures TraceOk(trace) <==>
                && trace.traceId.Some? && HexId(trace.traceId.value, 32)
                && trace.spans.Some? && 1 <= |trace.spans.value| <= 4096
                && forall k | 0 <= k < |trace.spans.value| :: SpanIsGood(trace.spans.value[k])
    {
      TraceIff(trace);
    }
    assert forall t | 0 <= t < |traces| :: traces[t] in traces;
    if forall t | 0 <= t < |traces| :: traces[t].traceId.Some? {
      DistinctIff(traces);
    }
  }

  lemma {:induction false} FlattenedAt(traces: seq<Trace>, t: nat, k: nat)
    requires (forall trace | trace in traces :: TraceOk(trace)) && t < |traces| && k < |NodesOf(traces[t])|
    ensures First(traces, t) + k < |Flatten(traces)| == First(traces, |traces|)
    ensures Flatten(traces)[First(traces, t) + k] == NodesOf(traces[t])[k]
    decreases |traces|
  {
    hide TraceOk, NodesOf;
    var n := |traces| - 1;
    FlattenedLength(traces[..n]);
    FirstOfPrefix(traces, n, n);
    FirstOfPrefix(traces, n, t);
    SpansOfTrace(traces[n]);
    if t < n {
      FlattenedAt(traces[..n], t, k);
    }
  }

  lemma SpansOfTrace(trace: Trace)
    requires TraceOk(trace)
    ensures |NodesOf(trace)| == |SpansIn(trace)|
    ensures forall k | 0 <= k < |SpansIn(trace)| :: IsNodeOf(NodesOf(trace)[k], trace, SpansIn(trace)[k])
  {
    assert forall k | 0 <= k < |SpansIn(trace)| :: SpansIn(trace)[k] in trace.spans.value;
  }

  lemma {:induction false} FlattenedLength(traces: seq<Trace>)
    requires forall trace | trace in traces :: TraceOk(trace)
    ensures |Flatten(traces)| == First(traces, |traces|)
  {
    hide TraceOk, NodesOf;
    if traces != [] {
      var n := |traces| - 1;
      FlattenedLength(traces[..n]);
      FirstOfPrefix(traces, n, n);
      SpansOfTrace(traces[n]);
    }
  }

  lemma {:induction false} TraceOfPosition(traces: seq<Trace>, n: nat, i: nat) returns (t: nat, k: nat)
    requires n <= |traces| && i < First(traces, n)
    ensures t < n && k < |SpansIn(traces[t])| && i == First(traces, t) + k
  {
    if i >= First(traces, n - 1) {
      t, k := n - 1, i - First(traces, n - 1);
    } else {
      t, k := TraceOfPosition(traces, n - 1, i);
    }
  }

  /** There is one list of all spans, and it is the flattened one. */
  lemma ListIff(traces: seq<Trace>, nodes: seq<SpanNode>)
    requires forall trace | trace in traces :: TraceOk(trace)
    ensures nodes == Flatten(traces) <==> Lists(traces, nodes)
  {
    hide TraceOk, NodesOf, Flatten, First, SpansIn, IsNodeOf;
    FlattenedLength(traces);
    forall t: nat, k: nat | t < |traces| && k < |SpansIn(traces[t])|
      ensures ListedAt(traces, Flatten(traces), t, k)
    {
      SpansOfTrace(traces[t]);
      FlattenedAt(traces, t, k);
    }
    assert Lists(traces, Flatten(traces));
    if Lists(traces, nodes) {
      forall i | 0 <= i < |nodes|
        ensures nodes[i] == Flatten(traces)[i]
      {
        var t, k := TraceOfPosition(traces, |traces|, i);
        assert ListedAt(traces, nodes, t, k) && ListedAt(traces, Flatten(traces), t, k);
        OneNode(nodes[i], Flatten(traces)[i], traces[t], SpansIn(traces[t])[k]);
      }
      assert nodes == Flatten(traces);
    }
  }

  lemma OneNode(one: SpanNode, other: SpanNode, trace: Trace, span: Span)
    requires IsNodeOf(one, trace, span) && IsNodeOf(other, trace, span)
    ensures one == other
  {
  }

  // ----- the parents -----

  /** Span `j` has the id that span `i` names as its parent, in the same trace. */
  ghost predicate ParentIs(nodes: seq<SpanNode>, i: nat, j: nat) {
    && i < |nodes| && j < |nodes|
    && nodes[i].parent == Some(nodes[j].spanId) && nodes[i].traceId == nodes[j].traceId
  }

  /** Each next span is the parent of the one before. */
  ghost predicate IsChain(nodes: seq<SpanNode>, chain: seq<nat>) {
    && chain != [] && chain[0] < |nodes|
    && forall m | 0 <= m < |chain| - 1 :: ParentIs(nodes, chain[m], chain[m + 1])
  }

  ghost predicate RootOf(nodes: seq<SpanNode>, r: nat, traceId: string) {
    r < |nodes| && nodes[r].parent.None? && nodes[r].traceId == traceId
  }

  ghost predicate HasOneRoot(nodes: seq<SpanNode>, traceId: string) {
    exists r: nat :: RootOf(nodes, r, traceId) && forall s: nat | RootOf(nodes, s, traceId) :: s == r
  }

  /** Every parent is there, every trace has one root, and no chain of parents comes back to its start. */
  ghost predicate IsForest(nodes: seq<SpanNode>) {
    && (forall i: nat | i < |nodes| && nodes[i].parent.Some? :: exists j: nat :: ParentIs(nodes, i, j))
    && (forall i: nat | i < |nodes| :: HasOneRoot(nodes, nodes[i].traceId))
    && forall chain | IsChain(nodes, chain) && |chain| > 1 :: chain[0] != chain[|chain| - 1]
  }

  /** The index finds every span by its trace and its own id, and nothing else. */
  ghost predicate Indexes(nodes: seq<SpanNode>, index: Index) {
    && (forall i: nat | i < |nodes| ::
          (nodes[i].traceId, nodes[i].spanId) in index && index[(nodes[i].traceId, nodes[i].spanId)] == i)
    && forall key | key in index ::
         index[key] < |nodes| && nodes[index[key]].traceId == key.0 && nodes[index[key]].spanId == key.1
  }

  lemma IndexIff(nodes: seq<SpanNode>, index: Index)
    ensures IsIndex(nodes, index) <==> Indexes(nodes, index)
  {
  }

  lemma ParentIff(nodes: seq<SpanNode>, index: Index, i: nat, j: nat)
    requires IsIndex(nodes, index) && i < |nodes|
    ensures ParentAt(nodes, index, i) == Some(j) <==> ParentIs(nodes, i, j)
  {
  }

  lemma {:induction false} ChainOf(nodes: seq<SpanNode>, index: Index, i: nat, k: nat) returns (chain: seq<nat>)
    requires IsIndex(nodes, index) && i < |nodes| && Up(nodes, index, i, k).Some?
    ensures IsChain(nodes, chain) && |chain| == k + 1
    ensures chain[0] == i && chain[k] == Up(nodes, index, i, k).value
  {
    hide IsIndex, ParentAt, ParentIs;
    if k == 0 {
      chain := [i];
    } else {
      var before := ChainOf(nodes, index, i, k - 1);
      var j := Up(nodes, index, i, k).value;
      ParentIff(nodes, index, before[k - 1], j);
      chain := before + [j];
    }
  }

  lemma {:induction false} ChainGoesUp(nodes: seq<SpanNode>, index: Index, chain: seq<nat>)
    requires IsIndex(nodes, index) && IsChain(nodes, chain)
    ensures Up(nodes, index, chain[0], |chain| - 1) == Some(chain[|chain| - 1])
    decreases |chain|
  {
    hide IsIndex, ParentAt;
    var k := |chain| - 1;
    if k > 0 {
      ChainGoesUp(nodes, index, chain[..k]);
      ParentIff(nodes, index, chain[k - 1], chain[k]);
    }
  }

  lemma AcyclicIff(nodes: seq<SpanNode>, index: Index)
    requires IsIndex(nodes, index)
    ensures Acyclic(nodes, index) <==>
              forall chain | IsChain(nodes, chain) && |chain| > 1 :: chain[0] != chain[|chain| - 1]
  {
    hide IsIndex, Up, ParentIs;
    forall chain | IsChain(nodes, chain) && |chain| > 1 && chain[0] == chain[|chain| - 1]
      ensures Cyclic(nodes, index, chain[0], |chain| - 1)
    {
      ChainGoesUp(nodes, index, chain);
    }
    if i: nat, k: nat :| Cyclic(nodes, index, i, k) {
      var chain := ChainOf(nodes, index, i, k);
    }
  }

  lemma RootsIff(nodes: seq<SpanNode>)
    ensures (forall traceId | traceId in TraceIds(nodes) :: SingleRoot(nodes, traceId)) <==>
              forall i: nat | i < |nodes| :: HasOneRoot(nodes, nodes[i].traceId)
  {
    hide SingleRoot, HasOneRoot;
    forall traceId
      ensures SingleRoot(nodes, traceId) <==> HasOneRoot(nodes, traceId)
    {
      OneRootIff(nodes, traceId);
    }
    assert forall i: nat | i < |nodes| :: nodes[i].traceId in TraceIds(nodes);
  }

  lemma OneRootIff(nodes: seq<SpanNode>, traceId: string)
    ensures SingleRoot(nodes, traceId) <==> HasOneRoot(nodes, traceId)
  {
    forall r: nat
      ensures RootOf(nodes, r, traceId) <==> IsRoot(nodes, r) && nodes[r].traceId == traceId
    {
    }
  }

  lemma ForestIff(nodes: seq<SpanNode>, index: Index)
    requires IsIndex(nodes, index)
    ensures ParentForest(nodes, index) <==> IsForest(nodes)
  {
    hide IsIndex, Acyclic, SingleRoot, IsChain, HasOneRoot, ParentAt, ParentIs, TraceIds;
    AcyclicIff(nodes, index);
    RootsIff(nodes);
    ParentsIff(nodes, index);
  }

  lemma ParentsIff(nodes: seq<SpanNode>, index: Index)
    requires IsIndex(nodes, index)
    ensures ParentsResolve(nodes, index) <==>
              forall i: nat | i < |nodes| && nodes[i].parent.Some? :: exists j: nat :: ParentIs(nodes, i, j)
  {
    hide IsIndex, ParentAt, ParentIs;
    forall i: nat | i < |nodes|
      ensures ParentAt(nodes, index, i).Some? <==> exists j: nat :: ParentIs(nodes, i, j)
    {
      forall j: nat
        ensures ParentAt(nodes, index, i) == Some(j) <==> ParentIs(nodes, i, j)
      {
        ParentIff(nodes, index, i, j);
      }
      if ParentAt(nodes, index, i).Some? {
        assert ParentIs(nodes, i, ParentAt(nodes, index, i).value);
      }
    }
  }

  // ----- the typed links -----

  /** The attribute object of the span has this text under this key. */
  ghost predicate Says(span: Span, key: string, value: string) {
    && span.attributes.JsonText? && span.attributes.parsed.Some? && span.attributes.parsed.value.Object?
    && key in span.attributes.parsed.value.fields && span.attributes.parsed.value.fields[key] == Text(value)
  }

  ghost predicate IsRabbit(span: Span, operation: string, kind: string) {
    && Says(span, "messaging.system", "rabbitmq") && Says(span, "messaging.operation.name", operation)
    && span.kind == Some(kind)
  }

  ghost predicate NamesMessage(span: Span, id: string) {
    Says(span, "messaging.message.id", id) && HasText(Some(id))
  }

  /** The typed link names another span by its trace and its own id and carries a JSON object within 16 KiB; it
      goes from a consuming span to the producing span of the same message. */
  ghost predicate LinkIs(nodes: seq<SpanNode>, i: nat, link: TypedLink, found: SpanLink) {
    && i < |nodes| && found.source == i && found.target < |nodes| && found.target != i
    && link.traceId == Some(nodes[found.target].traceId) && HexId(nodes[found.target].traceId, 32)
    && link.spanId == Some(nodes[found.target].spanId) && HexId(nodes[found.target].spanId, 16)
    && link.attributes.JsonText? && ByteLength(link.attributes.raw) <= 16384
    && link.attributes.parsed == Some(Object(found.attributes))
    && IsRabbit(nodes[i].span, "process", "SPAN_KIND_CONSUMER")
    && IsRabbit(nodes[found.target].span, "send", "SPAN_KIND_PRODUCER")
    && exists id :: NamesMessage(nodes[i].span, id) && NamesMessage(nodes[found.target].span, id)
  }

  function LinksIn(node: SpanNode): seq<TypedLink> {
    if node.span.typedLinks.Some? then node.span.typedLinks.value else []
  }

  /** The position of the first link of a span in the list of all. */
  function FirstLink(nodes: seq<SpanNode>, n: nat): nat
    requires n <= |nodes|
  {
    if n == 0 then 0 else FirstLink(nodes, n - 1) + |LinksIn(nodes[n - 1])|
  }

  ghost predicate GoodSpans(nodes: seq<SpanNode>) { forall i | 0 <= i < |nodes| :: SpanIsGood(nodes[i].span) }

  /** The links of all spans in order, at most 8192, no two between the same spans in the same direction. */
  ghost predicate ListsLinks(nodes: seq<SpanNode>, links: seq<SpanLink>) {
    && |links| == FirstLink(nodes, |nodes|) <= 8192
    && (forall i: nat, k: nat | i < |nodes| && k < |LinksIn(nodes[i])| :: LinkListedAt(nodes, links, i, k))
    && forall a, b | 0 <= a < b < |links| :: links[a].source != links[b].source || links[a].target != links[b].target
  }

  ghost predicate LinkListedAt(nodes: seq<SpanNode>, links: seq<SpanLink>, i: nat, k: nat)
    requires i < |nodes| && k < |LinksIn(nodes[i])|
  {
    FirstLink(nodes, i) + k < |links| && LinkIs(nodes, i, LinksIn(nodes[i])[k], links[FirstLink(nodes, i) + k])
  }

  lemma SaysIff(span: Span, key: string, value: string)
    requires SpanIsGood(span)
    ensures AttributeString(span, key) == Some(value) <==> Says(span, key, value)
  {
    hide HexId, HasText, ByteLength;
  }

  lemma RoleIff(span: Span)
    requires SpanIsGood(span)
    ensures MessagingRoleOf(span) == Some(Consumer) <==> IsRabbit(span, "process", "SPAN_KIND_CONSUMER")
    ensures MessagingRoleOf(span) == Some(Producer) <==> IsRabbit(span, "send", "SPAN_KIND_PRODUCER")
  {
    hide SpanIsGood, Says, AttributeString;
    SaysIff(span, "messaging.system", "rabbitmq");
    SaysIff(span, "messaging.operation.name", "send");
    SaysIff(span, "messaging.operation.name", "process");
  }

  lemma MessageIff(span: Span, id: string)
    requires SpanIsGood(span)
    ensures RequiredAttribute(span, "messaging.message.id") == Some(id) <==> NamesMessage(span, id)
  {
    hide SpanIsGood, Says, AttributeString, Blank, HasText;
    SaysIff(span, "messaging.message.id", id);
    BlankIff(id);
  }

  lemma BlankIff(text: string)
    ensures !Blank(text) <==> HasText(Some(text))
  {
    hide WhiteSpace;
    assert forall i | 0 <= i < |text| :: text[i] in text;
  }

  lemma SemanticsIff(source: Span, target: Span)
    requires SpanIsGood(source) && SpanIsGood(target)
    ensures LinkSemantics(source, target) <==>
              && IsRabbit(source, "process", "SPAN_KIND_CONSUMER") && IsRabbit(target, "send", "SPAN_KIND_PRODUCER")
              && exists id :: NamesMessage(source, id) && NamesMessage(target, id)
  {
    hide SpanIsGood, IsRabbit, MessagingRoleOf, NamesMessage, RequiredAttribute;
    RoleIff(source);
    RoleIff(target);
    forall id
      ensures RequiredAttribute(source, "messaging.message.id") == Some(id) <==> NamesMessage(source, id)
      ensures RequiredAttribute(target, "messaging.message.id") == Some(id) <==> NamesMessage(target, id)
    {
      MessageIff(source, id);
      MessageIff(target, id);
    }
    if RequiredAttribute(source, "messaging.message.id").Some? {
      assert NamesMessage(source, RequiredAttribute(source, "messaging.message.id").value);
    }
  }

  lemma ResolveIff(nodes: seq<SpanNode>, index: Index, i: nat, link: TypedLink, found: SpanLink)
    requires IsIndex(nodes, index) && GoodSpans(nodes) && i < |nodes|
    ensures Resolve(nodes, index, i, link) == Some(found) <==> LinkIs(nodes, i, link, found)
  {
    hide SpanIsGood, HexId, IsTraceId, IsSpanId, LinkSemantics, IsRabbit, NamesMessage, ByteLength;
    if link.traceId.Some? {
      IdIff(link.traceId.value);
    }
    if link.spanId.Some? {
      IdIff(link.spanId.value);
    }
    if found.target < |nodes| {
      SemanticsIff(nodes[i].span, nodes[found.target].span);
    }
  }

  lemma {:induction false} ResolvedOneByOne(nodes: seq<SpanNode>, index: Index, i: nat, links: seq<TypedLink>)
    requires IsIndex(nodes, index) && i < |nodes|
    requires forall link | link in links :: Resolve(nodes, index, i, link).Some?
    ensures |ResolvedOf(nodes, index, i, links)| == |links|
    ensures forall k | 0 <= k < |links| ::
              Resolve(nodes, index, i, links[k]) == Some(ResolvedOf(nodes, index, i, links)[k])
  {
    hide IsIndex, Resolve;
    if links != [] {
      ResolvedOneByOne(nodes, index, i, links[..|links| - 1]);
    }
  }

  lemma LinksAreThere(nodes: seq<SpanNode>, index: Index, i: nat)
    requires IsIndex(nodes, index) && i < |nodes| && LinksResolve(nodes, index, i)
    ensures Crawl.LinksOf(nodes[i].span) == LinksIn(nodes[i])
    ensures forall link | link in LinksIn(nodes[i]) :: Resolve(nodes, index, i, link).Some?
  {
    hide IsIndex, Resolve;
  }

  lemma {:induction false} ResolvedAt(nodes: seq<SpanNode>, index: Index, n: nat, i: nat, k: nat)
    requires IsIndex(nodes, index) && i < n <= |nodes| && k < |LinksIn(nodes[i])|
    requires forall j | 0 <= j < n :: LinksResolve(nodes, index, j)
    ensures FirstLink(nodes, i) + k < |ResolvedLinks(nodes, index, n)|
    ensures Resolve(nodes, index, i, LinksIn(nodes[i])[k])
         == Some(ResolvedLinks(nodes, index, n)[FirstLink(nodes, i) + k])
  {
    hide IsIndex, Resolve, ResolvedOf, ResolvedLinks, LinksResolve, LinksIn, FirstLink;
    ResolvedCount(nodes, index, n - 1);
    LinksAreThere(nodes, index, n - 1);
    ResolvedOneByOne(nodes, index, n - 1, LinksIn(nodes[n - 1]));
    ResolvedNext(nodes, index, n);
    var before := ResolvedLinks(nodes, index, n - 1);
    var last := ResolvedOf(nodes, index, n - 1, LinksIn(nodes[n - 1]));
    if i < n - 1 {
      ResolvedAt(nodes, index, n - 1, i, k);
    } else {
      assert (before + last)[|before| + k] == last[k];
    }
  }

  lemma ResolvedNext(nodes: seq<SpanNode>, index: Index, n: nat)
    requires IsIndex(nodes, index) && 0 < n <= |nodes| && LinksResolve(nodes, index, n - 1)
    ensures ResolvedLinks(nodes, index, n)
         == ResolvedLinks(nodes, index, n - 1) + ResolvedOf(nodes, index, n - 1, LinksIn(nodes[n - 1]))
  {
    hide IsIndex, Resolve, ResolvedOf;
    LinksAreThere(nodes, index, n - 1);
  }

  lemma {:induction false} ResolvedCount(nodes: seq<SpanNode>, index: Index, n: nat)
    requires IsIndex(nodes, index) && n <= |nodes| && forall j | 0 <= j < n :: LinksResolve(nodes, index, j)
    ensures |ResolvedLinks(nodes, index, n)| == FirstLink(nodes, n)
  {
    hide IsIndex, Resolve, ResolvedOf;
    if n > 0 {
      ResolvedCount(nodes, index, n - 1);
      LinksAreThere(nodes, index, n - 1);
      ResolvedOneByOne(nodes, index, n - 1, LinksIn(nodes[n - 1]));
    }
  }

  lemma {:induction false} LinkTotalIs(nodes: seq<SpanNode>)
    ensures LinkTotal(nodes) == FirstLink(nodes, |nodes|)
  {
    if nodes != [] {
      var n := |nodes| - 1;
      LinkTotalIs(nodes[..n]);
      FirstLinkOfPrefix(nodes, n, n);
    }
  }

  lemma {:induction false} FirstLinkOfPrefix(nodes: seq<SpanNode>, n: nat, i: nat)
    requires i <= n <= |nodes|
    ensures FirstLink(nodes[..n], i) == FirstLink(nodes, i)
  {
    if i > 0 {
      FirstLinkOfPrefix(nodes, n, i - 1);
    }
  }

  lemma {:induction false} SpanOfLink(nodes: seq<SpanNode>, n: nat, a: nat) returns (i: nat, k: nat)
    requires n <= |nodes| && a < FirstLink(nodes, n)
    ensures i < n && k < |LinksIn(nodes[i])| && a == FirstLink(nodes, i) + k
  {
    if a >= FirstLink(nodes, n - 1) {
      i, k := n - 1, a - FirstLink(nodes, n - 1);
    } else {
      i, k := SpanOfLink(nodes, n - 1, a);
    }
  }

  lemma GoodLinks(nodes: seq<SpanNode>, i: nat)
    requires GoodSpans(nodes) && i < |nodes|
    ensures nodes[i].span.typedLinks.Some? && Crawl.LinksOf(nodes[i].span) == LinksIn(nodes[i])
    ensures |LinksIn(nodes[i])| <= 128
  {
    assert SpanIsGood(nodes[i].span);
  }

  lemma AllResolve(nodes: seq<SpanNode>, index: Index, links: seq<SpanLink>, i: nat)
    requires IsIndex(nodes, index) && GoodSpans(nodes) && i < |nodes| && ListsLinks(nodes, links)
    ensures LinksResolve(nodes, index, i)
  {
    hide IsIndex, Resolve, LinkIs, LinksIn, GoodSpans;
    GoodLinks(nodes, i);
    var named := LinksIn(nodes[i]);
    forall link | link in named
      ensures Resolve(nodes, index, i, link).Some?
    {
      var k: nat :| k < |named| && named[k] == link;
      assert LinkListedAt(nodes, links, i, k);
      ResolveIff(nodes, index, i, named[k], links[FirstLink(nodes, i) + k]);
    }
  }

  lemma ResolvedAre(nodes: seq<SpanNode>, index: Index)
    requires IsIndex(nodes, index) && GoodSpans(nodes) && forall j | 0 <= j < |nodes| :: LinksResolve(nodes, index, j)
    ensures var resolved := ResolvedLinks(nodes, index, |nodes|);
            && |resolved| == FirstLink(nodes, |nodes|)
            && forall i: nat, k: nat | i < |nodes| && k < |LinksIn(nodes[i])| :: LinkListedAt(nodes, resolved, i, k)
  {
    hide IsIndex, Resolve, LinkIs, LinksResolve, ResolvedLinks, FirstLink, LinksIn, GoodSpans;
    var resolved := ResolvedLinks(nodes, index, |nodes|);
    ResolvedCount(nodes, index, |nodes|);
    forall i: nat, k: nat | i < |nodes| && k < |LinksIn(nodes[i])|
      ensures LinkListedAt(nodes, resolved, i, k)
    {
      ResolvedAt(nodes, index, |nodes|, i, k);
      ResolveIff(nodes, index, i, LinksIn(nodes[i])[k], resolved[FirstLink(nodes, i) + k]);
    }
  }

  lemma OneTarget(nodes: seq<SpanNode>, index: Index, i: nat, link: TypedLink, one: SpanLink, other: SpanLink)
    requires IsIndex(nodes, index) && GoodSpans(nodes) && i < |nodes|
    requires LinkIs(nodes, i, link, one) && LinkIs(nodes, i, link, other)
    ensures one == other
  {
    hide IsIndex, Resolve, LinkIs, GoodSpans;
    ResolveIff(nodes, index, i, link, one);
    ResolveIff(nodes, index, i, link, other);
  }

  lemma ListedAreResolved(nodes: seq<SpanNode>, index: Index, links: seq<SpanLink>)
    requires IsIndex(nodes, index) && GoodSpans(nodes) && ListsLinks(nodes, links)
    requires forall j | 0 <= j < |nodes| :: LinksResolve(nodes, index, j)
    ensures links == ResolvedLinks(nodes, index, |nodes|)
  {
    hide IsIndex, LinkIs, LinksResolve, ResolvedLinks, FirstLink, LinksIn, GoodSpans;
    ResolvedAre(nodes, index);
    var resolved := ResolvedLinks(nodes, index, |nodes|);
    forall a: nat | a < |links|
      ensures links[a] == resolved[a]
    {
      var i, k := SpanOfLink(nodes, |nodes|, a);
      assert LinkListedAt(nodes, links, i, k) && LinkListedAt(nodes, resolved, i, k);
      OneTarget(nodes, index, i, LinksIn(nodes[i])[k], links[a], resolved[a]);
    }
    assert links == resolved;
  }

  lemma PairsIff(links: seq<SpanLink>)
    ensures DistinctPairs(links) <==> forall a, b | 0 <= a < b < |links| ::
              links[a].source != links[b].source || links[a].target != links[b].target
  {
  }

  /** The links are valid exactly if they can be listed, and the list is the resolved one. */
  lemma LinksIff(nodes: seq<SpanNode>, index: Index, links: seq<SpanLink>)
    requires IsIndex(nodes, index) && GoodSpans(nodes)
    ensures LinksValid(nodes, index) && links == ResolvedLinks(nodes, index, |nodes|) <==> ListsLinks(nodes, links)
  {
    hide IsIndex, LinkListedAt, LinksResolve, ResolvedLinks, FirstLink, LinksIn, GoodSpans, LinkTotal, DistinctPairs;
    LinkTotalIs(nodes);
    if ListsLinks(nodes, links) {
      forall i: nat | i < |nodes|
        ensures LinksResolve(nodes, index, i)
      {
        AllResolve(nodes, index, links, i);
      }
      ListedAreResolved(nodes, index, links);
      PairsIff(links);
    } else if LinksValid(nodes, index) && links == ResolvedLinks(nodes, index, |nodes|) {
      ResolvedAre(nodes, index);
      PairsIff(links);
    }
  }

  // ----- one causal graph -----

  /** Parent and child, or the two ends of a link. */
  ghost predicate Touch(nodes: seq<SpanNode>, links: seq<SpanLink>, a: nat, b: nat) {
    || ParentIs(nodes, a, b) || ParentIs(nodes, b, a)
    || exists link | link in links :: (link.source == a && link.target == b) || (link.source == b && link.target == a)
  }

  /** From the root of the anchor trace one can walk to every span. */
  ghost predicate IsConnected(anchor: string, nodes: seq<SpanNode>, links: seq<SpanLink>) {
    exists root: nat :: RootOf(nodes, root, anchor) && forall i: nat | i < |nodes| :: CanWalk(nodes, links, root, i)
  }

  ghost predicate CanWalk(nodes: seq<SpanNode>, links: seq<SpanLink>, from: nat, to: nat) {
    exists walk :: Walks(nodes, links, walk, from, to)
  }

  ghost predicate Walks(nodes: seq<SpanNode>, links: seq<SpanLink>, walk: seq<nat>, from: nat, to: nat) {
    && walk != [] && walk[0] == from && walk[|walk| - 1] == to
    && forall m | 0 <= m < |walk| - 1 :: Touch(nodes, links, walk[m], walk[m + 1])
  }

  lemma TouchIff(nodes: seq<SpanNode>, index: Index, links: seq<SpanLink>, a: nat, b: nat)
    requires IsIndex(nodes, index) && Connectivity.LinksInRange(nodes, links)
    ensures Connectivity.Adjacent(nodes, index, links, a, b) <==> Touch(nodes, links, a, b)
  {
    hide IsIndex, ParentAt, ParentIs;
    if a < |nodes| && b < |nodes| {
      ParentIff(nodes, index, a, b);
      ParentIff(nodes, index, b, a);
    }
    OutOfRange(nodes, a, b);
  }

  lemma OutOfRange(nodes: seq<SpanNode>, a: nat, b: nat)
    ensures ParentIs(nodes, a, b) || ParentIs(nodes, b, a) ==> a < |nodes| && b < |nodes|
  {
  }

  lemma ReachIff(nodes: seq<SpanNode>, index: Index, links: seq<SpanLink>, root: nat, i: nat)
    requires IsIndex(nodes, index) && Connectivity.LinksInRange(nodes, links)
    ensures Connectivity.Reaches(nodes, index, links, root, i) <==> CanWalk(nodes, links, root, i)
  {
    hide IsIndex, Connectivity.Adjacent, Touch;
    var edge := Connectivity.SpanEdge(nodes, index, links);
    forall a: nat, b: nat
      ensures edge(a, b) <==> Touch(nodes, links, a, b)
    {
      TouchIff(nodes, index, links, a, b);
    }
    if walk :| Graphs.IsPath(edge, walk) && walk[0] == root && walk[|walk| - 1] == i {
      assert Walks(nodes, links, walk, root, i);
    }
    if walk :| Walks(nodes, links, walk, root, i) {
      assert Graphs.IsPath(edge, walk);
    }
  }
}
