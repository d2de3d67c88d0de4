/** Flattening fetched traces into span nodes, and the index from span identity to position. */
module Spans {
  import opened Outcomes
  import RustText
  import opened TraceModel
  import Counting
  import opened Crawl

  datatype SpanNode = SpanNode(traceId: string, spanId: string, parent: Option<string>, span: Span)

  type Key = (string, string)
  type Index = map<Key, nat>

  /** The checks of `collect_span_nodes`. */
  datatype CollectFault =
    | NoTraces | TooManyTraces | BadTraceId | DuplicateTrace | NoSpanList | EmptyTrace
    | TooManySpans | TooManyTotalSpans | BadSpan | TooManyTypedLinks | MissingAnchor

  predicate NonEmptyText(field: Option<string>) { field.Some? && !RustText.Blank(field.value) }

  predicate SpanFieldsOk(span: Span) {
    && span.spanId.Some? && IsSpanId(span.spanId.value)
    && NonEmptyText(span.name) && NonEmptyText(span.service)
    && SpanAttributes(span).Some?
    && (span.parentSpanId.NullParent? || (span.parentSpanId.ParentText? && IsSpanId(span.parentSpanId.id)))
    && span.typedLinks.Some?
  }

  predicate SpanOk(span: Span) {
    SpanFieldsOk(span) && |LinksOf(span)| <= MAX_TYPED_LINKS_PER_SPAN
  }

  function NodeOf(traceId: string, span: Span): SpanNode
    requires SpanFieldsOk(span)
  {
    SpanNode(traceId, span.spanId.value,
             if span.parentSpanId.ParentText? then Some(span.parentSpanId.id) else None, span)
  }

  predicate TraceOk(trace: Trace) {
    && trace.traceId.Some? && IsTraceId(trace.traceId.value)
    && trace.spans.Some? && 0 < |trace.spans.value| <= MAX_SPANS_PER_TRACE
    && forall span | span in trace.spans.value :: SpanOk(span)
  }

  function NodesOf(trace: Trace): (nodes: seq<SpanNode>)
    requires TraceOk(trace)
    ensures |nodes| == |trace.spans.value|
  {
    var spans := trace.spans.value;
    assert forall i | 0 <= i < |spans| :: spans[i] in spans;
    seq(|spans|, i requires 0 <= i < |spans| => NodeOf(trace.traceId.value, spans[i]))
  }

  ghost function Flatten(traces: seq<Trace>): seq<SpanNode>
    requires forall trace | trace in traces :: TraceOk(trace)
  {
    if traces == [] then [] else Flatten(traces[..|traces| - 1]) + NodesOf(traces[|traces| - 1])
  }

  ghost function SpanTotal(traces: seq<Trace>): nat {
    Counting.Sum(traces, (trace: Trace) => if trace.spans.Some? then |trace.spans.value| else 0)
  }

  ghost predicate Collectable(anchor: string, traces: seq<Trace>) {
    && 0 < |traces| <= MAX_TRACES
    && (forall trace | trace in traces :: TraceOk(trace))
    && Counting.Distinct(IdsOf(traces))
    && SpanTotal(traces) <= MAX_TOTAL_SPANS
    && anchor in IdsOf(traces)
  }

  /** What each fault says about the traces. */
  ghost predicate CollectFaultHolds(fault: CollectFault, anchor: string, traces: seq<Trace>) {
    match fault
    case NoTraces => traces == []
    case TooManyTraces => |traces| > MAX_TRACES
    case BadTraceId => exists trace | trace in traces :: trace.traceId.None? || !IsTraceId(trace.traceId.value)
    case DuplicateTrace => !Counting.Distinct(IdsOf(traces))
    case NoSpanList => exists trace | trace in traces :: trace.spans.None?
    case EmptyTrace => exists trace | trace in traces :: trace.spans == Some([])
    case TooManySpans => exists trace | trace in traces ::
        trace.spans.Some? && |trace.spans.value| > MAX_SPANS_PER_TRACE
    case TooManyTotalSpans => SpanTotal(traces) > MAX_TOTAL_SPANS
    case BadSpan => exists trace | trace in traces :: trace.spans.Some? && exists span | span in trace.spans.value ::
        !SpanFieldsOk(span)
    case TooManyTypedLinks =>
      exists trace | trace in traces :: trace.spans.Some? &&
        exists span | span in trace.spans.value :: |LinksOf(span)| > MAX_TYPED_LINKS_PER_SPAN
    case MissingAnchor => anchor !in IdsOf(traces)
  }

  /** Any fault refuses the traces. */
  lemma FaultRefuses(fault: CollectFault, anchor: string, traces: seq<Trace>)
    requires CollectFaultHolds(fault, anchor, traces)
    ensures !Collectable(anchor, traces)
  {
  }

  /** A fault of one trace alone, whatever the others are. */
  ghost predicate FaultOfTrace(fault: CollectFault, trace: Trace) {
    !fault.NoTraces? && !fault.MissingAnchor? && forall anchor :: CollectFaultHolds(fault, anchor, [trace])
  }

  /** The checks on the spans of one trace, `before` nodes having been collected already. */
  method CollectTrace(trace: Trace, before: nat) returns (r: Result<seq<SpanNode>, CollectFault>)
    requires trace.traceId.Some? && IsTraceId(trace.traceId.value)
    ensures r.Ok? <==> TraceOk(trace) && before + |trace.spans.value| <= MAX_TOTAL_SPANS
    ensures r.Ok? ==> r.value == NodesOf(trace)
    ensures r == Err(TooManyTotalSpans) ==> trace.spans.Some? && before + |trace.spans.value| > MAX_TOTAL_SPANS
    ensures r.Err? && !r.error.TooManyTotalSpans? ==>
            FaultOfTrace(r.error, trace) && !r.error.TooManyTraces? && !r.error.DuplicateTrace?
  {
    assert trace in [trace];
    if trace.spans.None? {
      return Err(NoSpanList);
    }
    var spans := trace.spans.value;
    if spans == [] {
      return Err(EmptyTrace);
    }
    if |spans| > MAX_SPANS_PER_TRACE {
      return Err(TooManySpans);
    }
    if before + |spans| > MAX_TOTAL_SPANS {
      return Err(TooManyTotalSpans);
    }
    var nodes: seq<SpanNode> := [];
    for i := 0 to |spans|
      invariant forall span | span in spans[..i] :: SpanOk(span)
      invariant |nodes| == i
      invariant forall j | 0 <= j < i :: SpanFieldsOk(spans[j]) && nodes[j] == NodeOf(trace.traceId.value, spans[j])
    {
      assert spans[..i + 1] == spans[..i] + [spans[i]];
      assert spans[i] in spans;
      if !SpanFieldsOk(spans[i]) {
        return Err(BadSpan);
      }
      if |LinksOf(spans[i])| > MAX_TYPED_LINKS_PER_SPAN {
        return Err(TooManyTypedLinks);
      }
      nodes := nodes + [NodeOf(trace.traceId.value, spans[i])];
    }
    assert spans[..|spans|] == spans;
    return Ok(nodes);
  }

  lemma {:induction false} SpanTotalGrows(traces: seq<Trace>, n: nat)
    requires n <= |traces|
    ensures SpanTotal(traces[..n]) <= SpanTotal(traces)
    decreases |traces| - n
  {
    if n < |traces| {
      assert traces[..n + 1][..n] == traces[..n];
      SpanTotalGrows(traces, n + 1);
    } else {
      assert traces[..n] == traces;
    }
  }

  lemma FaultOfPart(fault: CollectFault, anchor: string, traces: seq<Trace>, i: nat)
    requires i < |traces| && FaultOfTrace(fault, traces[i])
    requires !fault.TooManyTraces? && !fault.DuplicateTrace? && !fault.TooManyTotalSpans?
    ensures CollectFaultHolds(fault, anchor, traces)
  {
    assert traces[i] in traces;
    assert CollectFaultHolds(fault, anchor, [traces[i]]);
  }

  /** What the loop over the traces has established for the first `n`. */
  ghost predicate Collected(traces: seq<Trace>, n: nat, ids: set<string>)
    requires n <= |traces|
  {
    && (forall trace | trace in traces[..n] :: TraceOk(trace))
    && (forall id :: id in ids <==> id in IdsOf(traces)[..n])
    && Counting.Distinct(IdsOf(traces)[..n])
    && SpanTotal(traces[..n]) <= MAX_TOTAL_SPANS
  }

  lemma CollectedNext(traces: seq<Trace>, n: nat, ids: set<string>)
    requires n < |traces| && Collected(traces, n, ids)
    ensures SpanTotal(traces[..n + 1])
         == SpanTotal(traces[..n]) + if traces[n].spans.Some? then |traces[n].spans.value| else 0
    ensures TraceOk(traces[n]) && IdsOf(traces)[n] !in ids && SpanTotal(traces[..n + 1]) <= MAX_TOTAL_SPANS ==>
            && Collected(traces, n + 1, ids + {IdsOf(traces)[n]})
            && Flatten(traces[..n + 1]) == Flatten(traces[..n]) + NodesOf(traces[n])
    ensures SpanTotal(traces[..n + 1]) <= SpanTotal(traces)
  {
    assert traces[..n + 1] == traces[..n] + [traces[n]];
    assert traces[..n + 1][..n] == traces[..n];
    assert IdsOf(traces)[..n + 1] == IdsOf(traces)[..n] + [IdsOf(traces)[n]];
    SpanTotalGrows(traces, n + 1);
  }

  method CollectSpanNodes(anchor: string, traces: seq<Trace>) returns (r: Result<seq<SpanNode>, CollectFault>)
    ensures r.Ok? <==> Collectable(anchor, traces)
    ensures r.Ok? ==> r.value == Flatten(traces)
    ensures r.Err? ==> CollectFaultHolds(r.error, anchor, traces)
  {
    if traces == [] {
      return Err(NoTraces);
    }
    if |traces| > MAX_TRACES {
      return Err(TooManyTraces);
    }
    var ids: set<string> := {};
    var nodes: seq<SpanNode> := [];
    for i := 0 to |traces|
      invariant Collected(traces, i, ids)
      invariant nodes == Flatten(traces[..i]) && |nodes| == SpanTotal(traces[..i])
    {
      CollectedNext(traces, i, ids);
      var traceId := traces[i].traceId;
      if traceId.None? || !IsTraceId(traceId.value) {
        assert traces[i] in traces;
        return Err(BadTraceId);
      }
      if traceId.value in ids {
        SeenBefore(traces, i, ids);
        return Err(DuplicateTrace);
      }
      ids := ids + {traceId.value};
      var some := CollectTrace(traces[i], |nodes|);
      if some.Err? {
        if !some.error.TooManyTotalSpans? {
          FaultOfPart(some.error, anchor, traces, i);
        }
        return some;
      }
      nodes := nodes + some.value;
    }
    assert traces[..|traces|] == traces && IdsOf(traces)[..|traces|] == IdsOf(traces);
    if anchor !in ids {
      return Err(MissingAnchor);
    }
    return Ok(nodes);
  }

  lemma SeenBefore(traces: seq<Trace>, n: nat, ids: set<string>)
    requires n < |traces| && Collected(traces, n, ids) && IdsOf(traces)[n] in ids
    ensures !Counting.Distinct(IdsOf(traces))
  {
    var j :| 0 <= j < n && IdsOf(traces)[..n][j] == IdsOf(traces)[n];
    assert IdsOf(traces)[j] == IdsOf(traces)[n];
  }

  /** On the output of a successful crawl only an empty trace or a malformed span can be refused:
      every size, duplicate, identity and anchor check of the flattening is already settled. */
  lemma CrawledTracesAreSound(backend: Backend, anchor: string, traces: seq<Trace>, fault: CollectFault)
    requires CrawlResult(backend, anchor, traces)
    requires CollectFaultHolds(fault, anchor, traces)
    ensures fault.EmptyTrace? || fault.BadSpan?
  {
    var ids := IdsOf(traces);
    forall i | 0 <= i < |traces|
      ensures Readable(backend, ids[i]) && traces[i] == backend[ids[i]].trace.value && traces[i].traceId == Some(ids[i])
    {
    }
    CrawledSpanTotal(backend, ids, traces);
  }

  lemma {:induction false} CrawledSpanTotal(backend: Backend, ids: seq<string>, traces: seq<Trace>)
    requires FetchedFrom(backend, ids, traces)
    ensures SpanTotal(traces) == Counting.Sum(ids, SpanWeight(backend))
  {
    if ids != [] {
      var n := |ids| - 1;
      CrawledSpanTotal(backend, ids[..n], traces[..n]);
    }
  }

  /** Every typed link of a crawled trace names a trace that was fetched: a link whose target cannot
      be looked up is missing only the span, never the trace. */
  lemma CrawledLinksStayInside(backend: Backend, anchor: string, traces: seq<Trace>, i: nat, span: Span,
                               link: TypedLink)
    requires CrawlResult(backend, anchor, traces)
    requires i < |traces| && traces[i].spans.Some? && span in traces[i].spans.value && link in LinksOf(span)
    ensures link.traceId.Some? && link.traceId.value in IdsOf(traces)
  {
    var ids := IdsOf(traces);
    var response := backend[ids[i]];
    assert span in SpansOf(response) && SpanLinksWellFormed(span);
    assert Names(response, link.traceId.value);
    assert ids[i] in ids;
  }

  // ----- the index -----

  function KeyOf(node: SpanNode): Key { (node.traceId, node.spanId) }

  /** The index finds every node, and nothing else. */
  ghost predicate IsIndex(nodes: seq<SpanNode>, index: Index) {
    && (forall i | 0 <= i < |nodes| :: KeyOf(nodes[i]) in index && index[KeyOf(nodes[i])] == i)
    && forall key | key in index :: index[key] < |nodes| && KeyOf(nodes[index[key]]) == key
  }

  ghost predicate DistinctIdentities(nodes: seq<SpanNode>) {
    forall i, j | 0 <= i < j < |nodes| :: KeyOf(nodes[i]) != KeyOf(nodes[j])
  }

  method IndexSpans(nodes: seq<SpanNode>) returns (index: Option<Index>)
    ensures index.Some? <==> DistinctIdentities(nodes)
    ensures index.Some? ==> IsIndex(nodes, index.value)
  {
    var found: Index := map[];
    for i := 0 to |nodes|
      invariant IsIndex(nodes[..i], found)
    {
      if KeyOf(nodes[i]) in found {
        assert KeyOf(nodes[found[KeyOf(nodes[i])]]) == KeyOf(nodes[i]);
        return None;
      }
      found := found[KeyOf(nodes[i]) := i];
    }
    assert nodes[..|nodes|] == nodes;
    return Some(found);
  }
}
