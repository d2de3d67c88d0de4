/** The bounded crawl of linked traces. */
module Crawl {
  import opened Outcomes
  import opened TraceModel
  import opened Counting

  /** One answer of the backend: the trace asked for and the traces linked to it. */
  datatype Response = Response(trace: Option<Trace>, linkedTraces: Option<seq<Option<string>>>)

  /** A fixed backend; a missing key is a request that fails. */
  type Backend = map<string, Response>

  // ----- what one answer must look like -----

  predicate SpanLinksWellFormed(span: Span) {
    && span.typedLinks.Some?
    && |span.typedLinks.value| <= MAX_TYPED_LINKS_PER_SPAN
    && forall link | link in span.typedLinks.value :: link.traceId.Some? && IsTraceId(link.traceId.value)
  }

  predicate WellFormed(id: string, response: Response) {
    && IsTraceId(id)
    && response.trace.Some? && response.trace.value.traceId == Some(id)
    && response.trace.value.spans.Some?
    && |response.trace.value.spans.value| <= MAX_SPANS_PER_TRACE
    && (forall span | span in response.trace.value.spans.value :: SpanLinksWellFormed(span))
    && response.linkedTraces.Some?
    && |response.linkedTraces.value| <= MAX_TRACES
    && forall linked | linked in response.linkedTraces.value :: linked.Some? && IsTraceId(linked.value)
  }

  function SpansOf(response: Response): seq<Span> {
    if response.trace.Some? && response.trace.value.spans.Some? then response.trace.value.spans.value else []
  }

  function LinksOf(span: Span): seq<TypedLink> {
    if span.typedLinks.Some? then span.typedLinks.value else []
  }

  function LinkedOf(response: Response): seq<Option<string>> {
    if response.linkedTraces.Some? then response.linkedTraces.value else []
  }

  /** `id` is named by a typed link of the trace or by its list of linked traces. */
  ghost predicate Names(response: Response, id: string) {
    || (exists span | span in SpansOf(response) ::
          exists link | link in LinksOf(span) :: link.traceId == Some(id))
    || Some(id) in LinkedOf(response)
  }

  function SpanCount(response: Response): nat { |SpansOf(response)| }

  function LinkCountOf(spans: seq<Span>): nat {
    if spans == [] then 0 else LinkCountOf(spans[..|spans| - 1]) + |LinksOf(spans[|spans| - 1])|
  }

  // ----- the order of discovery -----

  /** `linked_ids`: the trace ids of the typed links of one span. */
  function LinkedIds(span: Span): (ids: Option<seq<string>>)
    ensures ids.Some? <==> SpanLinksWellFormed(span)
    ensures ids.Some? ==> forall id :: id in ids.value <==> exists link | link in LinksOf(span) ::
              link.traceId == Some(id)
  {
    if SpanLinksWellFormed(span) then
      var links := span.typedLinks.value;
      var ids := seq(|links|, i requires 0 <= i < |links| => links[i].traceId.value);
      assert forall link | link in links :: exists i ::
          0 <= i < |links| && links[i] == link && ids[i] == link.traceId.value;
      Some(ids)
    else None
  }

  function NamedInSpans(spans: seq<Span>): seq<string> {
    if spans == [] then []
    else
      var last := LinkedIds(spans[|spans| - 1]);
      NamedInSpans(spans[..|spans| - 1]) + (if last.Some? then last.value else [])
  }

  function TextIds(linked: seq<Option<string>>): seq<string> {
    if linked == [] then []
    else
      var last := linked[|linked| - 1];
      TextIds(linked[..|linked| - 1]) + (if last.Some? then [last.value] else [])
  }

  /** The ids one answer names, those of its typed links before those of its linked traces. */
  function NamedInOrder(response: Response): seq<string> {
    NamedInSpans(SpansOf(response)) + TextIds(LinkedOf(response))
  }

  /** The known ids and, after them, each new id where it is first met. */
  function Extend(known: seq<string>, ids: seq<string>): (r: seq<string>)
    ensures known <= r
    ensures Distinct(known) ==> Distinct(r)
  {
    if ids == [] then known
    else
      var before := Extend(known, ids[..|ids| - 1]);
      if ids[|ids| - 1] in before then before else before + [ids[|ids| - 1]]
  }

  /** The ids met once the first `n` of them have been fetched, in breadth-first order. */
  function Discovered(backend: Backend, start: string, n: nat): (ids: seq<string>)
    ensures Distinct(ids)
  {
    if n == 0 then [start]
    else
      var before := Discovered(backend, start, n - 1);
      if n - 1 < |before| && before[n - 1] in backend
      then Extend(before, NamedInOrder(backend[before[n - 1]])) else before
  }

  // ----- what the crawl computes -----

  ghost predicate Closed(backend: Backend, ids: iset<string>) {
    forall id, next | id in ids && id in backend && Names(backend[id], next) :: next in ids
  }

  ghost function SpanWeight(backend: Backend): string -> nat {
    id => if id in backend then SpanCount(backend[id]) else 0
  }

  ghost function LinkWeight(backend: Backend): string -> nat {
    id => if id in backend then LinkCountOf(SpansOf(backend[id])) else 0
  }

  ghost predicate Readable(backend: Backend, id: string) {
    id in backend && WellFormed(id, backend[id])
  }

  /** Distinct ids that contain the start, are closed under naming, are all readable and keep the limits. */
  ghost predicate Crawlable(backend: Backend, start: string, ids: seq<string>) {
    && Distinct(ids) && start in ids && |ids| <= MAX_TRACES
    && (forall id | id in ids :: Readable(backend, id))
    && (forall id, next | id in ids && id in backend && Names(backend[id], next) :: next in ids)
    && Sum(ids, SpanWeight(backend)) <= MAX_TOTAL_SPANS
    && Sum(ids, LinkWeight(backend)) <= MAX_TOTAL_TYPED_LINKS
  }

  ghost predicate CanCrawl(backend: Backend, start: string) {
    exists ids :: Crawlable(backend, start, ids)
  }

  /** The ids are part of every set that contains the start and is closed. */
  ghost predicate Least(backend: Backend, start: string, ids: seq<string>) {
    forall others: iset<string> | start in others && Closed(backend, others) :: forall id | id in ids :: id in others
  }

  function IdsOf(traces: seq<Trace>): (ids: seq<string>)
    ensures |ids| == |traces|
  {
    seq(|traces|, i requires 0 <= i < |traces| => if traces[i].traceId.Some? then traces[i].traceId.value else "")
  }

  ghost predicate FetchedFrom(backend: Backend, ids: seq<string>, traces: seq<Trace>) {
    && |ids| == |traces|
    && forall i | 0 <= i < |ids| :: Readable(backend, ids[i]) && traces[i] == backend[ids[i]].trace.value
  }

  /** The traces of the least closed set of ids around the start, each once, in breadth-first order. */
  ghost predicate CrawlResult(backend: Backend, start: string, traces: seq<Trace>) {
    && Crawlable(backend, start, IdsOf(traces))
    && IdsOf(traces) == Discovered(backend, start, |traces|)
    && Least(backend, start, IdsOf(traces))
    && FetchedFrom(backend, IdsOf(traces), traces)
  }

  // ----- the crawl -----

  /** Count typed links, refusing a span or a total over its limit. */
  method CountLinks(spans: seq<Span>, before: nat) returns (total: Option<nat>)
    requires before <= MAX_TOTAL_TYPED_LINKS
    ensures total.Some? <==>
            && (forall span | span in spans ::
                  span.typedLinks.Some? && |span.typedLinks.value| <= MAX_TYPED_LINKS_PER_SPAN)
            && before + LinkCountOf(spans) <= MAX_TOTAL_TYPED_LINKS
    ensures total.Some? ==> total.value == before + LinkCountOf(spans)
  {
    var count := before;
    for i := 0 to |spans|
      invariant count == before + LinkCountOf(spans[..i]) <= MAX_TOTAL_TYPED_LINKS
      invariant forall span | span in spans[..i] ::
          span.typedLinks.Some? && |span.typedLinks.value| <= MAX_TYPED_LINKS_PER_SPAN
    {
      assert spans[..i + 1][..i] == spans[..i];
      assert spans[i] in spans;
      LinkCountGrows(spans, i + 1);
      if spans[i].typedLinks.None? || |spans[i].typedLinks.value| > MAX_TYPED_LINKS_PER_SPAN {
        return None;
      }
      count := count + |spans[i].typedLinks.value|;
      if count > MAX_TOTAL_TYPED_LINKS {
        return None;
      }
    }
    assert spans[..|spans|] == spans;
    return Some(count);
  }

  lemma {:induction false} LinkCountGrows(spans: seq<Span>, n: nat)
    requires n <= |spans|
    ensures LinkCountOf(spans[..n]) <= LinkCountOf(spans)
    decreases |spans| - n
  {
    if n < |spans| {
      assert spans[..n + 1][..n] == spans[..n];
      LinkCountGrows(spans, n + 1);
    } else {
      assert spans[..n] == spans;
    }
  }

  lemma {:induction false} NamedInSpansAre(spans: seq<Span>)
    requires forall span | span in spans :: SpanLinksWellFormed(span)
    ensures forall id :: id in NamedInSpans(spans) <==>
              exists span | span in spans :: exists link | link in LinksOf(span) :: link.traceId == Some(id)
    ensures forall id | id in NamedInSpans(spans) :: IsTraceId(id)
  {
    hide IsTraceId;
    if spans != [] {
      var n := |spans| - 1;
      assert spans == spans[..n] + [spans[n]] && spans[n] in spans;
      NamedInSpansAre(spans[..n]);
    }
  }

  lemma {:induction false} TextIdsAre(linked: seq<Option<string>>)
    requires forall one | one in linked :: one.Some? && IsTraceId(one.value)
    ensures forall id :: id in TextIds(linked) <==> Some(id) in linked
    ensures forall id | id in TextIds(linked) :: IsTraceId(id)
  {
    hide IsTraceId;
    if linked != [] {
      var n := |linked| - 1;
      assert linked == linked[..n] + [linked[n]] && linked[n] in linked;
      TextIdsAre(linked[..n]);
    }
  }

  lemma NamedInOrderAre(response: Response)
    requires forall span | span in SpansOf(response) :: SpanLinksWellFormed(span)
    requires forall linked | linked in LinkedOf(response) :: linked.Some? && IsTraceId(linked.value)
    ensures forall id :: id in NamedInOrder(response) <==> Names(response, id)
    ensures forall id | id in NamedInOrder(response) :: IsTraceId(id)
  {
    hide IsTraceId;
    NamedInSpansAre(SpansOf(response));
    TextIdsAre(LinkedOf(response));
  }

  /** The ids one answer names, in the order in which they are met. */
  method NamedIds(response: Response) returns (ids: Option<seq<string>>)
    requires response.trace.Some? && response.trace.value.spans.Some? && response.linkedTraces.Some?
    ensures ids.Some? <==>
            && (forall span | span in SpansOf(response) :: SpanLinksWellFormed(span))
            && forall linked | linked in response.linkedTraces.value :: linked.Some? && IsTraceId(linked.value)
    ensures ids.Some? ==> ids.value == NamedInOrder(response)
    ensures ids.Some? ==> forall id :: id in ids.value <==> Names(response, id)
    ensures ids.Some? ==> forall id | id in ids.value :: IsTraceId(id)
  {
    hide IsTraceId, SpanLinksWellFormed, Names, LinkedIds;
    var spans := response.trace.value.spans.value;
    var found: seq<string> := [];
    for i := 0 to |spans|
      invariant forall span | span in spans[..i] :: SpanLinksWellFormed(span)
      invariant found == NamedInSpans(spans[..i])
    {
      assert spans[..i + 1] == spans[..i] + [spans[i]];
      assert spans[..i + 1][..i] == spans[..i];
      assert spans[i] in spans;
      var some := LinkedIds(spans[i]);
      if some.None? {
        return None;
      }
      found := found + some.value;
    }
    assert spans[..|spans|] == spans;
    var linked := response.linkedTraces.value;
    ghost var named := found;
    for i := 0 to |linked|
      invariant forall one | one in linked[..i] :: one.Some? && IsTraceId(one.value)
      invariant found == named + TextIds(linked[..i])
    {
      assert linked[..i + 1] == linked[..i] + [linked[i]];
      assert linked[..i + 1][..i] == linked[..i];
      assert linked[i] in linked;
      if linked[i].None? || !IsTraceId(linked[i].value) {
        return None;
      }
      found := found + [linked[i].value];
    }
    assert linked[..|linked|] == linked;
    NamedInOrderAre(response);
    return Some(found);
  }

  /** The scheduled ids are the fetched ones, each once, and the queued ones. */
  ghost predicate Scheduled(scheduled: set<string>, fetched: seq<string>, pending: seq<string>) {
    && Distinct(fetched)
    && forall id :: id in scheduled <==> id in fetched || id in pending
  }

  lemma QueuedOnce(fetched: seq<string>, current: string, pending: seq<string>)
    requires Distinct(fetched + [current] + pending)
    ensures current !in fetched
  {
    var all := fetched + [current] + pending;
    assert all[|fetched|] == current && forall i | 0 <= i < |fetched| :: all[i] == fetched[i];
  }

  lemma NextToVisit(scheduled: set<string>, fetched: seq<string>, current: string, pending: seq<string>)
    requires Scheduled(scheduled, fetched, [current] + pending) && current !in fetched
    ensures Scheduled(scheduled, fetched + [current], pending)
  {
  }

  /** Add the ids not seen before to the queue, within the trace limit. */
  method Schedule(ids: seq<string>, scheduled0: set<string>, ghost fetched: seq<string>, pending0: seq<string>)
    returns (ok: bool, scheduled: set<string>, pending: seq<string>)
    requires Scheduled(scheduled0, fetched, pending0) && |scheduled0| <= MAX_TRACES
    ensures Scheduled(scheduled, fetched, pending) && pending0 <= pending
    ensures scheduled0 <= scheduled && forall id | id in scheduled :: id in scheduled0 || id in ids
    ensures ok ==> |scheduled| <= MAX_TRACES && forall id | id in ids :: id in scheduled
    ensures ok ==> fetched + pending == Extend(fetched + pending0, ids)
    ensures !ok ==> |scheduled| > MAX_TRACES || exists id | id in ids :: !IsTraceId(id)
  {
    scheduled, pending := scheduled0, pending0;
    for i := 0 to |ids|
      invariant Scheduled(scheduled, fetched, pending) && pending0 <= pending
      invariant scheduled0 <= scheduled && |scheduled| <= MAX_TRACES
      invariant forall id | id in scheduled :: id in scheduled0 || id in ids
      invariant forall id | id in ids[..i] :: id in scheduled
      invariant fetched + pending == Extend(fetched + pending0, ids[..i])
    {
      assert ids[..i + 1] == ids[..i] + [ids[i]];
      assert ids[..i + 1][..i] == ids[..i];
      assert ids[i] in fetched + pending <==> ids[i] in scheduled;
      assert (fetched + pending) + [ids[i]] == fetched + (pending + [ids[i]]);
      assert ids[i] in ids;
      if !IsTraceId(ids[i]) {
        return false, scheduled, pending;
      }
      if ids[i] !in scheduled {
        scheduled := scheduled + {ids[i]};
        pending := pending + [ids[i]];
        if |scheduled| > MAX_TRACES {
          return false, scheduled, pending;
        }
      }
    }
    assert ids[..|ids|] == ids;
    return true, scheduled, pending;
  }

  /** A set that only closure forces cannot be larger than a crawlable one that it does not refute. */
  ghost predicate Forced(backend: Backend, start: string, scheduled: set<string>) {
    forall others: iset<string> | start in others && Closed(backend, others) ::
      forall id | id in scheduled :: id in others
  }

  lemma ForcedInside(backend: Backend, start: string, scheduled: set<string>, ids: seq<string>)
    requires Forced(backend, start, scheduled) && Crawlable(backend, start, ids)
    ensures forall id | id in scheduled :: id in ids
    ensures |scheduled| <= |ids|
  {
    var others := iset id | id in ids;
    assert Closed(backend, others);
    DistinctCount(ids);
    assert scheduled <= Elements(ids);
    SubsetCount(scheduled, Elements(ids));
  }

  lemma ForcedGrows(backend: Backend, start: string, before: set<string>, current: string, after: set<string>)
    requires Forced(backend, start, before) && current in before && current in backend
    requires forall id | id in after :: id in before || Names(backend[current], id)
    ensures Forced(backend, start, after)
  {
  }

  /** The reason a crawl that stops here can never be completed. */
  lemma Refuted(backend: Backend, start: string, scheduled: set<string>, fetched: seq<string>)
    requires Forced(backend, start, scheduled)
    requires Distinct(fetched) && forall id | id in fetched :: id in scheduled
    requires || |scheduled| > MAX_TRACES
             || (exists id | id in scheduled :: !Readable(backend, id))
             || Sum(fetched, SpanWeight(backend)) > MAX_TOTAL_SPANS
             || Sum(fetched, LinkWeight(backend)) > MAX_TOTAL_TYPED_LINKS
    ensures !CanCrawl(backend, start)
  {
    forall ids | Crawlable(backend, start, ids)
      ensures false
    {
      ForcedInside(backend, start, scheduled, ids);
      SumOfSelection(fetched, ids, SpanWeight(backend));
      SumOfSelection(fetched, ids, LinkWeight(backend));
    }
  }

  lemma SumSnoc(ids: seq<string>, id: string, weight: string -> nat)
    ensures Sum(ids + [id], weight) == Sum(ids, weight) + weight(id)
  {
    assert (ids + [id])[..|ids|] == ids;
  }

  /** The answer for one id: its trace and the ids it names, when it keeps every limit. */
  method ReadResponse(backend: Backend, id: string, totalSpans: nat, totalLinks: nat)
    returns (r: Option<(Trace, seq<string>, nat, nat)>)
    requires totalSpans <= MAX_TOTAL_SPANS && totalLinks <= MAX_TOTAL_TYPED_LINKS
    requires IsTraceId(id)
    ensures r.Some? <==>
            && Readable(backend, id)
            && totalSpans + SpanWeight(backend)(id) <= MAX_TOTAL_SPANS
            && totalLinks + LinkWeight(backend)(id) <= MAX_TOTAL_TYPED_LINKS
    ensures r.Some? ==>
            var (trace, named, spans, links) := r.value;
            && trace == backend[id].trace.value
            && spans == totalSpans + SpanWeight(backend)(id)
            && links == totalLinks + LinkWeight(backend)(id)
            && named == NamedInOrder(backend[id])
            && forall next :: next in named <==> Names(backend[id], next)
  {
    if id !in backend || backend[id].trace.None? {
      return None;
    }
    var response := backend[id];
    var trace := response.trace.value;
    if trace.traceId != Some(id) || trace.spans.None? || |trace.spans.value| > MAX_SPANS_PER_TRACE {
      return None;
    }
    var spans := totalSpans + |trace.spans.value|;
    if spans > MAX_TOTAL_SPANS {
      return None;
    }
    var links := CountLinks(trace.spans.value, totalLinks);
    if links.None? || response.linkedTraces.None? || |response.linkedTraces.value| > MAX_TRACES {
      return None;
    }
    var named := NamedIds(response);
    if named.None? {
      return None;
    }
    return Some((trace, named.value, spans, links.value));
  }

  /** Everything the loop keeps except the queue. */
  ghost predicate Progress(backend: Backend, start: string, scheduled: set<string>, order: seq<string>,
                           traces: seq<Trace>, spans: nat, links: nat)
  {
    && start in scheduled && |scheduled| <= MAX_TRACES
    && Forced(backend, start, scheduled)
    && FetchedFrom(backend, order, traces)
    && (forall id, next | id in order && Names(backend[id], next) :: next in scheduled)
    && spans == Sum(order, SpanWeight(backend)) <= MAX_TOTAL_SPANS
    && links == Sum(order, LinkWeight(backend)) <= MAX_TOTAL_TYPED_LINKS
  }

  lemma OrderCount(scheduled: set<string>, order: seq<string>)
    requires Distinct(order) && forall id | id in order :: id in scheduled
    ensures |Elements(order)| == |order| <= |scheduled|
  {
    DistinctCount(order);
    SubsetCount(Elements(order), scheduled);
  }

  lemma DiscoveredNext(backend: Backend, start: string, n: nat, current: string)
    requires n < |Discovered(backend, start, n)| && Discovered(backend, start, n)[n] == current && current in backend
    ensures Discovered(backend, start, n + 1) == Extend(Discovered(backend, start, n), NamedInOrder(backend[current]))
  {
  }

  lemma Started(backend: Backend, start: string)
    ensures Progress(backend, start, {start}, [], [], 0, 0)
    ensures Scheduled({start}, [], [start])
    ensures [] + [start] == Discovered(backend, start, 0)
  {
  }

  lemma Finished(backend: Backend, start: string, scheduled: set<string>, order: seq<string>,
                 traces: seq<Trace>, spans: nat, links: nat)
    requires Progress(backend, start, scheduled, order, traces, spans, links)
    requires Scheduled(scheduled, order, []) && order + [] == Discovered(backend, start, |order|)
    ensures CrawlResult(backend, start, traces) && CanCrawl(backend, start) && |traces| == |order|
  {
    assert IdsOf(traces) == order;
    OrderCount(scheduled, order);
    assert Crawlable(backend, start, order);
  }

  lemma ProgressMade(backend: Backend, start: string, scheduled: set<string>, order: seq<string>,
                     traces: seq<Trace>, spans: nat, links: nat, current: string, grown: set<string>)
    requires Progress(backend, start, scheduled, order, traces, spans, links)
    requires current in scheduled && Readable(backend, current)
    requires scheduled <= grown && |grown| <= MAX_TRACES
    requires forall id | id in grown :: id in scheduled || Names(backend[current], id)
    requires forall id | Names(backend[current], id) :: id in grown
    requires spans + SpanWeight(backend)(current) <= MAX_TOTAL_SPANS
    requires links + LinkWeight(backend)(current) <= MAX_TOTAL_TYPED_LINKS
    ensures Progress(backend, start, grown, order + [current], traces + [backend[current].trace.value],
                     spans + SpanWeight(backend)(current), links + LinkWeight(backend)(current))
  {
    SumSnoc(order, current, SpanWeight(backend));
    SumSnoc(order, current, LinkWeight(backend));
    ForcedGrows(backend, start, scheduled, current, grown);
  }

  /** The state that one request leaves: the queue, the scheduled ids and the two totals. */
  datatype Visit = Visit(trace: Trace, scheduled: set<string>, pending: seq<string>, spans: nat, links: nat)

  /** Fetch one id that was not fetched before, or find that the crawl cannot be completed. */
  method VisitTrace(backend: Backend, ghost start: string, current: string, scheduled: set<string>,
                    pending: seq<string>, totalSpans: nat, totalLinks: nat,
                    ghost order: seq<string>, ghost traces: seq<Trace>)
    returns (r: Option<Visit>)
    requires Progress(backend, start, scheduled, order, traces, totalSpans, totalLinks)
    requires Scheduled(scheduled, order + [current], pending)
    requires order + [current] + pending == Discovered(backend, start, |order|)
    ensures |order| < MAX_TRACES
    ensures r.Some? ==>
            && Scheduled(r.value.scheduled, order + [current], r.value.pending)
            && order + [current] + r.value.pending == Discovered(backend, start, |order| + 1)
            && Progress(backend, start, r.value.scheduled, order + [current], traces + [r.value.trace],
                        r.value.spans, r.value.links)
    ensures r.None? ==> !CanCrawl(backend, start)
  {
    hide CanCrawl, Discovered, FetchedFrom, Forced, Extend;
    ghost var next := order + [current];
    assert current in next && next[|order|] == current;
    OrderCount(scheduled, next);
    SumSnoc(order, current, SpanWeight(backend));
    SumSnoc(order, current, LinkWeight(backend));
    if !IsTraceId(current) {
      Refuted(backend, start, scheduled, next);
      return None;
    }
    var answer := ReadResponse(backend, current, totalSpans, totalLinks);
    if answer.None? {
      Refuted(backend, start, scheduled, next);
      return None;
    }
    var (trace, named, spans, links) := answer.value;
    var ok, grown, queue := Schedule(named, scheduled, next, pending);
    if !ok {
      NamedAreTraceIds(backend, current);
      ForcedGrows(backend, start, scheduled, current, grown);
      Refuted(backend, start, grown, next);
      return None;
    }
    ProgressMade(backend, start, scheduled, order, traces, totalSpans, totalLinks, current, grown);
    DiscoveredNext(backend, start, |order|, current);
    return Some(Visit(trace, grown, queue, spans, links));
  }

  /** The crawl succeeds exactly when the ids reachable from the start are readable and within the
      limits; it then returns their traces, each once, after one request each. */
  method FetchTraceGraph(backend: Backend, start: string) returns (r: Option<seq<Trace>>, ghost requests: nat)
    ensures r.Some? <==> CanCrawl(backend, start)
    ensures r.Some? ==> CrawlResult(backend, start, r.value) && requests == |r.value|
    ensures requests <= MAX_TRACES
  {
    hide Progress, Discovered, Scheduled, CanCrawl, CrawlResult;
    var pending, scheduled := [start], {start};
    var fetched: set<string> := {};
    var traces: seq<Trace> := [];
    var totalSpans, totalLinks := 0, 0;
    ghost var order: seq<string> := [];
    requests := 0;
    Started(backend, start);
    while pending != []
      invariant Scheduled(scheduled, order, pending)
      invariant forall id :: id in fetched <==> id in order
      invariant Progress(backend, start, scheduled, order, traces, totalSpans, totalLinks)
      invariant order + pending == Discovered(backend, start, |order|)
      invariant requests == |order| <= MAX_TRACES
      decreases MAX_TRACES - |order|, |pending|
    {
      var current := pending[0];
      assert pending == [current] + pending[1..];
      assert order + pending == order + [current] + pending[1..];
      pending := pending[1..];
      QueuedOnce(order, current, pending);
      if current in fetched {
        continue;
      }
      NextToVisit(scheduled, order, current, pending);
      fetched := fetched + {current};
      requests := requests + 1;
      var visit := VisitTrace(backend, start, current, scheduled, pending, totalSpans, totalLinks, order, traces);
      if visit.None? {
        return None, requests;
      }
      scheduled, pending := visit.value.scheduled, visit.value.pending;
      totalSpans, totalLinks := visit.value.spans, visit.value.links;
      traces := traces + [visit.value.trace];
      order := order + [current];
    }
    Finished(backend, start, scheduled, order, traces, totalSpans, totalLinks);
    return Some(traces), requests;
  }

  /** One backend and start have one result. */
  lemma CrawlUnique(backend: Backend, start: string, one: seq<Trace>, other: seq<Trace>)
    requires CrawlResult(backend, start, one) && CrawlResult(backend, start, other)
    ensures one == other
  {
    LeastInside(backend, start, IdsOf(one), IdsOf(other));
    LeastInside(backend, start, IdsOf(other), IdsOf(one));
    assert IdsOf(one) == IdsOf(other);
  }

  lemma LeastInside(backend: Backend, start: string, least: seq<string>, ids: seq<string>)
    requires Distinct(least) && Least(backend, start, least) && Crawlable(backend, start, ids)
    ensures |least| <= |ids|
  {
    var others := iset id | id in ids;
    assert Closed(backend, others);
    DistinctCount(least);
    DistinctCount(ids);
    assert Elements(least) <= Elements(ids);
    SubsetCount(Elements(least), Elements(ids));
  }

  lemma NamedAreTraceIds(backend: Backend, id: string)
    requires Readable(backend, id)
    ensures forall next | Names(backend[id], next) :: IsTraceId(next)
  {
  }
}
