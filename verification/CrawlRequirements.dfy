/** What a crawl returns, said over the answers of the backend alone. */
module CrawlRequirements {
  import opened Outcomes
  import opened TraceModel
  import opened Crawl
  import opened Requirements
  import Counting

  // ----- one answer -----

  ghost predicate LinksAreGood(span: Span) {
    && span.typedLinks.Some? && |span.typedLinks.value| <= 128
    && forall k | 0 <= k < |span.typedLinks.value| ::
         span.typedLinks.value[k].traceId.Some? && HexId(span.typedLinks.value[k].traceId.value, 32)
  }

  /** The trace asked for, with at most 4096 spans of at most 128 links each, and at most 32 linked traces; all
      ids are trace ids. */
  ghost predicate IsReadable(backend: Backend, id: string) {
    && id in backend && HexId(id, 32)
    && backend[id].trace.Some? && backend[id].trace.value.traceId == Some(id)
    && backend[id].trace.value.spans.Some? && |backend[id].trace.value.spans.value| <= 4096
    && (forall s | 0 <= s < |backend[id].trace.value.spans.value| ::
          LinksAreGood(backend[id].trace.value.spans.value[s]))
    && backend[id].linkedTraces.Some? && |backend[id].linkedTraces.value| <= 32
    && forall k | 0 <= k < |backend[id].linkedTraces.value| ::
         backend[id].linkedTraces.value[k].Some? && HexId(backend[id].linkedTraces.value[k].value, 32)
  }

  lemma LinksIff(span: Span)
    ensures SpanLinksWellFormed(span) <==> LinksAreGood(span)
  {
    hide HexId, IsTraceId;
    forall s
      ensures IsTraceId(s) <==> HexId(s, 32)
    {
      IdIff(s);
    }
    if span.typedLinks.Some? {
      var links := span.typedLinks.value;
      assert forall k | 0 <= k < |links| :: links[k] in links;
    }
  }

  lemma ReadableIff(backend: Backend, id: string)
    ensures Readable(backend, id) <==> IsReadable(backend, id)
  {
    hide HexId, IsTraceId, SpanLinksWellFormed, LinksAreGood;
    forall s
      ensures IsTraceId(s) <==> HexId(s, 32)
    {
      IdIff(s);
    }
    forall span
      ensures SpanLinksWellFormed(span) <==> LinksAreGood(span)
    {
      LinksIff(span);
    }
    if id in backend && backend[id].trace.Some? && backend[id].trace.value.spans.Some? {
      var spans := backend[id].trace.value.spans.value;
      assert forall s | 0 <= s < |spans| :: spans[s] in spans;
    }
    if id in backend && backend[id].linkedTraces.Some? {
      var linked := backend[id].linkedTraces.value;
      assert forall k | 0 <= k < |linked| :: linked[k] in linked;
    }
  }

  /** The `k`-th link of span `s` names the trace or, past the spans, the `k`-th linked trace is it. */
  ghost predicate NamedAt(response: Response, s: nat, k: nat, id: string) {
    && response.trace.Some? && response.trace.value.spans.Some? && response.linkedTraces.Some?
    && var spans := response.trace.value.spans.value;
       if s < |spans|
       then spans[s].typedLinks.Some? && k < |spans[s].typedLinks.value|
            && spans[s].typedLinks.value[k].traceId == Some(id)
       else s == |spans| && k < |response.linkedTraces.value| && response.linkedTraces.value[k] == Some(id)
  }

  // ----- the crawl -----

  ghost predicate MetAt(backend: Backend, ids: seq<string>, p: nat, s: nat, k: nat, id: string) {
    p < |ids| && ids[p] in backend && NamedAt(backend[ids[p]], s, k, id)
  }

  ghost predicate Earlier(p: nat, s: nat, k: nat, p2: nat, s2: nat, k2: nat) {
    p < p2 || (p == p2 && (s < s2 || (s == s2 && k < k2)))
  }

  /** The place at which id `b` is named; all ids named earlier come before it. */
  ghost predicate FirstMetAt(backend: Backend, ids: seq<string>, b: nat, p: nat, s: nat, k: nat) {
    && b < |ids| && p < b && MetAt(backend, ids, p, s, k, ids[b])
    && forall p2: nat, s2: nat, k2: nat, id | MetAt(backend, ids, p2, s2, k2, id) && Earlier(p2, s2, k2, p, s, k) ::
         id in ids[..b]
  }

  ghost predicate FirstMet(backend: Backend, ids: seq<string>, b: nat) {
    exists p: nat, s: nat, k: nat :: FirstMetAt(backend, ids, b, p, s, k)
  }

  /** Breadth first: each id after the start where it is first named, links before linked traces. */
  ghost predicate BreadthFirst(backend: Backend, start: string, ids: seq<string>) {
    && ids != [] && ids[0] == start
    && (forall a, b | 0 <= a < b < |ids| :: ids[a] != ids[b])
    && forall b: nat | 0 < b < |ids| :: FirstMet(backend, ids, b)
  }

  function TypedLinksIn(spans: seq<Span>, n: nat): nat
    requires n <= |spans|
  {
    if n == 0 then 0
    else TypedLinksIn(spans, n - 1) + if spans[n - 1].typedLinks.Some? then |spans[n - 1].typedLinks.value| else 0
  }

  function SpansFetched(traces: seq<Trace>, n: nat): nat
    requires n <= |traces|
  {
    if n == 0 then 0
    else SpansFetched(traces, n - 1) + if traces[n - 1].spans.Some? then |traces[n - 1].spans.value| else 0
  }

  function LinksFetched(traces: seq<Trace>, n: nat): nat
    requires n <= |traces|
  {
    if n == 0 then 0
    else LinksFetched(traces, n - 1) +
         if traces[n - 1].spans.Some? then TypedLinksIn(traces[n - 1].spans.value, |traces[n - 1].spans.value|) else 0
  }

  /** At most 32 traces, each the readable answer to its id, breadth first from the start and closed under naming,
      with at most 8192 spans and 8192 typed links. */
  ghost predicate IsCrawled(backend: Backend, start: string, traces: seq<Trace>) {
    && |traces| <= 32
    && (forall i | 0 <= i < |traces| ::
          && traces[i].traceId.Some? && IsReadable(backend, traces[i].traceId.value)
          && Some(traces[i]) == backend[traces[i].traceId.value].trace)
    && BreadthFirst(backend, start, IdsOf(traces))
    && (forall p: nat, s: nat, k: nat, id | MetAt(backend, IdsOf(traces), p, s, k, id) :: id in IdsOf(traces))
    && SpansFetched(traces, |traces|) <= 8192 && LinksFetched(traces, |traces|) <= 8192
  }

  // ----- the places of one answer in order -----

  lemma {:induction false} LinksOfFirst(spans: seq<Span>, n: nat)
    requires n <= |spans|
    ensures TypedLinksIn(spans, n) == LinkCountOf(spans[..n])
  {
    if n > 0 {
      LinksOfFirst(spans, n - 1);
      assert spans[..n][..n - 1] == spans[..n - 1];
    }
  }

  lemma {:induction false} LinksGrow(spans: seq<Span>, s: nat, n: nat)
    requires s <= n <= |spans|
    ensures TypedLinksIn(spans, s) <= TypedLinksIn(spans, n)
  {
    if s < n {
      LinksGrow(spans, s, n - 1);
    }
  }

  lemma {:induction false} SpanPlaces(spans: seq<Span>, n: nat)
    requires n <= |spans| && forall s | 0 <= s < |spans| :: SpanLinksWellFormed(spans[s])
    ensures |NamedInSpans(spans[..n])| == TypedLinksIn(spans, n)
  {
    hide SpanLinksWellFormed, LinkedIds;
    if n > 0 {
      SpanPlaces(spans, n - 1);
      assert spans[..n][..n - 1] == spans[..n - 1];
      OneSpan(spans[n - 1]);
    }
  }

  /** The links of the first spans, one after the other. */
  lemma {:induction false} SpanPlace(spans: seq<Span>, n: nat, s: nat, k: nat)
    requires s < n <= |spans| && forall s | 0 <= s < |spans| :: SpanLinksWellFormed(spans[s])
    requires k < |LinksOf(spans[s])|
    ensures TypedLinksIn(spans, s) + k < |NamedInSpans(spans[..n])| == TypedLinksIn(spans, n)
    ensures Some(NamedInSpans(spans[..n])[TypedLinksIn(spans, s) + k]) == LinksOf(spans[s])[k].traceId
  {
    hide SpanLinksWellFormed, LinkedIds, NamedInSpans, LinksOf;
    SpanPlaces(spans, n);
    SpanPlaces(spans, n - 1);
    OneSpan(spans[n - 1]);
    NamedOfFirst(spans, n);
    var before, last := NamedInSpans(spans[..n - 1]), LinkedIds(spans[n - 1]).value;
    if s < n - 1 {
      SpanPlace(spans, n - 1, s, k);
    } else {
      assert (before + last)[|before| + k] == last[k];
    }
  }

  lemma NamedOfFirst(spans: seq<Span>, n: nat)
    requires 0 < n <= |spans| && LinkedIds(spans[n - 1]).Some?
    ensures NamedInSpans(spans[..n]) == NamedInSpans(spans[..n - 1]) + LinkedIds(spans[n - 1]).value
  {
    hide LinkedIds;
    assert spans[..n][..n - 1] == spans[..n - 1];
  }

  lemma {:induction false} SpanOfPlace(spans: seq<Span>, n: nat, m: nat) returns (s: nat, k: nat)
    requires n <= |spans| && m < TypedLinksIn(spans, n)
    ensures s < n && k < |LinksOf(spans[s])| && m == TypedLinksIn(spans, s) + k
  {
    if m >= TypedLinksIn(spans, n - 1) {
      s, k := n - 1, m - TypedLinksIn(spans, n - 1);
    } else {
      s, k := SpanOfPlace(spans, n - 1, m);
    }
  }

  lemma OneSpan(span: Span)
    requires SpanLinksWellFormed(span)
    ensures LinkedIds(span).Some? && |LinkedIds(span).value| == |LinksOf(span)|
    ensures span.typedLinks.Some? && |span.typedLinks.value| == |LinksOf(span)|
    ensures forall k | 0 <= k < |LinksOf(span)| :: Some(LinkedIds(span).value[k]) == LinksOf(span)[k].traceId
  {
    hide IsTraceId;
    assert forall k | 0 <= k < |span.typedLinks.value| :: span.typedLinks.value[k] in span.typedLinks.value;
  }

  lemma {:induction false} LinkedPlaces(linked: seq<Option<string>>)
    requires forall k | 0 <= k < |linked| :: linked[k].Some?
    ensures |TextIds(linked)| == |linked|
    ensures forall k | 0 <= k < |linked| :: Some(TextIds(linked)[k]) == linked[k]
  {
    if linked != [] {
      LinkedPlaces(linked[..|linked| - 1]);
    }
  }

  /** The place of a named id in the list of all that one answer names. */
  function Place(response: Response, s: nat, k: nat): nat
    requires s <= |SpansOf(response)|
  {
    TypedLinksIn(SpansOf(response), s) + k
  }

  lemma ResponseIsGood(backend: Backend, id: string)
    requires IsReadable(backend, id)
    ensures id in backend && backend[id].linkedTraces.Some? && backend[id].trace.Some?
    ensures backend[id].trace.value.spans == Some(SpansOf(backend[id]))
    ensures forall s | 0 <= s < |SpansOf(backend[id])| :: SpanLinksWellFormed(SpansOf(backend[id])[s])
    ensures forall k | 0 <= k < |LinkedOf(backend[id])| :: LinkedOf(backend[id])[k].Some?
  {
    hide HexId, LinksAreGood, SpanLinksWellFormed;
    forall span
      ensures SpanLinksWellFormed(span) <==> LinksAreGood(span)
    {
      LinksIff(span);
    }
  }

  lemma NamedPlace(backend: Backend, id: string, s: nat, k: nat, next: string)
    requires IsReadable(backend, id) && NamedAt(backend[id], s, k, next)
    ensures s <= |SpansOf(backend[id])| && Place(backend[id], s, k) < |NamedInOrder(backend[id])|
    ensures NamedInOrder(backend[id])[Place(backend[id], s, k)] == next
  {
    hide IsReadable, SpanLinksWellFormed, NamedInSpans, TextIds, TypedLinksIn;
    ResponseIsGood(backend, id);
    var spans, linked := SpansOf(backend[id]), LinkedOf(backend[id]);
    assert spans[..|spans|] == spans;
    SpanPlaces(spans, |spans|);
    LinkedPlaces(linked);
    if s < |spans| {
      SpanPlace(spans, |spans|, s, k);
    }
  }

  lemma PlaceNamed(backend: Backend, id: string, m: nat) returns (s: nat, k: nat)
    requires IsReadable(backend, id) && m < |NamedInOrder(backend[id])|
    ensures NamedAt(backend[id], s, k, NamedInOrder(backend[id])[m])
    ensures s <= |SpansOf(backend[id])| && m == Place(backend[id], s, k)
  {
    hide IsReadable, SpanLinksWellFormed, NamedInSpans, TextIds, TypedLinksIn;
    ResponseIsGood(backend, id);
    var spans, linked := SpansOf(backend[id]), LinkedOf(backend[id]);
    assert spans[..|spans|] == spans;
    SpanPlaces(spans, |spans|);
    LinkedPlaces(linked);
    if m < TypedLinksIn(spans, |spans|) {
      s, k := SpanOfPlace(spans, |spans|, m);
      SpanPlace(spans, |spans|, s, k);
      OneSpan(spans[s]);
    } else {
      s, k := |spans|, m - TypedLinksIn(spans, |spans|);
    }
  }

  lemma EarlierPlace(backend: Backend, id: string, s: nat, k: nat, next: string, s2: nat, k2: nat)
    requires IsReadable(backend, id) && NamedAt(backend[id], s, k, next) && s2 <= |SpansOf(backend[id])|
    requires s < s2 || (s == s2 && k < k2)
    ensures s <= |SpansOf(backend[id])| && Place(backend[id], s, k) < Place(backend[id], s2, k2)
  {
    hide IsReadable, SpanLinksWellFormed;
    ResponseIsGood(backend, id);
    if s < s2 {
      LinksGrow(SpansOf(backend[id]), s + 1, s2);
    }
  }

  // ----- the order of discovery -----

  lemma {:induction false} ExtendHas(known: seq<string>, ids: seq<string>)
    ensures forall id :: id in Extend(known, ids) <==> id in known || id in ids
  {
    if ids != [] {
      ExtendHas(known, ids[..|ids| - 1]);
      assert ids == ids[..|ids| - 1] + [ids[|ids| - 1]];
    }
  }

  /** A new id stands where it is first among the ids added. */
  lemma {:induction false} ExtendAt(known: seq<string>, ids: seq<string>, b: nat) returns (m: nat)
    requires |known| <= b < |Extend(known, ids)|
    ensures m < |ids| && ids[m] == Extend(known, ids)[b]
    ensures forall l | 0 <= l < m :: ids[l] in Extend(known, ids)[..b]
  {
    var n := |ids| - 1;
    var before := Extend(known, ids[..n]);
    ExtendHas(known, ids[..n]);
    if b < |before| {
      m := ExtendAt(known, ids[..n], b);
      assert Extend(known, ids)[..b] == before[..b];
    } else {
      m := n;
      assert Extend(known, ids)[..b] == before;
    }
  }

  /** Breadth first as far as the first `n` ids have been asked for. */
  ghost predicate OrderedSoFar(backend: Backend, ids: seq<string>, n: nat) {
    && ids != [] && Counting.Distinct(ids)
    && (forall b: nat | 0 < b < |ids| :: FirstMet(backend, ids, b))
    && forall p: nat, s: nat, k: nat, id | p < n && MetAt(backend, ids, p, s, k, id) :: id in ids
  }

  lemma StillFirstMet(backend: Backend, before: seq<string>, after: seq<string>, b: nat)
    requires before <= after && b < |before| && FirstMet(backend, before, b)
    ensures FirstMet(backend, after, b)
  {
    hide NamedAt;
    var p: nat, s: nat, k: nat :| FirstMetAt(backend, before, b, p, s, k);
    assert after[..b] == before[..b];
    forall p2: nat, s2: nat, k2: nat, id | MetAt(backend, after, p2, s2, k2, id) && Earlier(p2, s2, k2, p, s, k)
      ensures id in after[..b]
    {
      assert MetAt(backend, before, p2, s2, k2, id);
    }
    assert FirstMetAt(backend, after, b, p, s, k);
  }

  lemma NewFirstMet(backend: Backend, before: seq<string>, n: nat, b: nat)
    requires n < |before| && IsReadable(backend, before[n]) && OrderedSoFar(backend, before, n)
    requires |before| <= b < |Extend(before, NamedInOrder(backend[before[n]]))|
    ensures FirstMet(backend, Extend(before, NamedInOrder(backend[before[n]])), b)
  {
    hide IsReadable, NamedAt, NamedInOrder, Place, FirstMet;
    ResponseIsGood(backend, before[n]);
    var response := backend[before[n]];
    var after := Extend(before, NamedInOrder(response));
    var m := ExtendAt(before, NamedInOrder(response), b);
    var s, k := PlaceNamed(backend, before[n], m);
    forall p2: nat, s2: nat, k2: nat, id | MetAt(backend, after, p2, s2, k2, id) && Earlier(p2, s2, k2, n, s, k)
      ensures id in after[..b]
    {
      assert MetAt(backend, before, p2, s2, k2, id);
      if p2 < n {
        assert id in before && before <= after[..b];
      } else {
        EarlierPlace(backend, before[n], s2, k2, id, s, k);
        NamedPlace(backend, before[n], s2, k2, id);
      }
    }
    assert MetAt(backend, after, n, s, k, after[b]);
    assert FirstMetAt(backend, after, b, n, s, k);
    FirstMetThere(backend, after, b, n, s, k);
  }

  lemma FirstMetThere(backend: Backend, ids: seq<string>, b: nat, p: nat, s: nat, k: nat)
    requires FirstMetAt(backend, ids, b, p, s, k)
    ensures FirstMet(backend, ids, b)
  {
  }

  lemma ExtendOrdered(backend: Backend, before: seq<string>, n: nat)
    requires n < |before| && IsReadable(backend, before[n]) && OrderedSoFar(backend, before, n)
    ensures OrderedSoFar(backend, Extend(before, NamedInOrder(backend[before[n]])), n + 1)
  {
    hide IsReadable, NamedAt, NamedInOrder, Place, FirstMet;
    ResponseIsGood(backend, before[n]);
    var named := NamedInOrder(backend[before[n]]);
    var after := Extend(before, named);
    ExtendHas(before, named);
    forall b: nat | 0 < b < |after|
      ensures FirstMet(backend, after, b)
    {
      if b < |before| {
        StillFirstMet(backend, before, after, b);
      } else {
        NewFirstMet(backend, before, n, b);
      }
    }
    forall p: nat, s: nat, k: nat, id | p < n + 1 && MetAt(backend, after, p, s, k, id)
      ensures id in after
    {
      if p < n {
        assert MetAt(backend, before, p, s, k, id);
      } else {
        NamedPlace(backend, before[n], s, k, id);
      }
    }
  }

  lemma {:induction false} DiscoveredOrdered(backend: Backend, start: string, n: nat)
    requires forall id | id in Discovered(backend, start, n) :: IsReadable(backend, id)
    ensures OrderedSoFar(backend, Discovered(backend, start, n), n)
  {
    hide IsReadable, NamedAt, FirstMet, NamedInOrder;
    if n > 0 {
      var before := Discovered(backend, start, n - 1);
      assert before <= Discovered(backend, start, n);
      assert forall id | id in before :: id in Discovered(backend, start, n);
      DiscoveredOrdered(backend, start, n - 1);
      if n - 1 < |before| {
        ReadableIff(backend, before[n - 1]);
        ExtendOrdered(backend, before, n - 1);
      }
    }
  }

  /** All ids met stay inside a closed list of readable ids that has the start. */
  lemma {:induction false} DiscoveredInside(backend: Backend, start: string, ids: seq<string>, n: nat)
    requires start in ids && forall id | id in ids :: IsReadable(backend, id)
    requires forall p: nat, s: nat, k: nat, id | MetAt(backend, ids, p, s, k, id) :: id in ids
    ensures forall id | id in Discovered(backend, start, n) :: id in ids
  {
    hide IsReadable, NamedAt, NamedInOrder;
    if n > 0 {
      var before := Discovered(backend, start, n - 1);
      DiscoveredInside(backend, start, ids, n - 1);
      if n - 1 < |before| {
        assert before[n - 1] in before && before[n - 1] in ids;
        var p :| 0 <= p < |ids| && ids[p] == before[n - 1];
        ResponseIsGood(backend, ids[p]);
        var named := NamedInOrder(backend[ids[p]]);
        forall m | 0 <= m < |named|
          ensures named[m] in ids
        {
          var s, k := PlaceNamed(backend, ids[p], m);
          assert MetAt(backend, ids, p, s, k, named[m]);
        }
        ExtendHas(before, named);
      }
    }
  }

  /** Two breadth-first lists agree as far as the first is part of the second. */
  lemma {:induction false} Agree(backend: Backend, one: seq<string>, other: seq<string>, b: nat)
    requires one != [] && other != [] && one[0] == other[0] && Counting.Distinct(one) && Counting.Distinct(other)
    requires forall c: nat | 0 < c < |one| :: FirstMet(backend, one, c)
    requires forall c: nat | 0 < c < |other| :: FirstMet(backend, other, c)
    requires (forall id | id in one :: id in other) && b <= |one|
    ensures b <= |other| && one[..b] == other[..b]
  {
    hide NamedAt, FirstMet;
    if b > 1 {
      var c := b - 1;
      Agree(backend, one, other, c);
      assert one[c] in one && one[c] in other && one[c] !in one[..c];
      var at :| 0 <= at < |other| && other[at] == one[c];
      assert other[at] !in other[..c] && forall i | 0 <= i < c :: other[i] in other[..c];
      SameNext(backend, one, other, c);
    }
  }

  lemma SameNext(backend: Backend, one: seq<string>, other: seq<string>, c: nat)
    requires c < |one| && c < |other| && one[..c] == other[..c]
    requires Counting.Distinct(one) && Counting.Distinct(other)
    requires FirstMet(backend, one, c) && FirstMet(backend, other, c)
    ensures one[c] == other[c]
  {
    hide NamedAt;
    var p: nat, s: nat, k: nat :| FirstMetAt(backend, one, c, p, s, k);
    var p2: nat, s2: nat, k2: nat :| FirstMetAt(backend, other, c, p2, s2, k2);
    assert one[p] == one[..c][p] == other[p] && other[p2] == other[..c][p2] == one[p2];
    assert MetAt(backend, other, p, s, k, one[c]) && MetAt(backend, one, p2, s2, k2, other[c]);
    assert one[c] !in one[..c] && other[c] !in other[..c];
    if p == p2 && s == s2 && k == k2 {
      OneName(backend[one[p]], s, k, one[c], other[c]);
    }
  }

  lemma OneName(response: Response, s: nat, k: nat, one: string, other: string)
    requires NamedAt(response, s, k, one) && NamedAt(response, s, k, other)
    ensures one == other
  {
  }

  // ----- the totals -----

  lemma {:induction false} TotalsAre(backend: Backend, traces: seq<Trace>, n: nat)
    requires n <= |traces|
    requires forall i | 0 <= i < |traces| ::
               && traces[i].traceId.Some? && traces[i].traceId.value in backend
               && backend[traces[i].traceId.value].trace == Some(traces[i])
    ensures Counting.Sum(IdsOf(traces)[..n], SpanWeight(backend)) == SpansFetched(traces, n)
    ensures Counting.Sum(IdsOf(traces)[..n], LinkWeight(backend)) == LinksFetched(traces, n)
  {
    hide TypedLinksIn, LinkCountOf;
    if n > 0 {
      TotalsAre(backend, traces, n - 1);
      var ids := IdsOf(traces);
      assert ids[..n][..n - 1] == ids[..n - 1];
      var spans := SpansOf(backend[ids[n - 1]]);
      LinksOfFirst(spans, |spans|);
      assert spans[..|spans|] == spans;
      NoLinks();
    }
  }

  lemma NoLinks()
    ensures LinkCountOf([]) == 0
  {
  }

  // ----- the crawl as a whole -----

  lemma NamesIff(backend: Backend, id: string, next: string)
    requires IsReadable(backend, id)
    ensures id in backend
    ensures Names(backend[id], next) <==> exists s: nat, k: nat :: NamedAt(backend[id], s, k, next)
  {
    hide IsReadable, SpanLinksWellFormed;
    ResponseIsGood(backend, id);
    var spans := SpansOf(backend[id]);
    if Names(backend[id], next) {
      if span :| span in spans && exists link | link in LinksOf(span) :: link.traceId == Some(next) {
        var s: nat :| s < |spans| && spans[s] == span;
        var link :| link in LinksOf(span) && link.traceId == Some(next);
        var k: nat :| k < |LinksOf(span)| && LinksOf(span)[k] == link;
        assert NamedAt(backend[id], s, k, next);
      } else {
        var k: nat :| k < |LinkedOf(backend[id])| && LinkedOf(backend[id])[k] == Some(next);
        assert NamedAt(backend[id], |spans|, k, next);
      }
    }
    if s: nat, k: nat :| NamedAt(backend[id], s, k, next) {
      if s < |spans| {
        assert LinksOf(spans[s])[k] in LinksOf(spans[s]);
      }
    }
  }

  lemma ClosedIff(backend: Backend, ids: seq<string>)
    requires forall id | id in ids :: IsReadable(backend, id)
    ensures (forall id, next | id in ids && id in backend && Names(backend[id], next) :: next in ids)
       <==> forall p: nat, s: nat, k: nat, id | MetAt(backend, ids, p, s, k, id) :: id in ids
  {
    hide IsReadable, NamedAt, Names;
    forall id, next | id in ids && id in backend
      ensures Names(backend[id], next) <==> exists s: nat, k: nat :: NamedAt(backend[id], s, k, next)
    {
      NamesIff(backend, id, next);
    }
    if forall p: nat, s: nat, k: nat, id | MetAt(backend, ids, p, s, k, id) :: id in ids {
      forall id, next | id in ids && id in backend && Names(backend[id], next)
        ensures next in ids
      {
        var p: nat :| p < |ids| && ids[p] == id;
        var s: nat, k: nat :| NamedAt(backend[id], s, k, next);
        assert MetAt(backend, ids, p, s, k, next);
      }
    }
    if forall id, next | id in ids && id in backend && Names(backend[id], next) :: next in ids {
      forall p: nat, s: nat, k: nat, id | MetAt(backend, ids, p, s, k, id)
        ensures id in ids
      {
        assert ids[p] in ids;
      }
    }
  }

  lemma {:induction false} FirstMetAreLeast(backend: Backend, ids: seq<string>, others: iset<string>, b: nat)
    requires b < |ids| && ids[0] in others && Closed(backend, others)
    requires forall id | id in ids :: IsReadable(backend, id)
    requires forall c: nat | 0 < c < |ids| :: FirstMet(backend, ids, c)
    ensures ids[b] in others
  {
    hide IsReadable, NamedAt, Names;
    if b > 0 {
      assert FirstMet(backend, ids, b);
      var p: nat, s: nat, k: nat :| FirstMetAt(backend, ids, b, p, s, k);
      FirstMetAreLeast(backend, ids, others, p);
      NamesIff(backend, ids[p], ids[b]);
    }
  }

  lemma LeastOf(backend: Backend, start: string, ids: seq<string>)
    requires (forall id | id in ids :: IsReadable(backend, id)) && BreadthFirst(backend, start, ids)
    ensures Least(backend, start, ids)
  {
    hide IsReadable, FirstMet;
    forall others: iset<string> | start in others && Closed(backend, others)
      ensures forall id | id in ids :: id in others
    {
      forall b: nat | b < |ids|
        ensures ids[b] in others
      {
        FirstMetAreLeast(backend, ids, others, b);
      }
    }
  }

  /** The breadth-first list closed under naming is the discovered one. */
  lemma DiscoveredIs(backend: Backend, start: string, ids: seq<string>)
    requires (forall id | id in ids :: IsReadable(backend, id)) && BreadthFirst(backend, start, ids)
    requires forall p: nat, s: nat, k: nat, id | MetAt(backend, ids, p, s, k, id) :: id in ids
    ensures ids == Discovered(backend, start, |ids|)
  {
    hide IsReadable, FirstMet, NamedAt;
    var all := Discovered(backend, start, |ids|);
    DiscoveredInside(backend, start, ids, |ids|);
    DiscoveredOrdered(backend, start, |ids|);
    StartsWith(backend, start, |ids|);
    Agree(backend, all, ids, |all|);
    var b := |all|;
    if b < |ids| {
      NextIsMet(backend, all, ids);
    }
  }

  lemma {:induction false} StartsWith(backend: Backend, start: string, n: nat)
    ensures Discovered(backend, start, n) != [] && Discovered(backend, start, n)[0] == start
  {
    hide NamedInOrder;
    if n > 0 {
      StartsWith(backend, start, n - 1);
      assert Discovered(backend, start, n - 1) <= Discovered(backend, start, n);
    }
  }

  lemma NextIsMet(backend: Backend, all: seq<string>, ids: seq<string>)
    requires all != [] && |all| < |ids| && ids[..|all|] == all
    requires OrderedSoFar(backend, all, |ids|) && FirstMet(backend, ids, |all|)
    ensures ids[|all|] in all
  {
    hide NamedAt;
    var p: nat, s: nat, k: nat :| FirstMetAt(backend, ids, |all|, p, s, k);
    assert ids[p] == ids[..|all|][p] == all[p];
    assert MetAt(backend, all, p, s, k, ids[|all|]);
  }

  /** What the crawl returns is exactly what is described. */
  lemma CrawlIff(backend: Backend, start: string, traces: seq<Trace>)
    ensures CrawlResult(backend, start, traces) <==> IsCrawled(backend, start, traces)
  {
    hide IsReadable, Readable, FirstMet, MetAt, SpansFetched, LinksFetched, Counting.Sum, Discovered, Least, Names;
    var ids := IdsOf(traces);
    forall id
      ensures Readable(backend, id) <==> IsReadable(backend, id)
    {
      ReadableIff(backend, id);
    }
    if CrawlResult(backend, start, traces) {
      FetchedAre(backend, start, traces);
      assert forall i | 0 <= i < |ids| :: ids[i] in ids;
      ClosedIff(backend, ids);
      DiscoveredOrdered(backend, start, |ids|);
      StartsWith(backend, start, |ids|);
      TotalsAre(backend, traces, |traces|);
      assert ids[..|traces|] == ids;
    }
    if IsCrawled(backend, start, traces) {
      CrawledAre(backend, traces);
      assert ids[0] in ids;
      ClosedIff(backend, ids);
      DiscoveredIs(backend, start, ids);
      LeastOf(backend, start, ids);
      TotalsAre(backend, traces, |traces|);
      assert ids[..|traces|] == ids;
    }
  }

  lemma FetchedAre(backend: Backend, start: string, traces: seq<Trace>)
    requires Crawlable(backend, start, IdsOf(traces)) && FetchedFrom(backend, IdsOf(traces), traces)
    ensures forall i | 0 <= i < |traces| ::
              && traces[i].traceId == Some(IdsOf(traces)[i]) && IsReadable(backend, IdsOf(traces)[i])
              && IdsOf(traces)[i] in backend && Some(traces[i]) == backend[IdsOf(traces)[i]].trace
  {
    hide Counting.Sum, Names, HexId, LinksAreGood, IsTraceId, SpanLinksWellFormed;
    forall i | 0 <= i < |traces|
      ensures && traces[i].traceId == Some(IdsOf(traces)[i]) && IsReadable(backend, IdsOf(traces)[i])
              && IdsOf(traces)[i] in backend && Some(traces[i]) == backend[IdsOf(traces)[i]].trace
    {
      ReadableIff(backend, IdsOf(traces)[i]);
    }
  }

  lemma CrawledAre(backend: Backend, traces: seq<Trace>)
    requires forall i | 0 <= i < |traces| ::
               && traces[i].traceId.Some? && IsReadable(backend, traces[i].traceId.value)
               && Some(traces[i]) == backend[traces[i].traceId.value].trace
    ensures FetchedFrom(backend, IdsOf(traces), traces)
    ensures forall i | 0 <= i < |traces| :: traces[i].traceId.value in backend
    ensures forall id | id in IdsOf(traces) :: IsReadable(backend, id)
  {
    hide HexId, LinksAreGood, IsTraceId, SpanLinksWellFormed;
    forall i | 0 <= i < |traces|
      ensures Readable(backend, traces[i].traceId.value)
    {
      ReadableIff(backend, traces[i].traceId.value);
    }
  }
}
