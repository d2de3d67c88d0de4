/** Typed links: every link of every span points from a RabbitMQ consumer to the producer of the
    same message. */
module Links {
  import opened Outcomes
  import opened TraceModel
  import Counting
  import Crawl
  import opened Spans

  datatype SpanLink = SpanLink(source: nat, target: nat, attributes: Attributes)

  datatype MessagingRole = Producer | Consumer

  predicate IsRabbitOperation(span: Span, operation: string) {
    && AttributeString(span, "messaging.system") == Some("rabbitmq")
    && AttributeString(span, "messaging.operation.name") == Some(operation)
  }

  function MessagingRoleOf(span: Span): Option<MessagingRole> {
    if IsRabbitOperation(span, "send") && span.kind == Some("SPAN_KIND_PRODUCER") then Some(Producer)
    else if IsRabbitOperation(span, "process") && span.kind == Some("SPAN_KIND_CONSUMER") then Some(Consumer)
    else None
  }

  /** `validate_link_semantics`: consumer to producer, sharing a message identity that is not blank. */
  predicate LinkSemantics(source: Span, target: Span) {
    && MessagingRoleOf(source) == Some(Consumer)
    && MessagingRoleOf(target) == Some(Producer)
    && RequiredAttribute(source, "messaging.message.id").Some?
    && RequiredAttribute(source, "messaging.message.id") == RequiredAttribute(target, "messaging.message.id")
  }

  /** One typed link, looked up and checked. */
  function Resolve(nodes: seq<SpanNode>, index: Index, source: nat, link: TypedLink): (r: Option<SpanLink>)
    requires source < |nodes| && IsIndex(nodes, index)
    ensures r.Some? ==>
            && r.value.source == source != r.value.target < |nodes|
            && Some(nodes[r.value.target].traceId) == link.traceId
            && Some(nodes[r.value.target].spanId) == link.spanId
            && LinkSemantics(nodes[source].span, nodes[r.value.target].span)
  {
    if && link.traceId.Some? && IsTraceId(link.traceId.value)
       && link.spanId.Some? && IsSpanId(link.spanId.value)
       && AttributeObject(link.attributes, MAX_LINK_ATTRIBUTES_BYTES).Some?
       && (link.traceId.value, link.spanId.value) in index
    then
      var target := index[(link.traceId.value, link.spanId.value)];
      if source != target && LinkSemantics(nodes[source].span, nodes[target].span)
      then Some(SpanLink(source, target, AttributeObject(link.attributes, MAX_LINK_ATTRIBUTES_BYTES).value))
      else None
    else None
  }

  ghost function ResolvedOf(nodes: seq<SpanNode>, index: Index, source: nat, links: seq<TypedLink>): seq<SpanLink>
    requires source < |nodes| && IsIndex(nodes, index)
  {
    if links == [] then []
    else
      var last := Resolve(nodes, index, source, links[|links| - 1]);
      ResolvedOf(nodes, index, source, links[..|links| - 1]) + if last.Some? then [last.value] else []
  }

  /** The links of the first `n` nodes, in order. */
  ghost function ResolvedLinks(nodes: seq<SpanNode>, index: Index, n: nat): seq<SpanLink>
    requires n <= |nodes| && IsIndex(nodes, index)
  {
    if n == 0 then []
    else ResolvedLinks(nodes, index, n - 1) + ResolvedOf(nodes, index, n - 1, Crawl.LinksOf(nodes[n - 1].span))
  }

  ghost function LinkTotal(nodes: seq<SpanNode>): nat {
    Counting.Sum(nodes, (node: SpanNode) => |Crawl.LinksOf(node.span)|)
  }

  function PairOf(link: SpanLink): (nat, nat) { (link.source, link.target) }

  ghost predicate DistinctPairs(links: seq<SpanLink>) {
    forall i, j | 0 <= i < j < |links| :: PairOf(links[i]) != PairOf(links[j])
  }

  ghost predicate LinksResolve(nodes: seq<SpanNode>, index: Index, i: nat)
    requires i < |nodes| && IsIndex(nodes, index)
  {
    && nodes[i].span.typedLinks.Some?
    && |Crawl.LinksOf(nodes[i].span)| <= MAX_TYPED_LINKS_PER_SPAN
    && forall link | link in Crawl.LinksOf(nodes[i].span) :: Resolve(nodes, index, i, link).Some?
  }

  /** Every link resolves, no pair is linked twice, and the counts stay within their limits. */
  ghost predicate LinksValid(nodes: seq<SpanNode>, index: Index)
    requires IsIndex(nodes, index)
  {
    && (forall i | 0 <= i < |nodes| :: LinksResolve(nodes, index, i))
    && LinkTotal(nodes) <= MAX_TOTAL_TYPED_LINKS
    && DistinctPairs(ResolvedLinks(nodes, index, |nodes|))
  }

  lemma {:induction false} ResolvedOfPrefix(nodes: seq<SpanNode>, index: Index, source: nat, links: seq<TypedLink>,
                                            n: nat)
    requires source < |nodes| && IsIndex(nodes, index) && n <= |links|
    ensures ResolvedOf(nodes, index, source, links[..n]) <= ResolvedOf(nodes, index, source, links)
    decreases |links| - n
  {
    if n == |links| {
      assert links[..n] == links;
    } else {
      assert links[..n + 1][..n] == links[..n];
      ResolvedOfPrefix(nodes, index, source, links, n + 1);
    }
  }

  lemma {:induction false} ResolvedLinksPrefix(nodes: seq<SpanNode>, index: Index, n: nat)
    requires IsIndex(nodes, index) && n <= |nodes|
    ensures ResolvedLinks(nodes, index, n) <= ResolvedLinks(nodes, index, |nodes|)
    decreases |nodes| - n
  {
    if n < |nodes| {
      ResolvedLinksPrefix(nodes, index, n + 1);
    }
  }

  lemma {:induction false} LinkTotalGrows(nodes: seq<SpanNode>, n: nat)
    requires n <= |nodes|
    ensures LinkTotal(nodes[..n]) <= LinkTotal(nodes)
    decreases |nodes| - n
  {
    if n == |nodes| {
      assert nodes[..n] == nodes;
    } else {
      assert nodes[..n + 1][..n] == nodes[..n];
      LinkTotalGrows(nodes, n + 1);
    }
  }

  ghost function PairSet(links: seq<SpanLink>): set<(nat, nat)> {
    set k | 0 <= k < |links| :: PairOf(links[k])
  }

  lemma PairSetGrows(links: seq<SpanLink>, link: SpanLink)
    requires DistinctPairs(links)
    ensures PairSet(links + [link]) == PairSet(links) + {PairOf(link)}
    ensures DistinctPairs(links + [link]) <==> PairOf(link) !in PairSet(links)
  {
    var longer := links + [link];
    assert longer[|links|] == link && forall k | 0 <= k < |links| :: longer[k] == links[k];
    assert PairSet(longer) == PairSet(links) + {PairOf(link)};
    if PairOf(link) in PairSet(links) {
      var k :| 0 <= k < |links| && PairOf(links[k]) == PairOf(link);
      assert PairOf(longer[k]) == PairOf(longer[|links|]);
    }
  }

  lemma {:induction false} DistinctPrefix(links: seq<SpanLink>, all: seq<SpanLink>)
    requires links <= all && DistinctPairs(all)
    ensures DistinctPairs(links)
  {
    assert forall k | 0 <= k < |links| :: links[k] == all[k];
  }

  /** A repeated pair is a repeated pair of the whole list. */
  lemma RepeatedPair(nodes: seq<SpanNode>, index: Index, source: nat, j: nat)
    requires source < |nodes| && IsIndex(nodes, index) && j < |Crawl.LinksOf(nodes[source].span)|
    requires var links := Crawl.LinksOf(nodes[source].span);
             !DistinctPairs(ResolvedLinks(nodes, index, source) + ResolvedOf(nodes, index, source, links[..j + 1]))
    ensures !LinksValid(nodes, index)
  {
    var links := Crawl.LinksOf(nodes[source].span);
    ResolvedOfPrefix(nodes, index, source, links, j + 1);
    ResolvedLinksPrefix(nodes, index, source + 1);
    if LinksValid(nodes, index) {
      DistinctPrefix(ResolvedLinks(nodes, index, source) + ResolvedOf(nodes, index, source, links[..j + 1]),
                     ResolvedLinks(nodes, index, |nodes|));
    }
  }

  lemma Unresolved(nodes: seq<SpanNode>, index: Index, i: nat)
    requires i < |nodes| && IsIndex(nodes, index) && !LinksResolve(nodes, index, i)
    ensures !LinksValid(nodes, index)
  {
  }

  lemma NextLink(nodes: seq<SpanNode>, index: Index, source: nat, j: nat, result: seq<SpanLink>)
    requires source < |nodes| && IsIndex(nodes, index) && j < |Crawl.LinksOf(nodes[source].span)|
    requires Resolve(nodes, index, source, Crawl.LinksOf(nodes[source].span)[j]).Some?
    requires result
          == ResolvedLinks(nodes, index, source)
             + ResolvedOf(nodes, index, source, Crawl.LinksOf(nodes[source].span)[..j])
    requires DistinctPairs(result)
    ensures var links := Crawl.LinksOf(nodes[source].span);
            var one := Resolve(nodes, index, source, links[j]).value;
            var longer := ResolvedLinks(nodes, index, source) + ResolvedOf(nodes, index, source, links[..j + 1]);
            && result + [one] == longer && PairSet(longer) == PairSet(result) + {PairOf(one)}
            && if PairOf(one) in PairSet(result) then !LinksValid(nodes, index) else DistinctPairs(longer)
  {
    var links := Crawl.LinksOf(nodes[source].span);
    var one := Resolve(nodes, index, source, links[j]).value;
    assert links[..j + 1][..j] == links[..j];
    assert result + [one] == ResolvedLinks(nodes, index, source) + ResolvedOf(nodes, index, source, links[..j + 1]);
    PairSetGrows(result, one);
    if PairOf(one) in PairSet(result) {
      RepeatedPair(nodes, index, source, j);
    }
  }

  /** Add the links of one span to those found before. */
  method ValidateSpanLinks(nodes: seq<SpanNode>, index: Index, source: nat, found: seq<SpanLink>,
                           seen0: set<(nat, nat)>)
    returns (r: Option<seq<SpanLink>>, seen: set<(nat, nat)>)
    requires source < |nodes| && IsIndex(nodes, index)
    requires found == ResolvedLinks(nodes, index, source) && DistinctPairs(found) && seen0 == PairSet(found)
    requires nodes[source].span.typedLinks.Some? && |Crawl.LinksOf(nodes[source].span)| <= MAX_TYPED_LINKS_PER_SPAN
    ensures r.None? ==> !LinksValid(nodes, index)
    ensures r.Some? ==> LinksResolve(nodes, index, source) && DistinctPairs(r.value)
    ensures r.Some? ==> r.value == ResolvedLinks(nodes, index, source + 1) && seen == PairSet(r.value)
  {
    var links := nodes[source].span.typedLinks.value;
    var result := found;
    seen := seen0;
    for j := 0 to |links|
      invariant result == found + ResolvedOf(nodes, index, source, links[..j])
      invariant DistinctPairs(result) && seen == PairSet(result)
      invariant forall link | link in links[..j] :: Resolve(nodes, index, source, link).Some?
    {
      assert links[..j + 1] == links[..j] + [links[j]];
      assert links[j] in links;
      var one := Resolve(nodes, index, source, links[j]);
      if one.None? {
        Unresolved(nodes, index, source);
        return None, seen;
      }
      NextLink(nodes, index, source, j, result);
      if PairOf(one.value) in seen {
        return None, seen;
      }
      seen := seen + {PairOf(one.value)};
      result := result + [one.value];
    }
    assert links[..|links|] == links;
    return Some(result), seen;
  }

  /** What the outer loop has established for the first `n` nodes. */
  ghost predicate LinksSoFar(nodes: seq<SpanNode>, index: Index, n: nat, links: seq<SpanLink>, seen: set<(nat, nat)>)
    requires n <= |nodes| && IsIndex(nodes, index)
  {
    && (forall j | 0 <= j < n :: LinksResolve(nodes, index, j))
    && links == ResolvedLinks(nodes, index, n) && DistinctPairs(links) && seen == PairSet(links)
  }

  /** One span: its own counts, then its links. */
  method ValidateNodeLinks(nodes: seq<SpanNode>, index: Index, i: nat, links: seq<SpanLink>, seen: set<(nat, nat)>,
                           total: nat)
    returns (r: Option<(seq<SpanLink>, set<(nat, nat)>, nat)>)
    requires i < |nodes| && IsIndex(nodes, index) && LinksSoFar(nodes, index, i, links, seen)
    requires total == LinkTotal(nodes[..i])
    ensures r.None? ==> !LinksValid(nodes, index)
    ensures r.Some? ==> LinksSoFar(nodes, index, i + 1, r.value.0, r.value.1)
    ensures r.Some? ==> r.value.2 == LinkTotal(nodes[..i + 1]) <= MAX_TOTAL_TYPED_LINKS
  {
    LinkTotalNext(nodes, i);
    if nodes[i].span.typedLinks.None? || |nodes[i].span.typedLinks.value| > MAX_TYPED_LINKS_PER_SPAN {
      Unresolved(nodes, index, i);
      return None;
    }
    var more := total + |nodes[i].span.typedLinks.value|;
    if more > MAX_TOTAL_TYPED_LINKS {
      return None;
    }
    var longer, grown := ValidateSpanLinks(nodes, index, i, links, seen);
    if longer.None? {
      return None;
    }
    return Some((longer.value, grown, more));
  }

  /** Accepts exactly when all links are valid, and returns them in order. */
  method ValidateTypedLinks(nodes: seq<SpanNode>, index: Index) returns (r: Option<seq<SpanLink>>)
    requires IsIndex(nodes, index)
    ensures r.Some? <==> LinksValid(nodes, index)
    ensures r.Some? ==> r.value == ResolvedLinks(nodes, index, |nodes|)
  {
    var links: seq<SpanLink> := [];
    var seen: set<(nat, nat)> := {};
    var total := 0;
    for i := 0 to |nodes|
      invariant LinksSoFar(nodes, index, i, links, seen)
      invariant total == LinkTotal(nodes[..i]) <= MAX_TOTAL_TYPED_LINKS
    {
      var next := ValidateNodeLinks(nodes, index, i, links, seen, total);
      if next.None? {
        return None;
      }
      links, seen, total := next.value.0, next.value.1, next.value.2;
    }
    assert nodes[..|nodes|] == nodes;
    return Some(links);
  }

  lemma LinkTotalNext(nodes: seq<SpanNode>, n: nat)
    requires n < |nodes|
    ensures LinkTotal(nodes[..n + 1]) == LinkTotal(nodes[..n]) + |Crawl.LinksOf(nodes[n].span)| <= LinkTotal(nodes)
  {
    assert nodes[..n + 1][..n] == nodes[..n];
    LinkTotalGrows(nodes, n + 1);
  }

  // ----- what the accepted links are -----

  /** A link between two different spans, from the consumer to the producer of one message. */
  ghost predicate SoundLink(nodes: seq<SpanNode>, link: SpanLink) {
    && link.source < |nodes| && link.target < |nodes| && link.source != link.target
    && LinkSemantics(nodes[link.source].span, nodes[link.target].span)
  }

  lemma {:induction false} ResolvedOfAreSound(nodes: seq<SpanNode>, index: Index, source: nat, links: seq<TypedLink>)
    requires source < |nodes| && IsIndex(nodes, index)
    ensures forall link | link in ResolvedOf(nodes, index, source, links) :: SoundLink(nodes, link)
  {
    if links != [] {
      ResolvedOfAreSound(nodes, index, source, links[..|links| - 1]);
    }
  }

  /** Every link that is kept goes from the consumer to the producer of the same message. */
  lemma {:induction false} ResolvedAreSound(nodes: seq<SpanNode>, index: Index, n: nat)
    requires n <= |nodes| && IsIndex(nodes, index)
    ensures forall link | link in ResolvedLinks(nodes, index, n) :: SoundLink(nodes, link)
  {
    if n > 0 {
      ResolvedAreSound(nodes, index, n - 1);
      ResolvedOfAreSound(nodes, index, n - 1, Crawl.LinksOf(nodes[n - 1].span));
    }
  }
}
