/** The requirements on the journey and on its messages, and what acceptance comes to in full. */
module EvidenceRequirements {
  import opened Outcomes
  import opened RustText
  import opened TraceModel
  import opened Spans
  import opened Headers
  import opened Requirements
  import opened Evidence
  import opened Analysis
  import Acceptance
  import Connectivity
  import Counting
  import Links
  import Strings
  import Topology

  // ----- texts -----

  predicate SameLetter(a: char, b: char) {
    || a == b
    || ('A' <= a <= 'Z' && b as int == a as int + 32)
    || ('A' <= b <= 'Z' && a as int == b as int + 32)
  }

  /** The same text but for the case of ASCII letters. */
  ghost predicate SameLetters(a: string, b: string) {
    |a| == |b| && forall i | 0 <= i < |a| :: SameLetter(a[i], b[i])
  }

  lemma LettersIff(a: string, b: string)
    ensures AsciiLowercased(a) == AsciiLowercased(b) <==> SameLetters(a, b)
  {
    var lowA, lowB := AsciiLowercased(a), AsciiLowercased(b);
    forall c, d
      ensures AsciiLower(c) == AsciiLower(d) <==> SameLetter(c, d)
    {
      ControlIs(c);
      ControlIs(d);
    }
    if SameLetters(a, b) {
      assert forall i | 0 <= i < |a| :: lowA[i] == lowB[i];
      assert lowA == lowB;
    }
    if lowA == lowB {
      forall i | 0 <= i < |a|
        ensures SameLetter(a[i], b[i])
      {
        assert AsciiLower(a[i]) == lowA[i] == lowB[i] == AsciiLower(b[i]);
      }
    }
  }

  // ----- the journey -----

  ghost predicate ServiceShown(nodes: seq<SpanNode>, service: string) {
    exists i | 0 <= i < |nodes| :: nodes[i].span.service == Some(service)
  }

  ghost predicate NameShown(nodes: seq<SpanNode>, name: string) {
    exists i | 0 <= i < |nodes| :: nodes[i].span.name.Some? && SameLetters(nodes[i].span.name.value, name)
  }

  function Cut(text: string): string { if |text| > 65536 then text[..65536] else text }

  /** Name, kind, service and raw attributes of a span, those that are there. */
  function TextOf(span: Span): string
    requires span.name.Some? && span.service.Some? && span.attributes.JsonText?
  {
    Cut(span.name.value) + " " + (if span.kind.Some? then Cut(span.kind.value) + " " else "")
      + Cut(span.service.value) + " " + Cut(span.attributes.raw)
  }

  ghost predicate MentionsAuthorize(span: Span) {
    && span.name.Some? && span.service.Some? && span.attributes.JsonText?
    && exists i: nat :: AuthorizeAt(TextOf(span), i)
  }

  ghost predicate AuthorizeAt(text: string, i: nat) {
    i + 9 <= |text| && SameLetters(text[i..i + 9], "authorize")
  }

  /** The five services; both browser services or none; the three named spans; and a payment span that
      mentions the authorization. */
  ghost predicate JourneyIsShown(nodes: seq<SpanNode>) {
    && ServiceShown(nodes, "checkout") && ServiceShown(nodes, "catalog") && ServiceShown(nodes, "pricing")
    && ServiceShown(nodes, "inventory") && ServiceShown(nodes, "payment")
    && (ServiceShown(nodes, "web") <==> ServiceShown(nodes, "storefront"))
    && NameShown(nodes, "checkout") && NameShown(nodes, "pricing.quote") && NameShown(nodes, "inventory.reserve")
    && exists i | 0 <= i < |nodes| ::
         nodes[i].span.service == Some("payment") && MentionsAuthorize(nodes[i].span)
  }

  lemma ServiceIff(nodes: seq<SpanNode>, service: string)
    requires service != ""
    ensures service in Services(nodes) <==> ServiceShown(nodes, service)
  {
  }

  lemma NameIff(nodes: seq<SpanNode>, name: string)
    requires AsciiLowercased(name) == name
    ensures (exists node | node in nodes :: node.span.name.Some? && AsciiLowercased(node.span.name.value) == name)
       <==> NameShown(nodes, name)
  {
    hide AsciiLowercased, SameLetters;
    forall text
      ensures AsciiLowercased(text) == name <==> SameLetters(text, name)
    {
      LettersIff(text, name);
    }
    if NameShown(nodes, name) {
      var i :| 0 <= i < |nodes| && nodes[i].span.name.Some? && SameLetters(nodes[i].span.name.value, name);
      assert nodes[i] in nodes;
    }
  }

  lemma SmallNames()
    ensures AsciiLowercased("checkout") == "checkout" && AsciiLowercased("pricing.quote") == "pricing.quote"
    ensures AsciiLowercased("inventory.reserve") == "inventory.reserve" && AsciiLowercased("authorize") == "authorize"
  {
  }

  lemma LowerConcat(a: string, b: string)
    ensures AsciiLowercased(a + b) == AsciiLowercased(a) + AsciiLowercased(b)
  {
  }

  lemma LowerSpace()
    ensures AsciiLowercased(" ") == " "
  {
  }

  lemma TruncatedIsCut(text: string)
    ensures Truncated(text) == Cut(text)
  {
  }

  /** The lower-case texts joined, with a space before each but the first. */
  lemma JoinStep(first: string, rest: seq<string>)
    requires rest != []
    ensures Strings.Join([first] + rest, ' ') == first + " " + Strings.Join(rest, ' ')
  {
    assert ([first] + rest)[1..] == rest;
  }

  lemma LowerStep(first: string, rest: string)
    ensures AsciiLowercased(Cut(first) + " " + rest)
         == AsciiLowercased(Truncated(first)) + " " + AsciiLowercased(rest)
  {
    hide AsciiLowercased, Truncated, Cut;
    TruncatedIsCut(first);
    LowerConcat(Cut(first) + " ", rest);
    LowerConcat(Cut(first), " ");
    LowerSpace();
  }

  lemma TextsStep(field: Option<string>, rest: seq<Option<string>>)
    ensures TextsOf([field] + rest)
         == (if field.Some? then [AsciiLowercased(Truncated(field.value))] else []) + TextsOf(rest)
    ensures TextsOf([]) == []
  {
    hide AsciiLowercased, Truncated;
    assert ([field] + rest)[1..] == rest;
  }

  lemma SearchableIs(span: Span)
    requires span.name.Some? && span.service.Some? && span.attributes.JsonText?
    ensures SearchableText(span) == AsciiLowercased(TextOf(span))
  {
    hide AsciiLowercased, Truncated, Cut, TextsOf, Strings.Join;
    var raw := span.attributes.raw;
    var last := Cut(span.service.value) + " " + Cut(raw);
    var lasts := TextsOf([span.service, Some(raw)]);
    TruncatedIsCut(raw);
    LowerStep(span.service.value, Cut(raw));
    TextsStep(Some(raw), []);
    TextsStep(span.service, [Some(raw)]);
    assert [Some(raw)] + [] == [Some(raw)] && [span.service] + [Some(raw)] == [span.service, Some(raw)];
    JoinTwo(AsciiLowercased(Truncated(span.service.value)), AsciiLowercased(Truncated(raw)));
    TextsStep(span.kind, [span.service, Some(raw)]);
    assert [span.kind] + [span.service, Some(raw)] == [span.kind, span.service, Some(raw)];
    TextsStep(span.name, [span.kind, span.service, Some(raw)]);
    assert [span.name] + [span.kind, span.service, Some(raw)] == [span.name, span.kind, span.service, Some(raw)];
    var service, attributes := AsciiLowercased(Truncated(span.service.value)), AsciiLowercased(Truncated(raw));
    assert lasts == [service, attributes];
    assert AsciiLowercased(last) == Strings.Join(lasts, ' ');
    var name := AsciiLowercased(Truncated(span.name.value));
    if span.kind.Some? {
      var kind := AsciiLowercased(Truncated(span.kind.value));
      var rest := Cut(span.kind.value) + " " + last;
      JoinStep(kind, lasts);
      LowerStep(span.kind.value, last);
      assert AsciiLowercased(rest) == Strings.Join([kind] + lasts, ' ');
      JoinStep(name, [kind] + lasts);
      LowerStep(span.name.value, rest);
      assert SearchableText(span) == Strings.Join([name] + ([kind] + lasts), ' ');
      assert TextOf(span) == Cut(span.name.value) + " " + rest;
    } else {
      assert [] + lasts == lasts;
      JoinStep(name, lasts);
      LowerStep(span.name.value, last);
      assert SearchableText(span) == Strings.Join([name] + lasts, ' ');
      assert TextOf(span) == Cut(span.name.value) + " " + last;
    }
  }

  lemma JoinTwo(a: string, b: string)
    ensures Strings.Join([a, b], ' ') == a + " " + b
  {
    assert [a, b][1..] == [b];
  }

  lemma MentionIff(span: Span)
    requires span.name.Some? && span.service.Some? && span.attributes.JsonText?
    ensures Contains(SearchableText(span), "authorize") <==> MentionsAuthorize(span)
  {
    hide SearchableText, TextOf, AuthorizeAt, AsciiLowercased;
    SearchableIs(span);
    var low := AsciiLowercased(TextOf(span));
    forall i: nat
      ensures i <= |low| && "authorize" <= low[i..] <==> AuthorizeAt(TextOf(span), i)
    {
      AuthorizeIff(TextOf(span), i);
    }
  }

  lemma AuthorizeIff(text: string, i: nat)
    ensures var low := AsciiLowercased(text);
            i <= |low| && "authorize" <= low[i..] <==> AuthorizeAt(text, i)
  {
    hide SameLetters;
    SmallNames();
    var low := AsciiLowercased(text);
    if i + 9 <= |text| {
      LettersIff(text[i..i + 9], "authorize");
      assert AsciiLowercased(text[i..i + 9]) == low[i..i + 9];
      assert low[i..][..9] == low[i..i + 9];
    }
  }

  lemma JourneyIff(nodes: seq<SpanNode>)
    requires GoodSpans(nodes)
    ensures JourneyEvidence(nodes) <==> JourneyIsShown(nodes)
  {
    hide Services, ServiceShown, NameShown, AsciiLowercased, SearchableText, MentionsAuthorize, Contains;
    ServiceIff(nodes, "checkout");
    ServiceIff(nodes, "catalog");
    ServiceIff(nodes, "pricing");
    ServiceIff(nodes, "inventory");
    ServiceIff(nodes, "payment");
    ServiceIff(nodes, "web");
    ServiceIff(nodes, "storefront");
    SmallNames();
    NamesIff(nodes);
    PaymentIff(nodes);
  }

  lemma NamesIff(nodes: seq<SpanNode>)
    ensures (forall required | required in ["checkout", "pricing.quote", "inventory.reserve"] ::
              exists node | node in nodes :: node.span.name.Some? && AsciiLowercased(node.span.name.value) == required)
       <==> NameShown(nodes, "checkout") && NameShown(nodes, "pricing.quote") && NameShown(nodes, "inventory.reserve")
  {
    hide NameShown, AsciiLowercased;
    SmallNames();
    NameIff(nodes, "checkout");
    NameIff(nodes, "pricing.quote");
    NameIff(nodes, "inventory.reserve");
    var names := ["checkout", "pricing.quote", "inventory.reserve"];
    assert names[0] in names && names[1] in names && names[2] in names;
  }

  lemma PaymentIff(nodes: seq<SpanNode>)
    requires GoodSpans(nodes)
    ensures (exists node | node in nodes ::
              node.span.service == Some("payment") && Contains(SearchableText(node.span), "authorize"))
       <==> exists i | 0 <= i < |nodes| ::
              nodes[i].span.service == Some("payment") && MentionsAuthorize(nodes[i].span)
  {
    hide SearchableText, MentionsAuthorize, Contains;
    forall i | 0 <= i < |nodes|
      ensures Contains(SearchableText(nodes[i].span), "authorize") <==> MentionsAuthorize(nodes[i].span)
    {
      assert SpanIsGood(nodes[i].span);
      MentionIff(nodes[i].span);
    }
    assert forall i | 0 <= i < |nodes| :: nodes[i] in nodes;
  }

  // ----- the messaging spans -----

  /** A span of this service about the paid order, on this destination. */
  ghost predicate Handles(span: Span, service: string, destination: string, operation: string) {
    && span.service == Some(service)
    && Says(span, "messaging.system", "rabbitmq") && Says(span, "messaging.destination.name", destination)
    && Says(span, "messaging.operation.name", operation) && Says(span, "commerce.event.type", "order.paid")
  }

  ghost predicate IsProducer(nodes: seq<SpanNode>, i: nat) {
    i < |nodes| && Handles(nodes[i].span, "checkout", "commerce.events", "send")
  }

  ghost predicate IsOrderConsumer(nodes: seq<SpanNode>, i: nat) {
    i < |nodes| && Handles(nodes[i].span, "fulfillment", "fulfillment.orders", "process")
  }

  ghost predicate IsAnalyticsConsumer(nodes: seq<SpanNode>, i: nat) {
    i < |nodes| && Handles(nodes[i].span, "fulfillment", "analytics.events", "process")
  }

  lemma HandlesIff(span: Span, service: string, destination: string, operation: string)
    requires SpanIsGood(span)
    ensures SpanIs(span, service, Messaging(destination, operation)) <==> Handles(span, service, destination, operation)
  {
    hide SpanIsGood, Says, AttributeString;
    SaysIff(span, "messaging.system", "rabbitmq");
    SaysIff(span, "messaging.destination.name", destination);
    SaysIff(span, "messaging.operation.name", operation);
    SaysIff(span, "commerce.event.type", "order.paid");
    var wanted := Messaging(destination, operation);
    assert wanted[0] in wanted && wanted[1] in wanted && wanted[2] in wanted && wanted[3] in wanted;
  }

  lemma MatchingIff(nodes: seq<SpanNode>, service: string, destination: string, operation: string)
    requires GoodSpans(nodes)
    ensures forall i: nat :: i in MatchingSpans(nodes, service, Messaging(destination, operation)) <==>
              i < |nodes| && Handles(nodes[i].span, service, destination, operation)
  {
    hide SpanIsGood, SpanIs, Handles, Messaging;
    forall i: nat | i < |nodes|
      ensures SpanIs(nodes[i].span, service, Messaging(destination, operation)) <==>
                Handles(nodes[i].span, service, destination, operation)
    {
      HandlesIff(nodes[i].span, service, destination, operation);
    }
  }

  lemma RolesIff(nodes: seq<SpanNode>)
    requires GoodSpans(nodes)
    ensures forall i: nat :: i in Producers(nodes) <==> IsProducer(nodes, i)
    ensures forall i: nat :: i in OrderConsumers(nodes) <==> IsOrderConsumer(nodes, i)
    ensures forall i: nat :: i in AnalyticsConsumers(nodes) <==> IsAnalyticsConsumer(nodes, i)
  {
    hide MatchingSpans, Handles, Messaging, GoodSpans;
    MatchingIff(nodes, "checkout", "commerce.events", "send");
    MatchingIff(nodes, "fulfillment", "fulfillment.orders", "process");
    MatchingIff(nodes, "fulfillment", "analytics.events", "process");
  }

  // ----- the business baggage -----

  /** The five keys hold text, the session holds text or is absent, and the baggage has just these values. */
  ghost predicate HasBaggage(span: Span, baggage: map<string, string>) {
    && (forall key | IsRequired(key) :: SaysText(span, key, baggage))
    && (SaysText(span, "session.id", baggage) || (IsSilent(span, "session.id") && "session.id" !in baggage))
    && forall key | key in baggage :: IsRequired(key) || key == "session.id"
  }

  predicate IsRequired(key: string) {
    || key == "tenant.id" || key == "user.tier" || key == "customer.segment" || key == "region"
    || key == "request.priority"
  }

  ghost predicate SaysText(span: Span, key: string, baggage: map<string, string>) {
    key in baggage && Says(span, key, baggage[key]) && HasText(Some(baggage[key]))
  }

  ghost predicate IsSilent(span: Span, key: string) {
    && span.attributes.JsonText? && span.attributes.parsed.Some? && span.attributes.parsed.value.Object?
    && key !in span.attributes.parsed.value.fields
  }

  lemma RequiredIff()
    ensures forall key :: key in REQUIRED_KEYS <==> IsRequired(key)
  {
    forall key
      ensures key in REQUIRED_KEYS <==> IsRequired(key)
    {
      SixKeys(key);
    }
  }

  /** The attributes of a good span. */
  lemma FieldsOf(span: Span) returns (fields: Attributes)
    requires SpanIsGood(span)
    ensures SpanAttributes(span) == Some(fields) && span.attributes.JsonText?
    ensures span.attributes.parsed == Some(Object(fields))
  {
    hide HexId, HasText, ByteLength;
    fields := span.attributes.parsed.value.fields;
  }

  lemma KeyTextIff(span: Span, fields: Attributes, key: string, baggage: map<string, string>)
    requires span.attributes.JsonText? && span.attributes.parsed == Some(Object(fields))
    ensures SaysText(span, key, baggage) <==>
              NonBlank(TextAt(fields, key)).Some? && Lookup(baggage, key) == TextAt(fields, key)
    ensures IsSilent(span, key) <==> key !in fields
    ensures SaysText(span, key, baggage) ==> key in fields
  {
    hide Blank, HasText;
    if key in baggage {
      BlankIff(baggage[key]);
    }
  }

  /** The six keys of a span's attributes make up the baggage exactly if the span has it. */
  lemma BaggageIff(span: Span, baggage: BusinessBaggage)
    requires SpanIsGood(span)
    ensures SpanAttributes(span).Some?
    ensures BusinessBaggageOf(SpanAttributes(span).value) == Some(baggage) <==> HasBaggage(span, baggage)
  {
    hide SpanIsGood, SaysText, IsSilent, NonBlank, BusinessBaggageOf, TextAt, IsRequired;
    var fields := FieldsOf(span);
    RequiredIff();
    forall key
      ensures SaysText(span, key, baggage) <==>
                NonBlank(TextAt(fields, key)).Some? && Lookup(baggage, key) == TextAt(fields, key)
      ensures IsSilent(span, key) <==> key !in fields
      ensures SaysText(span, key, baggage) ==> key in fields
    {
      KeyTextIff(span, fields, key, baggage);
    }
    BaggageOfFields(fields, baggage);
  }

  lemma BaggageOfFields(fields: Attributes, baggage: BusinessBaggage)
    ensures BusinessBaggageOf(fields) == Some(baggage) <==>
              && (forall key | key in REQUIRED_KEYS ::
                    NonBlank(TextAt(fields, key)).Some? && Lookup(baggage, key) == TextAt(fields, key))
              && (if SESSION_KEY in fields
                  then NonBlank(TextAt(fields, SESSION_KEY)).Some?
                       && Lookup(baggage, SESSION_KEY) == TextAt(fields, SESSION_KEY)
                  else SESSION_KEY !in baggage)
              && forall key | key in baggage :: BusinessKey(key)
  {
    hide NonBlank;
    assert forall key | NonBlank(TextAt(fields, key)).Some? :: TextAt(fields, key).Some? by { NonBlankIsThere(); }
    if HoldsBusinessBaggage(fields) {
      var own := BusinessBaggageOf(fields).value;
      if && (forall key | key in REQUIRED_KEYS :: Lookup(baggage, key) == TextAt(fields, key))
         && (if SESSION_KEY in fields then Lookup(baggage, SESSION_KEY) == TextAt(fields, SESSION_KEY)
             else SESSION_KEY !in baggage)
         && forall key | key in baggage :: BusinessKey(key) {
        forall key
          ensures Lookup(baggage, key) == Lookup(own, key)
        {
          if BusinessKey(key) {
            assert Lookup(own, key) == TextAt(fields, key);
          }
        }
        assert forall key | key in baggage :: Lookup(own, key) == Some(baggage[key]);
        assert forall key | key in own :: Lookup(baggage, key) == Some(own[key]);
        assert baggage == own;
      }
      if own == baggage {
        forall key | key in REQUIRED_KEYS
          ensures Lookup(baggage, key) == TextAt(fields, key)
        {
          assert BusinessKey(key);
        }
        assert BusinessKey(SESSION_KEY);
      }
    }
  }

  lemma NonBlankIsThere()
    ensures forall text: Option<string> | NonBlank(text).Some? :: text.Some? && NonBlank(text) == text
  {
  }

  lemma SameBusiness(one: BusinessBaggage, other: BusinessBaggage)
    requires IsBusinessBaggage(one) && (forall key | key in other :: BusinessKey(key))
    requires forall key | BusinessKey(key) :: Lookup(other, key) == Lookup(one, key)
    ensures one == other
  {
    assert forall key | key in one :: Lookup(other, key) == Some(one[key]);
    assert forall key | key in other :: Lookup(one, key) == Some(other[key]);
  }

  lemma MatchIff(span: Span, baggage: BusinessBaggage)
    requires SpanIsGood(span) && IsBusinessBaggage(baggage)
    ensures SpanMatches(span, baggage) <==> HasBaggage(span, baggage)
  {
    hide SpanIsGood, HasBaggage, Matches, BusinessKey, IsBusinessBaggage;
    BaggageIff(span, baggage);
    var own := BusinessBaggageOf(SpanAttributes(span).value);
    if own.Some? {
      MatchIsAgreement(baggage, own.value);
      if Matches(baggage, own.value) {
        SameBusiness(baggage, own.value);
      }
    }
  }

  lemma HeldIsBusiness(span: Span, baggage: BusinessBaggage)
    requires HasBaggage(span, baggage)
    ensures IsBusinessBaggage(baggage)
  {
    hide SaysText, IsSilent, IsRequired;
    RequiredIff();
    KeysAreThere(span, baggage);
  }

  lemma KeysAreThere(span: Span, baggage: BusinessBaggage)
    requires HasBaggage(span, baggage)
    ensures "tenant.id" in baggage && "user.tier" in baggage && "customer.segment" in baggage && "region" in baggage
    ensures "request.priority" in baggage
  {
    hide Says, HasText, IsSilent;
    assert IsRequired("tenant.id") && IsRequired("user.tier") && IsRequired("customer.segment");
    assert IsRequired("region") && IsRequired("request.priority");
  }

  // ----- the carriers -----

  /** The carrier is the nested object of that name, or the attributes of the link themselves. */
  function CarrierFields(attributes: Attributes): Attributes {
    match (if "carrier" in attributes then attributes["carrier"] else OtherJson)
    case Object(fields) => fields
    case _ => attributes
  }

  ghost predicate Carries(attributes: Attributes, key: string, value: string) {
    var fields := CarrierFields(attributes);
    key in fields && fields[key] == Text(value) && HasText(Some(value))
  }

  /** Version, trace in any case of letters, the span itself, and two digits of flags. */
  ghost predicate NamesSpan(traceparent: string, target: SpanNode) {
    exists trace, flags ::
      && traceparent == "00-" + trace + "-" + target.spanId + "-" + flags
      && HexId(trace, 32) && SameLetters(trace, target.traceId)
      && |flags| == 2 && forall i | 0 <= i < 2 :: HexDigit(flags[i])
  }

  /** The values of the six keys, an absent session included. */
  ghost predicate SaysTheSame(items: map<string, string>, baggage: map<string, string>) {
    forall key | key in {"tenant.id", "user.tier", "customer.segment", "region", "request.priority", "session.id"} ::
      (key in items <==> key in baggage) && (key in items ==> items[key] == baggage[key])
  }

  ghost predicate CarrierIs(attributes: Attributes, target: SpanNode, baggage: map<string, string>,
                            tracestate: Entries)
  {
    exists traceparent, state, header ::
      CarrierHas(attributes, target, baggage, tracestate, traceparent, state, header)
  }

  ghost predicate CarrierHas(attributes: Attributes, target: SpanNode, baggage: map<string, string>,
                             tracestate: Entries, traceparent: string, state: string, header: string)
  {
    && Carries(attributes, "traceparent", traceparent) && NamesSpan(traceparent, target)
    && Carries(attributes, "tracestate", state) && Tracestate.Parse(state) == Some(tracestate)
    && Carries(attributes, "baggage", header)
    && Baggage.Parse(header).Some? && SaysTheSame(Baggage.Parse(header).value, baggage)
  }

  lemma CarriesIff(attributes: Attributes, key: string, value: string)
    ensures NonBlank(TextAt(CarrierObject(attributes), key)) == Some(value) <==> Carries(attributes, key, value)
  {
    hide Blank, HasText;
    BlankIff(value);
    assert CarrierObject(attributes) == CarrierFields(attributes);
  }

  lemma HexIff(s: string, length: nat)
    ensures IsHex(s, length) <==> |s| == length && forall i | 0 <= i < |s| :: HexDigit(s[i])
  {
    assert forall i | 0 <= i < |s| :: s[i] in s;
  }

  lemma NoHyphen(s: string, length: nat)
    requires IsHex(s, length)
    ensures '-' !in s
  {
  }

  lemma FourParts(a: string, b: string, c: string, d: string)
    ensures Strings.Join([a, b, c, d], '-') == a + "-" + b + "-" + c + "-" + d
  {
    assert [a, b, c, d][1..] == [b, c, d] && [b, c, d][1..] == [c, d] && [c, d][1..] == [d];
    assert Strings.Join([c, d], '-') == c + "-" + d;
    assert Strings.Join([b, c, d], '-') == b + "-" + (c + "-" + d);
  }

  lemma TraceparentIff(traceparent: string, target: SpanNode)
    requires IsSpanId(target.spanId)
    ensures TraceparentNames(traceparent, target.traceId, target.spanId) <==> NamesSpan(traceparent, target)
  {
    hide HexId, SameLetters, HexDigit, AllZero;
    var parts := Strings.Split(traceparent, '-');
    Strings.JoinOfSplit(traceparent, '-');
    if TraceparentNames(traceparent, target.traceId, target.spanId) {
      FourParts(parts[0], parts[1], parts[2], parts[3]);
      assert parts == [parts[0], parts[1], parts[2], parts[3]];
      IdIff(parts[1]);
      LettersIff(parts[1], target.traceId);
      HexIff(parts[3], 2);
      assert traceparent == "00" + "-" + parts[1] + "-" + target.spanId + "-" + parts[3];
      assert "00" + "-" == "00-";
    }
    if trace, flags :| && traceparent == "00-" + trace + "-" + target.spanId + "-" + flags
                       && HexId(trace, 32) && SameLetters(trace, target.traceId)
                       && |flags| == 2 && forall i | 0 <= i < 2 :: HexDigit(flags[i]) {
      IdIff(trace);
      LettersIff(trace, target.traceId);
      HexIff(flags, 2);
      FourParts("00", trace, target.spanId, flags);
      assert "00" + "-" == "00-";
      NoHyphen(trace, 32);
      NoHyphen(target.spanId, 16);
      NoHyphen(flags, 2);
      assert '-' !in "00";
      Strings.SplitOfJoin(["00", trace, target.spanId, flags], '-');
    }
  }

  lemma AgreeIff(items: Entries, baggage: BusinessBaggage)
    requires IsBusinessBaggage(baggage)
    ensures Matches(baggage, items) <==> SaysTheSame(items, baggage)
  {
    hide Matches;
    MatchIsAgreement(baggage, items);
    forall key
      ensures BusinessKey(key) <==>
                key in {"tenant.id", "user.tier", "customer.segment", "region", "request.priority", "session.id"}
    {
      SixKeys(key);
    }
    hide BusinessKey, IsBusinessBaggage;
    forall key
      ensures Lookup(items, key) == Lookup(baggage, key) <==>
                (key in items <==> key in baggage) && (key in items ==> items[key] == baggage[key])
    {
    }
  }

  lemma CarrierIff(nodes: seq<SpanNode>, link: Links.SpanLink, baggage: BusinessBaggage, tracestate: Entries)
    requires link.target < |nodes| && IsSpanId(nodes[link.target].spanId) && IsBusinessBaggage(baggage)
    ensures EdgeTracestate(nodes, link, baggage) == Some(tracestate) <==>
              CarrierIs(link.attributes, nodes[link.target], baggage, tracestate)
  {
    hide CarrierObject, NonBlank, TextAt, Carries, NamesSpan, SaysTheSame, TraceparentNames, Matches, IsBusinessBaggage;
    hide Tracestate.Parse, Baggage.Parse, IsSpanId;
    var target := nodes[link.target];
    forall key, value
      ensures NonBlank(TextAt(CarrierObject(link.attributes), key)) == Some(value) <==>
                Carries(link.attributes, key, value)
    {
      CarriesIff(link.attributes, key, value);
    }
    forall traceparent
      ensures TraceparentNames(traceparent, target.traceId, target.spanId) <==> NamesSpan(traceparent, target)
    {
      TraceparentIff(traceparent, target);
    }
    forall items
      ensures Matches(baggage, items) <==> SaysTheSame(items, baggage)
    {
      AgreeIff(items, baggage);
    }
    var found := CarrierOf(link.attributes);
    if EdgeTracestate(nodes, link, baggage) == Some(tracestate) {
      var carrier := CarrierObject(link.attributes);
      var traceparent := NonBlank(TextAt(carrier, "traceparent")).value;
      var state := NonBlank(TextAt(carrier, "tracestate")).value;
      var header := NonBlank(TextAt(carrier, "baggage")).value;
      assert CarrierHas(link.attributes, target, baggage, tracestate, traceparent, state, header);
    }
    if traceparent, state, header :|
        CarrierHas(link.attributes, target, baggage, tracestate, traceparent, state, header) {
      assert found == Some(Carrier(traceparent, tracestate, Baggage.Parse(header).value));
    }
  }
}
