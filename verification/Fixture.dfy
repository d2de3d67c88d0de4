/** The checkout of the verifier's own tests, as one journey. */
module Fixture {
  import opened Outcomes
  import opened RustText
  import Strings
  import opened TraceModel
  import Counting
  import opened Headers
  import Evidence
  import Acceptance
  import Journeys
  import CompleteTraces

  // ----- identifiers -----

  const TRACE_IDS: seq<string> :=
    ["4bf92f3577b34da6a3ce929d0e0e4736", "aaaaaaaaaaaaaaaaaaaaaaaaaaaaaaaa", "bbbbbbbbbbbbbbbbbbbbbbbbbbbbbbbb"]

  const SPAN_IDS: seq<string> :=
    ["0000000000000001", "0000000000000002", "0000000000000003", "0000000000000004", "0000000000000005",
     "0000000000000006", "0000000000000010", "0000000000000011", "0000000000000012", "0000000000000020"]

  lemma TraceIdIsGood(id: string)
    requires |id| == 32 && id[0] != '0' && forall i | 0 <= i < 32 :: '0' <= id[i] <= '9' || 'a' <= id[i] <= 'f'
    ensures IsTraceId(id)
  {
    assert id[0] in id;
  }

  lemma TraceIdsAreGood()
    ensures forall id | id in TRACE_IDS :: IsTraceId(id)
    ensures Counting.Distinct(TRACE_IDS)
  {
    hide IsTraceId;
    TraceIdIsGood(TRACE_IDS[0]);
    TraceIdIsGood(TRACE_IDS[1]);
    TraceIdIsGood(TRACE_IDS[2]);
    assert TRACE_IDS[0][0] == '4' && TRACE_IDS[1][0] == 'a' && TRACE_IDS[2][0] == 'b';
  }

  lemma SpanIdsAreGood()
    ensures forall id | id in SPAN_IDS :: IsSpanId(id)
    ensures Counting.Distinct(SPAN_IDS)
  {
    forall id | id in SPAN_IDS
      ensures IsSpanId(id)
    {
      assert id[14] in id && id[15] in id;
    }
    forall i, j | 0 <= i < j < 10
      ensures SPAN_IDS[i] != SPAN_IDS[j]
    {
      assert SPAN_IDS[i][14] != SPAN_IDS[j][14] || SPAN_IDS[i][15] != SPAN_IDS[j][15];
    }
  }

  // ----- the context -----

  function Context(): Attributes {
    map["tenant.id" := Text("tenant-acme"), "user.tier" := Text("standard"), "customer.segment" := Text("standard"),
        "region" := Text("us-east-1"), "request.priority" := Text("normal"), "session.id" := Text("session-1")]
  }

  lemma ContextSays()
    ensures TextAt(Context(), "tenant.id") == Some("tenant-acme") && TextAt(Context(), "user.tier") == Some("standard")
    ensures TextAt(Context(), "customer.segment") == Some("standard")
    ensures TextAt(Context(), "region") == Some("us-east-1")
    ensures TextAt(Context(), "request.priority") == Some("normal")
    ensures TextAt(Context(), "session.id") == Some("session-1")
    ensures forall key | key in Journeys.MESSAGING_KEYS :: key !in Context()
  {
  }

  lemma NoSpace()
    ensures !WhiteSpace('t') && !WhiteSpace('s') && !WhiteSpace('u') && !WhiteSpace('n') && !WhiteSpace('e')
    ensures !WhiteSpace('o')
  {
  }

  lemma ContextHolds()
    ensures Evidence.HoldsBusinessBaggage(Context())
  {
    hide Context, WhiteSpace;
    ContextSays();
    NoSpace();
    Journeys.TextIsNotBlank("tenant-acme");
    Journeys.TextIsNotBlank("standard");
    Journeys.TextIsNotBlank("us-east-1");
    Journeys.TextIsNotBlank("normal");
    Journeys.TextIsNotBlank("session-1");
  }

  // ----- the headers of the carriers -----

  const STATE_LISTING: seq<Headers.Entry> := [("playground", "commerce")]

  const BAGGAGE_LISTING: seq<Headers.Entry> :=
    [("tenant.id", "tenant-acme"), ("user.tier", "standard"), ("customer.segment", "standard"),
     ("region", "us-east-1"), ("request.priority", "normal"), ("session.id", "session-1")]

  /** The entries a listing gives. */
  function EntriesOf(listing: seq<Headers.Entry>): Entries {
    if listing == [] then map[]
    else EntriesOf(listing[..|listing| - 1])[listing[|listing| - 1].0 := listing[|listing| - 1].1]
  }

  lemma {:induction false} EntriesAreListed(listing: seq<Headers.Entry>)
    requires forall i, j | 0 <= i < j < |listing| :: listing[i].0 != listing[j].0
    ensures Listing(listing, EntriesOf(listing))
  {
    if listing != [] {
      var n := |listing| - 1;
      EntriesAreListed(listing[..n]);
      assert forall i | 0 <= i < n :: listing[..n][i] == listing[i];
      ListedKeys(listing[..n], EntriesOf(listing[..n]));
      assert listing[n].0 !in EntriesOf(listing[..n]);
    }
  }

  /** A listing whose members are short renders to a short header. */
  lemma {:induction false} ShortRendering(listing: seq<Headers.Entry>)
    requires listing != [] && forall i | 0 <= i < |listing| :: ByteLength(RenderMember(listing[i])) <= 60
    ensures ByteLength(Render(listing)) <= 61 * |listing|
  {
    var parts := RenderAll(listing);
    if |listing| > 1 {
      ShortRendering(listing[1..]);
      assert parts[1..] == RenderAll(listing[1..]);
      ByteLengthConcat(parts[0] + [','], Strings.Join(parts[1..], ','));
      ByteLengthConcat(parts[0], [',']);
    }
  }

  lemma KeysDiffer()
    ensures forall i, j | 0 <= i < j < |BAGGAGE_LISTING| :: BAGGAGE_LISTING[i].0 != BAGGAGE_LISTING[j].0
  {
    assert "tenant.id"[0] == 't' && "user.tier"[0] == 'u' && "customer.segment"[0] == 'c';
    assert "region"[2] == 'g' && "request.priority"[2] == 'q' && "session.id"[0] == 's';
  }

  /** Small letters, digits, dots and hyphens, twenty at most. */
  predicate Plain(s: string) {
    s != "" && |s| <= 20 && 'a' <= s[0] <= 'z'
    && forall i | 0 <= i < |s| :: 'a' <= s[i] <= 'z' || '0' <= s[i] <= '9' || s[i] == '.' || s[i] == '-'
  }

  lemma PlainMember(key: string, value: string)
    requires Plain(key) && Plain(value)
    ensures ByteLength(key) <= 20 && ByteLength(value) <= 20 && ByteLength(key + "=" + value) <= 60
    ensures RenderMember((key, value)) == key + "=" + value
  {
    AsciiLength(key);
    AsciiLength(value);
    AsciiLength(key + "=" + value);
  }

  lemma PlainState(key: string, value: string)
    requires Plain(key) && Plain(value) && '.' !in key
    ensures Tracestate.ValidEntry(key, value)
  {
    hide ByteLength;
    PlainMember(key, value);
    assert forall i | 0 <= i < |key| :: key[i] in key;
    Strings.SplitOfPrefix(key, '@', "");
  }

  lemma PlainItem(key: string, value: string)
    requires Plain(key) && Plain(value)
    ensures Baggage.ValidEntry(key, value)
  {
    assert value[|value| - 1] in value && value[0] in value;
  }

  lemma StateIsPlain()
    ensures Plain("playground") && Plain("commerce") && '.' !in "playground"
  {
  }

  lemma KeysArePlain()
    ensures Plain("tenant.id") && Plain("user.tier") && Plain("customer.segment")
    ensures Plain("region") && Plain("request.priority") && Plain("session.id")
  {
  }

  lemma ValuesArePlain()
    ensures Plain("tenant-acme") && Plain("standard") && Plain("us-east-1") && Plain("normal") && Plain("session-1")
  {
  }

  /** A header whose entries are plain and few is read as them. */
  lemma PlainHeader(h: Header, listing: seq<Headers.Entry>, entries: Entries)
    requires Listing(listing, entries) && 0 < |listing| <= 8
    requires forall i | 0 <= i < |listing| :: Plain(listing[i].0) && Plain(listing[i].1)
    requires h.Tracestate? ==> forall i | 0 <= i < |listing| :: '.' !in listing[i].0
    ensures h.Parse(Render(listing)) == Some(entries)
    ensures !Blank(Render(listing))
  {
    hide Plain, ByteLength, Blank, Strings.Split, Members;
    forall i | 0 <= i < |listing|
      ensures ByteLength(RenderMember(listing[i])) <= 60 && h.ValidEntry(listing[i].0, listing[i].1)
    {
      var (key, value) := listing[i];
      PlainMember(key, value);
      if h.Tracestate? {
        PlainState(key, value);
      } else {
        PlainItem(key, value);
      }
    }
    forall key | key in entries
      ensures h.ValidEntry(key, entries[key])
    {
      var k := PositionOf(listing, entries, key);
    }
    ShortRendering(listing);
    CanonicalMembers(h, listing, entries);
    EveryValidMapIsRead(h, listing, entries);
    RenderedIsNotBlank(listing);
  }

  lemma RenderedIsNotBlank(listing: seq<Headers.Entry>)
    requires listing != [] && Plain(listing[0].0)
    ensures !Blank(Render(listing))
  {
    var parts := RenderAll(listing);
    var text := Render(listing);
    assert parts[0] <= text;
    assert text[0] == listing[0].0[0];
    Journeys.TextIsNotBlank(text);
  }

  lemma StateIsRead()
    ensures Tracestate.Parse(Render(STATE_LISTING)) == Some(EntriesOf(STATE_LISTING)) && !Blank(Render(STATE_LISTING))
  {
    hide Plain, Listing;
    EntriesAreListed(STATE_LISTING);
    StateIsPlain();
    PlainHeader(Tracestate, STATE_LISTING, EntriesOf(STATE_LISTING));
  }

  lemma ItemsAreRead()
    ensures Baggage.Parse(Render(BAGGAGE_LISTING)) == Some(EntriesOf(BAGGAGE_LISTING))
              && !Blank(Render(BAGGAGE_LISTING))
  {
    hide Plain, Listing;
    KeysDiffer();
    EntriesAreListed(BAGGAGE_LISTING);
    KeysArePlain();
    ValuesArePlain();
    PlainHeader(Baggage, BAGGAGE_LISTING, EntriesOf(BAGGAGE_LISTING));
  }

  /** Where the listing has a business key. */
  lemma ListedAt(key: string) returns (i: nat)
    requires Evidence.BusinessKey(key)
    ensures i < 6 && BAGGAGE_LISTING[i].0 == key
    ensures TextAt(Context(), key) == Some(BAGGAGE_LISTING[i].1)
  {
    hide Context;
    ContextSays();
    i := if key == "tenant.id" then 0 else if key == "user.tier" then 1 else if key == "customer.segment" then 2
         else if key == "region" then 3 else if key == "request.priority" then 4 else 5;
  }

  lemma ItemsAreContext()
    ensures forall key | Evidence.BusinessKey(key) ::
              Evidence.Lookup(EntriesOf(BAGGAGE_LISTING), key) == TextAt(Context(), key)
  {
    hide Context, EntriesOf, Evidence.BusinessKey;
    KeysDiffer();
    EntriesAreListed(BAGGAGE_LISTING);
    forall key | Evidence.BusinessKey(key)
      ensures Evidence.Lookup(EntriesOf(BAGGAGE_LISTING), key) == TextAt(Context(), key)
    {
      var i := ListedAt(key);
    }
  }

  // ----- the journey -----

  function Fixed(raw: string): Journeys.Journey {
    Journeys.Journey(TRACE_IDS, SPAN_IDS, Context(), "event-1", "order-1", "01",
                     Render(STATE_LISTING), Render(BAGGAGE_LISTING), raw)
  }

  lemma FixedIsProper(raw: string)
    requires ByteLength(raw) <= MAX_LINK_ATTRIBUTES_BYTES
    ensures Journeys.Proper(Fixed(raw))
  {
    hide Context, Blank, IsTraceId, IsSpanId, Evidence.HoldsBusinessBaggage, Evidence.BusinessKey, Counting.Distinct;
    hide WhiteSpace;
    hide Tracestate.Parse, Baggage.Parse, Render;
    TraceIdsAreGood();
    SpanIdsAreGood();
    ContextSays();
    ContextHolds();
    StateIsRead();
    ItemsAreRead();
    ItemsAreContext();
    NoSpace();
    Journeys.TextIsNotBlank("event-1");
    Journeys.TextIsNotBlank("order-1");
  }

  /** So there are journeys, and this one is accepted as the test expects. */
  lemma FixtureIsAccepted(raw: string) returns (result: Acceptance.AnalysisResult)
    requires ByteLength(raw) <= MAX_LINK_ATTRIBUTES_BYTES
    ensures Acceptance.Accepts(CompleteTraces.Served(Fixed(raw)), TRACE_IDS[0], result)
    ensures result.summary == Acceptance.Summary(3, 10, CompleteTraces.TheServices())
    ensures CompleteTraces.TheServices()
         == {"catalog", "checkout", "fulfillment", "inventory", "notifications", "payment", "pricing"}
    ensures result.identity == Evidence.Identity("tenant-acme", "event-1", "order.paid", "order-1:paid", "order-1")
  {
    hide Journeys.Proper, Context, Acceptance.Accepts, CompleteTraces.Served;
    FixedIsProper(raw);
    ContextSays();
    result := CompleteTraces.ServedIsAccepted(Fixed(raw));
    assert "order-1" + ":paid" == "order-1:paid";
  }
}
