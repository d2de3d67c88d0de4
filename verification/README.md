# Verification of the telemetry playground's decision logic

This Dafny project models the parts of the playground that decide something, and proves properties of
them that no single function body shows. To check all of it: `dafny verify dfyconfig.toml`.

**The commerce trace verifier** (`cli/src/commerce_verify.rs`) is the core. It crawls the traces of one
checkout through a GraphQL backend, flattens them into spans, and accepts only if they form one causal
graph with complete messaging evidence. JSON is replaced by typed records in which a field that may be
missing or of another type is optional; the backend is a fixed partial map from trace ids to answers;
Rust strings are sequences of Unicode scalar values with their UTF-8 lengths. Every stage is a method with the
loops of the code, proved to accept exactly the inputs its specification describes:

- `Crawl` – the bounded crawl: it succeeds exactly when the least closed set of ids around the start is
  readable and within all limits, and then returns that set.
- `Spans`, `Topology`, `Links`, `Connectivity` – flattening, the span index, the parent forest, typed
  links and the search over both kinds of edges. `Graphs` and `Counting` hold the generic facts on
  paths, distinct sequences and the pigeonhole principle.
- `Headers` – the `tracestate` and `baggage` parsers with their canonical round trip.
- `Evidence`, `Analysis`, `Acceptance` – baggage, RabbitMQ edges, identity, notification, the whole
  analysis, and the facts that hold only because all stages passed. The confirmation by the event store is
  a parameter of one attempt.
- `Requirements`, `EvidenceRequirements`, `AcceptanceRequirements`, `HeaderGrammar`, `CrawlRequirements` – the same
  stages described a second time over the fields of traces, spans, headers and answers alone, with literal names,
  numbers and limits and none of the specification functions above, and the proof that the stages accept exactly what
  is described: `AcceptanceRequirements.AcceptedIff` for the analysis, `CrawlRequirements.CrawlIff` for the crawl.
- `Journeys`, `CompleteTraces`, `Fixture` – the shape of the complete traces that the repository's own tests
  build (ten spans in three traces) with all ids, business values, message and order ids and carried headers
  as parameters; the proof that a backend serving any such journey is accepted; and the tests' own journey
  as one instance.

**The other modules** each model one small mechanism:

- `Calendar`, `Stamp` – the Gregorian conversion and the UTC stamp of `cli/src/selene.rs`.
- `Migrations`, `Migrator` – the lock-guarded migrations of `cli/src/task_commands.rs`: interleaved
  transactions of any number of runs, and the command itself, which is shown to be one such history.
  The database is assumed to provide the advisory transaction lock and atomic commits. The command asks
  psql to leave with `\quit 1` when the lock is busy; what exit status that produces is decided by psql, so
  it is a parameter. That a finished run has recorded the list, and that nothing changes after it, is shown to
  hold exactly if it is a failure (but for the empty list), and in any case for what a run recorded without
  meeting the held lock itself. The answer of the closing schema verification is a parameter too.
- `Xorshift`, `WeightedChoice` – the generator and the weighted choices of `loadgen/checkout.ts`, with draws
  scaled by 2^32 so that all arithmetic is exact.
- `ProtobufWalker` – the message walker of `macos/tools/verify.py`, against the Protocol Buffers wire
  encoding (base-128 varints, fixed-width and length-delimited values).
- `ErrorFilter` – the bounded duplicate filter of `web/src/telemetry.ts`.
- `Cart` – the persisted cart of `web/src/cart.tsx`.
- `Subscription` – the script `scenarios/a7-subscription.ts` together with the server it talks to.
- `GraphqlErrors` – the length-budgeted formatters of `web/src/graphql-errors.ts`.

`Outcomes`, `Strings`, `RustText` and `JsText` hold result types and library operations on text.

## Model

| member | source | states |
|---|---|---|
| Crawl.CountLinks | cli/src/commerce_verify.rs:320-336 | counting succeeds exactly when no span and not the running total exceeds its link limit, and then gives the total |
| Crawl.LinkedIds | cli/src/commerce_verify.rs:1723-1746 | the ids of a span's typed links, exactly when all are trace ids and the list is within its limit |
| Crawl.NamedIds | cli/src/commerce_verify.rs:345-359 | all ids an answer names by typed links or linked traces and no others, exactly when each is a trace id |
| Crawl.Schedule | cli/src/commerce_verify.rs:360-372 | each id is queued once, within 32; failure means the limit or a malformed id |
| Crawl.ReadResponse | cli/src/commerce_verify.rs:285-359 | an answer is used exactly when it is well formed and keeps the span and link totals within their limits |
| Crawl.ForcedInside | cli/src/commerce_verify.rs:267-372 | whatever the crawl has scheduled lies in every crawlable set, so it is never larger |
| Crawl.Refuted | cli/src/commerce_verify.rs:277-372 | each reason to stop shows that no set of traces could complete the crawl |
| Crawl.VisitTrace | cli/src/commerce_verify.rs:274-373 | one request either extends a least closed set or proves the crawl impossible, before 32 requests are used up |
| Crawl.FetchTraceGraph | cli/src/commerce_verify.rs:260-377 | succeeds iff the closure of the start can be crawled; returns the traces of exactly the least closed set of ids, each once, in breadth-first order, within 32 traces, 8192 spans and 8192 links; at most 32 requests; terminates |
| Crawl.CrawlUnique | cli/src/commerce_verify.rs:260-377 | these conditions determine the crawled traces and their order |
| CrawlRequirements.ReadableIff | cli/src/commerce_verify.rs:285-359 | an answer is readable iff it has the trace asked for, at most 4096 spans of at most 128 typed links each and at most 32 linked traces, all named by ids of 32 hexadecimal digits that are not all zero |
| CrawlRequirements.CrawlIff | cli/src/commerce_verify.rs:260-377 | what the crawl returns, over the answers alone: a list of traces is the result iff there are at most 32, each is the readable answer to its id, the ids differ, start at the anchor, stand where they are first named (breadth first, the typed links of an answer before its linked traces), are closed under naming, and the totals are at most 8192 spans and 8192 typed links |
| Spans.CollectTrace | cli/src/commerce_verify.rs:1336-1390 | one trace is flattened exactly when all its spans are well formed and it fits the remaining total |
| Spans.CollectSpanNodes | cli/src/commerce_verify.rs:1323-1397 | succeeds iff the traces are collectable, returns the spans in order, and the fault it reports is a true one |
| Spans.FaultRefuses | cli/src/commerce_verify.rs:1323-1397 | each reported fault is incompatible with acceptance |
| Spans.CrawledTracesAreSound | cli/src/commerce_verify.rs:1323-1397 | on the output of a crawl only an empty trace or a malformed span can be refused: the duplicate, identity, anchor and size checks never fire |
| Spans.CrawledLinksStayInside | cli/src/commerce_verify.rs:1547-1549 | on the output of a crawl a typed link never names a trace that was not fetched |
| Spans.IndexSpans | cli/src/commerce_verify.rs:1434-1445 | succeeds iff all span identities differ, and the index then finds every node and nothing else |
| Topology.ChainsReachTheRoot | cli/src/commerce_verify.rs:1447-1500 | in an accepted forest of n spans every chain of parents ends at the one root of its trace in fewer than n steps |
| Topology.WalkToRoot | cli/src/commerce_verify.rs:1483-1496 | the walk stops because the chain ends, or because it met a cycle |
| Topology.CheckAcyclic | cli/src/commerce_verify.rs:1482-1497 | true iff no chain of parents comes back to its start |
| Topology.CollectRoots | cli/src/commerce_verify.rs:1451-1464 | every root grouped by its trace, exactly when every parent resolves inside its own trace |
| Topology.ValidateParentTopology | cli/src/commerce_verify.rs:1447-1500 | accepts iff parents resolve in their trace, each trace has exactly one root and there is no cycle; returns the roots |
| Topology.TopologyFaultRefuses | cli/src/commerce_verify.rs:1447-1500 | each reported topology fault is incompatible with a parent forest |
| Topology.HasParentAncestor | cli/src/commerce_verify.rs:1298-1321 | terminates on every input; answers true iff some proper ancestor is in the set; never errs on a parent forest |
| Links.Resolve | cli/src/commerce_verify.rs:1527-1554 | a resolved link joins two different spans, the named one as target, from consumer to producer of one message |
| Links.ValidateSpanLinks | cli/src/commerce_verify.rs:1526-1564 | the links of one span are added in order, or the links of the whole graph are invalid |
| Links.ValidateTypedLinks | cli/src/commerce_verify.rs:1502-1567 | accepts iff every link resolves, no pair is linked twice and the counts keep their limits; returns the links in order |
| Links.ResolvedAreSound | cli/src/commerce_verify.rs:1614-1635 | every accepted link goes from a RabbitMQ consumer to the producer with the same message id |
| Connectivity.BuildAdjacency | cli/src/commerce_verify.rs:1654-1667 | the lists hold exactly the parent and link edges, both ways, whenever the parents resolve |
| Connectivity.Search | cli/src/commerce_verify.rs:1669-1676 | terminates though nodes are queued repeatedly; the visited set is exactly what the edges connect to the root |
| Connectivity.ValidateCausalConnectivity | cli/src/commerce_verify.rs:1637-1684 | accepts iff the anchor has one root and every span is connected to it |
| Connectivity.SpansConnectedIffTracesAre | cli/src/commerce_verify.rs:1637-1684 | once traces are trees, all spans are connected iff the traces are connected by typed links |
| Connectivity.JoiningLinksCount | cli/src/commerce_verify.rs:1637-1684 | connecting k traces takes at least k - 1 links between different traces |
| Requirements.CollectableIff | cli/src/commerce_verify.rs:1323-1432 | the flattening accepts iff there are 1 to 32 traces of different ids with the anchor among them, each of 1 to 4096 spans and 8192 in all, and every span has an id of 16 hexadecimal digits, name, service, an attribute object within 64 KiB, no parent or the id of one, and at most 128 typed links |
| Requirements.ListIff | cli/src/commerce_verify.rs:1336-1397 | the flattened list has the spans trace by trace in their order, each with its trace, its own id and its parent |
| Requirements.IndexIff | cli/src/commerce_verify.rs:1434-1445 | the index finds each span by its trace and its own id and nothing else |
| Requirements.ForestIff | cli/src/commerce_verify.rs:1447-1500 | the forest condition over parent ids alone: every parent is in the trace, each trace has one span without a parent, and no chain of parents returns |
| Requirements.LinksIff | cli/src/commerce_verify.rs:1502-1635 | the typed links are accepted, and listed in order, iff each names another span by ids, carries an object within 16 KiB, goes from a `process` span of kind SPAN_KIND_CONSUMER to a `send` span of kind SPAN_KIND_PRODUCER, both of `rabbitmq` and of one message id, no pair is linked twice, and there are at most 8192 |
| Requirements.ReachIff | cli/src/commerce_verify.rs:1654-1676 | the search reaches a span iff one can walk to it from the root along parents, children and both ends of links |
| Headers.ValidateTracestate | cli/src/commerce_verify.rs:726-758 | the loop computes the specified parse of a tracestate header |
| Headers.ValidateBaggage | cli/src/commerce_verify.rs:760-789 | the loop computes the specified parse of a baggage header |
| Headers.CanonicalRoundTrip | cli/src/commerce_verify.rs:726-835 | rendering an accepted header's entries in any order gives a header that is no longer and parses to the same entries |
| Headers.EveryValidMapIsRead | cli/src/commerce_verify.rs:726-835 | every map of valid entries that keeps the limits is what its rendering parses to |
| Headers.AcceptedHeader | cli/src/commerce_verify.rs:726-789 | an accepted header has one entry per member, distinct keys, all limits kept and every entry valid |
| Headers.MemberOfRendered | cli/src/commerce_verify.rs:737-831 | one rendered entry is read back as itself |
| Headers.ListingExists | cli/src/commerce_verify.rs:726-789 | every parsed map can be rendered, so the round trip applies to all of them |
| HeaderGrammar.TracestateMemberIff | cli/src/commerce_verify.rs:737-755 | a tracestate member is read iff between spaces and tabs it is key, `=` and value within 256 bytes, with the characters and lengths of both spelled out |
| HeaderGrammar.BaggageMemberIff | cli/src/commerce_verify.rs:766-785 | a baggage member is read iff between white space it is a key, `=` and a text, and its value is what that text has before its first `;`, between white space |
| HeaderGrammar.ParseIff | cli/src/commerce_verify.rs:726-789 | a header is accepted with these entries iff it is within 512 bytes and 32 members, or 8192 bytes for a baggage, every member is read so, and the entries of different keys are just those of the members |
| HeaderGrammar.PropertiesAreDropped | cli/src/commerce_verify.rs:771 | a member with properties behind a `;` reads as its key and value |
| HeaderGrammar.HeaderWithProperties | cli/src/commerce_verify.rs:760-789 | so a header of one such member gives just that entry |
| Evidence.FromAttributeObject | cli/src/commerce_verify.rs:117-142 | gives the business baggage exactly when the five required keys hold text and the session is absent or holds text |
| Evidence.MatchIsAgreement | cli/src/commerce_verify.rs:144-158 | the one-sided comparison is agreement on all six keys, an absent session included |
| Evidence.RequireSpanBusinessBaggage | cli/src/commerce_verify.rs:1058-1068 | true iff the span carries baggage that matches |
| Evidence.SpanCarries | cli/src/commerce_verify.rs:1058-1068 | a span that matches carries the expected value of each of the six keys |
| Evidence.MatchingSpans | cli/src/commerce_verify.rs:1686-1702 | exactly the positions of the spans with the service and attributes, each once |
| Evidence.ScanEdges | cli/src/commerce_verify.rs:1164-1171 | counts the edges and finds their shared tracestate, or shows that they have none |
| Evidence.ValidateCheckoutRabbitEdges | cli/src/commerce_verify.rs:1157-1202 | accepts iff there are as many edges as consumers, at least one, all with sound carriers of one tracestate |
| Evidence.ExactlyOneEdgeEach | cli/src/commerce_verify.rs:1157-1177 | at least one edge each and a total equal to the consumer count force exactly one each |
| Evidence.SharedMessage | cli/src/commerce_verify.rs:1077-1091 | the message id shared by all producers; otherwise some producer has no message id, or some producer has another than the first |
| Evidence.CheckConsumers | cli/src/commerce_verify.rs:1113-1155 | passes iff every consumer has the identity; a fault names a consumer for which it is true |
| Evidence.VerifiedCommerceIdentity | cli/src/commerce_verify.rs:1070-1127 | returns the one identity of producers and consumers, or a reason why there is none that is true of some span |
| Evidence.RejectedHasNoIdentity | cli/src/commerce_verify.rs:1070-1127 | a rejection means no identity fits all spans |
| EvidenceRequirements.JourneyIff | cli/src/commerce_verify.rs:880-921 | the journey stage accepts iff each of the five services has a span, `web` has one iff `storefront` has one, each of the three names is some span's up to letter case, and the name, kind, service and attributes of some payment span mention `authorize` |
| EvidenceRequirements.RolesIff | cli/src/commerce_verify.rs:922-963 | producers and consumers are exactly the spans of their service that say `rabbitmq`, the destination, the operation and `order.paid` |
| EvidenceRequirements.BaggageIff | cli/src/commerce_verify.rs:117-142 | the baggage of a span is this map iff the span says the five required keys with these values, none blank, and the session likewise or not at all, and the map has no other key |
| EvidenceRequirements.MatchIff | cli/src/commerce_verify.rs:1058-1068 | a span matches the expected baggage iff that is its baggage |
| EvidenceRequirements.CarriesIff | cli/src/commerce_verify.rs:1204-1232 | a carrier value is text that is not blank in the nested `carrier` object if the link has one, else in the attributes of the link |
| EvidenceRequirements.TraceparentIff | cli/src/commerce_verify.rs:1234-1245 | a traceparent is accepted iff it is `00`, the trace in any letter case, the span and two hexadecimal digits, joined by hyphens |
| EvidenceRequirements.CarrierIff | cli/src/commerce_verify.rs:1179-1202 | an edge is sound with this tracestate iff its carrier has an accepted traceparent of the target, a header that reads as that tracestate and a baggage header with the six expected values |
| Analysis.CheckGraph | cli/src/commerce_verify.rs:871-877 | the graph stages accept iff the traces form one causal forest joined by valid links |
| Analysis.IndexUnique | cli/src/commerce_verify.rs:1434-1445 | the index is determined by the spans |
| Analysis.FlattenedTraceIds | cli/src/commerce_verify.rs:1323-1397 | the spans belong to exactly the given traces |
| Analysis.AcceptedTracesAreLinked | cli/src/commerce_verify.rs:871-877 | an accepted graph of k traces has at least k - 1 links joining different traces, and they connect all of them |
| Acceptance.CheckBaggage | cli/src/commerce_verify.rs:977-992 | accepts iff there is one checkout span whose baggage every producer and consumer carries |
| Acceptance.CheckMessaging | cli/src/commerce_verify.rs:964-1010 | accepts iff both kinds of consumers are linked, all spans carry the baggage and all carriers share one tracestate |
| Acceptance.ConsumerIsSettled | cli/src/commerce_verify.rs:922-992 | after the link, matching and baggage stages a consumer has the tenant, the paid event type and a producer's message id |
| Acceptance.IdentityRejectsOnlyProducersAndOrders | cli/src/commerce_verify.rs:1070-1155 | the identity stage can then reject only over a producer's message id or an order id |
| Acceptance.IdentityExistsIff | cli/src/commerce_verify.rs:1070-1155 | there is then an identity iff the producers share a message id and the consumers an order |
| Acceptance.RequireNotificationEvidence | cli/src/commerce_verify.rs:1247-1296 | on a parent forest true iff a matching notification descends from an order consumer |
| Acceptance.CheckIdentity | cli/src/commerce_verify.rs:1012-1025 | the last stages accept iff all evidence holds; identity faults are limited as above |
| Acceptance.AnalyzeDetails | cli/src/commerce_verify.rs:871-1038 | accepts iff every stage's condition holds; the summary counts the traces and spans |
| Acceptance.VerifyAttempt | cli/src/commerce_verify.rs:236-258 | crawl, analysis and confirmation: succeeds iff the crawl of the backend is accepted and confirmed; fails to crawl iff the closure cannot be crawled; lacks confirmation iff it is accepted and not confirmed; after a crawl only an empty trace or a malformed span is refused by the flattening |
| Acceptance.AcceptsOnce | cli/src/commerce_verify.rs:236-258 | a backend and an anchor determine the accepted result: summary, baggage and identity |
| CompleteTraces.CompleteTracesAreAccepted | cli/src/commerce_verify.rs:871-1038 | the traces of every proper journey meet the condition of every stage, with the identity of its tenant, message and order |
| CompleteTraces.ServedIsCrawled | cli/src/commerce_verify.rs:260-377 | a backend that serves them is crawled, and gives just them in order |
| CompleteTraces.ServedIsAccepted | cli/src/commerce_verify.rs:236-258 | such a backend is accepted, with a summary of three traces, ten spans and the seven services |
| Fixture.FixtureIsAccepted | cli/src/commerce_verify.rs:1794-2135 | the traces of the tests are one such journey, accepted with the summary the test expects |
| Acceptance.ConsumersHaveOneLink | cli/src/commerce_verify.rs:964-975 | every order and analytics consumer has exactly one link to a checkout producer |
| Acceptance.MessagingSpansAgree | cli/src/commerce_verify.rs:977-992 | the keys `tenant.id`, `user.tier`, `customer.segment`, `region`, `request.priority` and `session.id` have the checkout span's values on every producer and consumer |
| Acceptance.NotificationAgrees | cli/src/commerce_verify.rs:1247-1296 | some notification below an order consumer has the values of the six keys too, and names no other order, event type or message |
| Acceptance.CarriersAgree | cli/src/commerce_verify.rs:1179-1202 | every required carrier holds the values of the six keys and the one tracestate, and names its own producer span |
| Acceptance.TraceparentShape | cli/src/commerce_verify.rs:1234-1245 | an accepted traceparent is version, trace, the given span and flags, in that form |
| AcceptanceRequirements.EdgesIff | cli/src/commerce_verify.rs:1157-1177 | the counts and the scan accept iff there is a consumer and each has exactly one edge, which is sound with the one tracestate |
| AcceptanceRequirements.MessagingIff | cli/src/commerce_verify.rs:964-1010 | the messaging stages accept iff there is one span of service and name `checkout` in the anchor trace, it, the producers and both kinds of consumers have this baggage, there are consumers of both kinds, and exactly one link leads from each to a producer, with a carrier as above |
| AcceptanceRequirements.IdentityIff | cli/src/commerce_verify.rs:1070-1155 | the identity over span attributes: the message id on all producers, tenant, message id and type on all consumers, the order on order consumers, and no other order on analytics consumers |
| AcceptanceRequirements.NotificationIff | cli/src/commerce_verify.rs:1247-1296 | a notification is accepted iff it is a span of service `notifications` with a chain of parents to an order consumer, this baggage, and order, event type and message absent or those of the identity |
| AcceptanceRequirements.GraphIff | cli/src/commerce_verify.rs:871-877 | the graph stages accept exactly the traces that meet these requirements, with this list, index and links |
| AcceptanceRequirements.AcceptedIff | cli/src/commerce_verify.rs:871-1038 | the analysis accepts the traces with these findings iff all requirements above hold, which are said over trace and span fields alone |
| AcceptanceRequirements.AcceptedJourney | cli/src/commerce_verify.rs:880-921 | so on acceptance the five services, both browser services or neither, the three names and the mention of the authorization are there |
| AcceptanceRequirements.AcceptedLinks | cli/src/commerce_verify.rs:1595-1635 | and every link joins two different spans, the consuming and the producing one of one RabbitMQ message |
| AcceptanceRequirements.ResultIs | cli/src/commerce_verify.rs:1028-1038 | the summary counts the traces and all their spans and names exactly the services that some span has; the reported baggage is that of the checkout span and the identity that of the messages |
| Calendar.CivilOfNextDay | cli/src/selene.rs:521-533 | every integer day gives a valid date under the leap-year rule of Appendix C of RFC 3339, and the next day the next date |
| Calendar.CivilInvertsCounting | cli/src/selene.rs:521-533 | counting days back from the date gives the day |
| Calendar.YearOfEraIs | cli/src/selene.rs:525 | the division by averages is the year found by splitting into centuries and four-year cycles |
| Calendar.NextEraDay | cli/src/selene.rs:524-527 | one day later the day of the year is one more, or the next year begins |
| Calendar.CivilFromDaysExactIff | cli/src/selene.rs:532 | the 32-bit date of a day is the calendar date iff the day lies from -784353015833 up to, not including, 784351576777 |
| Calendar.YearWraps | cli/src/selene.rs:532 | the first day past that range, 2147483648-01-01, is dated to the year -2147483648 |
| Calendar.GregorianRule | cli/src/selene.rs:521-533 | the lengths of the months and the leap years that the dates follow, as in Appendix C of RFC 3339 |
| Calendar.KnownDates | cli/src/selene.rs:521-533 | the days 0, 11016 and -1 are 1970-01-01, 2000-02-29 and 1969-12-31 |
| Stamp.StampsIncrease | cli/src/selene.rs:507-519 | of two seconds through the year 9999 the later has the greater stamp |
| Stamp.StampsDecode | cli/src/selene.rs:507-519 | through the year 9999 the stamp has sixteen characters and reads back as its second |
| Stamp.RenderIs | cli/src/selene.rs:518 | the sixteen characters one by one: four digits of the year, two of month and day, `T`, two of hour, minute and second, `Z` |
| Stamp.PaddedIs | cli/src/selene.rs:518 | a padded field is its value in digits, at least the width long, with zeros in front only up to the width and a sign within it |
| Stamp.KnownStamps | cli/src/selene.rs:507-519 | the seconds 0 and 951868799 are 19700101T000000Z and 20000229T235959Z |
| Stamp.StampsStopIncreasing | cli/src/selene.rs:518 | the first stamp of the year 10000 sorts before the last of 9999 |
| Stamp.StampsIncreaseIff | cli/src/selene.rs:507-519 | the stamps of all seconds before a 64-bit bound are in order iff the bound is at most the end of the year 9999 |
| Migrations.StepKeepsGuard | cli/src/task_commands.rs:1473-1506 | at most one run is inside a transaction, and what it learned about its migration stays true until it ends |
| Migrations.EndsOfARun | cli/src/task_commands.rs:1473-1506 | a dead run does nothing more, its death is its own, and a rollback ends the run, frees the lock and leaves the schema |
| Migrations.HistoriesKeepPrefix | cli/src/task_commands.rs:1473-1528 | every history keeps the records a prefix of the list that covers all runs' finished migrations |
| Migrations.MigrationsAreSafe | cli/src/task_commands.rs:1473-1528 | in any interleaving of any number of runs, with failures anywhere, the records are a prefix of the list, exactly those bodies took effect, once and in order, and a finished run has recorded all |
| Migrations.BodiesOnceInAnyCase | cli/src/task_commands.rs:1490-1503 | each body takes effect at most once and with its record, however the busy lock is reported |
| Migrations.RerunsChangeNothing | cli/src/task_commands.rs:1666-1735 | once all is recorded no history changes a body or a record, its time included |
| Migrations.FinishedRunsAreFinal | cli/src/task_commands.rs:1666-1735 | if a busy lock makes the run fail: after one finished run whatever else runs changes nothing |
| Migrations.FinalIffBusyLockFails | cli/src/task_commands.rs:1476-1483 | for every list of distinct versions, no history changes the schema after a finished run iff a busy lock makes the run fail or the list is empty |
| Migrations.RecordedIffBusyLockFails | cli/src/task_commands.rs:1476-1483 | for every such list, in every history a finished run has recorded it iff the same condition holds |
| Migrations.PrefixIffBusyLockFails | cli/src/task_commands.rs:1476-1483 | for every such list, the records stay a prefix in every history iff a busy lock makes the run fail or the list has at most one migration |
| Migrations.NeverBusyExecutesTheSame | cli/src/task_commands.rs:1476-1483 | a history in which no run meets a held lock goes the same way however a busy lock is reported |
| Migrations.SafeWithoutContention | cli/src/task_commands.rs:1473-1528 | histories without contention have all the safety properties of `MigrationsAreSafe` without its assumption on busy locks |
| Migrations.SkippedMigration | cli/src/task_commands.rs:1476-1483 | for every nonempty list, the history that shows it otherwise: the first migration skipped at a busy lock, the run finished, only the others recorded |
| Migrations.RecordedLast | cli/src/task_commands.rs:1476-1503 | and the later run that then records the first one last |
| Migrations.RecordedUnlessBusy | cli/src/task_commands.rs:1473-1506 | however a busy lock is reported and whatever other runs do, each migration a run is past is recorded unless this run met the held lock at it |
| Migrations.SafeForTheUndisturbed | cli/src/task_commands.rs:1473-1528 | so a finished run that never met a held lock has its whole list recorded, and nothing changes afterwards |
| Migrator.SomeRunFinishes | cli/src/task_commands.rs:1430-1528 | one run over any list can finish from an empty database with everything recorded |
| Migrator.SqlFiles | cli/src/task_commands.rs:1449-1459 | exactly the entries with the sql extension are kept |
| Migrator.NotAfterIff | cli/src/task_commands.rs:1460 | the order of names: a prefix, or smaller at the first difference |
| Migrator.FileNames | cli/src/task_commands.rs:1449-1469 | the files are a stem and `.sql`, and valid iff readable as text, a file, and the stem has only letters, digits, hyphens, dots and underscores |
| Migrator.ListIs | cli/src/task_commands.rs:1449-1469 | the list has exactly the stems of the files, each once, in ascending byte order of the file names |
| Migrator.CollectMigrations | cli/src/task_commands.rs:1449-1469 | a list iff the directory is there, holds a migration and only valid names; the versions are distinct, complete and in file order |
| Migrator.SchemaDatabase.ApplyMigration | cli/src/task_commands.rs:1473-1506 | records and bodies are only added, at most one of each and together; a reported success means the version is recorded, but for a busy lock that is no failure; a recorded version is left alone; no version is recorded twice or without its body |
| Migrator.SchemaDatabase.Migrate | cli/src/task_commands.rs:1430-1528 | unusable directories change nothing; otherwise the run stops at the first failure; a success has found the schema complete and recorded every version except where it met a busy lock that is no failure; no version is ever recorded twice or without its body |
| Migrator.CompletedRunsRecordAll | cli/src/task_commands.rs:1507-1528 | a run whose transactions were all reported as successes recorded the rest of its list, with the same exception, and lost nothing |
| Migrator.RunIsHistory | cli/src/task_commands.rs:1507-1528 | what the command does in one run is one of the interleaved histories, finished if it succeeds |
| Xorshift.ScrambleIsBijection | loadgen/checkout.ts:517-519 | each xor with a shifted word can be undone |
| Xorshift.StepIsBijection | loadgen/checkout.ts:516-522 | a step is a bijection on words that keeps zero apart |
| Xorshift.StateAfter | loadgen/checkout.ts:514-523 | no state is ever zero |
| Xorshift.StepIs | loadgen/checkout.ts:516-522 | a step is the xor with the shifts by 13 to the left, 17 to the right and 5 to the left, one after the other |
| Xorshift.SeedStateIs | loadgen/checkout.ts:515 | the first state is the hash of the seed, or 0x9e3779b9 if that is zero |
| Xorshift.HashIs | loadgen/checkout.ts:525-531 | each further code unit is xored into the hash, which is then multiplied by 16777619 |
| Xorshift.DemoDraws | loadgen/checkout.ts:514-531 | the seed `demo` hashes to 2935829814, and its first states are 52810363 and 2486646542 |
| Xorshift.DemoNumbers | loadgen/checkout.ts:521 | which are also the numbers drawn, over 2^32 |
| Xorshift.HashSeed | loadgen/checkout.ts:525-531 | the loop computes the 32-bit hash of the code units, and no seed that differs in exactly one unit has the same |
| Xorshift.OneUnitChangesTheHash | loadgen/checkout.ts:525-531 | from any starting value, texts of one length that differ in exactly one unit have different hashes |
| Xorshift.Random.Next | loadgen/checkout.ts:516-522 | a draw is strictly between 0 and 1 and determined by seed and number of draws |
| Xorshift.RepeatsGoBack | loadgen/checkout.ts:514-523 | states repeat only by coming back to the seed's |
| WeightedChoice.ChooseWeighted | loadgen/checkout.ts:492-502 | selects an item whose cumulative interval holds the draw, never one of weight zero; throws iff the total is zero |
| WeightedChoice.IntervalIsUnique | loadgen/checkout.ts:496-500 | only one interval holds the draw |
| WeightedChoice.EveryPositiveWeightIsDrawn | loadgen/checkout.ts:492-502 | every item of positive weight is selected by some number in the range of draws |
| WeightedChoice.ChooseWorkflow | loadgen/checkout.ts:481-490 | a fixed mode is returned; mixed workflows are selected by their interval, and only with positive weight |
| WeightedChoice.WorkflowIff | loadgen/checkout.ts:597-606 | each workflow has its one name |
| WeightedChoice.DefaultDraws | loadgen/checkout.ts:55-71 | with the default weights the draws from 0, 0.30, 0.50, 0.65, 0.85 and 0.95 select browse, product, cart, checkout, order and analytics |
| WeightedChoice.Choose | loadgen/checkout.ts:504-508 | an item by equal intervals; throws iff there is none |
| WeightedChoice.RandomInt | loadgen/checkout.ts:510-512 | an integer of the range, by equal intervals; with the bounds the wrong way round, an integer above `max` and at most `min` |
| WeightedChoice.ParseWeights | loadgen/checkout.ts:564-591 | accepts iff all entries are valid and some weight is positive; the last entry for a workflow wins over the default |
| WeightedChoice.EntriesAre | loadgen/checkout.ts:566-569 | the trimmed setting is its entries joined by commas; without one there are none |
| WeightedChoice.EntryIff | loadgen/checkout.ts:570-580 | an entry gives a workflow and a text iff it has one `=`, with the trimmed name before and the trimmed text behind |
| WeightedChoice.NamedWeight | loadgen/checkout.ts:565-586 | the last entry that names a workflow gives its weight |
| WeightedChoice.UnnamedWeight | loadgen/checkout.ts:565 | a workflow that no entry names keeps its default of 30, 20, 15, 20, 10 or 5 |
| WeightedChoice.ReadAndChoose | loadgen/checkout.ts:481-591 | weights that were read never lead to the throw |
| ProtobufWalker.VarintAt | macos/tools/verify.py:65-72 | the loop, setting the bits of each shifted group with a bitwise or, reads the varint at a position; a varint of k bytes is below 2^(7k) |
| ProtobufWalker.OrAdds | macos/tools/verify.py:69 | the bitwise or with a number shifted past the bits so far is the sum |
| ProtobufWalker.ParseFields | macos/tools/verify.py:54-92 | terminates on every input and gives out the specified fields and error |
| ProtobufWalker.ReadVarintIff | macos/tools/verify.py:65-72 | a varint is read iff the bytes encode it, leading zeros allowed |
| ProtobufWalker.ReadFieldIff | macos/tools/verify.py:59-92 | a field that is all there is read iff the bytes encode it |
| ProtobufWalker.WalkIff | macos/tools/verify.py:54-92 | a list of fields, all there, is given out for exactly the messages that encode it |
| ProtobufWalker.CutOff | macos/tools/verify.py:54-92 | a message walked without an error but not all there is a cut-off one: some zero bytes complete it, and only its last field then differs, by these zeros |
| ProtobufWalker.WalkErrorIff | macos/tools/verify.py:54-92 | the walk ends in an error iff whole fields are followed by bytes that make it, and gives out just these fields |
| ProtobufWalker.RoundTrip | macos/tools/verify.py:54-92 | walking an encoded list of fields gives the list back |
| ProtobufWalker.WalkConcat | macos/tools/verify.py:54-92 | whole messages one after the other walk one after the other |
| ProtobufWalker.First | macos/tools/verify.py:95-99 | gives a value iff it is that of the first field with the number, nothing iff the walk ends well without one, and the error of the walk iff no field before it has the number |
| ProtobufWalker.AllOf | macos/tools/verify.py:102-103 | the values at exactly the positions of the number, in order, or the error of the walk |
| ProtobufWalker.FirstInIs | macos/tools/verify.py:95-99 | the specified first value is that of the first field with the number |
| ProtobufWalker.AllInIs | macos/tools/verify.py:102-103 | the specified list has the values at exactly the positions of the number |
| ProtobufWalker.LookupInConcat | macos/tools/verify.py:95-103 | over concatenated messages the first match prefers the earlier and all matches add up |
| ErrorFilter.Filter.Report | web/src/telemetry.ts:306-321 | emits iff the fingerprint is not among the last 128 emitted, and remembers it |
| ErrorFilter.RecentIff | web/src/telemetry.ts:316-321 | a fingerprint is held iff it is among the last 128 emitted |
| ErrorFilter.Filter.KeysAreTheLastEmitted | web/src/telemetry.ts:82-83 | the set holds exactly the last 128 fingerprints emitted, or all if fewer |
| ErrorFilter.RepeatsAreFarApart | web/src/telemetry.ts:316-321 | between two emissions of a fingerprint 128 different others are emitted |
| ErrorFilter.EveryErrorIsEmitted | web/src/telemetry.ts:316-321 | every reported fingerprint is emitted at some point, and no other |
| Cart.NormalizeCart | web/src/cart.tsx:188-210 | throws iff an item is invalid; otherwise distinct trimmed SKUs in order of first occurrence with quantities added up to 99 |
| Cart.ValidItemIff | web/src/cart.tsx:195-203 | an item is valid iff its SKU has a character that is not space and its quantity is an integer from 1 to 2^53 - 1 |
| Cart.MergedIs | web/src/cart.tsx:204-209 | the merged cart has each SKU, those first met first, with the sum of its quantities or 99 |
| Cart.QuantityIs | web/src/cart.tsx:204-207 | that sum grows by the quantity of each entry of the SKU and by no other |
| Cart.MergedIsNormal | web/src/cart.tsx:188-210 | the result has distinct trimmed SKUs and quantities from 1 to 99 |
| Cart.NormalMergesToItself | web/src/cart.tsx:188-210 | normalizing is idempotent |
| Cart.ReadCart | web/src/cart.tsx:153-186 | what is read from the storage, an unacceptable document giving an empty cart with an error |
| Cart.ReadableIff | web/src/cart.tsx:153-186 | a document is accepted iff it is of version 2, has no identifier or one that is not all space, and has valid items |
| Cart.WrittenReadsBack | web/src/cart.tsx:58-62 | a cart that was written is read back unchanged |
| Cart.CartProvider.Load | web/src/cart.tsx:35-40 | the page shows what the storage holds, of any stored document; a page in step with the storage stays as it is |
| Cart.CartProvider.Commit | web/src/cart.tsx:51-75 | over any stored document: a success stores and shows the cart and leaves page and storage in step; the identifier stays while items remain, is fresh if there was none and absent for an empty cart; a failure changes nothing |
| Cart.CartProvider.AddItem | web/src/cart.tsx:77-104 | raises exactly one quantity up to 99, adding a new SKU at the end; refuses blank SKUs and bad quantities; a success repairs any stored cart |
| Cart.CartProvider.SetQuantity | web/src/cart.tsx:106-120 | sets exactly one quantity, or removes the SKU, keeping the others and their order; a success repairs any stored cart |
| Cart.CartProvider.RemoveItem | web/src/cart.tsx:122-125 | removes exactly one SKU; a success repairs any stored cart |
| Cart.SkusWithoutIs | web/src/cart.tsx:106-125 | removing a SKU takes it from its place and keeps the others in order |
| Cart.CartProvider.Clear | web/src/cart.tsx:127 | empties the cart and drops the identifier, also over a stored cart that cannot be read |
| Subscription.Client.Fail | scenarios/a7-subscription.ts:35-43 | the first decision on the exit counts; if it is this one, the exit is 1 and no timer is left; the script stays sound |
| Subscription.Client.Succeed | scenarios/a7-subscription.ts:45-53 | the same with exit 0, after an event and the restored price |
| Subscription.Client.OnTimeout | scenarios/a7-subscription.ts:55-67 | the script is decided afterwards; one that was undecided exits with 0 iff the restored price was reported, and then an event was seen |
| Subscription.Client.OnNext | scenarios/a7-subscription.ts:153-170 | the event is counted, and the restored price has been asked for exactly once afterwards |
| Subscription.FailuresExit | scenarios/a7-subscription.ts:172-188 | an error message, a close, a socket error and a failed update leave an undecided script with exit 1 and no timer, and a decided one as it was |
| Subscription.StepIs | scenarios/a7-subscription.ts:55-170 | what each other event does to the script, the stored price (2199 and 2499 for the change, 1999 and 2299 for the seed) and the answers |
| Subscription.ScriptIsSound | scenarios/a7-subscription.ts:14-67 | in every history the exit is decided once, restoring is asked for at most once, and exit 0 means an event was seen and the restored price was carried out |
| Subscription.PriceAfterRestore | scenarios/a7-subscription.ts:105-188 | without another writer, once the restored price is carried out it stays stored exactly until the change is carried out after it |
| Subscription.ExitZeroRestoresIff | scenarios/a7-subscription.ts:105-188 | without another writer, a script that exited with 0 leaves the seed price iff the server carried the restored price out after every change |
| Subscription.ExitZeroRestores | scenarios/a7-subscription.ts:105-188 | with one acknowledgement, no other writer and events only after the change, exit 0 means the seed price is stored |
| Subscription.IntendedCourse | scenarios/a7-subscription.ts:105-188 | the intended history exits with 0 |
| Subscription.TwoAcknowledgements | scenarios/a7-subscription.ts:124-151 | a second acknowledgement can leave the changed price behind exit 0 |
| Subscription.EarlyEvent | scenarios/a7-subscription.ts:153-170 | so can an event from before the change |
| Subscription.AnotherWriter | scenarios/a7-subscription.ts:153-170 | and another writer can leave any price |
| GraphqlErrors.PathIsBounded | web/src/graphql-errors.ts:14-30 | a path is the root if there is none, else the first 128 characters of its first 32 components joined by dots, all safe, and a prefix of the full rendering |
| GraphqlErrors.Sanitized | web/src/graphql-errors.ts:21-26 | a component keeps its safe characters in place, is never empty and at most 64 long |
| GraphqlErrors.SanitizedIs | web/src/graphql-errors.ts:21-26 | a component has the first 64 characters with an underscore for each that is not safe, and is an underscore if empty |
| GraphqlErrors.SafeCharIs | web/src/graphql-errors.ts:24 | the safe characters by their codes |
| GraphqlErrors.PathJson | web/src/graphql-errors.ts:42 | the JSON text of a path is the path itself between quotes |
| GraphqlErrors.PathsLength | web/src/graphql-errors.ts:33-53 | the JSON text of paths is as long as the paths with two quotes each, the commas between and two brackets |
| GraphqlErrors.BoundedGraphqlErrorDetails | web/src/graphql-errors.ts:33-53 | the longest prefix of the paths, of eight at most, whose JSON text fits 1024 characters |
| GraphqlErrors.FormatGraphqlErrorPaths | web/src/graphql-errors.ts:56-76 | the first path cut to the length if it alone is longer; otherwise as many whole paths as fit, joined by commas, eight at most |

## Left out

- Topology.ValidateParentTopology: returns the roots as a set; the order of the list is not used by any later stage.
- Crawl.FetchTraceGraph: has no branch for the check that at most 32 traces were fetched, because the limit on scheduled ids already implies it (`Crawl.VisitTrace` proves this).
- Acceptance.AnalyzeDetails: gives the services of the summary as a set; sorting their names is not modelled.
- Migrator.SchemaDatabase.Migrate: takes the answer of the closing schema verification query as a parameter, and for granted that the names in one directory differ; waiting for the database before the run is not modelled.
- Cart.WrittenReadsBack: takes a document that was written as JSON to parse to the same typed document.
- WeightedChoice.ParseWeights: takes the conversion of text to numbers as a parameter.
- Subscription.ExitZeroRestores: holds under the listed conditions on the server; three lemmas give a history without each that breaks the conclusion, and `Subscription.ExitZeroRestoresIff` gives the exact condition.
- CompleteTraces.ServedIsAccepted: lets one text within the limits stand for the raw JSON of every field; no stage compares raw texts.
- HTTP and GraphQL transport, polling, deadlines, process spawning, Docker and psql invocation: input and output.
- JSON and UUID parsing, and the texts of error messages: library behaviour; inputs are typed and errors are values.
- `verify_clickhouse_evidence` and its field-by-field comparisons: its answer is a parameter of `Acceptance.VerifyAttempt`, which gives the whole analysis of which the command reports the summary.
- Integer overflow checks of counters that the limits keep small, and letter-case conversion outside ASCII.
- The SQL inside the migration files: each body is one opaque effect without a commit of its own; a change of the list between runs is not modelled.
- Rounding of floating-point products in the load generator: draws are exact multiples of 1/2^32.
- Lone surrogates in JavaScript strings; a character stands for one UTF-16 code unit.
- Several browser pages writing one cart storage at a time (a page may be opened over anything stored), and React handlers that see an outdated render.
- The emission of telemetry itself after the duplicate filter, and the normalization of the error it is given.
- The drivers, scenario runners, fixed tables, telemetry shapes and mock servers of the repository: their local checks would only add easy members.
