/** The W3C `tracestate` and `baggage` header parsers of the commerce verifier. */
module Headers {
  import Counting
  import opened Outcomes
  import opened RustText
  import opened Strings

  const MAX_TRACESTATE_HEADER_BYTES := 512
  const MAX_TRACESTATE_MEMBERS := 32
  const MAX_TRACESTATE_MEMBER_BYTES := 256
  const MAX_TRACESTATE_VALUE_BYTES := 256
  const MAX_BAGGAGE_HEADER_BYTES := 8192

  type Entry = (string, string)
  type Entries = map<string, string>

  // ----- characters and keys -----

  predicate TracestateKeyChar(c: char) {
    AsciiLowercase(c) || AsciiDigit(c) || c in "_*/-"
  }

  predicate ValidTracestateKeyPart(part: string, maxLength: nat) {
    && part != "" && ByteLength(part) <= maxLength
    && (AsciiLowercase(part[0]) || AsciiDigit(part[0]))
    && forall i | 1 <= i < |part| :: TracestateKeyChar(part[i])
  }

  /** A simple key, or a tenant and a system part joined by one `@`. */
  predicate ValidTracestateKey(key: string) {
    var parts := Split(key, '@');
    && |parts| <= 2
    && ValidTracestateKeyPart(parts[0], if |parts| == 2 then 241 else 256)
    && (|parts| == 2 ==> ValidTracestateKeyPart(parts[1], 14))
  }

  predicate TracestateValueChar(c: char) {
    var u := c as int;
    0x20 <= u <= 0x2B || 0x2D <= u <= 0x3C || 0x3E <= u <= 0x7E
  }

  predicate ValidTracestateValue(value: string) {
    value != "" && value[|value| - 1] != ' ' && forall c | c in value :: TracestateValueChar(c)
  }

  predicate W3cKeyChar(c: char) {
    AsciiLowercase(c) || AsciiDigit(c) || c in "._-/@"
  }

  predicate ValidW3cKey(key: string) { key != "" && forall c | c in key :: W3cKeyChar(c) }

  predicate BaggageValueChar(c: char) { !Control(c) && c != ',' && c != ';' }

  // ----- one list member -----

  function TracestateMember(raw: string): Option<Entry> {
    var member := Trim(raw, Ows);
    match SplitOnce(member, '=')
    case None => None
    case Some((key, value)) =>
      if && key != "" && ByteLength(member) <= MAX_TRACESTATE_MEMBER_BYTES
         && value != "" && '=' !in value
         && ValidTracestateKey(key)
         && ByteLength(value) <= MAX_TRACESTATE_VALUE_BYTES
         && ValidTracestateValue(value)
      then Some((key, value)) else None
  }

  function BaggageMember(raw: string): Option<Entry> {
    var member := Trim(raw, WhiteSpace);
    match SplitOnce(member, '=')
    case None => None
    case Some((key, rawValue)) =>
      var value := Trim(Split(rawValue, ';')[0], WhiteSpace);
      if ValidW3cKey(key) && value != "" && forall c | c in value :: BaggageValueChar(c)
      then Some((key, value)) else None
  }

  type Reader = string -> Option<Entry>

  /** Read the members from left to right; a bad member or a repeated key refuses them all. */
  function Members(read: Reader, raws: seq<string>): Option<Entries> {
    if raws == [] then Some(map[])
    else
      var last := |raws| - 1;
      match (Members(read, raws[..last]), read(raws[last]))
      case (Some(entries), Some((key, value))) =>
        if key in entries then None else Some(entries[key := value])
      case _ => None
  }

  datatype Header = Tracestate | Baggage {
    function Reader(): Reader {
      match this case Tracestate => TracestateMember case Baggage => BaggageMember
    }

    /** The limits on the whole header. */
    predicate Admits(header: string) {
      match this
      case Tracestate =>
        && ByteLength(header) <= MAX_TRACESTATE_HEADER_BYTES
        && |Split(header, ',')| <= MAX_TRACESTATE_MEMBERS
      case Baggage => ByteLength(header) <= MAX_BAGGAGE_HEADER_BYTES
    }

    /** What one member contributes to a header that is accepted. */
    predicate ValidEntry(key: string, value: string) {
      match this
      case Tracestate =>
        && ValidTracestateKey(key) && ValidTracestateValue(value) && '=' !in value
        && ByteLength(value) <= MAX_TRACESTATE_VALUE_BYTES
        && ByteLength(key + "=" + value) <= MAX_TRACESTATE_MEMBER_BYTES
      case Baggage =>
        && ValidW3cKey(key) && value != "" && Trimmed(value, WhiteSpace)
        && forall c | c in value :: BaggageValueChar(c)
    }

    function Parse(header: string): Option<Entries> {
      if Admits(header) then Members(Reader(), Split(header, ',')) else None
    }
  }

  // ----- the two loops -----

  lemma {:induction false} RefusedPrefix(read: Reader, raws: seq<string>, n: nat)
    requires n <= |raws| && Members(read, raws[..n]).None?
    ensures Members(read, raws).None?
    decreases |raws| - n
  {
    if n == |raws| {
      assert raws[..n] == raws;
    } else {
      assert raws[..n + 1][..n] == raws[..n];
      RefusedPrefix(read, raws, n + 1);
    }
  }

  lemma NextMember(read: Reader, raws: seq<string>, n: nat)
    requires n < |raws| && Members(read, raws[..n]).Some?
    ensures var entries := Members(read, raws[..n]).value;
            var member := read(raws[n]);
            if member.None? || member.value.0 in entries
            then Members(read, raws).None?
            else Members(read, raws[..n + 1]) == Some(entries[member.value.0 := member.value.1])
  {
    assert raws[..n + 1][..n] == raws[..n];
    if Members(read, raws[..n + 1]).None? {
      RefusedPrefix(read, raws, n + 1);
    }
  }

  method ValidateTracestate(header: string) returns (r: Option<Entries>)
    ensures r == Tracestate.Parse(header)
  {
    if ByteLength(header) > MAX_TRACESTATE_HEADER_BYTES {
      return None;
    }
    var members := Split(header, ',');
    if |members| > MAX_TRACESTATE_MEMBERS {
      return None;
    }
    var entries: Entries := map[];
    for i := 0 to |members|
      invariant Members(TracestateMember, members[..i]) == Some(entries)
    {
      NextMember(TracestateMember, members, i);
      var member := TracestateMember(members[i]);
      if member.None? || member.value.0 in entries {
        return None;
      }
      entries := entries[member.value.0 := member.value.1];
    }
    assert members[..|members|] == members;
    return Some(entries);
  }

  method ValidateBaggage(header: string) returns (r: Option<Entries>)
    ensures r == Baggage.Parse(header)
  {
    if ByteLength(header) > MAX_BAGGAGE_HEADER_BYTES {
      return None;
    }
    var members := Split(header, ',');
    var entries: Entries := map[];
    for i := 0 to |members|
      invariant Members(BaggageMember, members[..i]) == Some(entries)
      invariant |entries| == i
    {
      NextMember(BaggageMember, members, i);
      var member := BaggageMember(members[i]);
      if member.None? || member.value.0 in entries {
        return None;
      }
      entries := entries[member.value.0 := member.value.1];
    }
    assert members[..|members|] == members;
    if entries == map[] {
      return None;
    }
    return Some(entries);
  }

  // ----- the canonical form -----

  /** The entries of a map in some order, each exactly once. */
  ghost predicate Listing(listing: seq<Entry>, entries: Entries) {
    && |listing| == |entries|
    && (forall i | 0 <= i < |listing| ::
          listing[i].0 in entries && entries[listing[i].0] == listing[i].1)
    && forall i, j | 0 <= i < j < |listing| :: listing[i].0 != listing[j].0
  }

  function RenderMember(entry: Entry): string { entry.0 + "=" + entry.1 }

  function RenderAll(listing: seq<Entry>): (r: seq<string>)
    ensures |r| == |listing|
    ensures forall i | 0 <= i < |listing| :: r[i] == RenderMember(listing[i])
  {
    seq(|listing|, i requires 0 <= i < |listing| => RenderMember(listing[i]))
  }

  function Render(listing: seq<Entry>): string
    requires listing != []
  {
    Join(RenderAll(listing), ',')
  }

  lemma ValidTracestateKeyChars(key: string)
    requires ValidTracestateKey(key)
    ensures key != "" && !Ows(key[0])
    ensures '=' !in key && ',' !in key
  {
    var parts := Split(key, '@');
    JoinOfSplit(key, '@');
    if |parts| == 2 {
      assert key == parts[0] + ['@'] + parts[1] by { assert parts[1..] == [parts[1]]; }
    }
  }

  lemma TracestateOfRendered(key: string, value: string)
    requires Tracestate.ValidEntry(key, value)
    ensures ',' !in RenderMember((key, value))
    ensures TracestateMember(RenderMember((key, value))) == Some((key, value))
  {
    var member := RenderMember((key, value));
    assert member == key + ['='] + value;
    ValidTracestateKeyChars(key);
    assert member[|member| - 1] == value[|value| - 1] && member[0] == key[0];
    assert TracestateValueChar(value[|value| - 1]);
    assert Trimmed(member, Ows);
    SplitOnceOf(key, '=', value);
  }

  lemma BaggageOfRendered(key: string, value: string)
    requires Baggage.ValidEntry(key, value)
    ensures ',' !in RenderMember((key, value))
    ensures BaggageMember(RenderMember((key, value))) == Some((key, value))
  {
    var member := RenderMember((key, value));
    assert member == key + ['='] + value;
    assert W3cKeyChar(key[0]);
    assert member[|member| - 1] == value[|value| - 1] && member[0] == key[0];
    assert Trimmed(member, WhiteSpace);
    SplitOnceOf(key, '=', value);
    SplitOfPrefix(value, ';', "");
  }

  /** Parsing a rendered entry gives the entry back. */
  lemma MemberOfRendered(h: Header, key: string, value: string)
    requires h.ValidEntry(key, value)
    ensures ',' !in RenderMember((key, value))
    ensures h.Reader()(RenderMember((key, value))) == Some((key, value))
  {
    match h {
      case Tracestate => TracestateOfRendered(key, value);
      case Baggage => BaggageOfRendered(key, value);
    }
  }

  /** A member is at least as long as the entry read from it, and the entry is valid. */
  lemma EntryOfMember(h: Header, raw: string)
    requires h.Reader()(raw).Some?
    ensures var (key, value) := h.Reader()(raw).value;
            h.ValidEntry(key, value) && ByteLength(RenderMember((key, value))) <= ByteLength(raw)
  {
    var (key, value) := h.Reader()(raw).value;
    ByteLengthConcat(key + "=", value);
    match h {
      case Tracestate =>
        var member := Trim(raw, Ows);
        TrimLength(raw, Ows);
        assert member == key + ['='] + value;
      case Baggage =>
        var member := Trim(raw, WhiteSpace);
        TrimLength(raw, WhiteSpace);
        var (_, rawValue) := SplitOnce(member, '=').value;
        TrimLength(Split(rawValue, ';')[0], WhiteSpace);
        assert member == key + ['='] + rawValue;
        ByteLengthConcat(key + "=", rawValue);
        FirstPieceLength(rawValue, ';');
    }
  }

  lemma FirstPieceLength(s: string, sep: char)
    ensures ByteLength(Split(s, sep)[0]) <= ByteLength(s)
  {
    var parts := Split(s, sep);
    JoinOfSplit(s, sep);
    if |parts| > 1 {
      ByteLengthConcat(parts[0] + [sep], Join(parts[1..], sep));
      ByteLengthConcat(parts[0], [sep]);
    }
  }

  function MemberLengths(listing: seq<Entry>): nat {
    if listing == [] then 0 else ByteLength(RenderMember(listing[0])) + MemberLengths(listing[1..])
  }

  lemma {:induction false} MemberLengthsWithout(listing: seq<Entry>, k: nat)
    requires k < |listing|
    ensures MemberLengths(listing)
         == ByteLength(RenderMember(listing[k])) + MemberLengths(listing[..k] + listing[k + 1..])
  {
    if k == 0 {
      assert listing[..0] + listing[1..] == listing[1..];
    } else {
      var rest := listing[1..];
      MemberLengthsWithout(rest, k - 1);
      assert (listing[..k] + listing[k + 1..])[1..] == rest[..k - 1] + rest[k..];
    }
  }

  lemma {:induction false} MemberLengthsRendered(listing: seq<Entry>)
    ensures TotalLength(RenderAll(listing)) == MemberLengths(listing)
  {
    if listing != [] {
      assert RenderAll(listing)[1..] == RenderAll(listing[1..]);
      MemberLengthsRendered(listing[1..]);
    }
  }

  lemma ListedKeys(listing: seq<Entry>, entries: Entries)
    requires Listing(listing, entries)
    ensures (set i | 0 <= i < |listing| :: listing[i].0) == entries.Keys
  {
    var keys := set i | 0 <= i < |listing| :: listing[i].0;
    DistinctKeyCount(listing);
    assert keys <= entries.Keys && |entries.Keys| == |entries|;
    Counting.SubsetCount(keys, entries.Keys);
  }

  lemma {:induction false} DistinctKeyCount(listing: seq<Entry>)
    requires forall i, j | 0 <= i < j < |listing| :: listing[i].0 != listing[j].0
    ensures |set i | 0 <= i < |listing| :: listing[i].0| == |listing|
  {
    var keys := set i | 0 <= i < |listing| :: listing[i].0;
    if listing != [] {
      var n := |listing| - 1;
      DistinctKeyCount(listing[..n]);
      var fewer := set i | 0 <= i < n :: listing[..n][i].0;
      assert keys == fewer + {listing[n].0};
    }
  }

  lemma ListingWithout(listing: seq<Entry>, entries: Entries, k: nat)
    requires Listing(listing, entries) && k < |listing|
    ensures Listing(listing[..k] + listing[k + 1..], entries - {listing[k].0})
  {
    var rest := listing[..k] + listing[k + 1..];
    var fewer := entries - {listing[k].0};
    assert fewer.Keys == entries.Keys - {listing[k].0};
    assert |fewer.Keys| == |fewer| && |entries.Keys| == |entries|;
    assert forall i | 0 <= i < |rest| :: rest[i] == listing[if i < k then i else i + 1];
  }

  /** Members that are accepted give one valid entry each. */
  lemma {:induction false} AcceptedEntries(h: Header, raws: seq<string>)
    requires Members(h.Reader(), raws).Some?
    ensures var entries := Members(h.Reader(), raws).value;
            |entries| == |raws| && forall key | key in entries :: h.ValidEntry(key, entries[key])
  {
    if raws != [] {
      AcceptedEntries(h, raws[..|raws| - 1]);
      EntryOfMember(h, raws[|raws| - 1]);
    }
  }

  /** The entries in any order render to no more bytes than their members had. */
  lemma {:induction false} AcceptedLengths(read: Reader, raws: seq<string>, listing: seq<Entry>)
    requires Members(read, raws).Some? && Listing(listing, Members(read, raws).value)
    requires forall raw | read(raw).Some? :: ByteLength(RenderMember(read(raw).value)) <= ByteLength(raw)
    ensures MemberLengths(listing) <= TotalLength(raws)
  {
    if raws == [] {
      assert listing == [];
    } else {
      var n := |raws| - 1;
      var entries := Members(read, raws).value;
      var key := read(raws[n]).value.0;
      var k := PositionOf(listing, entries, key);
      ListingWithout(listing, entries, k);
      assert Members(read, raws[..n]).value == entries - {key};
      AcceptedLengths(read, raws[..n], listing[..k] + listing[k + 1..]);
      MemberLengthsWithout(listing, k);
      TotalLengthConcat(raws[..n], [raws[n]]);
      assert raws == raws[..n] + [raws[n]];
    }
  }

  lemma PositionOf(listing: seq<Entry>, entries: Entries, key: string) returns (k: nat)
    requires Listing(listing, entries) && key in entries
    ensures k < |listing| && listing[k] == (key, entries[key])
  {
    ListedKeys(listing, entries);
    k :| 0 <= k < |listing| && listing[k].0 == key;
  }

  lemma {:induction false} TotalLengthConcat(a: seq<string>, b: seq<string>)
    ensures TotalLength(a + b) == TotalLength(a) + TotalLength(b)
  {
    if a == [] {
      assert a + b == b;
    } else {
      TotalLengthConcat(a[1..], b);
      assert (a + b)[1..] == a[1..] + b;
    }
  }

  lemma {:induction false} MembersOfRendered(read: Reader, listing: seq<Entry>, entries: Entries)
    requires Listing(listing, entries)
    requires forall key | key in entries :: read(RenderMember((key, entries[key]))) == Some((key, entries[key]))
    ensures Members(read, RenderAll(listing)) == Some(entries)
  {
    if listing == [] {
      assert entries == map[];
    } else {
      var n := |listing| - 1;
      var (key, value) := listing[n];
      var before := entries - {key};
      ListingWithout(listing, entries, n);
      assert listing[..n] + listing[n + 1..] == listing[..n];
      MembersOfRendered(read, listing[..n], before);
      assert RenderAll(listing)[..n] == RenderAll(listing[..n]);
      assert before[key := value] == entries;
    }
  }

  lemma CanonicalLength(h: Header, header: string, listing: seq<Entry>)
    requires Members(h.Reader(), Split(header, ',')).Some?
    requires Listing(listing, Members(h.Reader(), Split(header, ',')).value)
    ensures |listing| == |Split(header, ',')| && listing != []
    ensures ByteLength(Render(listing)) <= ByteLength(header)
  {
    var raws := Split(header, ',');
    AcceptedEntries(h, raws);
    forall raw | h.Reader()(raw).Some?
      ensures ByteLength(RenderMember(h.Reader()(raw).value)) <= ByteLength(raw)
    {
      EntryOfMember(h, raw);
    }
    AcceptedLengths(h.Reader(), raws, listing);
    JoinOfSplit(header, ',');
    JoinLength(raws, ',');
    JoinLength(RenderAll(listing), ',');
    MemberLengthsRendered(listing);
  }

  lemma CanonicalMembers(h: Header, listing: seq<Entry>, entries: Entries)
    requires listing != [] && Listing(listing, entries)
    requires forall key | key in entries :: h.ValidEntry(key, entries[key])
    ensures Split(Render(listing), ',') == RenderAll(listing)
    ensures Members(h.Reader(), RenderAll(listing)) == Some(entries)
  {
    forall key | key in entries
      ensures ',' !in RenderMember((key, entries[key]))
      ensures h.Reader()(RenderMember((key, entries[key]))) == Some((key, entries[key]))
    {
      MemberOfRendered(h, key, entries[key]);
    }
    SplitOfRendered(listing, entries);
    MembersOfRendered(h.Reader(), listing, entries);
  }

  lemma SplitOfRendered(listing: seq<Entry>, entries: Entries)
    requires listing != [] && Listing(listing, entries)
    requires forall key | key in entries :: ',' !in RenderMember((key, entries[key]))
    ensures Split(Render(listing), ',') == RenderAll(listing)
  {
    forall i | 0 <= i < |listing|
      ensures ',' !in RenderAll(listing)[i]
    {
      assert listing[i] == (listing[i].0, entries[listing[i].0]);
    }
    SplitOfJoin(RenderAll(listing), ',');
  }

  /** Section 3.3 of W3C Trace Context and section 3 of W3C Baggage, as this code restricts them:
      the entries of an accepted header, rendered in any order, are a header that is no longer
      and that parses to the same entries. */
  lemma CanonicalRoundTrip(h: Header, header: string, listing: seq<Entry>)
    requires h.Parse(header).Some? && Listing(listing, h.Parse(header).value)
    ensures listing != []
    ensures ByteLength(Render(listing)) <= ByteLength(header)
    ensures h.Parse(Render(listing)) == h.Parse(header)
    ensures Split(Render(listing), ',') == RenderAll(listing)
  {
    CanonicalLength(h, header, listing);
    AcceptedEntries(h, Split(header, ','));
    CanonicalMembers(h, listing, h.Parse(header).value);
  }

  /** Conversely, any entries that are valid one by one and whose rendering keeps the limits of the
      whole header are what the parser reads from that rendering. */
  lemma EveryValidMapIsRead(h: Header, listing: seq<Entry>, entries: Entries)
    requires listing != [] && Listing(listing, entries)
    requires forall key | key in entries :: h.ValidEntry(key, entries[key])
    requires h.Admits(Render(listing))
    ensures h.Parse(Render(listing)) == Some(entries)
  {
    CanonicalMembers(h, listing, entries);
  }

  /** Every accepted map is listable, so the round trip above is never about nothing. */
  lemma {:induction false} ListingExists(entries: Entries) returns (listing: seq<Entry>)
    ensures Listing(listing, entries)
    decreases |entries|
  {
    if entries == map[] {
      listing := [];
    } else {
      var key :| key in entries;
      var fewer := entries - {key};
      assert fewer.Keys == entries.Keys - {key};
      assert |fewer.Keys| == |fewer| && |entries.Keys| == |entries|;
      var rest := ListingExists(fewer);
      listing := rest + [(key, entries[key])];
    }
  }

  /** An accepted header has at least one entry, within the member limits, every entry valid. */
  lemma AcceptedHeader(h: Header, header: string)
    requires h.Parse(header).Some?
    ensures var entries := h.Parse(header).value;
            && |entries| == |Split(header, ',')| >= 1
            && (h.Tracestate? ==> |entries| <= MAX_TRACESTATE_MEMBERS)
            && forall key | key in entries :: h.ValidEntry(key, entries[key])
  {
    AcceptedEntries(h, Split(header, ','));
  }
}
