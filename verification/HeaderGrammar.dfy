/** The header grammar in full: what each parser accepts, and what it makes of it. */
module HeaderGrammar {
  import opened Outcomes
  import opened RustText
  import opened Strings
  import opened Headers

  // ----- tracestate -----

  /** Small letters and digits, and after the first also underscores, stars, hyphens and slashes. */
  predicate KeyPart(s: string, max: nat) {
    && 1 <= |s| <= max
    && ('a' <= s[0] <= 'z' || '0' <= s[0] <= '9')
    && forall i | 1 <= i < |s| ::
         'a' <= s[i] <= 'z' || '0' <= s[i] <= '9' || s[i] == '_' || s[i] == '*' || s[i] == '-' || s[i] == '/'
  }

  ghost predicate TracestateKey(key: string) {
    || KeyPart(key, 256)
    || exists tenant, system :: key == tenant + "@" + system && KeyPart(tenant, 241) && KeyPart(system, 14)
  }

  /** Printable ASCII without commas and equals signs, no space at the end. */
  predicate TracestateValue(value: string) {
    && 1 <= |value| <= 256 && value[|value| - 1] != ' '
    && forall i | 0 <= i < |value| :: 32 <= value[i] as int <= 126 && value[i] != ',' && value[i] != '='
  }

  lemma KeyPartIff(part: string, max: nat)
    ensures ValidTracestateKeyPart(part, max) <==> KeyPart(part, max)
  {
    if KeyPart(part, max) || ValidTracestateKeyPart(part, max) {
      assert forall i | 0 <= i < |part| :: part[i] as int < 0x80;
      AsciiLength(part);
    }
  }

  lemma NoAtSign(part: string, max: nat)
    requires KeyPart(part, max)
    ensures '@' !in part && '=' !in part
  {
  }

  lemma TracestateKeyIff(key: string)
    ensures ValidTracestateKey(key) <==> TracestateKey(key)
  {
    hide KeyPart, ValidTracestateKeyPart;
    var parts := Split(key, '@');
    JoinOfSplit(key, '@');
    KeyPartIff(parts[0], 256);
    if |parts| == 2 {
      KeyPartIff(parts[0], 241);
      KeyPartIff(parts[1], 14);
      assert parts[1..] == [parts[1]];
      assert key == parts[0] + "@" + parts[1];
    }
    if KeyPart(key, 256) {
      NoAtSign(key, 256);
      SplitOfPrefix(key, '@', "");
      KeyPartIff(key, 256);
    }
    if tenant, system :| key == tenant + "@" + system && KeyPart(tenant, 241) && KeyPart(system, 14) {
      NoAtSign(tenant, 241);
      NoAtSign(system, 14);
      SplitOfPrefix(tenant, '@', system);
      SplitOfPrefix(system, '@', "");
      KeyPartIff(tenant, 241);
      KeyPartIff(system, 14);
    }
  }

  lemma TracestateValueIff(value: string)
    ensures ValidTracestateValue(value) && '=' !in value && ByteLength(value) <= 256 <==> TracestateValue(value)
  {
    if TracestateValue(value) || ValidTracestateValue(value) {
      assert forall i | 0 <= i < |value| :: value[i] in value;
      assert forall i | 0 <= i < |value| :: value[i] as int < 0x80;
      AsciiLength(value);
    }
  }

  lemma PartIsAscii(s: string, max: nat)
    requires KeyPart(s, max)
    ensures '=' !in s && forall i | 0 <= i < |s| :: s[i] as int < 0x80
  {
  }

  lemma KeyHasNoEquals(key: string)
    requires TracestateKey(key)
    ensures '=' !in key && ByteLength(key) == |key|
  {
    hide KeyPart;
    if KeyPart(key, 256) {
      PartIsAscii(key, 256);
    } else {
      var tenant, system :| key == tenant + "@" + system && KeyPart(tenant, 241) && KeyPart(system, 14);
      PartIsAscii(tenant, 241);
      PartIsAscii(system, 14);
    }
    AsciiLength(key);
  }

  ghost predicate TracestateRead(raw: string, key: string, value: string) {
    && Stripped(raw, key + "=" + value, c => c == ' ' || c == '\t')
    && TracestateKey(key) && TracestateValue(value) && |key| + 1 + |value| <= 256
  }

  lemma TracestateMemberSays(raw: string, key: string, value: string)
    requires TracestateMember(raw) == Some((key, value))
    ensures TracestateRead(raw, key, value)
  {
    hide TracestateKey, TracestateValue, ValidTracestateKey, ValidTracestateValue, Stripped;
    var member := Trim(raw, Ows);
    MemberLength(key, value);
    assert member == key + "=" + value;
    TrimIff(raw, member, Ows);
    StrippedSame(raw, member, Ows, c => c == ' ' || c == '\t');
    TracestateKeyIff(key);
    TracestateValueIff(value);
    KeyHasNoEquals(key);
    ValueLength(value);
  }

  lemma TracestateMemberFrom(raw: string, key: string, value: string)
    requires TracestateRead(raw, key, value)
    ensures TracestateMember(raw) == Some((key, value))
  {
    hide TracestateKey, TracestateValue, ValidTracestateKey, ValidTracestateValue, Stripped;
    var member := key + "=" + value;
    StrippedSame(raw, member, Ows, c => c == ' ' || c == '\t');
    TrimIff(raw, member, Ows);
    TracestateKeyIff(key);
    TracestateValueIff(value);
    KeyHasNoEquals(key);
    ValueLength(value);
    MemberLength(key, value);
    SplitOnceOf(key, '=', value);
    ValueIsText(key, value);
  }

  lemma ValueIsText(key: string, value: string)
    requires TracestateKey(key) && TracestateValue(value)
    ensures key != "" && value != ""
  {
  }

  /** The members are read that are a key, an equals sign and a value, within 256 bytes, between spaces and tabs. */
  lemma TracestateMemberIff(raw: string, key: string, value: string)
    ensures TracestateMember(raw) == Some((key, value)) <==> TracestateRead(raw, key, value)
  {
    hide TracestateRead, TracestateMember;
    if TracestateMember(raw) == Some((key, value)) {
      TracestateMemberSays(raw, key, value);
    }
    if TracestateRead(raw, key, value) {
      TracestateMemberFrom(raw, key, value);
    }
  }

  lemma ValueLength(value: string)
    requires TracestateValue(value)
    ensures ByteLength(value) == |value|
  {
    AsciiLength(value);
  }

  lemma MemberLength(key: string, value: string)
    ensures ByteLength(key + "=" + value) == ByteLength(key) + 1 + ByteLength(value)
    ensures key + "=" + value == key + ['='] + value
  {
    ByteLengthConcat(key + "=", value);
    ByteLengthConcat(key, "=");
    WidthIs('=');
  }

  lemma StrippedSame(s: string, member: string, strip: char -> bool, same: char -> bool)
    requires forall c :: strip(c) <==> same(c)
    ensures Stripped(s, member, strip) <==> Stripped(s, member, same)
  {
    if before, after :| Around(s, before, member, after, strip) {
      assert Around(s, before, member, after, same);
    }
    if before, after :| Around(s, before, member, after, same) {
      assert Around(s, before, member, after, strip);
    }
  }

  // ----- baggage -----

  /** Small letters, digits, dots, underscores, hyphens, slashes and at signs. */
  predicate BaggageKey(key: string) {
    key != "" && forall i | 0 <= i < |key| ::
      || 'a' <= key[i] <= 'z' || '0' <= key[i] <= '9'
      || key[i] == '.' || key[i] == '_' || key[i] == '-' || key[i] == '/' || key[i] == '@'
  }

  /** No control characters, commas or semicolons. */
  predicate BaggageValue(value: string) {
    value != "" && forall i | 0 <= i < |value| ::
      var u := value[i] as int; u > 31 && !(127 <= u <= 159) && value[i] != ',' && value[i] != ';'
  }

  /** The text up to the first semicolon. */
  ghost predicate BeforeSemicolon(text: string, piece: string) {
    ';' !in piece && (text == piece || exists props :: text == piece + ";" + props)
  }

  lemma FirstPieceIff(text: string, piece: string)
    ensures Split(text, ';')[0] == piece <==> BeforeSemicolon(text, piece)
  {
    var parts := Split(text, ';');
    JoinOfSplit(text, ';');
    SplitParts(text, ';');
    assert parts[0] in parts;
    if |parts| > 1 {
      assert text == parts[0] + ";" + Join(parts[1..], ';');
    }
    if BeforeSemicolon(text, piece) {
      if text == piece {
        SplitOfPrefix(piece, ';', "");
      } else {
        var props :| text == piece + ";" + props;
        SplitOfPrefix(piece, ';', props);
      }
    }
  }

  lemma BaggageKeyIff(key: string)
    ensures ValidW3cKey(key) <==> BaggageKey(key)
    ensures BaggageKey(key) ==> '=' !in key
  {
    assert forall i | 0 <= i < |key| :: key[i] in key;
  }

  lemma BaggageValueIff(value: string)
    ensures value != "" && (forall c | c in value :: BaggageValueChar(c)) <==> BaggageValue(value)
  {
    assert forall i | 0 <= i < |value| :: value[i] in value;
  }

  /** The members are read that, between white space, are a key, an equals sign and a text, and the value is
      what that text has before its first semicolon, between white space. */
  lemma BaggageMemberIff(raw: string, key: string, value: string)
    ensures BaggageMember(raw) == Some((key, value)) <==>
              exists text, piece :: BaggageRead(raw, key, value, text, piece)
  {
    hide BaggageKey, BaggageValue, ValidW3cKey, BaggageValueChar, Stripped, WhiteSpace, BeforeSemicolon;
    BaggageKeyIff(key);
    BaggageValueIff(value);
    if BaggageMember(raw) == Some((key, value)) {
      var member := Trim(raw, WhiteSpace);
      var text := SplitOnce(member, '=').value.1;
      var piece := Split(text, ';')[0];
      assert member == key + "=" + text;
      TrimIff(raw, member, WhiteSpace);
      FirstPieceIff(text, piece);
      TrimIff(piece, value, WhiteSpace);
      assert BaggageRead(raw, key, value, text, piece);
    }
    if text, piece :| BaggageRead(raw, key, value, text, piece) {
      TrimIff(raw, key + "=" + text, WhiteSpace);
      assert key + "=" + text == key + ['='] + text;
      SplitOnceOf(key, '=', text);
      FirstPieceIff(text, piece);
      TrimIff(piece, value, WhiteSpace);
    }
  }

  ghost predicate BaggageRead(raw: string, key: string, value: string, text: string, piece: string) {
    && Stripped(raw, key + "=" + text, WhiteSpace) && BeforeSemicolon(text, piece)
    && Stripped(piece, value, WhiteSpace) && BaggageKey(key) && BaggageValue(value)
  }

  // ----- whole headers -----

  ghost predicate MemberRead(h: Header, raw: string, entry: Entry) {
    match h
    case Tracestate => TracestateRead(raw, entry.0, entry.1)
    case Baggage => exists text, piece :: BaggageRead(raw, entry.0, entry.1, text, piece)
  }

  /** The members of a header, one entry each, in order. */
  ghost predicate ReadsAs(h: Header, raws: seq<string>, listing: seq<Entry>) {
    |listing| == |raws| && forall i | 0 <= i < |raws| :: MemberRead(h, raws[i], listing[i])
  }

  lemma ReaderIff(h: Header, raw: string, key: string, value: string)
    ensures h.Reader()(raw) == Some((key, value)) <==> MemberRead(h, raw, (key, value))
  {
    hide TracestateRead, BaggageRead, TracestateMember, BaggageMember;
    TracestateMemberIff(raw, key, value);
    BaggageMemberIff(raw, key, value);
  }

  ghost predicate ReadInto(read: Reader, raws: seq<string>, listing: seq<Entry>, entries: Entries) {
    && |listing| == |raws| && Listing(listing, entries)
    && forall i | 0 <= i < |raws| :: read(raws[i]) == Some(listing[i])
  }

  lemma {:induction false} MembersAreListed(read: Reader, raws: seq<string>) returns (listing: seq<Entry>)
    requires Members(read, raws).Some?
    ensures ReadInto(read, raws, listing, Members(read, raws).value)
  {
    if raws == [] {
      listing := [];
    } else {
      var n := |raws| - 1;
      var before := MembersAreListed(read, raws[..n]);
      var entries := Members(read, raws[..n]).value;
      var (key, value) := read(raws[n]).value;
      listing := before + [(key, value)];
      assert forall i | 0 <= i < n :: before[i].0 in entries && before[i].0 != key;
      assert |entries[key := value]| == |entries| + 1;
    }
  }

  lemma {:induction false} ListedAreMembers(read: Reader, raws: seq<string>, listing: seq<Entry>, entries: Entries)
    requires ReadInto(read, raws, listing, entries)
    ensures Members(read, raws) == Some(entries)
  {
    if raws == [] {
      assert entries == map[];
    } else {
      var n := |raws| - 1;
      var (key, value) := listing[n];
      ListingWithout(listing, entries, n);
      assert listing[..n] + listing[n + 1..] == listing[..n];
      ListedAreMembers(read, raws[..n], listing[..n], entries - {key});
      assert (entries - {key})[key := value] == entries;
    }
  }

  /** A tracestate is accepted within 512 bytes and 32 members, a baggage within 8192 bytes, and gives the
      entries of its members, whose keys must differ. */
  lemma ParseIff(h: Header, header: string, entries: Entries)
    ensures h.Parse(header) == Some(entries) <==>
              && ByteLength(header) <= (if h.Tracestate? then 512 else 8192)
              && (h.Tracestate? ==> |Split(header, ',')| <= 32)
              && exists listing :: ReadsAs(h, Split(header, ','), listing) && Listing(listing, entries)
  {
    hide Listing, MemberRead, TracestateMember, BaggageMember;
    var raws := Split(header, ',');
    forall raw, entry: Entry
      ensures h.Reader()(raw) == Some(entry) <==> MemberRead(h, raw, entry)
    {
      ReaderIff(h, raw, entry.0, entry.1);
    }
    if h.Parse(header) == Some(entries) {
      var listing := MembersAreListed(h.Reader(), raws);
      assert ReadsAs(h, raws, listing);
    }
    if listing :| ReadsAs(h, raws, listing) && Listing(listing, entries) {
      ListedAreMembers(h.Reader(), raws, listing, entries);
    }
  }

  // ----- properties of a baggage member -----

  lemma EndsOfValue(value: string)
    requires value != "" && Trimmed(value, WhiteSpace) && forall c | c in value :: BaggageValueChar(c)
    ensures value != "" && !WhiteSpace(value[0]) && !WhiteSpace(value[|value| - 1]) && ';' !in value && ',' !in value
  {
    assert forall i | 0 <= i < |value| :: value[i] in value;
  }

  lemma TrimmedWithProperties(key: string, value: string, props: string)
    requires ValidW3cKey(key)
    ensures var start := key + "=" + value + ";";
            Trim(start + props, WhiteSpace) == start + TrimEnd(props, WhiteSpace)
  {
    hide WhiteSpace;
    KeyIsText(key);
    var start := key + "=" + value + ";";
    SemicolonStays(start, props);
    assert (start + props)[0] == key[0];
  }

  /** What follows a semicolon is dropped: the member reads as its key and its value. */
  lemma PropertiesAreDropped(key: string, value: string, props: string)
    requires Baggage.ValidEntry(key, value)
    ensures BaggageMember(key + "=" + value + ";" + props) == Some((key, value))
  {
    hide WhiteSpace, Trim, ValidW3cKey, BaggageValueChar;
    EndsOfValue(value);
    KeyIsText(key);
    TrimmedWithProperties(key, value, props);
    var kept := TrimEnd(props, WhiteSpace);
    var text := value + ";" + kept;
    assert key + "=" + value + ";" + kept == key + ['='] + text;
    SplitOnceOf(key, '=', text);
    SplitOfPrefix(value, ';', kept);
    TrimmedStays(value);
  }

  lemma TrimmedStays(value: string)
    requires value != "" && !WhiteSpace(value[0]) && !WhiteSpace(value[|value| - 1])
    ensures Trim(value, WhiteSpace) == value
  {
  }

  lemma KeyIsText(key: string)
    requires ValidW3cKey(key)
    ensures key != "" && !WhiteSpace(key[0]) && '=' !in key
  {
    assert key[0] in key;
  }

  lemma {:induction false} SemicolonStays(start: string, props: string)
    requires start != "" && start[|start| - 1] == ';'
    ensures TrimEnd(start + props, WhiteSpace) == start + TrimEnd(props, WhiteSpace)
  {
    if props == "" {
      assert start + props == start;
    } else if WhiteSpace(props[|props| - 1]) {
      var n := |props| - 1;
      assert (start + props)[..|start| + n] == start + props[..n];
      SemicolonStays(start, props[..n]);
    }
  }

  lemma OneMember(header: string, key: string, value: string)
    requires ',' !in header && ByteLength(header) <= 8192 && BaggageMember(header) == Some((key, value))
    ensures Baggage.Parse(header) == Some(map[key := value])
  {
    hide ByteLength, SplitOnce, Trim, Split;
    SplitOfPrefix(header, ',', "");
    assert Split(header, ',') == [header] && [header][..0] == [];
    var read := Baggage.Reader();
    assert read(header) == Some((key, value)) && Members(read, []) == Some(map[]);
    assert Members(read, [header]) == Some(map[key := value]);
  }

  /** So a header of one member with properties holds just that entry. */
  lemma HeaderWithProperties(key: string, value: string, props: string)
    requires Baggage.ValidEntry(key, value) && ',' !in props
    requires ByteLength(key + "=" + value + ";" + props) <= 8192
    ensures Baggage.Parse(key + "=" + value + ";" + props) == Some(map[key := value])
  {
    hide Header.ValidEntry, Header.Parse, BaggageMember, ByteLength;
    var header := key + "=" + value + ";" + props;
    PropertiesAreDropped(key, value, props);
    RenderedMemberHasNoComma(key, value);
    assert ',' !in header;
    OneMember(header, key, value);
  }

  lemma RenderedMemberHasNoComma(key: string, value: string)
    requires Baggage.ValidEntry(key, value)
    ensures ',' !in key + "=" + value
  {
    MemberOfRendered(Baggage, key, value);
    assert RenderMember((key, value)) == key + "=" + value;
  }
}
