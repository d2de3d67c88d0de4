/** Rendering the paths of GraphQL errors within a budget of characters. */
module GraphqlErrors {
  import opened Outcomes
  import opened Strings

  const MAX_ERROR_COUNT := 8
  const MAX_PATH_COMPONENTS := 32
  const MAX_COMPONENT_LENGTH := 64
  const MAX_PATH_LENGTH := 128
  const MAX_CONTEXT_LENGTH := 1024
  const ROOT := "<root>"

  /** A component of a path: a name, or a number as its decimal text. */
  datatype Part = Name(text: string) | Index(text: string)

  type Path = Option<seq<Part>>

  // ----- one path -----

  predicate SafeChar(c: char) {
    'A' <= c <= 'Z' || 'a' <= c <= 'z' || '0' <= c <= '9' || c == '_' || c == '.' || c == ':' || c == '-'
  }

  ghost predicate AllSafe(s: string) { forall j | 0 <= j < |s| :: SafeChar(s[j]) }

  function Take(s: string, n: nat): (r: string)
    ensures r <= s && |r| <= n && (|s| <= n ==> r == s) && (|s| > n ==> |r| == n)
  {
    if |s| <= n then s else s[..n]
  }

  function Sanitized(part: Part): (r: string)
    ensures 1 <= |r| <= MAX_COMPONENT_LENGTH && AllSafe(r)
    ensures part.text == "" ==> r == "_"
    ensures part.text != "" ==> |r| == |part.text| || (|r| == MAX_COMPONENT_LENGTH && |r| < |part.text|)
    ensures forall j | 0 <= j < |r| && j < |part.text| && SafeChar(part.text[j]) :: r[j] == part.text[j]
    ensures forall j | 0 <= j < |r| && j < |part.text| && !SafeChar(part.text[j]) :: r[j] == '_'
  {
    var value := part.text;
    var replaced := seq(|value|, i requires 0 <= i < |value| => if SafeChar(value[i]) then value[i] else '_');
    if Take(replaced, MAX_COMPONENT_LENGTH) == "" then "_" else Take(replaced, MAX_COMPONENT_LENGTH)
  }

  /** Letters, digits, underscore, dot, colon and hyphen, by their codes. */
  lemma SafeCharIs(c: char)
    ensures SafeChar(c) <==>
              var u := c as int;
              65 <= u <= 90 || 97 <= u <= 122 || 48 <= u <= 57 || u == 95 || u == 46 || u == 58 || u == 45
  {
  }

  /** At most 64 characters, an underscore for each that is not safe and for the empty text. */
  lemma SanitizedIs(part: Part)
    ensures part.text == "" ==> Sanitized(part) == "_"
    ensures part.text != "" ==> |Sanitized(part)| == if |part.text| <= 64 then |part.text| else 64
    ensures forall j | 0 <= j < |Sanitized(part)| && j < |part.text| ::
              Sanitized(part)[j] == if SafeChar(part.text[j]) then part.text[j] else '_'
  {
    hide SafeChar;
  }

  function Components(parts: seq<Part>): (r: seq<string>)
    ensures |r| == |parts| && forall i | 0 <= i < |r| :: r[i] == Sanitized(parts[i])
  {
    seq(|parts|, i requires 0 <= i < |parts| => Sanitized(parts[i]))
  }

  function BoundedGraphqlPath(path: Path): string {
    if path.None? || path.value == [] then ROOT
    else
      var parts := if |path.value| <= MAX_PATH_COMPONENTS then path.value else path.value[..MAX_PATH_COMPONENTS];
      Take(Join(Components(parts), '.'), MAX_PATH_LENGTH)
  }

  /** A path is never empty or too long, has only safe characters unless it is the root, and is the rendering
      of its first 32 components up to 128 characters. */
  lemma PathIsBounded(path: Path)
    ensures 1 <= |BoundedGraphqlPath(path)| <= 128
    ensures BoundedGraphqlPath(path) == "<root>" <==> path.None? || path.value == []
    ensures BoundedGraphqlPath(path) == "<root>" || AllSafe(BoundedGraphqlPath(path))
    ensures path.Some? && path.value != [] ==> BoundedGraphqlPath(path) <= Join(Components(path.value), '.')
    ensures path.Some? && path.value != [] ==>
              var first := if |path.value| <= 32 then path.value else path.value[..32];
              var all := Join(Components(first), '.');
              BoundedGraphqlPath(path) == if |all| <= 128 then all else all[..128]
  {
    hide SafeChar, Join, Components;
    RootIsNoPath();
    if path.Some? && path.value != [] {
      var k := if |path.value| <= MAX_PATH_COMPONENTS then |path.value| else MAX_PATH_COMPONENTS;
      var parts := path.value[..k];
      assert k == |path.value| ==> parts == path.value;
      FirstComponents(path.value, k);
      SafeComponents(parts);
    }
  }

  lemma RootIsNoPath()
    ensures !AllSafe(ROOT)
  {
    assert !SafeChar(ROOT[0]);
  }

  lemma FirstComponents(parts: seq<Part>, k: nat)
    requires k <= |parts|
    ensures Join(Components(parts[..k]), '.') <= Join(Components(parts), '.')
  {
    hide Join;
    assert Components(parts[..k]) == Components(parts)[..k];
    JoinPrefix(Components(parts), '.', k);
  }

  lemma SafeComponents(parts: seq<Part>)
    requires parts != []
    ensures Join(Components(parts), '.') != "" && AllSafe(Join(Components(parts), '.'))
  {
    hide Join, SafeChar;
    DotIsSafe();
    JoinStart(Components(parts), '.');
    JoinChars(Components(parts), '.', SafeChar);
  }

  lemma DotIsSafe()
    ensures SafeChar('.')
  {
  }

  function Paths(errors: seq<Path>): (r: seq<string>)
    ensures |r| == |errors| && forall i | 0 <= i < |r| :: r[i] == BoundedGraphqlPath(errors[i])
  {
    seq(|errors|, i requires 0 <= i < |errors| => BoundedGraphqlPath(errors[i]))
  }

  // ----- JSON -----

  function HexDigit(n: int): char
    requires 0 <= n < 16
  {
    "0123456789abcdef"[n]
  }

  /** The JSON text of one character of a string. */
  function Escaped(c: char): string {
    if c == '"' then ['\\', '"']
    else if c == '\\' then ['\\', '\\']
    else if c == '\n' then ['\\', 'n']
    else if c == '\r' then ['\\', 'r']
    else if c == '\t' then ['\\', 't']
    else if c as int == 8 then ['\\', 'b']
    else if c as int == 12 then ['\\', 'f']
    else if c < ' ' then ['\\', 'u', '0', '0', HexDigit(c as int / 16), HexDigit(c as int % 16)]
    else [c]
  }

  function EscapedAll(s: string): string {
    if s == "" then "" else EscapedAll(s[..|s| - 1]) + Escaped(s[|s| - 1])
  }

  function JsonString(s: string): string { ['"'] + EscapedAll(s) + ['"'] }

  function JsonStrings(list: seq<string>): (r: seq<string>)
    ensures |r| == |list| && forall i | 0 <= i < |r| :: r[i] == JsonString(list[i])
  {
    seq(|list|, i requires 0 <= i < |list| => JsonString(list[i]))
  }

  function JsonArray(list: seq<string>): string { ['['] + Join(JsonStrings(list), ',') + [']'] }

  lemma JsonArrayMore(list: seq<string>, next: string)
    ensures |JsonArray(list + [next])| == |JsonArray(list)| + (if list == [] then 0 else 1) + |JsonString(next)|
  {
    assert JsonStrings(list + [next]) == JsonStrings(list) + [JsonString(next)];
    JoinMore(JsonStrings(list), ',', JsonString(next));
  }

  lemma {:induction false} NothingToEscape(s: string)
    requires forall j | 0 <= j < |s| :: Escaped(s[j]) == [s[j]]
    ensures EscapedAll(s) == s
  {
    hide Escaped;
    if s != "" {
      assert s == s[..|s| - 1] + [s[|s| - 1]];
      NothingToEscape(s[..|s| - 1]);
    }
  }

  lemma SafeIsPlain(c: char)
    requires SafeChar(c) || c == '<' || c == '>'
    ensures Escaped(c) == [c]
  {
  }

  /** A rendered path needs no escape: its JSON text is the path between quotes. */
  lemma PathJson(path: Path)
    ensures JsonString(BoundedGraphqlPath(path)) == ['"'] + BoundedGraphqlPath(path) + ['"']
  {
    hide BoundedGraphqlPath, Escaped, SafeChar;
    PathIsBounded(path);
    var s := BoundedGraphqlPath(path);
    forall j | 0 <= j < |s|
      ensures Escaped(s[j]) == [s[j]]
    {
      RootIsPlain(j);
      SafeIsPlain(s[j]);
    }
    NothingToEscape(s);
  }

  lemma RootIsPlain(j: nat)
    ensures j < |ROOT| ==> SafeChar(ROOT[j]) || ROOT[j] == '<' || ROOT[j] == '>'
  {
  }

  /** The longest prefix of the paths, of eight at most, whose JSON text fits. */
  method BoundedGraphqlErrorDetails(errors: seq<Path>) returns (details: seq<string>)
    ensures |details| <= 8 && details <= Paths(errors)
    ensures |JsonArray(details)| <= 1024
    ensures var k := |details|; k == |errors| || k == 8 || |JsonArray(Paths(errors)[..k + 1])| > 1024
  {
    hide BoundedGraphqlPath, JsonString, JsonArray;
    details := [];
    var serializedLength := 2;
    EmptyArray();
    for i := 0 to |errors|
      invariant details == Paths(errors)[..i] && i <= MAX_ERROR_COUNT
      invariant serializedLength == |JsonArray(details)| <= MAX_CONTEXT_LENGTH
    {
      if |details| >= MAX_ERROR_COUNT {
        return;
      }
      var path := BoundedGraphqlPath(errors[i]);
      var separatorLength := if |details| == 0 then 0 else 1;
      var entryLength := |JsonString(path)|;
      JsonArrayMore(details, path);
      assert Paths(errors)[..i + 1] == details + [path];
      if serializedLength + separatorLength + entryLength > MAX_CONTEXT_LENGTH {
        return;
      }
      details := details + [path];
      serializedLength := serializedLength + separatorLength + entryLength;
    }
    assert Paths(errors)[..|errors|] == Paths(errors);
  }

  /** Two brackets, two quotes for each path and commas in between. */
  function ArrayLength(list: seq<string>): nat {
    if list == [] then 2
    else ArrayLength(list[..|list| - 1]) + |list[|list| - 1]| + 2 + if |list| == 1 then 0 else 1
  }

  /** The length of the JSON text of the first paths. */
  lemma {:induction false} PathsLength(errors: seq<Path>, k: nat)
    requires k <= |errors|
    ensures |JsonArray(Paths(errors)[..k])| == ArrayLength(Paths(errors)[..k])
  {
    hide BoundedGraphqlPath, JsonString, JsonArray;
    EmptyArray();
    if k > 0 {
      var n := k - 1;
      PathsLength(errors, n);
      assert Paths(errors)[..k] == Paths(errors)[..n] + [Paths(errors)[n]];
      assert Paths(errors)[..k][..n] == Paths(errors)[..n];
      JsonArrayMore(Paths(errors)[..n], Paths(errors)[n]);
      PathJson(errors[n]);
    }
  }

  lemma EmptyArray()
    ensures |JsonArray([])| == 2
  {
  }

  /** The counter of the joined form. */
  method FormatGraphqlErrorPaths(errors: seq<Path>, maxLength: int) returns (r: string)
    ensures r <= Join(Paths(errors), ',')
    ensures |r| <= if maxLength < 0 then 0 else maxLength
    ensures if errors != [] && 0 < maxLength < |Paths(errors)[0]| then r == Paths(errors)[0][..maxLength]
            else exists k: nat | k <= |errors| && k <= 8 ::
              && r == Join(Paths(errors)[..k], ',')
              && (k < |errors| && k < 8 ==> |Join(Paths(errors)[..k + 1], ',')| > maxLength)
  {
    hide BoundedGraphqlPath, Join;
    ghost var all := Paths(errors);
    var paths: seq<string>, length := [], 0;
    NothingJoined(',');
    for i := 0 to |errors|
      invariant paths == all[..i] && i <= MAX_ERROR_COUNT && (i > 0 ==> |all[0]| <= maxLength)
      invariant length == |Join(paths, ',')| <= (if maxLength < 0 then 0 else maxLength)
    {
      JoinPrefix(all, ',', i);
      if |paths| >= MAX_ERROR_COUNT {
        break;
      }
      var path := BoundedGraphqlPath(errors[i]);
      PathIsBounded(errors[i]);
      JoinMore(paths, ',', path);
      assert all[..i + 1] == paths + [path];
      var separatorLength := if |paths| == 0 then 0 else 1;
      var remaining := maxLength - length - separatorLength;
      if remaining <= 0 {
        break;
      }
      if |path| > remaining && |paths| > 0 {
        break;
      }
      var bounded := Take(path, remaining);
      if |bounded| == 0 {
        break;
      }
      paths := paths + [bounded];
      length := length + separatorLength + |bounded|;
      if |bounded| < |path| {
        assert paths == [bounded] && path == all[0];
        JoinStart(all, ',');
        OneJoined(bounded, ',');
        return Join(paths, ',');
      }
    }
    JoinPrefix(all, ',', |paths|);
    r := Join(paths, ',');
  }

  lemma NothingJoined(sep: char)
    ensures Join([], sep) == ""
  {
  }

  lemma OneJoined(s: string, sep: char)
    ensures Join([s], sep) == s
  {
  }
}
