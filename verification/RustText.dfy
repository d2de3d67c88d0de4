/** Rust `str` values as sequences of Unicode scalar values, with the few library
    operations the header parsers rely on. */
module RustText {
  import Strings

  /** Number of UTF-8 bytes of one scalar value. */
  function Utf8Width(c: char): (n: nat)
    ensures 1 <= n <= 4
  {
    if c as int < 0x80 then 1
    else if c as int < 0x800 then 2
    else if c as int < 0x1_0000 then 3
    else 4
  }

  /** `str::len`: the length in bytes. */
  function ByteLength(s: string): (n: nat)
    ensures |s| <= n
  {
    if s == "" then 0 else Utf8Width(s[0]) + ByteLength(s[1..])
  }

  lemma {:induction false} ByteLengthConcat(a: string, b: string)
    ensures ByteLength(a + b) == ByteLength(a) + ByteLength(b)
  {
    if a == "" {
      assert a + b == b;
    } else {
      ByteLengthConcat(a[1..], b);
      assert (a + b)[1..] == a[1..] + b;
    }
  }

  lemma {:induction false} AsciiLength(s: string)
    requires forall i | 0 <= i < |s| :: s[i] as int < 0x80
    ensures ByteLength(s) == |s|
  {
    if s != "" {
      AsciiLength(s[1..]);
    }
  }

  predicate AsciiDigit(c: char) { '0' <= c <= '9' }

  predicate AsciiLowercase(c: char) { 'a' <= c <= 'z' }

  function AsciiLower(c: char): char {
    if 'A' <= c <= 'Z' then (c as int + 32) as char else c
  }

  /** `to_ascii_lowercase`. */
  function AsciiLowercased(s: string): (r: string)
    ensures |r| == |s|
  {
    seq(|s|, i requires 0 <= i < |s| => AsciiLower(s[i]))
  }

  /** The Unicode White_Space property, which `str::trim` uses. */
  predicate WhiteSpace(c: char) {
    var u := c as int;
    || 0x09 <= u <= 0x0D || u == 0x20 || u == 0x85 || u == 0xA0 || u == 0x1680
    || 0x2000 <= u <= 0x200A || u == 0x2028 || u == 0x2029 || u == 0x202F || u == 0x205F || u == 0x3000
  }

  /** The general category Cc, which `char::is_control` uses. */
  predicate Control(c: char) {
    var u := c as int;
    u <= 0x1F || 0x7F <= u <= 0x9F
  }

  /** Optional whitespace: space and horizontal tab. */
  predicate Ows(c: char) { c == ' ' || c == '\t' }

  predicate Blank(s: string) { forall c | c in s :: WhiteSpace(c) }

  // ----- the characters by their code points -----

  lemma WhiteSpaceIs(c: char)
    ensures WhiteSpace(c) <==>
              c as int in {9, 10, 11, 12, 13, 32, 133, 160, 5760, 8192, 8193, 8194, 8195, 8196, 8197, 8198, 8199, 8200,
                           8201, 8202, 8232, 8233, 8239, 8287, 12288}
  {
  }

  lemma ControlIs(c: char)
    ensures Control(c) <==> c as int <= 31 || 127 <= c as int <= 159
    ensures Ows(c) <==> c as int == 32 || c as int == 9
    ensures AsciiLower(c) as int == c as int + (if 65 <= c as int <= 90 then 32 else 0)
  {
  }

  lemma WidthIs(c: char)
    ensures Utf8Width(c) == if c as int <= 127 then 1 else if c as int <= 2047 then 2
                            else if c as int <= 65535 then 3 else 4
    ensures ByteLength([c]) == Utf8Width(c) && ByteLength("") == 0
  {
    assert [c][1..] == "";
  }

  // ----- lengths of parts -----

  lemma {:induction false} TrimStartLength(s: string, strip: char -> bool)
    ensures ByteLength(Strings.TrimStart(s, strip)) <= ByteLength(s)
  {
    if s != "" && strip(s[0]) {
      TrimStartLength(s[1..], strip);
    }
  }

  lemma {:induction false} TrimEndLength(s: string, strip: char -> bool)
    ensures ByteLength(Strings.TrimEnd(s, strip)) <= ByteLength(s)
  {
    if s != "" && strip(s[|s| - 1]) {
      ByteLengthConcat(s[..|s| - 1], s[|s| - 1..]);
      assert s == s[..|s| - 1] + s[|s| - 1..];
      TrimEndLength(s[..|s| - 1], strip);
    }
  }

  /** Trimming never lengthens. */
  lemma TrimLength(s: string, strip: char -> bool)
    ensures ByteLength(Strings.Trim(s, strip)) <= ByteLength(s)
  {
    TrimStartLength(s, strip);
    TrimEndLength(Strings.TrimStart(s, strip), strip);
  }

  function TotalLength(parts: seq<string>): nat {
    if parts == [] then 0 else ByteLength(parts[0]) + TotalLength(parts[1..])
  }

  lemma {:induction false} JoinLength(parts: seq<string>, sep: char)
    requires |parts| >= 1 && sep as int < 0x80
    ensures ByteLength(Strings.Join(parts, sep)) == TotalLength(parts) + |parts| - 1
  {
    if |parts| > 1 {
      JoinLength(parts[1..], sep);
      ByteLengthConcat(parts[0] + [sep], Strings.Join(parts[1..], sep));
      ByteLengthConcat(parts[0], [sep]);
    }
  }
}
