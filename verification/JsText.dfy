/** JavaScript strings, their characters standing for UTF-16 code units. */
module JsText {
  import Strings

  /** The characters `trim` removes. */
  predicate JsSpace(c: char) {
    var u := c as int;
    || 0x09 <= u <= 0x0D || u == 0x20 || u == 0xA0 || u == 0x1680
    || 0x2000 <= u <= 0x200A || u == 0x2028 || u == 0x2029 || u == 0x202F || u == 0x205F || u == 0x3000 || u == 0xFEFF
  }

  /** The white space of Rust without the next-line character, and the byte order mark. */
  lemma JsSpaceIs(c: char)
    ensures JsSpace(c) <==>
              c as int in {9, 10, 11, 12, 13, 32, 160, 5760, 8192, 8193, 8194, 8195, 8196, 8197, 8198, 8199, 8200,
                           8201, 8202, 8232, 8233, 8239, 8287, 12288, 65279}
  {
  }

  function JsTrim(s: string): (r: string)
    ensures Strings.Trimmed(r, JsSpace)
    ensures Strings.Trimmed(s, JsSpace) ==> r == s
  {
    Strings.Trim(s, JsSpace)
  }

  lemma JsTrimIff(s: string, member: string)
    ensures JsTrim(s) == member <==> Strings.Stripped(s, member, JsSpace)
  {
    Strings.TrimIff(s, member, JsSpace);
  }
}
