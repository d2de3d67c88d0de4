/** Trimming, splitting and joining of strings, whatever their characters stand for. */
module Strings {
  import opened Outcomes

  // ----- trimming -----

  function TrimStart(s: string, strip: char -> bool): (r: string)
    ensures r == "" || !strip(r[0])
    ensures s != "" && !strip(s[0]) ==> r == s
  {
    if s != "" && strip(s[0]) then TrimStart(s[1..], strip) else s
  }

  function TrimEnd(s: string, strip: char -> bool): (r: string)
    ensures r == "" || !strip(r[|r| - 1])
    ensures r <= s
    ensures s != "" && !strip(s[|s| - 1]) ==> r == s
  {
    if s != "" && strip(s[|s| - 1]) then TrimEnd(s[..|s| - 1], strip) else s
  }

  function Trim(s: string, strip: char -> bool): (r: string)
    ensures Trimmed(r, strip)
    ensures Trimmed(s, strip) ==> r == s
  {
    TrimEnd(TrimStart(s, strip), strip)
  }

  predicate Trimmed(s: string, strip: char -> bool) {
    s != "" ==> !strip(s[0]) && !strip(s[|s| - 1])
  }

  /** `member` is what is left of `s` without the characters to strip around it. */
  ghost predicate Stripped(s: string, member: string, strip: char -> bool) {
    && (member != "" ==> !strip(member[0]) && !strip(member[|member| - 1]))
    && exists before, after :: Around(s, before, member, after, strip)
  }

  ghost predicate Around(s: string, before: string, member: string, after: string, strip: char -> bool) {
    s == before + member + after && forall c | c in before + after :: strip(c)
  }

  lemma {:induction false} TrimStartCuts(s: string, strip: char -> bool) returns (before: string)
    ensures s == before + TrimStart(s, strip) && forall c | c in before :: strip(c)
  {
    if s != "" && strip(s[0]) {
      var rest := TrimStartCuts(s[1..], strip);
      before := [s[0]] + rest;
      assert s == [s[0]] + s[1..];
    } else {
      before := "";
    }
  }

  lemma {:induction false} TrimEndCuts(s: string, strip: char -> bool)
    ensures forall c | c in s[|TrimEnd(s, strip)|..] :: strip(c)
  {
    if s != "" && strip(s[|s| - 1]) {
      var n := |s| - 1;
      var kept := |TrimEnd(s[..n], strip)|;
      TrimEndCuts(s[..n], strip);
      assert s[kept..] == s[..n][kept..] + [s[n]];
    }
  }

  lemma {:induction false} TrimStartAfter(before: string, rest: string, strip: char -> bool)
    requires forall c | c in before :: strip(c)
    ensures TrimStart(before + rest, strip) == TrimStart(rest, strip)
  {
    if before == "" {
      assert before + rest == rest;
    } else {
      assert (before + rest)[1..] == before[1..] + rest;
      TrimStartAfter(before[1..], rest, strip);
    }
  }

  lemma {:induction false} TrimEndBefore(rest: string, after: string, strip: char -> bool)
    requires forall c | c in after :: strip(c)
    ensures TrimEnd(rest + after, strip) == TrimEnd(rest, strip)
  {
    if after == "" {
      assert rest + after == rest;
    } else {
      var n := |after| - 1;
      assert (rest + after)[..|rest| + n] == rest + after[..n];
      TrimEndBefore(rest, after[..n], strip);
    }
  }

  lemma TrimStrips(s: string, strip: char -> bool)
    ensures Stripped(s, Trim(s, strip), strip)
  {
    var member := Trim(s, strip);
    var before := TrimStartCuts(s, strip);
    var rest := TrimStart(s, strip);
    TrimEndCuts(rest, strip);
    hide TrimStart, TrimEnd;
    var after := rest[|member|..];
    assert member <= rest && rest == member + after;
    assert Around(s, before, member, after, strip);
  }

  lemma StrippedIsTrim(s: string, before: string, member: string, after: string, strip: char -> bool)
    requires Around(s, before, member, after, strip) && Trimmed(member, strip)
    ensures Trim(s, strip) == member
  {
    assert (forall c | c in before :: strip(c)) && forall c | c in after :: strip(c);
    assert s == before + (member + after);
    TrimStartAfter(before, member + after, strip);
    TrimEndBefore(member, after, strip);
    if member == "" {
      assert member + after == after + "";
      TrimStartAfter(after, "", strip);
    }
  }

  /** Trimming strips exactly these characters, from both ends. */
  lemma TrimIff(s: string, member: string, strip: char -> bool)
    ensures Trim(s, strip) == member <==> Stripped(s, member, strip)
  {
    hide Trim, Around;
    TrimStrips(s, strip);
    if Stripped(s, member, strip) {
      var before, after :| Around(s, before, member, after, strip);
      StrippedIsTrim(s, before, member, after, strip);
    }
  }

  // ----- splitting -----

  /** `split` on a character. */
  function Split(s: string, sep: char): (parts: seq<string>)
    ensures |parts| >= 1
  {
    if s == "" then [""]
    else
      var rest := Split(s[1..], sep);
      if s[0] == sep then [""] + rest else [[s[0]] + rest[0]] + rest[1..]
  }

  function Join(parts: seq<string>, sep: char): string {
    if parts == [] then ""
    else if |parts| == 1 then parts[0]
    else parts[0] + [sep] + Join(parts[1..], sep)
  }

  lemma {:induction false} JoinMore(parts: seq<string>, sep: char, next: string)
    ensures Join(parts + [next], sep) == if parts == [] then next else Join(parts, sep) + [sep] + next
  {
    if parts != [] {
      assert (parts + [next])[1..] == parts[1..] + [next];
      JoinMore(parts[1..], sep, next);
    }
  }

  lemma {:induction false} JoinPrefix(parts: seq<string>, sep: char, k: nat)
    requires k <= |parts|
    ensures Join(parts[..k], sep) <= Join(parts, sep)
  {
    if k == |parts| {
      assert parts[..k] == parts;
    } else if k > 1 {
      assert parts[..k][1..] == parts[1..][..k - 1];
      JoinPrefix(parts[1..], sep, k - 1);
    }
  }

  lemma {:induction false} JoinChars(parts: seq<string>, sep: char, good: char -> bool)
    requires good(sep) && forall i, j | 0 <= i < |parts| && 0 <= j < |parts[i]| :: good(parts[i][j])
    ensures forall j | 0 <= j < |Join(parts, sep)| :: good(Join(parts, sep)[j])
  {
    if |parts| > 1 {
      assert forall i | 1 <= i < |parts| :: parts[1..][i - 1] == parts[i];
      JoinChars(parts[1..], sep, good);
    }
  }

  lemma JoinStart(parts: seq<string>, sep: char)
    requires parts != []
    ensures parts[0] <= Join(parts, sep)
  {
  }

  lemma {:induction false} JoinOfSplit(s: string, sep: char)
    ensures Join(Split(s, sep), sep) == s
  {
    if s != "" {
      JoinOfSplit(s[1..], sep);
      var rest := Split(s[1..], sep);
      var parts := Split(s, sep);
      if s[0] == sep {
        assert parts[1..] == rest;
        assert Join(parts, sep) == "" + [sep] + s[1..];
      } else if |rest| > 1 {
        assert parts[1..] == rest[1..];
      }
    }
  }

  /** No part has a separator. */
  lemma {:induction false} SplitParts(s: string, sep: char)
    ensures forall part | part in Split(s, sep) :: sep !in part
  {
    if s != "" {
      SplitParts(s[1..], sep);
      var rest := Split(s[1..], sep);
      assert rest[0] in rest && forall part | part in rest[1..] :: part in rest;
    }
  }

  lemma {:induction false} SplitOfPrefix(a: string, sep: char, b: string)
    requires sep !in a
    ensures Split(a + [sep] + b, sep) == [a] + Split(b, sep)
    ensures Split(a, sep) == [a]
  {
    if a == "" {
      assert (a + [sep] + b)[1..] == b;
    } else {
      SplitOfPrefix(a[1..], sep, b);
      assert (a + [sep] + b)[1..] == a[1..] + [sep] + b;
      assert [a[0]] + a[1..] == a;
    }
  }

  lemma {:induction false} SplitOfJoin(parts: seq<string>, sep: char)
    requires |parts| >= 1
    requires forall part | part in parts :: sep !in part
    ensures Split(Join(parts, sep), sep) == parts
  {
    if |parts| == 1 {
      SplitOfPrefix(parts[0], sep, "");
    } else {
      SplitOfPrefix(parts[0], sep, Join(parts[1..], sep));
      SplitOfJoin(parts[1..], sep);
    }
  }

  /** Cut at the first occurrence of a character. */
  function SplitOnce(s: string, sep: char): (r: Option<(string, string)>)
    ensures r.None? <==> sep !in s
    ensures r.Some? ==> sep !in r.value.0 && s == r.value.0 + [sep] + r.value.1
  {
    if s == "" then None
    else if s[0] == sep then Some(("", s[1..]))
    else
      match SplitOnce(s[1..], sep)
      case None => None
      case Some(cut) =>
        assert s == [s[0]] + s[1..];
        Some(([s[0]] + cut.0, cut.1))
  }

  lemma {:induction false} SplitOnceOf(a: string, sep: char, b: string)
    requires sep !in a
    ensures SplitOnce(a + [sep] + b, sep) == Some((a, b))
  {
    var s := a + [sep] + b;
    if a == "" {
      assert s[0] == sep && s[1..] == b;
    } else {
      SplitOnceOf(a[1..], sep, b);
      assert s[0] == a[0] != sep && s[1..] == a[1..] + [sep] + b;
      assert SplitOnce(s[1..], sep) == Some((a[1..], b));
      assert [a[0]] + a[1..] == a;
    }
  }
}
