/** The bounded filter that keeps a handled error from being reported twice in a row. */
module ErrorFilter {
  import Counting

  type Fingerprint = string

  const MAX_REPORTED := 128

  /** The last fingerprints that were emitted, as many as the filter holds. */
  function Recent(emitted: seq<Fingerprint>): seq<Fingerprint> {
    if |emitted| <= MAX_REPORTED then emitted else emitted[|emitted| - MAX_REPORTED..]
  }

  /** What a history of reported errors emits. */
  function Emitted(reports: seq<Fingerprint>): (emitted: seq<Fingerprint>) {
    if reports == [] then []
    else
      var before, last := Emitted(reports[..|reports| - 1]), reports[|reports| - 1];
      if last in Recent(before) then before else before + [last]
  }

  /** Two emissions of one fingerprint are more than the size of the filter apart. */
  ghost predicate Spaced(emitted: seq<Fingerprint>) {
    forall i, j | 0 <= i < j < |emitted| && emitted[i] == emitted[j] :: j - i > MAX_REPORTED
  }

  lemma {:induction false} EmissionsAreSpaced(reports: seq<Fingerprint>)
    ensures Spaced(Emitted(reports))
  {
    if reports != [] {
      var before, last := Emitted(reports[..|reports| - 1]), reports[|reports| - 1];
      EmissionsAreSpaced(reports[..|reports| - 1]);
      if last !in Recent(before) {
        OlderIsFar(before, last);
      }
    }
  }

  lemma LateIsRecent(emitted: seq<Fingerprint>, i: nat)
    requires i < |emitted| <= i + MAX_REPORTED
    ensures emitted[i] in Recent(emitted)
  {
    assert Recent(emitted)[i - (|emitted| - |Recent(emitted)|)] == emitted[i];
  }

  lemma OlderIsFar(emitted: seq<Fingerprint>, f: Fingerprint)
    requires f !in Recent(emitted)
    ensures forall i | 0 <= i < |emitted| && emitted[i] == f :: |emitted| - i > MAX_REPORTED
  {
    forall i | 0 <= i < |emitted| && |emitted| - i <= MAX_REPORTED
      ensures emitted[i] != f
    {
      LateIsRecent(emitted, i);
    }
  }

  /** The filter holds the last 128. */
  lemma RecentIff(emitted: seq<Fingerprint>, f: Fingerprint)
    ensures f !in Recent(emitted) <==> forall i | 0 <= i < |emitted| && |emitted| - 128 <= i :: emitted[i] != f
  {
    var shift := |emitted| - |Recent(emitted)|;
    assert forall k | 0 <= k < |Recent(emitted)| :: Recent(emitted)[k] == emitted[k + shift];
    forall i | 0 <= i < |emitted| && |emitted| - 128 <= i
      ensures emitted[i] in Recent(emitted)
    {
      LateIsRecent(emitted, i);
    }
  }

  lemma FarApart(reports: seq<Fingerprint>, i: nat, j: nat)
    requires i < j < |Emitted(reports)| && Emitted(reports)[i] == Emitted(reports)[j]
    ensures i < j - MAX_REPORTED
    ensures var others := Emitted(reports)[j - MAX_REPORTED..j];
            && Counting.Distinct(others) && |Counting.Elements(others)| == MAX_REPORTED
            && Emitted(reports)[j] !in others
  {
    EmissionsAreSpaced(reports);
    var emitted := Emitted(reports);
    var others := emitted[j - MAX_REPORTED..j];
    forall a, b | 0 <= a < b < |others|
      ensures others[a] != others[b]
    {
      assert others[a] == emitted[j - MAX_REPORTED + a] && others[b] == emitted[j - MAX_REPORTED + b];
    }
    Counting.DistinctCount(others);
  }

  /** Between two emissions of a fingerprint, 128 others at least are emitted, all different. */
  lemma RepeatsAreFarApart(reports: seq<Fingerprint>, i: nat, j: nat)
    requires i < j < |Emitted(reports)| && Emitted(reports)[i] == Emitted(reports)[j]
    ensures i < j - 128
    ensures var others := Emitted(reports)[j - 128..j];
            && Counting.Distinct(others) && |Counting.Elements(others)| == 128
            && Emitted(reports)[j] !in others
  {
    hide Emitted, Counting.Distinct, Counting.Elements;
    FarApart(reports, i, j);
  }

  /** No error goes unreported, and nothing else is emitted. */
  lemma {:induction false} EveryErrorIsEmitted(reports: seq<Fingerprint>)
    ensures forall f :: f in reports <==> f in Emitted(reports)
  {
    if reports != [] {
      var n := |reports| - 1;
      EveryErrorIsEmitted(reports[..n]);
      assert reports == reports[..n] + [reports[n]];
      forall f | f in Recent(Emitted(reports[..n]))
        ensures f in Emitted(reports[..n])
      {
      }
    }
  }

  lemma RecentIsDistinct(emitted: seq<Fingerprint>)
    requires Spaced(emitted)
    ensures Counting.Distinct(Recent(emitted)) && |Recent(emitted)| <= MAX_REPORTED
  {
    var shift := |emitted| - |Recent(emitted)|;
    forall a, b | 0 <= a < b < |Recent(emitted)|
      ensures Recent(emitted)[a] != Recent(emitted)[b]
    {
      assert Recent(emitted)[a] == emitted[a + shift] && Recent(emitted)[b] == emitted[b + shift];
    }
  }

  /** The set keeps its keys in the order they were added. */
  class Filter {
    var keys: seq<Fingerprint>
    ghost var reports: seq<Fingerprint>

    ghost predicate Valid()
      reads this
    {
      keys == Recent(Emitted(reports))
    }

    constructor ()
      ensures Valid() && reports == []
    {
      keys := [];
      reports := [];
    }

    /** Outside a browser nothing is reported. */
    method Report(inBrowser: bool, fingerprint: Fingerprint) returns (emit: bool)
      requires Valid()
      modifies this
      ensures Valid()
      ensures reports == if inBrowser then old(reports) + [fingerprint] else old(reports)
      ensures Emitted(reports) == if emit then Emitted(old(reports)) + [fingerprint] else Emitted(old(reports))
      ensures var emitted := Emitted(old(reports));
              emit <==> inBrowser
                        && forall i | 0 <= i < |emitted| && |emitted| - 128 <= i :: emitted[i] != fingerprint
    {
      if !inBrowser {
        return false;
      }
      ghost var emitted := Emitted(reports);
      RecentIff(emitted, fingerprint);
      reports := reports + [fingerprint];
      assert reports[..|reports| - 1] == old(reports);
      if fingerprint in keys {
        return false;
      }
      keys := keys + [fingerprint];
      if |keys| > MAX_REPORTED {
        keys := keys[1..];
      }
      assert keys == Recent(emitted + [fingerprint]);
      emit := true;
    }

    lemma KeysAreTheLastEmitted()
      requires Valid()
      ensures Counting.Distinct(keys) && |keys| == Counting.Min(128, |Emitted(reports)|)
      ensures keys == Emitted(reports)[|Emitted(reports)| - |keys|..]
    {
      EmissionsAreSpaced(reports);
      RecentIsDistinct(Emitted(reports));
    }
  }
}
