/** Choosing from a draw that stands for itself divided by 2 to the 32. Every comparison is scaled by
    that denominator, so all numbers are exact. */
module WeightedChoice {
  import JsText
  import opened Outcomes
  import Strings

  const UNIT := 0x1_0000_0000

  // ----- cumulative weights -----

  function Total(weights: seq<nat>): (sum: nat) {
    if weights == [] then 0 else Total(weights[..|weights| - 1]) + weights[|weights| - 1]
  }

  /** The draw lies in the interval of the k-th weight: from the sum of the earlier ones, inclusive,
      to the sum that includes it, exclusive. */
  ghost predicate InInterval(weights: seq<nat>, draw: nat, k: nat)
    requires k < |weights|
  {
    Total(weights[..k]) * UNIT <= draw * Total(weights) < Total(weights[..k + 1]) * UNIT
  }

  lemma {:induction false} TotalsGrow(weights: seq<nat>, i: nat, j: nat)
    requires i <= j <= |weights|
    ensures Total(weights[..i]) <= Total(weights[..j])
  {
    if i < j {
      TotalsGrow(weights, i, j - 1);
      assert weights[..j][..j - 1] == weights[..j - 1];
    }
  }

  lemma NextTotal(weights: seq<nat>, k: nat)
    requires k < |weights|
    ensures Total(weights[..k + 1]) == Total(weights[..k]) + weights[k]
  {
    assert weights[..k + 1][..k] == weights[..k];
  }

  /** Intervals do not overlap, and one of weight zero is empty. */
  lemma IntervalIsUnique(weights: seq<nat>, draw: nat, i: nat, j: nat)
    requires i < |weights| && j < |weights| && InInterval(weights, draw, i) && InInterval(weights, draw, j)
    ensures i == j && weights[i] > 0
  {
    NextTotal(weights, i);
    if i < j {
      TotalsGrow(weights, i + 1, j);
    } else if j < i {
      TotalsGrow(weights, j + 1, i);
    }
  }

  /** Some draw selects each item of positive weight, the generator's draws being enough. */
  lemma EveryPositiveWeightIsDrawn(weights: seq<nat>, k: nat) returns (draw: nat)
    requires k < |weights| && weights[k] > 0 && Total(weights) < UNIT
    ensures 0 < draw < UNIT && InInterval(weights, draw, k)
  {
    var total, low := Total(weights), Total(weights[..k]) * UNIT;
    NextTotal(weights, k);
    TotalsGrow(weights, k + 1, |weights|);
    assert weights[..|weights|] == weights;
    var high := Total(weights[..k + 1]) * UNIT;
    assert high >= low + UNIT && high <= total * UNIT;
    draw := low / total + 1;
    DrawAbove(low, high, total);
  }

  lemma Quotient(low: nat, total: nat) returns (q: nat, floor: nat)
    requires total > 0
    ensures q == low / total && floor == q * total && floor <= low < floor + total
  {
    q := low / total;
    floor := q * total;
  }

  lemma DrawAbove(low: nat, high: nat, total: nat)
    requires 0 < total < UNIT && low + UNIT <= high <= total * UNIT
    ensures var draw := low / total + 1; low <= draw * total < high && draw < UNIT
  {
    var q, floor := Quotient(low, total);
    assert (q + 1) * total == floor + total;
    if q + 1 >= UNIT {
      ProductGrows(UNIT, q + 1, total);
      assert false;
    }
  }

  lemma ProductGrows(a: nat, b: nat, c: nat)
    requires a <= b
    ensures a * c <= b * c
  {
  }

  // ----- the choice -----

  datatype Weighted<T> = Weighted(item: T, weight: nat)

  function WeightsOf<T>(choices: seq<Weighted<T>>): (ws: seq<nat>)
    ensures |ws| == |choices| && forall i | 0 <= i < |ws| :: ws[i] == choices[i].weight
  {
    seq(|choices|, i requires 0 <= i < |choices| => choices[i].weight)
  }

  /** None stands for the throw, which only a zero total reaches. */
  method ChooseWeighted<T>(choices: seq<Weighted<T>>, draw: nat) returns (r: Option<T>)
    requires draw < UNIT
    ensures r.Some? <==> Total(WeightsOf(choices)) > 0
    ensures r.Some? ==> exists k | 0 <= k < |choices| ::
                          r.value == choices[k].item && choices[k].weight > 0 && InInterval(WeightsOf(choices), draw, k)
  {
    ghost var weights := WeightsOf(choices);
    var total := 0;
    for i := 0 to |choices|
      invariant total == Total(weights[..i])
    {
      NextTotal(weights, i);
      total := total + choices[i].weight;
    }
    assert weights[..|weights|] == weights;
    var cursor := draw * total;
    for i := 0 to |choices|
      invariant cursor == draw * total - Total(weights[..i]) * UNIT && cursor >= 0
    {
      NextTotal(weights, i);
      cursor := cursor - choices[i].weight * UNIT;
      if cursor < 0 {
        TotalsGrow(weights, i + 1, |choices|);
        assert InInterval(weights, draw, i);
        return Some(choices[i].item);
      }
    }
    BelowTheTotal(draw, total);
    r := None;
  }

  lemma BelowTheTotal(draw: nat, total: nat)
    requires draw < UNIT
    ensures total > 0 ==> draw * total < total * UNIT
  {
  }

  /** `choose`: None stands for the throw. */
  method Choose<T>(items: seq<T>, draw: nat) returns (r: Option<T>)
    requires draw < UNIT
    ensures r.None? <==> items == []
    ensures r.Some? ==> exists k | 0 <= k < |items| ::
                          r.value == items[k] && k * UNIT <= draw * |items| < (k + 1) * UNIT
  {
    var index := draw * |items| / UNIT;
    BelowTheTotal(draw, |items|);
    r := if index < |items| then Some(items[index]) else None;
  }

  /** Every integer of the range, each from an interval of draws of the same length; with the bounds the
      wrong way round, an integer between them. */
  method RandomInt(draw: nat, min: int, max: int) returns (r: int)
    requires draw < UNIT
    ensures (r - min) * UNIT <= draw * (max - min + 1) < (r - min + 1) * UNIT
    ensures min <= max ==> min <= r <= max
    ensures min > max ==> max < r <= min
  {
    var count := max - min + 1;
    var steps, part := FloorOf(draw * count);
    DrawnPart(draw, count, steps, part);
    r := min + steps;
  }

  /** `Math.floor` of a scaled number, and the part it drops. */
  method FloorOf(scaled: int) returns (floor: int, ghost part: int)
    ensures scaled == floor * UNIT + part && 0 <= part < UNIT
  {
    floor, part := scaled / UNIT, scaled % UNIT;
  }

  lemma DrawnPart(draw: nat, count: int, steps: int, part: int)
    requires draw < UNIT && draw * count == steps * UNIT + part && 0 <= part < UNIT
    ensures count > 0 ==> 0 <= steps < count
    ensures count <= 0 ==> count <= steps <= 0
  {
    if count > 0 {
      BelowTheTotal(draw, count);
    } else {
      var size := -count;
      assert draw * count == -(draw * size);
      BelowTheTotal(draw, size);
    }
  }

  // ----- workflows -----

  datatype Workflow = Browse | Product | Cart | Checkout | Order | Analytics

  type Weights = Workflow -> nat

  const WORKFLOWS: seq<Workflow> := [Browse, Product, Cart, Checkout, Order, Analytics]

  function DefaultWeight(w: Workflow): nat {
    match w
    case Browse => 30
    case Product => 20
    case Cart => 15
    case Checkout => 20
    case Order => 10
    case Analytics => 5
  }

  function WorkflowNamed(name: string): Option<Workflow> {
    if name == "browse" then Some(Browse)
    else if name == "product" then Some(Product)
    else if name == "cart" then Some(Cart)
    else if name == "checkout" then Some(Checkout)
    else if name == "order" then Some(Order)
    else if name == "analytics" then Some(Analytics)
    else None
  }

  /** The weights in the order of the workflows. */
  function InOrder(weights: Weights): (ws: seq<nat>)
    ensures |ws| == |WORKFLOWS| && forall i | 0 <= i < |ws| :: ws[i] == weights(WORKFLOWS[i])
  {
    seq(|WORKFLOWS|, i requires 0 <= i < |WORKFLOWS| => weights(WORKFLOWS[i]))
  }

  /** `mode` is None when workflows are mixed. */
  method ChooseWorkflow(mode: Option<Workflow>, weights: Weights, draw: nat) returns (r: Option<Workflow>)
    requires draw < UNIT
    ensures mode.Some? ==> r == mode
    ensures mode.None? ==> (r.Some? <==> Total(InOrder(weights)) > 0)
    ensures mode.None? && r.Some? ==>
              weights(r.value) > 0
              && exists k | 0 <= k < |WORKFLOWS| :: WORKFLOWS[k] == r.value && InInterval(InOrder(weights), draw, k)
  {
    if mode.Some? {
      return mode;
    }
    var choices := seq(|WORKFLOWS|, i requires 0 <= i < |WORKFLOWS| => Weighted(WORKFLOWS[i], weights(WORKFLOWS[i])));
    assert WeightsOf(choices) == InOrder(weights);
    r := ChooseWeighted(choices, draw);
  }

  // ----- reading the weights -----

  datatype WeightsError = InvalidEntry | InvalidValue | NoPositiveTotal

  /** The workflow and the text of the weight of `name=weight`. */
  function EntryParts(entry: string): Option<(Workflow, string)> {
    var parts := Strings.Split(entry, '=');
    if |parts| != 2 || WorkflowNamed(JsText.JsTrim(parts[0])).None? then None
    else Some((WorkflowNamed(JsText.JsTrim(parts[0])).value, JsText.JsTrim(parts[1])))
  }

  /** `number` is the conversion of a text to a number, None unless that is an integer. */
  predicate ValidEntry(entry: string, number: string -> Option<int>) {
    EntryParts(entry).Some? && number(EntryParts(entry).value.1).Some? && number(EntryParts(entry).value.1).value >= 0
  }

  ghost predicate ValidEntries(entries: seq<string>, number: string -> Option<int>) {
    forall e | e in entries :: ValidEntry(e, number)
  }

  /** The last entry that names a workflow gives its weight. */
  function WeightIn(entries: seq<string>, number: string -> Option<int>, w: Workflow): (weight: nat)
    requires ValidEntries(entries, number)
  {
    if entries == [] then DefaultWeight(w)
    else
      var last := entries[|entries| - 1];
      assert last in entries && ValidEntry(last, number);
      if EntryParts(last).value.0 == w then number(EntryParts(last).value.1).value
      else WeightIn(entries[..|entries| - 1], number, w)
  }

  /** The entries of the setting, none when it is absent or blank. */
  function Entries(raw: Option<string>): seq<string> {
    if raw.None? || JsText.JsTrim(raw.value) == "" then [] else Strings.Split(JsText.JsTrim(raw.value), ',')
  }

  function Assigned(weights: Weights, w: Workflow, weight: nat): Weights {
    x => if x == w then weight else weights(x)
  }

  method ParseWeights(raw: Option<string>, number: string -> Option<int>)
    returns (r: Result<Weights, WeightsError>)
    ensures r.Err? && r.error.InvalidEntry? ==> exists e | e in Entries(raw) :: EntryParts(e).None?
    ensures r.Err? && r.error.InvalidValue? ==> exists e | e in Entries(raw) ::
              EntryParts(e).Some? && !ValidEntry(e, number)
    ensures r.Err? && r.error.NoPositiveTotal? ==>
              ValidEntries(Entries(raw), number) && Entries(raw) != []
              && forall w :: WeightIn(Entries(raw), number, w) == 0
    ensures r.Ok? ==>
              ValidEntries(Entries(raw), number) && Total(InOrder(r.value)) > 0
              && forall w :: r.value(w) == WeightIn(Entries(raw), number, w)
  {
    hide EntryParts, JsText.JsTrim, Total;
    var weights: Weights := DefaultWeight;
    if raw.None? || JsText.JsTrim(raw.value) == "" {
      DefaultTotal();
      return Ok(weights);
    }
    var entries := Strings.Split(JsText.JsTrim(raw.value), ',');
    for i := 0 to |entries|
      invariant ValidEntries(entries[..i], number)
      invariant forall w :: weights(w) == WeightIn(entries[..i], number, w)
    {
      var parts := EntryParts(entries[i]);
      if parts.None? {
        return Err(InvalidEntry);
      }
      var weight := number(parts.value.1);
      if weight.None? || weight.value < 0 {
        return Err(InvalidValue);
      }
      assert entries[..i + 1][..i] == entries[..i];
      weights := Assigned(weights, parts.value.0, weight.value);
    }
    assert entries[..|entries|] == entries;
    if Total(InOrder(weights)) <= 0 {
      ZeroWeights(weights);
      return Err(NoPositiveTotal);
    }
    r := Ok(weights);
  }

  lemma DefaultTotal()
    ensures Total(InOrder(DefaultWeight)) == 100
  {
    assert InOrder(DefaultWeight) == [30, 20, 15, 20, 10, 5];
    assert [30, 20, 15, 20, 10, 5][..5] == [30, 20, 15, 20, 10];
    assert [30, 20, 15, 20, 10][..4] == [30, 20, 15, 20];
    assert [30, 20, 15, 20][..3] == [30, 20, 15];
    assert [30, 20, 15][..2] == [30, 20];
    assert [30, 20][..1] == [30];
  }

  lemma EveryWorkflow(w: Workflow)
    ensures exists i | 0 <= i < |WORKFLOWS| :: WORKFLOWS[i] == w
  {
    assert WORKFLOWS[0] == Browse && WORKFLOWS[1] == Product && WORKFLOWS[2] == Cart;
    assert WORKFLOWS[3] == Checkout && WORKFLOWS[4] == Order && WORKFLOWS[5] == Analytics;
  }

  lemma ZeroWeights(weights: Weights)
    requires Total(InOrder(weights)) == 0
    ensures forall w :: weights(w) == 0
  {
    ZeroTotal(InOrder(weights));
    forall w
      ensures weights(w) == 0
    {
      EveryWorkflow(w);
      var i :| 0 <= i < |WORKFLOWS| && WORKFLOWS[i] == w;
      assert InOrder(weights)[i] == 0;
    }
  }

  lemma {:induction false} ZeroTotal(weights: seq<nat>)
    requires Total(weights) == 0
    ensures forall i | 0 <= i < |weights| :: weights[i] == 0
  {
    if weights != [] {
      ZeroTotal(weights[..|weights| - 1]);
    }
  }

  /** Whatever the setting says, weights that were read make every draw select a workflow. */
  method ReadAndChoose(raw: Option<string>, number: string -> Option<int>, draw: nat) returns (r: Option<Workflow>)
    requires draw < UNIT
    ensures r.Some? ==> ValidEntries(Entries(raw), number) && WeightIn(Entries(raw), number, r.value) > 0
    ensures r.None? ==> !ValidEntries(Entries(raw), number) || forall w :: WeightIn(Entries(raw), number, w) == 0
  {
    var weights := ParseWeights(raw, number);
    if weights.Err? {
      return None;
    }
    r := ChooseWorkflow(None, weights.value, draw);
  }

  // ----- names, defaults and the setting -----

  lemma WorkflowIff(name: string, w: Workflow)
    ensures WorkflowNamed(name) == Some(w) <==>
              match w
              case Browse => name == "browse"
              case Product => name == "product"
              case Cart => name == "cart"
              case Checkout => name == "checkout"
              case Order => name == "order"
              case Analytics => name == "analytics"
  {
  }

  lemma OrderIs(weights: Weights)
    ensures InOrder(weights) == [weights(Browse), weights(Product), weights(Cart), weights(Checkout), weights(Order),
                                 weights(Analytics)]
  {
    hide InOrder;
    assert WORKFLOWS == [Browse, Product, Cart, Checkout, Order, Analytics];
  }

  /** With the default weights the draws split at 30, 50, 65, 85 and 95 of a hundred. */
  lemma DefaultDraws(draw: nat)
    ensures InInterval(InOrder(DefaultWeight), draw, 0) <==> draw * 100 < 30 * 0x1_0000_0000
    ensures InInterval(InOrder(DefaultWeight), draw, 1) <==> 30 * 0x1_0000_0000 <= draw * 100 < 50 * 0x1_0000_0000
    ensures InInterval(InOrder(DefaultWeight), draw, 2) <==> 50 * 0x1_0000_0000 <= draw * 100 < 65 * 0x1_0000_0000
    ensures InInterval(InOrder(DefaultWeight), draw, 3) <==> 65 * 0x1_0000_0000 <= draw * 100 < 85 * 0x1_0000_0000
    ensures InInterval(InOrder(DefaultWeight), draw, 4) <==> 85 * 0x1_0000_0000 <= draw * 100 < 95 * 0x1_0000_0000
    ensures InInterval(InOrder(DefaultWeight), draw, 5) <==> 95 * 0x1_0000_0000 <= draw * 100 < 100 * 0x1_0000_0000
    ensures WORKFLOWS == [Browse, Product, Cart, Checkout, Order, Analytics]
  {
    hide Total, InOrder;
    OrderIs(DefaultWeight);
    var weights := InOrder(DefaultWeight);
    NothingWeighs(weights[..0]);
    NextTotal(weights, 0);
    NextTotal(weights, 1);
    NextTotal(weights, 2);
    NextTotal(weights, 3);
    NextTotal(weights, 4);
    NextTotal(weights, 5);
    assert weights[..6] == weights;
  }

  lemma NothingWeighs(weights: seq<nat>)
    requires weights == []
    ensures Total(weights) == 0
  {
  }

  /** The text has one `=`, a name of the workflow before it and the text of a weight behind. */
  ghost predicate EntryIs(entry: string, w: Workflow, text: string, name: string, weight: string) {
    && entry == name + "=" + weight && '=' !in name && '=' !in weight
    && WorkflowNamed(JsText.JsTrim(name)) == Some(w) && JsText.JsTrim(weight) == text
  }

  lemma TwoParts(entry: string, name: string, weight: string)
    ensures Strings.Split(entry, '=') == [name, weight] <==>
              entry == name + "=" + weight && '=' !in name && '=' !in weight
  {
    Strings.JoinOfSplit(entry, '=');
    Strings.SplitParts(entry, '=');
    assert [name, weight][1..] == [weight];
    assert Strings.Join([name, weight], '=') == name + "=" + weight;
    if entry == name + "=" + weight && '=' !in name && '=' !in weight {
      Strings.SplitOfJoin([name, weight], '=');
    }
    if Strings.Split(entry, '=') == [name, weight] {
      assert name in Strings.Split(entry, '=') && weight in Strings.Split(entry, '=');
    }
  }

  lemma EntryIff(entry: string, w: Workflow, text: string)
    ensures EntryParts(entry) == Some((w, text)) <==> exists name, weight :: EntryIs(entry, w, text, name, weight)
  {
    hide JsText.JsTrim, WorkflowNamed, Strings.Split;
    var parts := Strings.Split(entry, '=');
    if EntryParts(entry) == Some((w, text)) {
      assert parts == [parts[0], parts[1]];
      TwoParts(entry, parts[0], parts[1]);
      assert EntryIs(entry, w, text, parts[0], parts[1]);
    }
    if name, weight :| EntryIs(entry, w, text, name, weight) {
      TwoParts(entry, name, weight);
    }
  }

  /** The setting without outer space is its entries, separated by commas. */
  lemma EntriesAre(raw: Option<string>)
    ensures raw.None? || JsText.JsTrim(raw.value) == "" ==> Entries(raw) == []
    ensures raw.Some? && JsText.JsTrim(raw.value) != "" ==>
              Entries(raw) != [] && Strings.Join(Entries(raw), ',') == JsText.JsTrim(raw.value)
    ensures forall entry | entry in Entries(raw) :: ',' !in entry
  {
    hide JsText.JsTrim, Strings.Split;
    if raw.Some? {
      Strings.JoinOfSplit(JsText.JsTrim(raw.value), ',');
      Strings.SplitParts(JsText.JsTrim(raw.value), ',');
    }
  }

  predicate NamesWorkflow(entry: string, w: Workflow) {
    EntryParts(entry).Some? && EntryParts(entry).value.0 == w
  }

  /** Without an entry a workflow has its default weight. */
  lemma {:induction false} UnnamedWeight(entries: seq<string>, number: string -> Option<int>, w: Workflow)
    requires ValidEntries(entries, number) && forall i | 0 <= i < |entries| :: !NamesWorkflow(entries[i], w)
    ensures WeightIn(entries, number, w) == match w
              case Browse => 30
              case Product => 20
              case Cart => 15
              case Checkout => 20
              case Order => 10
              case Analytics => 5
  {
    hide EntryParts, ValidEntry;
    if entries != [] {
      var n := |entries| - 1;
      assert entries[n] in entries && ValidEntry(entries[n], number);
      EntryNames(entries[n], number);
      UnnamedWeight(entries[..n], number, w);
    }
  }

  lemma EntryNames(entry: string, number: string -> Option<int>)
    requires ValidEntry(entry, number)
    ensures EntryParts(entry).Some? && number(EntryParts(entry).value.1).Some?
  {
    hide EntryParts;
  }

  /** The last entry that names a workflow gives its weight. */
  lemma {:induction false} NamedWeight(entries: seq<string>, number: string -> Option<int>, w: Workflow, i: nat)
    requires ValidEntries(entries, number) && i < |entries| && NamesWorkflow(entries[i], w)
    requires forall j | i < j < |entries| :: !NamesWorkflow(entries[j], w)
    ensures number(EntryParts(entries[i]).value.1) == Some(WeightIn(entries, number, w))
  {
    hide EntryParts, ValidEntry;
    var n := |entries| - 1;
    assert entries[n] in entries && ValidEntry(entries[n], number);
    EntryNames(entries[n], number);
    if i < n {
      NamedWeight(entries[..n], number, w, i);
    }
  }
}
