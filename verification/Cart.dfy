/** The shopping cart and its stored copy. */
module Cart {
  import opened Counting
  import opened JsText
  import opened Outcomes
  import Strings

  datatype Entry = Entry(sku: string, quantity: int)

  const MAX_QUANTITY := 99
  const MAX_SAFE_INTEGER := 9007199254740991

  predicate SafeInteger(n: int) { -MAX_SAFE_INTEGER <= n <= MAX_SAFE_INTEGER }

  // ----- carts -----

  function Skus(cart: seq<Entry>): (skus: seq<string>)
    ensures |skus| == |cart| && forall i | 0 <= i < |cart| :: skus[i] == cart[i].sku
  {
    seq(|cart|, i requires 0 <= i < |cart| => cart[i].sku)
  }

  /** The quantities of a SKU added up. */
  function Quantity(cart: seq<Entry>, sku: string): int {
    if cart == [] then 0
    else Quantity(cart[..|cart| - 1], sku) + (if cart[|cart| - 1].sku == sku then cart[|cart| - 1].quantity else 0)
  }

  /** The SKUs without repetition, in the order in which each first occurs. */
  function FirstSkus(cart: seq<Entry>): (skus: seq<string>)
    ensures forall sku :: sku in skus <==> exists i | 0 <= i < |cart| :: cart[i].sku == sku
    ensures forall i, j | 0 <= i < j < |skus| :: skus[i] != skus[j]
  {
    if cart == [] then []
    else
      var before, last := FirstSkus(cart[..|cart| - 1]), cart[|cart| - 1].sku;
      assert forall i | 0 <= i < |cart| - 1 :: cart[..|cart| - 1][i] == cart[i];
      if last in before then before else before + [last]
  }

  predicate GoodEntry(e: Entry) { e.sku != "" && JsTrim(e.sku) == e.sku && 0 < e.quantity <= MAX_SAFE_INTEGER }

  /** Distinct trimmed SKUs, each with a quantity from 1 to 99. */
  ghost predicate Normal(cart: seq<Entry>) {
    && (forall i | 0 <= i < |cart| :: GoodEntry(cart[i]) && cart[i].quantity <= MAX_QUANTITY)
    && forall i, j | 0 <= i < j < |cart| :: cart[i].sku != cart[j].sku
  }

  /** `normal` lists the SKUs of `cart` in order of first occurrence, with quantities added up to 99. */
  ghost predicate Merges(cart: seq<Entry>, normal: seq<Entry>) {
    && Skus(normal) == FirstSkus(cart)
    && forall i | 0 <= i < |normal| :: normal[i].quantity == Min(MAX_QUANTITY, Quantity(cart, normal[i].sku))
  }

  lemma {:induction false} QuantityOfGood(cart: seq<Entry>, sku: string)
    requires forall i | 0 <= i < |cart| :: cart[i].quantity > 0
    ensures Quantity(cart, sku) >= 0
    ensures Quantity(cart, sku) > 0 <==> exists i | 0 <= i < |cart| :: cart[i].sku == sku
  {
    if cart != [] {
      var n := |cart| - 1;
      QuantityOfGood(cart[..n], sku);
      assert forall i | 0 <= i < n :: cart[..n][i] == cart[i];
      if i :| 0 <= i < |cart| && cart[i].sku == sku && i < n {
        assert cart[..n][i].sku == sku;
      }
    }
  }

  // ----- the merged cart -----

  /** The first entry with the SKU. */
  ghost predicate FirstAt(cart: seq<Entry>, p: nat, sku: string) {
    p < |cart| && cart[p].sku == sku && forall q | 0 <= q < p :: cart[q].sku != sku
  }

  lemma FirstAtStays(cart: seq<Entry>, n: nat, p: nat, sku: string)
    requires n <= |cart| && FirstAt(cart[..n], p, sku)
    ensures FirstAt(cart, p, sku)
  {
  }

  lemma FirstAtEnd(cart: seq<Entry>)
    requires cart != [] && cart[|cart| - 1].sku !in FirstSkus(cart[..|cart| - 1])
    ensures FirstAt(cart, |cart| - 1, cart[|cart| - 1].sku)
  {
    hide FirstSkus;
    assert forall q | 0 <= q < |cart| - 1 :: cart[..|cart| - 1][q] == cart[q];
  }

  lemma {:induction false} FirstSkusInOrder(cart: seq<Entry>, i: nat, j: nat) returns (p: nat, q: nat)
    requires i <= j < |FirstSkus(cart)|
    ensures FirstAt(cart, p, FirstSkus(cart)[i]) && FirstAt(cart, q, FirstSkus(cart)[j]) && (p < q <==> i < j)
    ensures q < |cart|
  {
    hide FirstAt;
    var n := |cart| - 1;
    var before := FirstSkus(cart[..n]);
    if j < |before| {
      p, q := FirstSkusInOrder(cart[..n], i, j);
      FirstAtStays(cart, n, p, before[i]);
      FirstAtStays(cart, n, q, before[j]);
    } else {
      FirstAtEnd(cart);
      p, q := n, n;
      if i < j {
        var same;
        same, p := FirstSkusInOrder(cart[..n], i, i);
        FirstAtStays(cart, n, p, before[i]);
      }
    }
  }

  ghost predicate HasSku(cart: seq<Entry>, sku: string) { exists i | 0 <= i < |cart| :: cart[i].sku == sku }

  ghost predicate FirstBefore(cart: seq<Entry>, one: string, other: string) {
    exists p: nat, q: nat :: p < q && FirstAt(cart, p, one) && FirstAt(cart, q, other)
  }

  /** Each SKU once, in order of first occurrence, with the sum of its quantities or 99 if that is more. */
  lemma MergedIs(cart: seq<Entry>, normal: seq<Entry>)
    requires Merges(cart, normal)
    ensures forall e | e in cart :: HasSku(normal, e.sku)
    ensures forall i, j | 0 <= i < j < |normal| :: FirstBefore(cart, normal[i].sku, normal[j].sku)
    ensures forall i | 0 <= i < |normal| ::
              var sum := Quantity(cart, normal[i].sku); normal[i].quantity == if sum <= 99 then sum else 99
  {
    hide Quantity, FirstAt, FirstBefore, FirstSkus;
    forall e | e in cart
      ensures HasSku(normal, e.sku)
    {
      var k :| 0 <= k < |cart| && cart[k] == e;
      assert e.sku in FirstSkus(cart) && e.sku in Skus(normal);
      var i :| 0 <= i < |normal| && Skus(normal)[i] == e.sku;
    }
    forall i, j | 0 <= i < j < |normal|
      ensures FirstBefore(cart, normal[i].sku, normal[j].sku)
    {
      assert Skus(normal)[i] == normal[i].sku && Skus(normal)[j] == normal[j].sku;
      SkusFirstBefore(cart, i, j);
    }
  }

  lemma SkusFirstBefore(cart: seq<Entry>, i: nat, j: nat)
    requires i < j < |FirstSkus(cart)|
    ensures FirstBefore(cart, FirstSkus(cart)[i], FirstSkus(cart)[j])
  {
    hide FirstAt, FirstSkus;
    var p, q := FirstSkusInOrder(cart, i, j);
  }

  /** The quantity of a SKU is the sum over its entries. */
  lemma QuantityIs(cart: seq<Entry>, e: Entry, sku: string)
    ensures Quantity([], sku) == 0 && Quantity([e], e.sku) == e.quantity
    ensures e.sku == sku ==> Quantity(cart + [e], sku) == Quantity(cart, sku) + e.quantity
    ensures e.sku != sku ==> Quantity(cart + [e], sku) == Quantity(cart, sku)
  {
    QuantityAppend(cart, e, sku);
    QuantityAppend([], e, e.sku);
    assert [] + [e] == [e];
  }

  /** Merging gives a normal cart, and only one. */
  lemma MergedIsNormal(cart: seq<Entry>, normal: seq<Entry>)
    requires Merges(cart, normal) && forall i | 0 <= i < |cart| :: GoodEntry(cart[i])
    ensures Normal(normal)
  {
    forall i | 0 <= i < |normal|
      ensures GoodEntry(normal[i]) && normal[i].quantity <= MAX_QUANTITY
    {
      assert Skus(normal)[i] in FirstSkus(cart);
      QuantityOfGood(cart, normal[i].sku);
    }
    forall i, j | 0 <= i < j < |normal|
      ensures normal[i].sku != normal[j].sku
    {
      assert Skus(normal)[i] != Skus(normal)[j];
    }
  }

  lemma MergesOnce(cart: seq<Entry>, a: seq<Entry>, b: seq<Entry>)
    requires Merges(cart, a) && Merges(cart, b)
    ensures a == b
  {
    assert |a| == |Skus(a)| == |Skus(b)| == |b|;
    forall i | 0 <= i < |a|
      ensures a[i] == b[i]
    {
      assert Skus(a)[i] == Skus(b)[i];
    }
  }

  lemma {:induction false} DistinctQuantity(cart: seq<Entry>, k: nat)
    requires k < |cart| && forall i, j | 0 <= i < j < |cart| :: cart[i].sku != cart[j].sku
    ensures Quantity(cart, cart[k].sku) == cart[k].quantity && FirstSkus(cart) == Skus(cart)
  {
    var n := |cart| - 1;
    var before := cart[..n];
    if n > 0 {
      DistinctQuantity(before, if k < n then k else 0);
    }
    assert Skus(cart) == Skus(before) + [cart[n].sku];
    if k == n {
      AbsentQuantity(before, cart[n].sku);
    }
  }

  lemma {:induction false} AbsentQuantity(cart: seq<Entry>, sku: string)
    requires forall i | 0 <= i < |cart| :: cart[i].sku != sku
    ensures Quantity(cart, sku) == 0
  {
    if cart != [] {
      AbsentQuantity(cart[..|cart| - 1], sku);
    }
  }

  /** Merging a normal cart changes nothing. */
  lemma NormalMergesToItself(cart: seq<Entry>)
    requires Normal(cart)
    ensures Merges(cart, cart)
  {
    if cart == [] {
      assert Skus(cart) == [];
    } else {
      DistinctQuantity(cart, 0);
    }
    forall i | 0 <= i < |cart|
      ensures cart[i].quantity == Min(MAX_QUANTITY, Quantity(cart, cart[i].sku))
    {
      DistinctQuantity(cart, i);
    }
  }

  // ----- what is stored -----

  /** A parsed item, with None for a part of another type and for a number that is no safe integer. */
  datatype RawItem = RawItem(sku: Option<string>, quantity: Option<int>) | NotRecord

  datatype RawItems = NotArray | Items(items: seq<RawItem>)

  datatype RawId = NullId | TextId(id: string) | OtherId

  datatype Document = Unreadable | Document(versionIs2: bool, cartId: RawId, items: RawItems)

  predicate ValidItem(item: RawItem) {
    && item.RawItem? && item.sku.Some? && JsTrim(item.sku.value) != ""
    && item.quantity.Some? && SafeInteger(item.quantity.value) && item.quantity.value > 0
  }

  predicate ValidItems(value: RawItems) {
    value.Items? && forall i | 0 <= i < |value.items| :: ValidItem(value.items[i])
  }

  /** Some text that is not all space, and a positive quantity that is a safe integer. */
  lemma ValidItemIff(item: RawItem)
    ensures ValidItem(item) <==>
              && item.RawItem? && item.sku.Some? && item.quantity.Some? && 0 < item.quantity.value <= 9007199254740991
              && exists i | 0 <= i < |item.sku.value| :: !JsSpace(item.sku.value[i])
  {
    hide JsTrim, JsSpace;
    if item.RawItem? && item.sku.Some? {
      BlankIff(item.sku.value);
    }
  }

  lemma BlankIff(s: string)
    ensures JsTrim(s) != "" <==> exists i | 0 <= i < |s| :: !JsSpace(s[i])
  {
    hide JsTrim, JsSpace;
    JsTrimIff(s, "");
    assert forall i | 0 <= i < |s| :: s[i] in s;
    if forall i | 0 <= i < |s| :: JsSpace(s[i]) {
      assert s == s + "" + "" && s + "" == s;
      assert Strings.Around(s, s, "", "", JsSpace);
    }
    if before, after :| Strings.Around(s, before, "", after, JsSpace) {
      assert s == before + after;
    }
  }

  lemma SafeIntegerIs(n: int)
    ensures SafeInteger(n) <==> -9007199254740991 <= n <= 9007199254740991
  {
  }

  function Clean(item: RawItem): (e: Entry)
    requires ValidItem(item)
  {
    Entry(JsTrim(item.sku.value), item.quantity.value)
  }

  function Cleaned(items: seq<RawItem>): (cart: seq<Entry>)
    requires forall i | 0 <= i < |items| :: ValidItem(items[i])
    ensures |cart| == |items| && forall i | 0 <= i < |cart| :: cart[i] == Clean(items[i])
  {
    seq(|items|, i requires 0 <= i < |items| => Clean(items[i]))
  }

  function Raw(cart: seq<Entry>): (value: RawItems)
    ensures value.Items? && |value.items| == |cart|
    ensures forall i | 0 <= i < |cart| :: value.items[i] == RawItem(Some(cart[i].sku), Some(cart[i].quantity))
  {
    Items(seq(|cart|, i requires 0 <= i < |cart| => RawItem(Some(cart[i].sku), Some(cart[i].quantity))))
  }

  // ----- normalizing -----

  /** The place of a SKU in the map, past the end when it has none. */
  function Place(merged: seq<Entry>, sku: string): (k: nat)
    ensures k <= |merged|
    ensures k < |merged| ==> merged[k].sku == sku
    ensures forall i | 0 <= i < k :: merged[i].sku != sku
  {
    if merged == [] || merged[0].sku == sku then 0 else 1 + Place(merged[1..], sku)
  }

  /** Setting the entry of a SKU in the map. */
  function Put(merged: seq<Entry>, e: Entry): seq<Entry> {
    var k := Place(merged, e.sku);
    if k < |merged| then merged[k := Entry(e.sku, Min(MAX_QUANTITY, merged[k].quantity + e.quantity))]
    else merged + [Entry(e.sku, Min(MAX_QUANTITY, e.quantity))]
  }

  lemma QuantityAppend(cart: seq<Entry>, e: Entry, sku: string)
    ensures Quantity(cart + [e], sku) == Quantity(cart, sku) + (if e.sku == sku then e.quantity else 0)
  {
    assert (cart + [e])[..|cart|] == cart;
  }

  lemma FirstSkusAppend(cart: seq<Entry>, e: Entry)
    ensures FirstSkus(cart + [e]) == if e.sku in FirstSkus(cart) then FirstSkus(cart) else FirstSkus(cart) + [e.sku]
  {
    assert (cart + [e])[..|cart|] == cart;
  }

  lemma SkuPlace(cart: seq<Entry>, merged: seq<Entry>, sku: string)
    requires Skus(merged) == FirstSkus(cart)
    ensures Place(merged, sku) < |merged| <==> sku in FirstSkus(cart)
    ensures Place(merged, sku) == |merged| ==> Quantity(cart, sku) == 0
  {
    hide FirstSkus, Quantity;
    var k := Place(merged, sku);
    if k < |merged| {
      assert Skus(merged)[k] == sku;
    } else {
      assert sku !in Skus(merged);
      AbsentSku(cart, sku);
    }
  }

  lemma AbsentSku(cart: seq<Entry>, sku: string)
    requires sku !in FirstSkus(cart)
    ensures Quantity(cart, sku) == 0
  {
    forall i | 0 <= i < |cart|
      ensures cart[i].sku != sku
    {
    }
    AbsentQuantity(cart, sku);
  }

  lemma PutSkus(cart: seq<Entry>, merged: seq<Entry>, e: Entry)
    requires Skus(merged) == FirstSkus(cart)
    ensures Skus(Put(merged, e)) == FirstSkus(cart + [e])
  {
    hide FirstSkus, Quantity;
    SkuPlace(cart, merged, e.sku);
    FirstSkusAppend(cart, e);
    if Place(merged, e.sku) < |merged| {
      assert Skus(Put(merged, e)) == Skus(merged);
    } else {
      assert Skus(Put(merged, e)) == Skus(merged) + [e.sku];
    }
  }

  /** The merged cart with one more entry. */
  lemma MergeOneMore(cart: seq<Entry>, merged: seq<Entry>, e: Entry)
    requires Merges(cart, merged) && e.quantity > 0
    ensures Merges(cart + [e], Put(merged, e))
  {
    hide FirstSkus, Quantity;
    PutSkus(cart, merged, e);
    SkuPlace(cart, merged, e.sku);
    var next, k := Put(merged, e), Place(merged, e.sku);
    forall i | 0 <= i < |next|
      ensures next[i].quantity == Min(MAX_QUANTITY, Quantity(cart + [e], next[i].sku))
    {
      QuantityAppend(cart, e, next[i].sku);
      if i != k {
        assert Skus(next)[i] == next[i].sku && Skus(next)[k] == e.sku;
        FirstSkusDiffer(cart + [e], i, k);
      }
    }
  }

  lemma FirstSkusDiffer(cart: seq<Entry>, i: nat, j: nat)
    requires i < |FirstSkus(cart)| && j < |FirstSkus(cart)| && i != j
    ensures FirstSkus(cart)[i] != FirstSkus(cart)[j]
  {
  }

  /** None stands for the thrown error. */
  method NormalizeCart(value: RawItems) returns (r: Option<seq<Entry>>)
    ensures r.Some? <==> ValidItems(value)
    ensures r.Some? ==> Merges(Cleaned(value.items), r.value) && Normal(r.value)
  {
    hide Merges, JsTrim, GoodEntry, Normal;
    if value.NotArray? {
      return None;
    }
    var merged: seq<Entry> := [];
    NothingMerged();
    for i := 0 to |value.items|
      invariant forall j | 0 <= j < i :: ValidItem(value.items[j])
      invariant Merges(Cleaned(value.items[..i]), merged)
    {
      var item := value.items[i];
      if !ValidItem(item) {
        return None;
      }
      var sku, quantity := JsTrim(item.sku.value), item.quantity.value;
      MergeOneMore(Cleaned(value.items[..i]), merged, Clean(item));
      assert Cleaned(value.items[..i + 1]) == Cleaned(value.items[..i]) + [Clean(item)];
      var k := Place(merged, sku);
      if k < |merged| {
        merged := merged[k := Entry(sku, Min(MAX_QUANTITY, merged[k].quantity + quantity))];
      } else {
        merged := merged + [Entry(sku, Min(MAX_QUANTITY, quantity))];
      }
    }
    assert value.items[..|value.items|] == value.items;
    CleanedIsGood(value.items);
    MergedIsNormal(Cleaned(value.items), merged);
    r := Some(merged);
  }

  lemma NothingMerged()
    ensures Merges(Cleaned([]), [])
  {
  }

  lemma CleanedIsGood(items: seq<RawItem>)
    requires forall i | 0 <= i < |items| :: ValidItem(items[i])
    ensures forall i | 0 <= i < |items| :: GoodEntry(Cleaned(items)[i])
  {
    forall i | 0 <= i < |items|
      ensures GoodEntry(Cleaned(items)[i])
    {
      assert ValidItem(items[i]);
    }
  }

  // ----- reading -----

  /** None as a document when nothing is stored. */
  datatype Loaded = Loaded(items: seq<Entry>, cartId: Option<string>, error: bool)

  const EMPTY := Loaded([], None, false)

  predicate GoodId(id: RawId) { id.NullId? || (id.TextId? && JsTrim(id.id) != "") }

  predicate Readable(stored: Option<Document>) {
    stored.None?
        || (stored.value.Document? && stored.value.versionIs2 && GoodId(stored.value.cartId)
              && ValidItems(stored.value.items))
  }

  /** A cart read back: a document that is not accepted counts as an empty cart, with an error. */
  ghost predicate Reads(stored: Option<Document>, loaded: Loaded) {
    if !Readable(stored) then loaded == Loaded([], None, true)
    else if stored.None? then loaded == EMPTY
    else
      && Merges(Cleaned(stored.value.items.items), loaded.items)
      && loaded.cartId == (if stored.value.cartId.NullId? then None else Some(stored.value.cartId.id))
      && !loaded.error
  }

  /** A cart of version 2, without an identifier or with one that is not all space, and with valid items. */
  lemma ReadableIff(stored: Option<Document>)
    ensures Readable(stored) <==>
              || stored.None?
              || (&& stored.value.Document? && stored.value.versionIs2
                  && (|| stored.value.cartId.NullId?
                      || (stored.value.cartId.TextId? && exists i | 0 <= i < |stored.value.cartId.id| ::
                            !JsSpace(stored.value.cartId.id[i])))
                  && stored.value.items.Items?
                  && forall i | 0 <= i < |stored.value.items.items| :: ValidItem(stored.value.items.items[i]))
  {
    hide JsTrim, JsSpace, ValidItem;
    if stored.Some? && stored.value.Document? && stored.value.cartId.TextId? {
      BlankIff(stored.value.cartId.id);
    }
  }

  method ReadCart(inBrowser: bool, stored: Option<Document>) returns (r: Loaded)
    ensures if inBrowser then Reads(stored, r) else r == EMPTY
    ensures !inBrowser || stored.None? ==> r == Loaded([], None, false)
    ensures inBrowser && !Readable(stored) ==> r == Loaded([], None, true)
    ensures inBrowser && Readable(stored) && stored.Some? ==>
              && r.cartId == (if stored.value.cartId.NullId? then None else Some(stored.value.cartId.id)) && !r.error
              && Merges(Cleaned(stored.value.items.items), r.items)
    ensures Normal(r.items) && GoodCartId(r.cartId)
  {
    hide Merges, Normal, JsTrim;
    NothingIsNormal();
    if !inBrowser || stored.None? {
      return EMPTY;
    }
    var raw := stored.value;
    if raw.Unreadable? || !raw.versionIs2 || !GoodId(raw.cartId) {
      return Loaded([], None, true);
    }
    var items := NormalizeCart(raw.items);
    if items.None? {
      return Loaded([], None, true);
    }
    r := Loaded(items.value, if raw.cartId.NullId? then None else Some(raw.cartId.id), false);
  }

  lemma NothingIsNormal()
    ensures Normal([])
  {
  }

  // ----- writing and reading back -----

  /** The document written for a cart, taken as what parsing it gives. */
  function Written(cartId: Option<string>, items: seq<Entry>): Document {
    Document(true, if cartId.None? then NullId else TextId(cartId.value), Raw(items))
  }

  predicate GoodCartId(cartId: Option<string>) { cartId.Some? ==> JsTrim(cartId.value) != "" }

  lemma RawIsValid(items: seq<Entry>)
    requires forall i | 0 <= i < |items| :: GoodEntry(items[i])
    ensures ValidItems(Raw(items)) && Cleaned(Raw(items).items) == items
  {
    hide JsTrim;
    forall i | 0 <= i < |items|
      ensures ValidItem(Raw(items).items[i]) && Clean(Raw(items).items[i]) == items[i]
    {
      assert GoodEntry(items[i]);
    }
  }

  /** A normal cart is read back as it was written. */
  lemma WrittenReadsBack(cartId: Option<string>, items: seq<Entry>)
    requires Normal(items) && GoodCartId(cartId)
    ensures Reads(Some(Written(cartId, items)), Loaded(items, cartId, false))
  {
    hide JsTrim;
    RawIsValid(items);
    NormalMergesToItself(items);
  }

  lemma ReadsOnce(stored: Option<Document>, a: Loaded, b: Loaded)
    requires Reads(stored, a) && Reads(stored, b)
    ensures a == b
  {
    hide Merges;
    if Readable(stored) && stored.Some? {
      MergesOnce(Cleaned(stored.value.items.items), a.items, b.items);
    }
  }

  // ----- the operations -----

  /** Whether the page has a window, whether its storage takes writes, and the next random identifier. */
  datatype Browser = Browser(present: bool, writable: bool, uuid: string)

  predicate Works(browser: Browser) { browser.present && browser.writable }

  const ID_PREFIX := "web-cart-"

  lemma FreshIdIsGood(uuid: string)
    ensures JsTrim(ID_PREFIX + uuid) != ""
  {
    var id := ID_PREFIX + uuid;
    assert id[0] == 'w' && !JsSpace(id[0]);
    TrimKeepsStart(id);
  }

  lemma TrimKeepsStart(s: string)
    requires s != "" && !JsSpace(s[0])
    ensures JsTrim(s) != ""
  {
    assert Strings.TrimStart(s, JsSpace) == s;
    TrimEndKeepsStart(s);
  }

  lemma {:induction false} TrimEndKeepsStart(s: string)
    requires s != "" && !JsSpace(s[0])
    ensures Strings.TrimEnd(s, JsSpace) != ""
  {
    if JsSpace(s[|s| - 1]) {
      TrimEndKeepsStart(s[..|s| - 1]);
    }
  }

  function Raised(cart: seq<Entry>, sku: string, quantity: int): (r: seq<Entry>)
    ensures |r| == |cart|
    ensures forall i | 0 <= i < |r| ::
              r[i] == if cart[i].sku == sku then Entry(sku, Min(MAX_QUANTITY, cart[i].quantity + quantity)) else cart[i]
  {
    seq(|cart|, i requires 0 <= i < |cart| =>
      if cart[i].sku == sku then Entry(cart[i].sku, Min(MAX_QUANTITY, cart[i].quantity + quantity)) else cart[i])
  }

  function Replaced(cart: seq<Entry>, sku: string, quantity: int): (r: seq<Entry>)
    ensures |r| == |cart|
    ensures forall i | 0 <= i < |r| ::
              r[i] == if cart[i].sku == sku then Entry(sku, Min(MAX_QUANTITY, quantity)) else cart[i]
  {
    seq(|cart|, i requires 0 <= i < |cart| =>
      if cart[i].sku == sku then Entry(cart[i].sku, Min(MAX_QUANTITY, quantity)) else cart[i])
  }

  function Without(cart: seq<Entry>, sku: string): (r: seq<Entry>)
    ensures forall e :: e in r <==> e in cart && e.sku != sku
  {
    if cart == [] then []
    else
      var n := |cart| - 1;
      assert cart == cart[..n] + [cart[n]];
      Without(cart[..n], sku) + (if cart[n].sku != sku then [cart[n]] else [])
  }

  function SkusWithout(skus: seq<string>, sku: string): seq<string> {
    if skus == [] then []
    else SkusWithout(skus[..|skus| - 1], sku) + (if skus[|skus| - 1] != sku then [skus[|skus| - 1]] else [])
  }

  lemma {:induction false} AbsentStays(skus: seq<string>, sku: string)
    requires sku !in skus
    ensures SkusWithout(skus, sku) == skus
  {
    if skus != [] {
      AbsentStays(skus[..|skus| - 1], sku);
    }
  }

  /** A SKU is taken out of its place, and the others keep theirs. */
  lemma {:induction false} SkusWithoutIs(before: seq<string>, sku: string, after: seq<string>)
    requires sku !in before && sku !in after
    ensures SkusWithout(before + [sku] + after, sku) == before + after
  {
    var all := before + [sku] + after;
    if after == [] {
      assert all[..|all| - 1] == before;
      AbsentStays(before, sku);
    } else {
      var n := |after| - 1;
      assert all[..|all| - 1] == before + [sku] + after[..n];
      SkusWithoutIs(before, sku, after[..n]);
    }
  }

  // ----- what the operations do to a normal cart -----

  lemma QuantityInNormal(cart: seq<Entry>, sku: string)
    requires Normal(cart)
    ensures sku in Skus(cart) ==> exists k | 0 <= k < |cart| ::
              cart[k].sku == sku && Quantity(cart, sku) == cart[k].quantity
    ensures sku !in Skus(cart) ==> Quantity(cart, sku) == 0
    ensures 0 <= Quantity(cart, sku) <= MAX_QUANTITY && (Quantity(cart, sku) == 0 <==> sku !in Skus(cart))
  {
    if sku in Skus(cart) {
      var k :| 0 <= k < |cart| && Skus(cart)[k] == sku;
      DistinctQuantity(cart, k);
      assert GoodEntry(cart[k]);
    } else {
      forall i | 0 <= i < |cart|
        ensures cart[i].sku != sku
      {
        assert Skus(cart)[i] in Skus(cart);
      }
      AbsentQuantity(cart, sku);
    }
  }

  /** One SKU has its quantity set, the others keep theirs. */
  ghost predicate QuantitySet(cart: seq<Entry>, after: seq<Entry>, sku: string, quantity: int) {
    forall other :: Quantity(after, other) == if other == sku then quantity else Quantity(cart, other)
  }

  lemma SameSkus(cart: seq<Entry>, after: seq<Entry>, sku: string, quantity: int)
    requires Normal(cart) && 0 < quantity <= MAX_QUANTITY && sku in Skus(cart) && |after| == |cart|
    requires forall i | 0 <= i < |after| :: after[i] == if cart[i].sku == sku then Entry(sku, quantity) else cart[i]
    ensures Normal(after) && Skus(after) == Skus(cart) && QuantitySet(cart, after, sku, quantity)
  {
    hide JsTrim, Quantity;
    forall i | 0 <= i < |after|
      ensures GoodEntry(after[i]) && after[i].quantity <= MAX_QUANTITY
    {
      assert GoodEntry(cart[i]);
    }
    assert Skus(after) == Skus(cart);
    forall other
      ensures Quantity(after, other) == if other == sku then quantity else Quantity(cart, other)
    {
      QuantityInNormal(cart, other);
      QuantityInNormal(after, other);
    }
  }

  lemma OneMoreSku(cart: seq<Entry>, e: Entry)
    requires Normal(cart) && GoodEntry(e) && e.quantity <= MAX_QUANTITY && e.sku !in Skus(cart)
    ensures Normal(cart + [e]) && Skus(cart + [e]) == Skus(cart) + [e.sku]
    ensures QuantitySet(cart, cart + [e], e.sku, e.quantity)
  {
    hide JsTrim, Quantity, GoodEntry;
    var after := cart + [e];
    forall i, j | 0 <= i < j < |after|
      ensures after[i].sku != after[j].sku
    {
      assert Skus(cart)[i] == cart[i].sku;
    }
    QuantityInNormal(cart, e.sku);
    forall other
      ensures Quantity(after, other) == if other == e.sku then e.quantity else Quantity(cart, other)
    {
      QuantityAppend(cart, e, other);
    }
  }

  lemma SetByAppending(cart: seq<Entry>, e: Entry, rest: seq<Entry>, sku: string)
    requires QuantitySet(cart, rest, sku, 0)
    ensures QuantitySet(cart + [e], if e.sku != sku then rest + [e] else rest, sku, 0)
  {
    hide Quantity;
    forall other
      ensures Quantity(if e.sku != sku then rest + [e] else rest, other)
                == if other == sku then 0 else Quantity(cart + [e], other)
    {
      QuantityAppend(cart, e, other);
      QuantityAppend(rest, e, other);
    }
  }

  lemma SkusAppend(cart: seq<Entry>, e: Entry)
    ensures Skus(cart + [e]) == Skus(cart) + [e.sku]
  {
  }

  lemma WithoutOne(cart: seq<Entry>, e: Entry, sku: string)
    ensures Without(cart + [e], sku) == if e.sku != sku then Without(cart, sku) + [e] else Without(cart, sku)
  {
    assert (cart + [e])[..|cart|] == cart;
    assert Without(cart, sku) + [] == Without(cart, sku);
  }

  lemma SkusWithoutOne(skus: seq<string>, last: string, sku: string)
    ensures SkusWithout(skus + [last], sku)
              == if last != sku then SkusWithout(skus, sku) + [last] else SkusWithout(skus, sku)
  {
    assert (skus + [last])[..|skus|] == skus;
    assert SkusWithout(skus, sku) + [] == SkusWithout(skus, sku);
  }

  lemma {:induction false} WithoutSkus(cart: seq<Entry>, sku: string)
    ensures Skus(Without(cart, sku)) == SkusWithout(Skus(cart), sku)
  {
    hide Without, SkusWithout, Skus;
    if cart == [] {
      NothingWithout(sku);
    } else {
      var n := |cart| - 1;
      var before, e := cart[..n], cart[n];
      assert cart == before + [e];
      WithoutSkus(before, sku);
      WithoutOne(before, e, sku);
      SkusAppend(before, e);
      SkusAppend(Without(before, sku), e);
      SkusWithoutOne(Skus(before), e.sku, sku);
    }
  }

  lemma NothingWithout(sku: string)
    ensures Without([], sku) == [] && Skus([]) == [] && SkusWithout([], sku) == []
  {
  }

  lemma {:induction false} WithoutQuantities(cart: seq<Entry>, sku: string)
    ensures QuantitySet(cart, Without(cart, sku), sku, 0)
  {
    hide Without, QuantitySet;
    if cart == [] {
      NothingWithout(sku);
      NothingSet(sku);
    } else {
      var n := |cart| - 1;
      var before, e := cart[..n], cart[n];
      assert cart == before + [e];
      WithoutQuantities(before, sku);
      WithoutOne(before, e, sku);
      SetByAppending(before, e, Without(before, sku), sku);
    }
  }

  lemma NothingSet(sku: string)
    ensures QuantitySet([], [], sku, 0)
  {
  }

  lemma NormalPrefix(cart: seq<Entry>, e: Entry)
    requires Normal(cart + [e])
    ensures Normal(cart) && GoodEntry(e) && e.quantity <= MAX_QUANTITY
    ensures forall other | other in cart :: other.sku != e.sku
  {
    hide GoodEntry;
    var all := cart + [e];
    assert all[|cart|] == e;
    assert forall i | 0 <= i < |cart| :: all[i] == cart[i];
  }

  lemma NormalAppend(cart: seq<Entry>, e: Entry)
    requires Normal(cart) && GoodEntry(e) && e.quantity <= MAX_QUANTITY
    requires forall other | other in cart :: other.sku != e.sku
    ensures Normal(cart + [e])
  {
    hide GoodEntry;
    assert forall i | 0 <= i < |cart| :: cart[i] in cart;
  }

  lemma {:induction false} WithoutNormal(cart: seq<Entry>, sku: string)
    requires Normal(cart)
    ensures Normal(Without(cart, sku))
  {
    hide Normal, GoodEntry;
    if cart == [] {
      NothingIsNormal();
    } else {
      var n := |cart| - 1;
      var rest := Without(cart[..n], sku);
      assert cart == cart[..n] + [cart[n]] && rest + [] == rest;
      NormalPrefix(cart[..n], cart[n]);
      WithoutNormal(cart[..n], sku);
      NormalAppend(rest, cart[n]);
    }
  }

  // ----- the provider -----

  /** The state of the page, and the storage, which may hold any document. */
  class CartProvider {
    var items: seq<Entry>
    var cartId: Option<string>
    var storageError: bool
    var storage: Option<Document>

    /** What the page shows after any reading of the storage. */
    ghost predicate Valid()
      reads this
    {
      Normal(items) && GoodCartId(cartId)
    }

    /** What the page shows is what is stored, and there is an identifier just while there are items. */
    ghost predicate InStep()
      reads this
    {
      Valid() && (cartId.None? <==> items == []) && Reads(storage, Loaded(items, cartId, false))
    }

    /** A page is opened over whatever is stored, and shows an empty cart until it has loaded it. */
    constructor (stored: Option<Document>)
      ensures Valid() && items == [] && cartId.None? && storage == stored && (stored.None? ==> InStep())
    {
      items, cartId, storageError, storage := [], None, false, stored;
      new;
      NothingIsNormal();
    }

    /** Reading succeeds on any stored document; a page in step with the storage stays as it is. */
    method Load(inBrowser: bool)
      modifies this`items, this`cartId, this`storageError
      ensures Valid()
      ensures old(InStep()) && inBrowser ==> InStep() && items == old(items) && cartId == old(cartId) && !storageError
      ensures if inBrowser then Reads(storage, Loaded(items, cartId, storageError))
              else Loaded(items, cartId, storageError) == EMPTY
    {
      hide Normal, Reads, JsTrim;
      var loaded := ReadCart(inBrowser, storage);
      if InStep() && inBrowser {
        ReadsOnce(storage, loaded, Loaded(items, cartId, false));
      }
      items, cartId, storageError := loaded.items, loaded.cartId, loaded.error;
    }

    /** False when the cart could not be stored, and then it stays as it was. A success brings the page
        and the storage in step, whatever was stored before. */
    method Commit(next: seq<Entry>, browser: Browser) returns (ok: bool)
      requires Valid() && Normal(next)
      modifies this
      ensures Valid() && (ok || old(InStep()) ==> InStep())
      ensures ok == Works(browser)
      ensures ok ==> items == next && !storageError
      ensures ok && old(cartId).Some? && next != [] ==> cartId == old(cartId)
      ensures ok && old(cartId).None? && next != [] ==> cartId == Some("web-cart-" + browser.uuid)
      ensures !ok ==> items == old(items) && cartId == old(cartId) && storage == old(storage)
      ensures !ok ==> storageError == (browser.present || old(storageError))
    {
      hide Normal, Merges, Reads, JsTrim, ValidItem;
      CommitNormalizes(next);
      var normalized := NormalizeCart(Raw(next));
      MergesOnce(Cleaned(Raw(next).items), normalized.value, next);
      if !browser.present {
        return false;
      }
      var nextCartId := if normalized.value == [] then None
                        else if cartId.Some? then cartId
                        else Some(ID_PREFIX + browser.uuid);
      if !browser.writable {
        storageError := true;
        return false;
      }
      FreshIdIsGood(browser.uuid);
      storage := Some(Written(nextCartId, normalized.value));
      items, cartId, storageError := normalized.value, nextCartId, false;
      WrittenReadsBack(cartId, items);
      Load(true);
      ReadsOnce(storage, Loaded(items, cartId, storageError), Loaded(next, nextCartId, false));
      ok := true;
    }

    method AddItem(sku: string, quantity: int, browser: Browser) returns (ok: bool)
      requires Valid()
      modifies this
      ensures Valid() && (ok || old(InStep()) ==> InStep())
      ensures ok <==> JsTrim(sku) != "" && 0 < quantity <= 9007199254740991 && Works(browser)
      ensures ok ==> var total := Min(99, Quantity(old(items), JsTrim(sku)) + quantity);
                QuantitySet(old(items), items, JsTrim(sku), total)
      ensures ok ==> Skus(items) == Skus(old(items)) + (if JsTrim(sku) in Skus(old(items)) then [] else [JsTrim(sku)])
      ensures ok ==> cartId == (if old(cartId).Some? then old(cartId) else Some("web-cart-" + browser.uuid))
      ensures !ok ==> items == old(items) && cartId == old(cartId) && storage == old(storage)
    {
      hide Normal, Reads, Quantity, QuantitySet, JsTrim, Raised, Skus, GoodCartId;
      var cleanSku := JsTrim(sku);
      if cleanSku == "" || !SafeInteger(quantity) || quantity <= 0 {
        return false;
      }
      Adding(items, cleanSku, quantity);
      QuantityInNormal(items, cleanSku);
      var next := if cleanSku in Skus(items) then Raised(items, cleanSku, quantity)
                  else items + [Entry(cleanSku, Min(MAX_QUANTITY, quantity))];
      ok := Commit(next, browser);
    }

    method SetQuantity(sku: string, quantity: int, browser: Browser)
      requires Valid()
      modifies this
      ensures Valid() && ((SafeInteger(quantity) && Works(browser)) || old(InStep()) ==> InStep())
      ensures SafeInteger(quantity) && Works(browser) && quantity > 0 ==>
                && Skus(items) == Skus(old(items))
                && (sku in Skus(old(items)) ==> QuantitySet(old(items), items, sku, Min(99, quantity)))
                && (sku !in Skus(old(items)) ==> items == old(items))
      ensures SafeInteger(quantity) && Works(browser) && quantity <= 0 ==>
                Skus(items) == SkusWithout(Skus(old(items)), sku) && QuantitySet(old(items), items, sku, 0)
      ensures items != [] && old(cartId).Some? ==> cartId == old(cartId)
      ensures items != [] && old(cartId).None? && SafeInteger(quantity) && Works(browser) ==>
                cartId == Some("web-cart-" + browser.uuid)
      ensures !SafeInteger(quantity) || !Works(browser) ==>
                items == old(items) && cartId == old(cartId) && storage == old(storage)
    {
      hide Normal, Reads, Quantity, QuantitySet, JsTrim;
      if !SafeInteger(quantity) {
        return;
      }
      if quantity <= 0 {
        WithoutNormal(items, sku);
        WithoutSkus(items, sku);
        WithoutQuantities(items, sku);
        NothingAdded(items, sku);
        var ok := Commit(Without(items, sku), browser);
      } else {
        Setting(items, sku, quantity);
        var ok := Commit(Replaced(items, sku, quantity), browser);
      }
    }

    method RemoveItem(sku: string, browser: Browser) returns (ok: bool)
      requires Valid()
      modifies this
      ensures Valid() && ok == Works(browser) && (ok || old(InStep()) ==> InStep())
      ensures ok ==> Skus(items) == SkusWithout(Skus(old(items)), sku) && QuantitySet(old(items), items, sku, 0)
      ensures items != [] && old(cartId).Some? ==> cartId == old(cartId)
      ensures items != [] && old(cartId).None? && ok ==> cartId == Some("web-cart-" + browser.uuid)
      ensures !ok ==> items == old(items) && cartId == old(cartId) && storage == old(storage)
    {
      hide Normal, Reads, Quantity, QuantitySet, JsTrim;
      WithoutNormal(items, sku);
      WithoutSkus(items, sku);
      WithoutQuantities(items, sku);
      NothingAdded(items, sku);
      ok := Commit(Without(items, sku), browser);
    }

    method Clear(browser: Browser) returns (ok: bool)
      requires Valid()
      modifies this
      ensures Valid() && ok == Works(browser) && (ok || old(InStep()) ==> InStep())
      ensures ok ==> items == [] && cartId.None?
      ensures !ok ==> items == old(items) && cartId == old(cartId) && storage == old(storage)
    {
      NothingIsNormal();
      ok := Commit([], browser);
    }
  }

  lemma CommitNormalizes(next: seq<Entry>)
    requires Normal(next)
    ensures ValidItems(Raw(next)) && Merges(Cleaned(Raw(next).items), next)
  {
    hide JsTrim;
    RawIsValid(next);
    NormalMergesToItself(next);
  }

  lemma NothingAdded(cart: seq<Entry>, sku: string)
    ensures cart == [] ==> Without(cart, sku) == []
  {
  }

  lemma Adding(cart: seq<Entry>, sku: string, quantity: int)
    requires Normal(cart) && sku != "" && JsTrim(sku) == sku && quantity > 0
    ensures var total := Min(MAX_QUANTITY, Quantity(cart, sku) + quantity);
            var next :=
              if sku in Skus(cart) then Raised(cart, sku, quantity)
              else cart + [Entry(sku, Min(MAX_QUANTITY, quantity))];
            && Normal(next) && QuantitySet(cart, next, sku, total)
            && Skus(next) == Skus(cart) + (if sku in Skus(cart) then [] else [sku])
            && next != []
  {
    hide JsTrim, Quantity, QuantitySet, Normal;
    QuantityInNormal(cart, sku);
    if sku in Skus(cart) {
      var total := Min(MAX_QUANTITY, Quantity(cart, sku) + quantity);
      var next := Raised(cart, sku, quantity);
      forall i | 0 <= i < |next|
        ensures next[i] == if cart[i].sku == sku then Entry(sku, total) else cart[i]
      {
        QuantityAt(cart, i);
      }
      SameSkus(cart, next, sku, total);
    } else {
      OneMoreSku(cart, Entry(sku, Min(MAX_QUANTITY, quantity)));
    }
  }

  lemma QuantityAt(cart: seq<Entry>, k: nat)
    requires Normal(cart) && k < |cart|
    ensures Quantity(cart, cart[k].sku) == cart[k].quantity
  {
    DistinctQuantity(cart, k);
  }

  lemma Setting(cart: seq<Entry>, sku: string, quantity: int)
    requires Normal(cart) && quantity > 0
    ensures var next := Replaced(cart, sku, quantity);
            && Normal(next) && Skus(next) == Skus(cart)
            && (sku in Skus(cart) ==> QuantitySet(cart, next, sku, Min(MAX_QUANTITY, quantity)))
            && (sku !in Skus(cart) ==> next == cart)
  {
    hide JsTrim, Quantity, QuantitySet, Normal;
    var next := Replaced(cart, sku, quantity);
    if sku in Skus(cart) {
      SameSkus(cart, next, sku, Min(MAX_QUANTITY, quantity));
    } else {
      forall i | 0 <= i < |cart|
        ensures next[i] == cart[i]
      {
        assert Skus(cart)[i] in Skus(cart);
      }
      assert next == cart;
    }
  }
}
