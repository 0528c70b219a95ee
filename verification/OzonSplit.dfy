/** How an Ozon posting's money is split: commission, logistics, other services, and what is left to
    the seller.  Money is `real`, as the source computes it in exact decimals. */
module OzonSplit {
  import opened Common

  /** A service line, or an entry that is not a JSON object.  `name` and `kind` are in lower case. */
  datatype Service =
    | Service(name: Option<string>, kind: Option<string>, price: Option<real>, amount: Option<real>)
    | NotAnObject

  /** `services` is `None` when the field is missing or not a list. */
  datatype Finance = Finance(
    productId: Option<string>, offerId: Option<string>, sku: Option<string>,
    commissionAmount: Option<real>, services: Option<seq<Service>>, payout: real)

  datatype Product = Product(sku: Option<string>, offerId: Option<string>, productId: Option<string>, price: real)

  datatype Item = Item(
    price: real, payoutEstimated: real, sellerPayout: real,
    commission: Option<real>, logistics: real, other: real)

  const LOGISTICS: seq<string> := ["delivery", "logistic"]
  const OTHER_SERVICES: seq<string> := ["service", "processing", "return", "storage", "last_mile"]
  const NO_FINANCE := Finance(None, None, None, None, None, 0.0)

  function Abs(x: real): real {
    if x < 0.0 then -x else x
  }

  /** Python's `part in s`. */
  predicate Contains(s: string, part: string) {
    |part| <= |s| && (s[..|part|] == part || (|s| > 0 && Contains(s[1..], part)))
  }

  predicate Mentions(s: string, parts: seq<string>) {
    exists part | part in parts :: Contains(s, part)
  }

  function NameOf(s: Service): string
    requires s.Service?
  {
    var name := Or(s.name, s.kind);
    if Truthy(name) then name.value else ""
  }

  function AmountOf(s: Service): real
    requires s.Service?
  {
    if s.price.Some? && s.price.value != 0.0 then Abs(s.price.value)
    else if s.amount.Some? then Abs(s.amount.value) else 0.0
  }

  predicate Counts(s: Service, keywords: seq<string>, exclude: seq<string>) {
    s.Service? && Mentions(NameOf(s), keywords) && !Mentions(NameOf(s), exclude)
  }

  /** The absolute amounts of the services that mention a keyword and nothing excluded. */
  function Charged(services: seq<Service>, keywords: seq<string>, exclude: seq<string>): (r: real)
    ensures r >= 0.0
  {
    if services == [] then 0.0
    else
      var s := services[|services| - 1];
      Charged(services[..|services| - 1], keywords, exclude)
        + if Counts(s, keywords, exclude) then AmountOf(s) else 0.0
  }

  /** The absolute amounts of all services. */
  function AllAmounts(services: seq<Service>): real {
    if services == [] then 0.0
    else
      var s := services[|services| - 1];
      AllAmounts(services[..|services| - 1]) + if s.Service? then AmountOf(s) else 0.0
  }

  /** The absolute amounts of the services that mention no keyword of either kind. */
  function Unclaimed(services: seq<Service>): (r: real)
    ensures r >= 0.0
  {
    if services == [] then 0.0
    else
      var s := services[|services| - 1];
      Unclaimed(services[..|services| - 1])
        + if s.Service? && !Mentions(NameOf(s), LOGISTICS) && !Mentions(NameOf(s), OTHER_SERVICES)
          then AmountOf(s) else 0.0
  }

  /** The two totals split the service amounts: every service is in exactly one of logistics, other,
      and the part no keyword claims, so the two never exceed the whole and never share a service. */
  lemma {:induction false} SplitIsExact(services: seq<Service>)
    ensures Charged(services, LOGISTICS, []) + Charged(services, OTHER_SERVICES, LOGISTICS) + Unclaimed(services)
         == AllAmounts(services)
    ensures Charged(services, LOGISTICS, []) + Charged(services, OTHER_SERVICES, LOGISTICS) <= AllAmounts(services)
    ensures forall s | s in services ::
              !(Counts(s, LOGISTICS, []) && Counts(s, OTHER_SERVICES, LOGISTICS))
  {
    if services != [] {
      SplitIsExact(services[..|services| - 1]);
    }
  }

  // ----- What one service adds, written out

  predicate OccursAt(s: string, part: string, i: nat) {
    i + |part| <= |s| && s[i..i + |part|] == part
  }

  lemma {:induction false} ContainsAt(s: string, part: string)
    ensures Contains(s, part) <==> exists i: nat :: OccursAt(s, part, i)
  {
    if s == [] {
      assert part == [] ==> OccursAt(s, part, 0);
    } else {
      ContainsAt(s[1..], part);
      assert Contains(s, part) && !Contains(s[1..], part) ==> OccursAt(s, part, 0);
      if i: nat :| OccursAt(s[1..], part, i) {
        assert s[1..][i..i + |part|] == s[i + 1..i + 1 + |part|];
        assert OccursAt(s, part, i + 1);
      }
      if i: nat :| OccursAt(s, part, i) {
        if i > 0 {
          assert s[1..][i - 1..i - 1 + |part|] == s[i..i + |part|];
          assert OccursAt(s[1..], part, i - 1);
        }
      }
    }
  }

  /** The text has one of the words at some position. */
  ghost predicate HasWord(text: string, words: seq<string>) {
    exists word, i: nat :: word in words && OccursAt(text, word, i)
  }

  lemma MentionsIsHasWord(text: string, words: seq<string>)
    ensures Mentions(text, words) <==> HasWord(text, words)
  {
    forall word ensures Contains(text, word) <==> exists i: nat :: OccursAt(text, word, i) {
      ContainsAt(text, word);
    }
  }

  /** The name a service goes by: its own unless missing or empty, else its type, else nothing. */
  function Label(name: Option<string>, kind: Option<string>): string {
    if name.Some? && |name.value| > 0 then name.value else if kind.Some? then kind.value else ""
  }

  /** What it costs: its price unless missing or zero, else its amount, else nothing; without the sign. */
  function Cost(price: Option<real>, amount: Option<real>): real {
    var cost := if price.Some? && price.value != 0.0 then price.value else if amount.Some? then amount.value else 0.0;
    if cost >= 0.0 then cost else 0.0 - cost
  }

  /** One more service adds its cost to a total exactly if its label has a keyword and no excluded word; an
      entry that is no object adds nothing. */
  lemma AddingAService(
    services: seq<Service>, name: Option<string>, kind: Option<string>, price: Option<real>, amount: Option<real>,
    keywords: seq<string>, exclude: seq<string>)
    ensures Charged([], keywords, exclude) == 0.0
    ensures Charged(services + [NotAnObject], keywords, exclude) == Charged(services, keywords, exclude)
    ensures Charged(services + [Service(name, kind, price, amount)], keywords, exclude) ==
            Charged(services, keywords, exclude) +
            if HasWord(Label(name, kind), keywords) && !HasWord(Label(name, kind), exclude) then Cost(price, amount) else 0.0
    ensures AllAmounts(services + [Service(name, kind, price, amount)]) == AllAmounts(services) + Cost(price, amount)
  {
    MentionsIsHasWord(Label(name, kind), keywords);
    MentionsIsHasWord(Label(name, kind), exclude);
    var s := Service(name, kind, price, amount);
    assert NameOf(s) == Label(name, kind);
    assert (services + [s])[..|services|] == services && (services + [NotAnObject])[..|services|] == services;
  }

  method ExtractServiceAmount(services: Option<seq<Service>>, keywords: seq<string>, exclude: seq<string>)
    returns (total: real)
    ensures total == Charged(if services.Some? then services.value else [], keywords, exclude)
  {
    total := 0.0;
    if services.None? {
      return;
    }
    for i := 0 to |services.value|
      invariant total == Charged(services.value[..i], keywords, exclude)
    {
      var s := services.value[i];
      assert services.value[..i + 1][..i] == services.value[..i];
      if s.NotAnObject? {
        continue;
      }
      var name := NameOf(s);
      if exclude != [] && Mentions(name, exclude) {
        continue;
      }
      if Mentions(name, keywords) {
        total := total + AmountOf(s);
      }
    }
    assert services.value[..|services.value|] == services.value;
  }

  // ----- Which finance record a product line gets

  predicate Names(f: Finance, key: string) {
    key != "" && (f.productId == Some(key) || f.offerId == Some(key) || f.sku == Some(key))
  }

  /** The last record that carries `key` in any of its three id fields, which share one dictionary. */
  function LastNamed(financial: seq<Finance>, key: string): Option<Finance> {
    if financial == [] then None
    else if Names(financial[|financial| - 1], key) then Some(financial[|financial| - 1])
    else LastNamed(financial[..|financial| - 1], key)
  }

  /** Record `i` is the last to carry the key. */
  ghost predicate LastAt(financial: seq<Finance>, key: string, i: nat) {
    i < |financial| && Names(financial[i], key) && forall j | i < j < |financial| :: !Names(financial[j], key)
  }

  lemma {:induction false} LastNamedIsLast(financial: seq<Finance>, key: string, f: Finance)
    ensures LastNamed(financial, key) == Some(f) <==> exists i: nat :: LastAt(financial, key, i) && f == financial[i]
    ensures LastNamed(financial, key).None? <==> forall i | 0 <= i < |financial| :: !Names(financial[i], key)
  {
    if financial != [] {
      var n: nat := |financial| - 1;
      var front := financial[..n];
      LastNamedIsLast(front, key, f);
      if Names(financial[n], key) {
        assert LastAt(financial, key, n);
      } else {
        forall i: nat ensures LastAt(financial, key, i) <==> LastAt(front, key, i) {
          assert forall j | 0 <= j < n :: front[j] == financial[j];
        }
      }
    }
  }

  /** The dictionary of finance records holds under each key the last record that carries it. */
  method IndexFinances(financial: seq<Finance>) returns (index: map<string, Finance>)
    ensures forall key :: (if key in index then Some(index[key]) else None) == LastNamed(financial, key)
  {
    index := map[];
    for i := 0 to |financial|
      invariant forall key :: (if key in index then Some(index[key]) else None) == LastNamed(financial[..i], key)
    {
      var f := financial[i];
      assert financial[..i + 1][..i] == financial[..i];
      if Truthy(f.productId) { index := index[f.productId.value := f]; }
      if Truthy(f.offerId) { index := index[f.offerId.value := f]; }
      if Truthy(f.sku) { index := index[f.sku.value := f]; }
    }
    assert financial[..|financial|] == financial;
  }

  /** The dictionary key a product line looks up. */
  function KeyOf(p: Product): string {
    if Truthy(p.sku) then p.sku.value
    else if Truthy(p.offerId) then p.offerId.value
    else if p.productId.Some? then p.productId.value else "None"
  }

  /** Finance `f` settles line `p` as `item`.  With no payout named, the price is fully distributed over
      commission, logistics, other services and the seller; a positive payout is the seller's; after a
      negative one the seller is shown the whole price. */
  ghost predicate Settles(p: Product, f: Finance, item: Item) {
    var services := if f.services.Some? then f.services.value else [];
    && item.price == p.price
    && item.commission == (if f.commissionAmount.None? then None else Some(Abs(f.commissionAmount.value)))
    && item.logistics == Charged(services, LOGISTICS, [])
    && item.other == Charged(services, OTHER_SERVICES, LOGISTICS)
    && item.logistics + item.other <= AllAmounts(services)
    && item.payoutEstimated == (if f.payout > 0.0 then f.payout else p.price)
    && (f.payout > 0.0 ==> item.sellerPayout == f.payout)
    && (f.payout == 0.0 ==>
          item.sellerPayout + (if item.commission.Some? then item.commission.value else 0.0)
            + item.logistics + item.other == item.price)
    && (f.payout < 0.0 ==> item.sellerPayout == item.price)
  }

  /** The finance record a product line is settled by: the last one its key names, or an empty one. */
  function FinanceOf(financial: Option<seq<Finance>>, p: Product): Finance {
    var f := LastNamed(if financial.Some? then financial.value else [], KeyOf(p));
    if f.Some? then f.value else NO_FINANCE
  }

  /** Record `i` carries the key in one of its ids. */
  ghost predicate NamedAt(financial: seq<Finance>, key: string, i: nat) {
    && i < |financial| && key != ""
    && (financial[i].productId == Some(key) || financial[i].offerId == Some(key) || financial[i].sku == Some(key))
  }

  /** A line is settled by the last record that carries its sku, else its offer id, else its product id, as
      text; and by an empty record, without commission, services or payout, when none does. */
  lemma FinanceOfExactly(financial: seq<Finance>, p: Product)
    ensures FinanceOf(None, p) == Finance(None, None, None, None, None, 0.0)
    ensures var key := if p.sku.Some? && |p.sku.value| > 0 then p.sku.value
                       else if p.offerId.Some? && |p.offerId.value| > 0 then p.offerId.value
                       else if p.productId.Some? then p.productId.value else "None";
            || (exists i: nat :: NamedAt(financial, key, i) && (forall j: nat | j > i :: !NamedAt(financial, key, j))
                                 && FinanceOf(Some(financial), p) == financial[i])
            || ((forall i: nat :: !NamedAt(financial, key, i))
                && FinanceOf(Some(financial), p) == Finance(None, None, None, None, None, 0.0))
  {
    var key := KeyOf(p);
    LastNamedIsLast(financial, key, FinanceOf(Some(financial), p));
    if i: nat :| LastAt(financial, key, i) && FinanceOf(Some(financial), p) == financial[i] {
      assert NamedAt(financial, key, i);
    }
  }

  method Settle(p: Product, finance: Finance) returns (item: Item)
    ensures Settles(p, finance, item)
  {
    var commission := if finance.commissionAmount.None? then None else Some(Abs(finance.commissionAmount.value));
    var logistics := ExtractServiceAmount(finance.services, LOGISTICS, []);
    var other := ExtractServiceAmount(finance.services, OTHER_SERVICES, LOGISTICS);
    var payout := finance.payout;
    var sellerPayout := if payout > 0.0 then payout else p.price;
    if payout == 0.0 {
      if commission.Some? && commission.value != 0.0 {
        sellerPayout := sellerPayout - commission.value;
      }
      sellerPayout := sellerPayout - logistics;
      sellerPayout := sellerPayout - other;
    }
    SplitIsExact(if finance.services.Some? then finance.services.value else []);
    item := Item(p.price, if payout > 0.0 then payout else p.price, sellerPayout, commission, logistics, other);
  }

  /** `_normalize_products`: one item per product line, in order. */
  method NormalizeProducts(products: seq<Product>, financial: Option<seq<Finance>>) returns (items: seq<Item>)
    ensures |items| == |products|
    ensures forall i | 0 <= i < |products| :: Settles(products[i], FinanceOf(financial, products[i]), items[i])
  {
    items := [];
    var index := IndexFinances(if financial.Some? then financial.value else []);
    for i := 0 to |products|
      invariant |items| == i
      invariant forall k | 0 <= k < i :: Settles(products[k], FinanceOf(financial, products[k]), items[k])
    {
      var key := KeyOf(products[i]);
      var finance := if key in index then index[key] else NO_FINANCE;
      var item := Settle(products[i], finance);
      items := items + [item];
    }
  }
}
