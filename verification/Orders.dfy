/** Marketplace orders: `OrderRepository` over an in-memory table.

    An incoming order is matched by its external number, then, for Wildberries, by srid.  A live
    order matched by a statistics row is enriched; any other match is overwritten. */
module Orders {
  import opened Common

  datatype Source = LiveOrder | StatisticsOrder | ReportOrder | PostingEvent

  datatype SaleModel = FBS | FBO | RFBS | DBS | DBW

  /** The amounts every merge overwrites. */
  datatype Amounts = Amounts(
    quantity: int, buyerPrice: int, sellerPrice: int, discountedPrice: int,
    payout: Option<int>, commission: Option<int>, logistics: Option<int>, otherExpenses: Option<int>)

  datatype Item = Item(
    sellerArticle: Option<string>, marketplaceArticle: Option<string>, title: Option<string>, amounts: Amounts)

  /** The columns `_apply_order` copies as they come and enrichment never touches. */
  datatype Details = Details(
    orderDate: int, saleModel: Option<SaleModel>, fulfillmentType: Option<string>, urgencyType: Option<string>,
    deliverySchema: Option<string>, deadlineAt: Option<int>, processingDeadlineAt: Option<int>,
    requiresSellerAction: bool)

  datatype Status = Status(status: string, raw: Option<string>, normalized: Option<string>)

  /** A payload, and the statistics payload filed under its `_enrichment` key. */
  datatype Payload = Payload(body: int, statistics: Option<int>)

  /** `NormalizedOrder` */
  datatype Incoming = Incoming(
    marketplace: Marketplace, externalId: string, postingNumber: Option<string>, assemblyId: Option<string>,
    srid: Option<string>, source: Option<Source>, details: Details, status: Status,
    warehouse: Option<string>, warehouseType: Option<string>, items: seq<Item>, body: int)

  datatype Order = Order(
    id: nat, userId: int, accountId: int, marketplace: Marketplace, externalId: string,
    postingNumber: Option<string>, assemblyId: Option<string>, srid: Option<string>, source: Option<Source>,
    details: Details, status: Status, warehouse: Option<string>, warehouseType: Option<string>,
    receivedAt: int, firstNotifiedAt: Option<int>, lastNotifiedAt: Option<int>,
    cancellationNotifiedAt: Option<int>, items: seq<Item>, payload: Payload)

  /** One call of `upsert`. */
  datatype Arrival = Arrival(userId: int, accountId: int, order: Incoming, now: int)

  datatype Error = MultipleRows

  // ----- Lookups

  datatype Query = ByExternal(account: int, marketplace: Marketplace, externalId: string)
                 | BySrid(account: int, srid: Option<string>)

  predicate Selects(q: Query, o: Order) {
    match q
    case ByExternal(account, marketplace, externalId) =>
      o.accountId == account && o.marketplace == marketplace && o.externalId == externalId
    case BySrid(account, srid) =>
      o.accountId == account && o.marketplace == WB && o.srid == srid
  }

  predicate SelectsAt(orders: seq<Order>, q: Query, i: nat) {
    i < |orders| && Selects(q, orders[i])
  }

  datatype Found = Nothing | At(index: nat) | Several

  /** `scalar_one_or_none`: two matching rows are an error. */
  ghost predicate IsFound(orders: seq<Order>, q: Query, r: Found) {
    match r
    case Nothing => forall i: nat :: !SelectsAt(orders, q, i)
    case At(k) => forall i: nat :: SelectsAt(orders, q, i) <==> i == k
    case Several => exists i: nat, j: nat :: i < j && SelectsAt(orders, q, i) && SelectsAt(orders, q, j)
  }

  ghost function Lookup(orders: seq<Order>, q: Query): (r: Found)
    ensures IsFound(orders, q, r)
  {
    if i: nat :| SelectsAt(orders, q, i) then
      if j: nat :| j != i && SelectsAt(orders, q, j) then
        Several
      else At(i)
    else Nothing
  }

  lemma LookupIs(orders: seq<Order>, q: Query, r: Found)
    requires IsFound(orders, q, r)
    ensures Lookup(orders, q) == r
  {
    match r
    case Nothing =>
    case At(k) => assert SelectsAt(orders, q, k);
    case Several =>
  }

  /** `_get_existing` */
  ghost function Existing(orders: seq<Order>, account: int, e: Incoming): Found {
    var byNumber := Lookup(orders, ByExternal(account, e.marketplace, e.externalId));
    if byNumber.Nothing? && e.marketplace == WB && Truthy(e.srid) then Lookup(orders, BySrid(account, e.srid))
    else byNumber
  }

  // ----- Merging one order into another

  predicate IsDigits(s: string) {
    s != "" && forall i | 0 <= i < |s| :: '0' <= s[i] <= '9'
  }

  predicate Enriches(o: Order, e: Incoming) {
    o.marketplace == WB && o.source == Some(LiveOrder) && e.source == Some(StatisticsOrder)
  }

  /** `_apply_order` */
  function Applied(o: Order, e: Incoming): Order {
    o.(postingNumber := Or(e.postingNumber, o.postingNumber),
       assemblyId := Or(e.assemblyId, o.assemblyId),
       srid := Or(e.srid, o.srid),
       source := e.source, details := e.details, status := e.status,
       warehouse := e.warehouse, warehouseType := e.warehouseType, payload := Payload(e.body, None))
  }

  const CANCELLED := Status("cancelled", Some("cancelled"), Some("cancelled"))

  /** A warehouse name that is missing, or only WB's numeric code. */
  predicate Technical(warehouse: Option<string>) {
    !Truthy(warehouse) || IsDigits(warehouse.value)
  }

  /** `_enrich_live_order_from_statistics`, without the first item's texts. */
  function EnrichedHeader(o: Order, e: Incoming): Order {
    o.(payload := o.payload.(statistics := Some(e.body)),
       status := if e.status.normalized == Some("cancelled") then CANCELLED else o.status,
       warehouse := if Technical(o.warehouse) then Or(e.warehouse, o.warehouse) else o.warehouse,
       warehouseType := Or(o.warehouseType, Or(e.warehouseType, o.warehouseType)))
  }

  function FilledTexts(p: Item, i: Item): Item {
    p.(title := Or(p.title, Or(i.title, p.title)),
       sellerArticle := Or(p.sellerArticle, Or(i.sellerArticle, p.sellerArticle)),
       marketplaceArticle := Or(p.marketplaceArticle, Or(i.marketplaceArticle, p.marketplaceArticle)))
  }

  function Enriched(o: Order, e: Incoming): Order {
    var header := EnrichedHeader(o, e);
    if o.items != [] && e.items != [] then header.(items := o.items[0 := FilledTexts(o.items[0], e.items[0])])
    else header
  }

  function MergedItem(p: Item, i: Item): Item {
    Item(Or(i.sellerArticle, p.sellerArticle), Or(i.marketplaceArticle, p.marketplaceArticle),
         Or(i.title, p.title), i.amounts)
  }

  /** Missing items are added; otherwise items are overwritten pairwise, as far as both lists go. */
  function MergedItems(persisted: seq<Item>, incoming: seq<Item>): (r: seq<Item>) {
    if persisted == [] then incoming
    else seq(|persisted|, k requires 0 <= k < |persisted| =>
               if k < |incoming| then MergedItem(persisted[k], incoming[k]) else persisted[k])
  }

  function Merged(o: Order, e: Incoming): Order {
    var header := if Enriches(o, e) then Enriched(o, e) else Applied(o, e);
    header.(items := MergedItems(header.items, e.items))
  }

  function Created(id: nat, a: Arrival): Order {
    var e := a.order;
    Order(id, a.userId, a.accountId, e.marketplace, e.externalId, e.postingNumber, e.assemblyId, e.srid, e.source,
          e.details, e.status, e.warehouse, e.warehouseType, a.now, None, None, None, e.items, Payload(e.body, None))
  }

  /** `upsert`: the table afterwards, the row's position, and whether it is new. */
  datatype Upserted = Upserted(orders: seq<Order>, index: nat, created: bool)

  ghost function Upsert(orders: seq<Order>, a: Arrival): Result<Upserted, Error> {
    match Existing(orders, a.accountId, a.order)
    case Several => Err(MultipleRows)
    case Nothing => Ok(Upserted(orders + [Created(|orders|, a)], |orders|, true))
    case At(k) => if k < |orders| then Ok(Upserted(orders[k := Merged(orders[k], a.order)], k, false)) else Err(MultipleRows)
  }

  class OrderRepository {
    var orders: seq<Order>

    constructor ()
      ensures orders == []
    {
      orders := [];
    }

    method ScalarOneOrNone(q: Query) returns (r: Found)
      ensures r == Lookup(orders, q)
    {
      if exists i: nat | i < |orders| :: SelectsAt(orders, q, i) {
        var i: nat :| i < |orders| && SelectsAt(orders, q, i);
        if exists j: nat | j < |orders| :: j != i && SelectsAt(orders, q, j) {
          r := Several;
        } else {
          r := At(i);
        }
      } else {
        r := Nothing;
      }
      LookupIs(orders, q, r);
    }

    method GetExisting(account: int, e: Incoming) returns (r: Found)
      ensures r == Existing(orders, account, e)
    {
      r := ScalarOneOrNone(ByExternal(account, e.marketplace, e.externalId));
      if r.Nothing? && e.marketplace == WB && Truthy(e.srid) {
        r := ScalarOneOrNone(BySrid(account, e.srid));
      }
    }

    method EnrichLiveOrder(k: nat, e: Incoming)
      requires k < |orders|
      modifies this
      ensures orders == old(orders)[k := Enriched(old(orders)[k], e)]
    {
      var existing := orders[k];
      existing := existing.(payload := existing.payload.(statistics := Some(e.body)));
      if e.status.normalized == Some("cancelled") {
        existing := existing.(status := CANCELLED);
      }
      if !Truthy(existing.warehouse) || IsDigits(existing.warehouse.value) {
        if Truthy(e.warehouse) {
          existing := existing.(warehouse := e.warehouse);
        }
      }
      if !Truthy(existing.warehouseType) && Truthy(e.warehouseType) {
        existing := existing.(warehouseType := e.warehouseType);
      }
      assert existing == EnrichedHeader(orders[k], e);
      if e.items != [] && existing.items != [] {
        var item := FillTexts(existing.items[0], e.items[0]);
        existing := existing.(items := existing.items[0 := item]);
      }
      orders := orders[k := existing];
    }

    method FillTexts(persisted: Item, incoming: Item) returns (item: Item)
      ensures item == FilledTexts(persisted, incoming) && item.amounts == persisted.amounts
      ensures item.title == if !Truthy(persisted.title) && Truthy(incoming.title) then incoming.title else persisted.title
      ensures item.sellerArticle ==
              if !Truthy(persisted.sellerArticle) && Truthy(incoming.sellerArticle) then incoming.sellerArticle
              else persisted.sellerArticle
      ensures item.marketplaceArticle ==
              if !Truthy(persisted.marketplaceArticle) && Truthy(incoming.marketplaceArticle)
              then incoming.marketplaceArticle else persisted.marketplaceArticle
    {
      item := persisted;
      if !Truthy(item.title) && Truthy(incoming.title) {
        item := item.(title := incoming.title);
      }
      if !Truthy(item.sellerArticle) && Truthy(incoming.sellerArticle) {
        item := item.(sellerArticle := incoming.sellerArticle);
      }
      if !Truthy(item.marketplaceArticle) && Truthy(incoming.marketplaceArticle) {
        item := item.(marketplaceArticle := incoming.marketplaceArticle);
      }
    }

    /** Overwrites the persisted items of row `k` one by one, or adds them all when it has none. */
    method MergeItems(k: nat, incoming: seq<Item>)
      requires k < |orders|
      modifies this
      ensures orders == old(orders)[k := old(orders)[k].(items := MergedItems(old(orders)[k].items, incoming))]
    {
      var items := orders[k].items;
      if items == [] {
        items := incoming;
      } else {
        var i := 0;
        while i < |items| && i < |incoming|
          invariant 0 <= i <= |items| == |old(orders)[k].items| && i <= |incoming|
          invariant items[..i] == MergedItems(old(orders)[k].items, incoming)[..i]
          invariant items[i..] == old(orders)[k].items[i..]
        {
          items := items[i := MergedItem(items[i], incoming[i])];
          i := i + 1;
        }
        assert items == MergedItems(old(orders)[k].items, incoming);
      }
      orders := orders[k := orders[k].(items := items)];
    }

    method UpsertOrder(a: Arrival) returns (r: Result<(nat, bool), Error>)
      modifies this
      ensures match Upsert(old(orders), a)
              case Err(e) => r == Err(e) && orders == old(orders)
              case Ok(u) => r == Ok((u.index, u.created)) && orders == u.orders
    {
      var existing := GetExisting(a.accountId, a.order);
      match existing
      case Several => r := Err(MultipleRows);
      case Nothing =>
        r := Ok((|orders|, true));
        orders := orders + [Created(|orders|, a)];
      case At(k) =>
        ExistingInRange(orders, a.accountId, a.order);
        if Enriches(orders[k], a.order) {
          EnrichLiveOrder(k, a.order);
        } else {
          orders := orders[k := Applied(orders[k], a.order)];
        }
        MergeItems(k, a.order.items);
        r := Ok((k, false));
    }
  }

  lemma ExistingInRange(orders: seq<Order>, account: int, e: Incoming)
    ensures var f := Existing(orders, account, e);
            f.At? ==> f.index < |orders| && orders[f.index].accountId == account
                      && orders[f.index].marketplace == e.marketplace
                      && (orders[f.index].externalId == e.externalId ||
                          (e.marketplace == WB && Truthy(e.srid) && orders[f.index].srid == e.srid))
  {
    var f := Existing(orders, account, e);
    if f.At? {
      assert SelectsAt(orders, ByExternal(account, e.marketplace, e.externalId), f.index)
          || SelectsAt(orders, BySrid(account, e.srid), f.index);
    }
  }

  // ----- One call, done twice

  /** Columns that `upsert` never writes on an existing row, in either mode. */
  ghost predicate SameIdentity(o: Order, o': Order) {
    && (o'.id, o'.userId, o'.accountId, o'.marketplace, o'.externalId, o'.receivedAt)
       == (o.id, o.userId, o.accountId, o.marketplace, o.externalId, o.receivedAt)
    && (o'.firstNotifiedAt, o'.lastNotifiedAt, o'.cancellationNotifiedAt)
       == (o.firstNotifiedAt, o.lastNotifiedAt, o.cancellationNotifiedAt)
  }

  /** The rows that were there keep their place and their identity columns, whatever arrives. */
  lemma UpsertKeepsIdentity(orders: seq<Order>, a: Arrival)
    requires Upsert(orders, a).Ok?
    ensures var after := Upsert(orders, a).value.orders;
            |orders| <= |after| && forall i | 0 <= i < |orders| :: SameIdentity(orders[i], after[i])
  {
    forall i | 0 <= i < |orders| ensures SameIdentity(orders[i], Upsert(orders, a).value.orders[i]) {
      MergedColumns(orders[i], a.order);
    }
  }

  lemma MergedColumns(o: Order, e: Incoming)
    ensures SameIdentity(o, Merged(o, e))
    ensures Merged(o, e).srid == if Enriches(o, e) then o.srid else Or(e.srid, o.srid)
  {
  }

  lemma MergedTwice(o: Order, e: Incoming)
    ensures Merged(Merged(o, e), e) == Merged(o, e)
  {
    var once := Merged(o, e);
    assert Merged(once, e).items == once.items;
  }

  lemma CreatedThenMerged(id: nat, a: Arrival)
    ensures Merged(Created(id, a), a.order) == Created(id, a)
  {
    assert MergedItems(a.order.items, a.order.items) == a.order.items;
  }

  /** A second lookup for the same order finds the row the first call left. */
  lemma ExistingAfterUpsert(orders: seq<Order>, a: Arrival)
    requires Upsert(orders, a).Ok?
    ensures Existing(Upsert(orders, a).value.orders, a.accountId, a.order) == At(Upsert(orders, a).value.index)
  {
    var u := Upsert(orders, a).value;
    var e := a.order;
    var byNumber, bySrid := ByExternal(a.accountId, e.marketplace, e.externalId), BySrid(a.accountId, e.srid);
    if u.created {
      forall i: nat ensures SelectsAt(u.orders, byNumber, i) <==> i == u.index {
        assert SelectsAt(orders, byNumber, i) ==> i < |orders|;
      }
      LookupIs(u.orders, byNumber, At(u.index));
    } else {
      ExistingInRange(orders, a.accountId, e);
      MergedColumns(orders[u.index], e);
      assert forall i: nat :: SelectsAt(u.orders, byNumber, i) <==> SelectsAt(orders, byNumber, i);
      LookupIs(u.orders, byNumber, Lookup(orders, byNumber));
      if Lookup(orders, byNumber).Nothing? {
        assert forall i: nat :: SelectsAt(u.orders, bySrid, i) <==> SelectsAt(orders, bySrid, i);
        LookupIs(u.orders, bySrid, At(u.index));
      }
    }
  }

  /** Upserting the same order again changes nothing and creates nothing, whichever branch it took. */
  lemma UpsertIdempotent(orders: seq<Order>, a: Arrival, later: int)
    requires Upsert(orders, a).Ok?
    ensures var u := Upsert(orders, a).value;
            Upsert(u.orders, a.(now := later)) == Ok(Upserted(u.orders, u.index, false))
  {
    var u := Upsert(orders, a).value;
    ExistingAfterUpsert(orders, a);
    if u.created {
      CreatedThenMerged(|orders|, a);
    } else {
      ExistingInRange(orders, a.accountId, a.order);
      MergedTwice(orders[u.index], a.order);
    }
    assert u.orders[u.index := u.orders[u.index]] == u.orders;
  }
}
