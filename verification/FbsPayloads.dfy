/** What the sync stores of an assembly order, and how a row takes it: of entries listed twice only the
    later occurrence counts. */
module FbsPayloads {
  import opened Common
  import opened Orders
  import opened OrderDedup
  import opened RowHistories
  import opened FbsWindows
  import RowColumns

  type Id = s: string | s != "" witness "1"

  /** An id rendered as a string; empty for a missing one. */
  type Digits = s: string | s == "" || IsDigits(s)

  /** A payload of `/api/v3/orders`; times in microseconds, amounts as the price helpers give them. */
  datatype FbsPayload = FbsPayload(
    id: Id, rid: Option<string>, createdAt: int, status: Option<string>, wbStatus: Option<string>,
    article: Option<string>, nmId: Digits, subject: Option<string>, warehouseId: Digits, officeId: Digits,
    delivery: string, sellerDate: Option<int>,
    price: int, commission: Option<int>, logistics: int, other: int, body: int)

  /** `normalize_historical_fbs_order` */
  function NormalizeHistorical(p: FbsPayload): Incoming {
    var raw := if Truthy(p.status) then p.status.value else if Truthy(p.wbStatus) then p.wbStatus.value else "history_order";
    Incoming(
      WB, p.id, None, Some(p.id), p.rid, Some(StatisticsOrder),
      Details(p.createdAt, Some(FBS), Some("FBS"), Some("INFORMATIONAL"), Some(p.delivery), p.sellerDate, p.sellerDate, false),
      Status(raw, Some(raw), Some(Lower(raw))),
      Some(if p.warehouseId != "" then p.warehouseId else p.officeId), Some("seller"),
      [Item(p.article, Some(p.nmId), p.subject,
            Amounts(1, p.price, p.price, p.price, Some(p.price), p.commission, Some(p.logistics), Some(p.other)))],
      p.body)
  }

  /** The listing as the sync stores it; the clock of each store is left open by `SameButNow`. */
  function Listed(ps: seq<FbsPayload>, user: int, account: int): seq<FbsOrder> {
    seq(|ps|, i requires 0 <= i < |ps| =>
      FbsOrder(UnixSeconds(ps[i].createdAt), Arrival(user, account, NormalizeHistorical(ps[i]), 0)))
  }

  /** What the proofs below use of the normaliser. */
  ghost predicate Normal(a: Arrival, user: int, account: int) {
    && a.userId == user && a.accountId == account && a.order.marketplace == WB
    && a.order.source == Some(StatisticsOrder) && a.order.postingNumber == None && Truthy(a.order.assemblyId)
    && |a.order.items| == 1 && Technical(a.order.warehouse) && a.order.warehouseType == Some("seller")
  }

  ghost predicate AllNormal(h: seq<Arrival>, user: int, account: int) {
    forall a | a in h :: Normal(a, user, account)
  }

  lemma NormalizedIsNormal(p: FbsPayload, user: int, account: int, now: int)
    ensures Normal(Arrival(user, account, NormalizeHistorical(p), now), user, account)
  {
  }

  ghost predicate NormalOrders(h: seq<FbsOrder>, user: int, account: int) {
    forall o | o in h :: Normal(o.arrival, user, account)
  }

  lemma ListedIsNormal(ps: seq<FbsPayload>, user: int, account: int)
    ensures NormalOrders(Listed(ps, user, account), user, account)
  {
    forall i | 0 <= i < |ps| ensures Normal(Listed(ps, user, account)[i].arrival, user, account) {
      NormalizedIsNormal(ps[i], user, account, 0);
    }
  }

  // ----- What a row shows, apart from ids and clocks

  function CoreItem(i: Item): Item {
    Item(Norm(i.sellerArticle), Norm(i.marketplaceArticle), Norm(i.title), i.amounts)
  }

  function CoreItems(items: seq<Item>): seq<Item> {
    seq(|items|, k requires 0 <= k < |items| => CoreItem(items[k]))
  }

  /** The row without its serial id, number and time of receipt, a missing text being null or empty alike. */
  function Core(o: Order): Order {
    o.(id := 0, externalId := "", receivedAt := 0, srid := Norm(o.srid), items := CoreItems(o.items))
  }

  ghost function Cored(r: Option<Order>): Option<Order> {
    if r.Some? then Some(Core(r.value)) else None
  }

  ghost predicate Alike(r: Option<Order>, r': Option<Order>) {
    Cored(r) == Cored(r')
  }

  /** Two runs of arrivals that differ in nothing but the clock. */
  ghost predicate SameButNow(h: seq<Arrival>, h': seq<Arrival>) {
    |h| == |h'| && forall i | 0 <= i < |h| :: h[i].(now := 0) == h'[i].(now := 0)
  }

  lemma MergedItemsCore(u: seq<Item>, v: seq<Item>, incoming: seq<Item>)
    requires CoreItems(u) == CoreItems(v)
    ensures CoreItems(MergedItems(u, incoming)) == CoreItems(MergedItems(v, incoming))
  {
    assert |u| == |CoreItems(u)| == |v|;
    forall k | 0 <= k < |u| ensures CoreItem(u[k]) == CoreItem(v[k]) {
      assert CoreItems(u)[k] == CoreItems(v)[k];
    }
  }

  lemma MergedCore(u: Order, v: Order, e: Incoming)
    requires Core(u) == Core(v)
    ensures Core(Merged(u, e)) == Core(Merged(v, e))
  {
    MergedParts(u, e);
    MergedParts(v, e);
    MergedItemsCore(u.items, v.items, e.items);
  }

  lemma StepAlike(r: Option<Order>, r': Option<Order>, a: Arrival, a': Arrival)
    requires Alike(r, r') && a.(now := 0) == a'.(now := 0)
    ensures Alike(Step(r, a), Step(r', a'))
  {
    assert a.userId == a'.userId && a.accountId == a'.accountId && a.order == a'.order by {
      assert a.(now := 0).order == a'.(now := 0).order && a.(now := 0).userId == a'.(now := 0).userId
          && a.(now := 0).accountId == a'.(now := 0).accountId;
    }
    if r.Some? {
      MergedCore(r.value, r'.value, a.order);
    }
  }

  lemma {:induction false} FoldAlike(r: Option<Order>, r': Option<Order>, h: seq<Arrival>, h': seq<Arrival>)
    requires Alike(r, r') && SameButNow(h, h')
    ensures Alike(Fold(r, h), Fold(r', h'))
    decreases |h|
  {
    if h != [] {
      StepAlike(r, r', h[0], h'[0]);
      FoldAlike(Step(r, h[0]), Step(r', h'[0]), h[1..], h'[1..]);
    }
  }

  /** A row keeps the number of the arrival it was created from. */
  lemma {:induction false} FoldNumber(row: Option<Order>, h: seq<Arrival>)
    requires row.Some? || h != []
    ensures Fold(row, h).value.externalId == if row.Some? then row.value.externalId else h[0].order.externalId
    decreases |h|
  {
    if h != [] {
      if row.Some? { MergedColumns(row.value, h[0].order); }
      FoldNumber(Step(row, h[0]), h[1..]);
    }
  }

  // ----- An entry that comes again later need not come now

  ghost predicate Ahead<T>(u: T, v: T, written: T) {
    u == v || u == written
  }

  ghost predicate AheadText(u: Option<string>, v: Option<string>, given: Option<string>) {
    Norm(u) == Norm(v) || (Truthy(given) && u == given)
  }

  ghost predicate AheadItem(u: Item, v: Item, i: Item) {
    && Ahead(u.amounts, v.amounts, i.amounts) && AheadText(u.title, v.title, i.title)
    && AheadText(u.sellerArticle, v.sellerArticle, i.sellerArticle)
    && AheadText(u.marketplaceArticle, v.marketplaceArticle, i.marketplaceArticle)
  }

  /** `u` is `v` with, in some columns, what the item `i` writes. */
  ghost predicate AheadItems(u: seq<Item>, v: seq<Item>, i: Item) {
    if v == [] then |u| == 1 && CoreItem(u[0]) == CoreItem(i)
    else |u| == |v| && AheadItem(u[0], v[0], i) && forall k | 0 < k < |u| :: CoreItem(u[k]) == CoreItem(v[k])
  }

  /** The columns no arrival writes agree, and so do the modes in which arrivals are taken. */
  ghost predicate SameFrame(u: Order, v: Order) {
    && u.userId == v.userId && u.accountId == v.accountId && u.marketplace == v.marketplace
    && u.firstNotifiedAt == v.firstNotifiedAt && u.lastNotifiedAt == v.lastNotifiedAt
    && u.cancellationNotifiedAt == v.cancellationNotifiedAt && u.postingNumber == v.postingNumber
    && LiveRow(u) == LiveRow(v)
  }

  ghost predicate AheadApplied(u: Order, v: Order, x: Incoming) {
    && !LiveRow(u) && SameFrame(u, v)
    && AheadText(u.srid, v.srid, x.srid) && Ahead(u.assemblyId, v.assemblyId, x.assemblyId)
    && Ahead(u.source, v.source, x.source) && Ahead(u.details, v.details, x.details) && Ahead(u.status, v.status, x.status)
    && Ahead(u.warehouse, v.warehouse, x.warehouse) && Ahead(u.warehouseType, v.warehouseType, x.warehouseType)
    && Ahead(u.payload, v.payload, Payload(x.body, None))
  }

  ghost predicate AheadEnriched(u: Order, v: Order, x: Incoming) {
    && LiveRow(u) && SameFrame(u, v)
    && Norm(u.srid) == Norm(v.srid) && u.assemblyId == v.assemblyId && u.source == v.source && u.details == v.details
    && (u.status == v.status || (x.status.normalized == Some("cancelled") && u.status == CANCELLED))
    && (u.warehouse == v.warehouse || (Truthy(x.warehouse) && u.warehouse == x.warehouse && Technical(v.warehouse)))
    && (u.warehouseType == v.warehouseType || (u.warehouseType == Some("seller") && !Truthy(v.warehouseType)))
    && u.payload.body == v.payload.body && Ahead(u.payload.statistics, v.payload.statistics, Some(x.body))
  }

  ghost predicate AheadHeader(u: Order, v: Order, x: Incoming) {
    if LiveRow(u) then AheadEnriched(u, v, x) else AheadApplied(u, v, x)
  }

  lemma HeaderAhead(u: Order, v: Order, x: Arrival, y: Arrival, user: int, account: int)
    requires Normal(x, user, account) && Normal(y, user, account) && AheadHeader(u, v, x.order)
    ensures AheadHeader(Merged(u, y.order), Merged(v, y.order), x.order)
  {
    MergedParts(u, y.order);
    MergedParts(v, y.order);
    if LiveRow(u) {
      assert AheadEnriched(EnrichedHeader(u, y.order), EnrichedHeader(v, y.order), x.order);
    } else {
      assert AheadApplied(Applied(u, y.order), Applied(v, y.order), x.order);
    }
  }

  lemma Meets(u: Order, v: Order, x: Arrival, user: int, account: int)
    requires Normal(x, user, account) && AheadHeader(u, v, x.order) && AheadItems(u.items, v.items, x.order.items[0])
    ensures Core(Merged(u, x.order)) == Core(Merged(v, x.order))
  {
    MergedParts(u, x.order);
    MergedParts(v, x.order);
    assert x.order.items == [x.order.items[0]];
    var mu, mv := Core(Merged(u, x.order)), Core(Merged(v, x.order));
    assert mu == mu.(items := []).(items := mu.items) && mv == mv.(items := []).(items := mv.items);
  }

  lemma {:induction false} AbsorbFrom(u: Order, v: Order, x: Arrival, t: seq<Arrival>, user: int, account: int)
    requires AllNormal(t, user, account) && x in t
    requires AheadHeader(u, v, x.order) && AheadItems(u.items, v.items, x.order.items[0])
    ensures Alike(Fold(Some(u), t), Fold(Some(v), t))
    decreases |t|
  {
    var y := t[0];
    if y == x {
      Meets(u, v, x, user, account);
      FoldAlike(Some(Merged(u, x.order)), Some(Merged(v, x.order)), t[1..], t[1..]);
    } else {
      assert y in t && x in t[1..];
      HeaderAhead(u, v, x, y, user, account);
      MergedParts(u, y.order);
      MergedParts(v, y.order);
      AbsorbFrom(Merged(u, y.order), Merged(v, y.order), x, t[1..], user, account);
    }
  }

  lemma BothCreated(x: Arrival, y: Arrival, user: int, account: int)
    requires Normal(x, user, account) && Normal(y, user, account)
    ensures AheadHeader(Merged(Created(0, x), y.order), Created(0, y), x.order)
    ensures AheadItems(Merged(Created(0, x), y.order).items, Created(0, y).items, x.order.items[0])
  {
    MergedParts(Created(0, x), y.order);
  }

  lemma AbsorbOne(row: Option<Order>, x: Arrival, t: seq<Arrival>, user: int, account: int)
    requires AllNormal(t, user, account) && x in t
    ensures Alike(Fold(row, [x] + t), Fold(row, t))
  {
    assert ([x] + t)[0] == x && ([x] + t)[1..] == t;
    if row.Some? {
      AbsorbFrom(Merged(row.value, x.order), row.value, x, t, user, account);
    } else if t[0] == x {
      CreatedThenMerged(0, x);
      FoldAlike(Some(Created(0, x)), Some(Created(0, x)), t[1..], t[1..]);
    } else {
      BothCreated(x, t[0], user, account);
      assert x in t[1..] && forall a | a in t[1..] :: a in t;
      AbsorbFrom(Merged(Created(0, x), t[0].order), Created(0, t[0]), x, t[1..], user, account);
    }
  }

  /** Entries that all come again later leave, as far as the row shows, nothing of their own. */
  lemma {:induction false} Absorb(row: Option<Order>, b: seq<Arrival>, t: seq<Arrival>, user: int, account: int)
    requires AllNormal(t, user, account) && forall a | a in b :: a in t
    ensures Alike(Fold(row, b + t), Fold(row, t))
    decreases |b|
  {
    if b == [] {
      assert b + t == t;
      FoldAlike(row, row, t, t);
    } else {
      var rest := b[1..] + t;
      assert b + t == [b[0]] + rest && b[0] in rest;
      AbsorbOne(row, b[0], rest, user, account);
      Absorb(row, b[1..], t, user, account);
    }
  }

  // ----- What a synchronised row shows of its payload

  /** The row holds, column by column, what the payload says. */
  ghost predicate ShowsPayload(r: Order, p: FbsPayload) {
    var raw := if p.status.Some? && |p.status.value| > 0 then p.status.value
               else if p.wbStatus.Some? && |p.wbStatus.value| > 0 then p.wbStatus.value else "history_order";
    && r.marketplace == WB && r.assemblyId == Some(p.id) && r.source == Some(StatisticsOrder)
    && r.status == Status(raw, Some(raw), Some(Lower(raw)))
    && r.details.orderDate == p.createdAt && r.details.saleModel == Some(FBS) && !r.details.requiresSellerAction
    && r.details.deliverySchema == Some(p.delivery)
    && r.details.deadlineAt == p.sellerDate == r.details.processingDeadlineAt
    && r.warehouse == Some(if |p.warehouseId| > 0 then p.warehouseId else p.officeId) && r.warehouseType == Some("seller")
    && r.payload == Payload(p.body, None) && |r.items| == 1 && PricedAt(r.items[0].amounts, p)
  }

  ghost predicate PricedAt(amounts: Amounts, p: FbsPayload) {
    && amounts.quantity == 1
    && amounts.buyerPrice == amounts.sellerPrice == amounts.discountedPrice == p.price && amounts.payout == Some(p.price)
    && amounts.commission == p.commission && amounts.logistics == Some(p.logistics) && amounts.otherExpenses == Some(p.other)
  }

  lemma {:induction false} HistoryEnds(arrivals: seq<Arrival>, x: Identity, j: nat)
    requires j < |arrivals| && ArrivalIdentity(arrivals[j]) == x
    requires forall k | j < k < |arrivals| :: ArrivalIdentity(arrivals[k]) != x
    ensures var h := HistoryOf(arrivals, x); h != [] && h[|h| - 1] == arrivals[j]
    decreases |arrivals|
  {
    var n := |arrivals| - 1;
    if j < n {
      HistoryEnds(arrivals[..n], x, j);
    }
  }

  lemma NormalNeverEnriches(h: seq<Arrival>, user: int, account: int)
    requires AllNormal(h, user, account)
    ensures forall k: nat :: !RowColumns.EnrichesAt(h, k)
  {
    forall i | 0 <= i < |h| ensures h[i].order.source == Some(StatisticsOrder) {
      assert h[i] in h;
    }
    RowColumns.NeverEnriched(h);
  }

  /** The history of the sale whose last entry is `j`: all its arrivals are normalised, none enriches. */
  lemma PayloadHistory(ps: seq<FbsPayload>, user: int, account: int, x: Identity, j: nat)
    requires var arrivals := Arrivals(Listed(ps, user, account));
             && j < |ps| && ArrivalIdentity(arrivals[j]) == x
             && forall k | j < k < |ps| :: ArrivalIdentity(arrivals[k]) != x
    ensures var h := HistoryOf(Arrivals(Listed(ps, user, account)), x);
            && h != [] && h[|h| - 1].order == NormalizeHistorical(ps[j]) && AllNormal(h, user, account)
            && RowColumns.LastOverwrite(h, |h| - 1, |h|) && forall k: nat :: !RowColumns.EnrichesAt(h, k)
  {
    var arrivals := Arrivals(Listed(ps, user, account));
    var h := HistoryOf(arrivals, x);
    HistoryEnds(arrivals, x, j);
    HistoryMembers(arrivals, x);
    ListedIsNormal(ps, user, account);
    ArrivalsOf(Listed(ps, user, account));
    NormalNeverEnriches(h, user, account);
  }

  ghost function OrderTable(arrivals: seq<Arrival>): seq<Order> {
    var after := After([], arrivals);
    if after.Ok? then after.value else []
  }

  /** After a sync of any listing into an empty table, a sale's row shows the payload listed last for it. */
  lemma LastPayloadShows(ps: seq<FbsPayload>, user: int, account: int, x: Identity, j: nat)
    requires var arrivals := Arrivals(Listed(ps, user, account));
             && Consistent(arrivals) && j < |ps| && ArrivalIdentity(arrivals[j]) == x
             && forall k | j < k < |ps| :: ArrivalIdentity(arrivals[k]) != x
    ensures var arrivals := Arrivals(Listed(ps, user, account));
            && After([], arrivals).Ok? && RowOf(OrderTable(arrivals), x).Some?
            && ShowsPayload(RowOf(OrderTable(arrivals), x).value, ps[j])
  {
    var arrivals := Arrivals(Listed(ps, user, account));
    PayloadHistory(ps, user, account, x, j);
    var h := HistoryOf(arrivals, x);
    RowColumns.RowShowsHistory(arrivals, x, |h| - 1);
    LastRowShows(RowOf(OrderTable(arrivals), x).value, h, ps[j], user, account);
  }

  lemma LastRowShows(r: Order, h: seq<Arrival>, p: FbsPayload, user: int, account: int)
    requires h != [] && h[|h| - 1].order == NormalizeHistorical(p) && AllNormal(h, user, account)
    requires forall k: nat :: !RowColumns.EnrichesAt(h, k)
    requires RowColumns.ShowsCreation(r, h) && RowColumns.ShowsHeader(r, h, |h| - 1, |h|)
    requires RowColumns.ShowsWarehouse(r.warehouse, h, |h| - 1, |h|)
    requires RowColumns.ShowsWarehouseType(r.warehouseType, h, |h| - 1, |h|)
    requires forall c: RowColumns.GivenColumn :: RowColumns.ShowsLastGiven(RowColumns.Column(r, c), h, |h|, c)
    requires RowColumns.ShowsItems(r.items, h)
    ensures ShowsPayload(r, p)
  {
    assert h[0] in h;
    RowColumns.JustOverwritten(r, h);
    LastAssemblyId(RowColumns.Column(r, RowColumns.Assembly), h, p);
    OneItemShown(r.items, h, p, user, account);
  }

  lemma LastAssemblyId(v: Option<string>, h: seq<Arrival>, p: FbsPayload)
    requires h != [] && h[|h| - 1].order == NormalizeHistorical(p) && forall k: nat :: !RowColumns.EnrichesAt(h, k)
    requires RowColumns.ShowsLastGiven(v, h, |h|, RowColumns.Assembly)
    ensures v == Some(p.id)
  {
    assert RowColumns.Gives(h, |h| - 1, RowColumns.Assembly);
  }

  lemma OneItemShown(items: seq<Item>, h: seq<Arrival>, p: FbsPayload, user: int, account: int)
    requires h != [] && h[|h| - 1].order == NormalizeHistorical(p) && AllNormal(h, user, account)
    requires RowColumns.ShowsItems(items, h)
    ensures |items| == 1 && PricedAt(items[0].amounts, p)
  {
    var n: nat := |h| - 1;
    assert h[0] in h && h[n] in h;
    var f: nat :| RowColumns.FirstWithItems(h, |h|, f) && |items| == |h[f].order.items|;
    assert h[f] in h;
    assert RowColumns.ShowsAmounts(items[0].amounts, h, |h|, 0);
    var k: nat :| RowColumns.LastWithItem(h, |h|, 0, k) && items[0].amounts == h[k].order.items[0].amounts;
    assert k == n;
  }
}
