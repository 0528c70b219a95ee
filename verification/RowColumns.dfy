/** What each column of an order row shows after any run, read off the arrivals of its own sale: which of
    them overwrote the row, which only enriched it, and what each of them gave. */
module RowColumns {
  import opened Common
  import opened Orders
  import opened OrderDedup
  import opened RowHistories

  /** A text that is there and not empty. */
  predicate IsGiven(s: Option<string>) {
    s.Some? && |s.value| > 0
  }

  // ----- Which arrivals overwrite, and which only enrich

  /** Arrival `k` is a Wildberries statistics order, and the last arrival before it that was not one was a
      live order. */
  ghost predicate EnrichesAt(h: seq<Arrival>, k: nat) {
    && k < |h| && h[k].order.marketplace == WB && h[k].order.source == Some(StatisticsOrder)
    && exists i | 0 <= i < k :: h[i].order.source == Some(LiveOrder)
                                && forall j | i < j < k :: h[j].order.source == Some(StatisticsOrder)
  }

  /** Arrival `p` is the last of the first `n` that overwrote the row. */
  ghost predicate LastOverwrite(h: seq<Arrival>, p: nat, n: nat) {
    && p < n <= |h| && !EnrichesAt(h, p) && forall k: nat | p < k < n :: EnrichesAt(h, k)
  }

  ghost predicate OneMarket(h: seq<Arrival>) {
    forall i, j | 0 <= i < j < |h| :: h[i].order.marketplace == h[j].order.marketplace
  }

  lemma {:induction false} OneLastOverwrite(h: seq<Arrival>, n: nat) returns (p: nat)
    requires 0 < n <= |h|
    ensures LastOverwrite(h, p, n)
  {
    p := n - 1;
    if EnrichesAt(h, p) {
      p := OneLastOverwrite(h, n - 1);
    }
  }

  ghost function RowAfter(h: seq<Arrival>, n: nat): Order
    requires 0 < n <= |h|
  {
    Fold(None, h[..n]).value
  }

  lemma FirstRow(h: seq<Arrival>)
    requires h != []
    ensures RowAfter(h, 1) == Created(0, h[0]) && !EnrichesAt(h, 0)
  {
    assert h[..1] == [h[0]] && [h[0]][1..] == [];
    assert Fold(None, [h[0]]) == Fold(Step(None, h[0]), []);
  }

  lemma RowNext(h: seq<Arrival>, n: nat)
    requires 0 < n < |h|
    ensures RowAfter(h, n + 1) == Merged(RowAfter(h, n), h[n].order)
  {
    assert h[..n + 1] == h[..n] + [h[n]];
    FoldAppend(None, h[..n], [h[n]]);
    assert [h[n]][1..] == [];
  }

  lemma {:induction false} SourceAfter(h: seq<Arrival>, p: nat, n: nat)
    requires OneMarket(h) && LastOverwrite(h, p, n)
    ensures RowAfter(h, n).marketplace == h[0].order.marketplace && RowAfter(h, n).source == h[p].order.source
    decreases n
  {
    if n == 1 {
      FirstRow(h);
    } else {
      RowNext(h, n - 1);
      var q := p;
      if p == n - 1 { q := OneLastOverwrite(h, n - 1); }
      SourceAfter(h, q, n - 1);
      ModeOf(h, q, n - 1);
      MergedParts(RowAfter(h, n - 1), h[n - 1].order);
    }
  }

  /** After a row last overwritten by `q`, arrival `n` enriches exactly if `q` was live and it is statistics. */
  lemma ModeOf(h: seq<Arrival>, q: nat, n: nat)
    requires OneMarket(h) && LastOverwrite(h, q, n) && n < |h|
    ensures EnrichesAt(h, n) <==>
            h[0].order.marketplace == WB && h[q].order.source == Some(LiveOrder) && h[n].order.source == Some(StatisticsOrder)
  {
    if EnrichesAt(h, n) {
      var i :| 0 <= i < n && h[i].order.source == Some(LiveOrder)
               && forall j | i < j < n :: h[j].order.source == Some(StatisticsOrder);
      assert !EnrichesAt(h, i);
      assert i <= q;
      assert i == q || EnrichesAt(h, q);
    } else if h[q].order.source == Some(LiveOrder) {
      forall j: nat | q < j < n ensures h[j].order.source == Some(StatisticsOrder) {
        assert EnrichesAt(h, j);
      }
    }
  }

  lemma ModeAfter(h: seq<Arrival>, p: nat, n: nat)
    requires OneMarket(h) && LastOverwrite(h, p, n) && n < |h|
    ensures (Enriches(RowAfter(h, n), h[n].order) <==> EnrichesAt(h, n))
  {
    SourceAfter(h, p, n);
    ModeOf(h, p, n);
  }

  // ----- One more arrival

  /** The texts an overwriting arrival may leave out. */
  datatype GivenColumn = Posting | Assembly | SaleId

  function GivenBy(e: Incoming, c: GivenColumn): Option<string> {
    match c
    case Posting => e.postingNumber
    case Assembly => e.assemblyId
    case SaleId => e.srid
  }

  function Column(r: Order, c: GivenColumn): Option<string> {
    match c
    case Posting => r.postingNumber
    case Assembly => r.assemblyId
    case SaleId => r.srid
  }

  /** A warehouse with a name, not just a number. */
  predicate Named(w: Option<string>) {
    w.Some? && exists i | 0 <= i < |w.value| :: !('0' <= w.value[i] <= '9')
  }

  datatype TextColumn = Title | SellerArticle | MarketplaceArticle

  function TextOf(i: Item, c: TextColumn): Option<string> {
    match c
    case Title => i.title
    case SellerArticle => i.sellerArticle
    case MarketplaceArticle => i.marketplaceArticle
  }

  /** What an overwriting arrival leaves. */
  ghost predicate Overwritten(r: Order, r': Order, e: Incoming) {
    && (r'.source, r'.details, r'.status) == (e.source, e.details, e.status)
    && (r'.warehouse, r'.warehouseType, r'.payload) == (e.warehouse, e.warehouseType, Payload(e.body, None))
    && (forall c: GivenColumn :: Column(r', c) == if IsGiven(GivenBy(e, c)) then GivenBy(e, c) else Column(r, c))
  }

  /** What an enriching arrival leaves. */
  ghost predicate OnlyEnriched(r: Order, r': Order, e: Incoming) {
    && r'.source == r.source && r'.details == r.details
    && r'.status == (if e.status.normalized == Some("cancelled") then Status("cancelled", Some("cancelled"), Some("cancelled"))
                     else r.status)
    && r'.warehouse == (if !Named(r.warehouse) && IsGiven(e.warehouse) then e.warehouse else r.warehouse)
    && r'.warehouseType == (if !IsGiven(r.warehouseType) && IsGiven(e.warehouseType) then e.warehouseType else r.warehouseType)
    && r'.payload == Payload(r.payload.body, Some(e.body))
    && (forall c: GivenColumn :: Column(r', c) == Column(r, c))
  }

  /** What the items become: all of them when there were none, else pair by pair as far as both lists go. */
  ghost predicate ItemsCombined(items: seq<Item>, items': seq<Item>, given: seq<Item>) {
    if items == [] then items' == given
    else
      && |items'| == |items|
      && (forall pos | |given| <= pos < |items| :: items'[pos] == items[pos])
      && (forall pos | 0 <= pos < |items| && pos < |given| ::
            && items'[pos].amounts == given[pos].amounts
            && forall c: TextColumn :: TextOf(items'[pos], c) ==
                 if IsGiven(TextOf(given[pos], c)) then TextOf(given[pos], c) else TextOf(items[pos], c))
  }

  /** What a new row holds. */
  ghost predicate Inserted(r: Order, a: Arrival) {
    && r.userId == a.userId && r.accountId == a.accountId && r.marketplace == a.order.marketplace
    && r.externalId == a.order.externalId && r.source == a.order.source && r.details == a.order.details
    && r.status == a.order.status && r.warehouse == a.order.warehouse && r.warehouseType == a.order.warehouseType
    && r.payload == Payload(a.order.body, None) && r.items == a.order.items && r.receivedAt == a.now
    && r.firstNotifiedAt.None? && r.lastNotifiedAt.None? && r.cancellationNotifiedAt.None?
    && forall c: GivenColumn :: Column(r, c) == GivenBy(a.order, c)
  }

  ghost predicate ByNumber(orders: seq<Order>, a: Arrival, i: nat) {
    && i < |orders| && orders[i].accountId == a.accountId && orders[i].marketplace == a.order.marketplace
    && orders[i].externalId == a.order.externalId
  }

  /** Wildberries orders are matched by srid when no row has their number. */
  ghost predicate BySaleId(orders: seq<Order>, a: Arrival, i: nat) {
    && i < |orders| && orders[i].accountId == a.accountId && orders[i].marketplace == WB == a.order.marketplace
    && IsGiven(a.order.srid) && orders[i].srid == a.order.srid && forall j: nat :: !ByNumber(orders, a, j)
  }

  ghost predicate Matches(orders: seq<Order>, a: Arrival, i: nat) {
    ByNumber(orders, a, i) || BySaleId(orders, a, i)
  }

  /** One call on any table: it raises exactly if two rows match; it inserts exactly if none does; and the
      one matching row is enriched if it is a live order and the arrival is statistics, else overwritten. */
  lemma UpsertExactly(orders: seq<Order>, a: Arrival)
    ensures Upsert(orders, a).Err? <==> exists i: nat, j: nat :: i < j && Matches(orders, a, i) && Matches(orders, a, j)
    ensures Upsert(orders, a).Ok? ==>
              var u := Upsert(orders, a).value;
              if u.created then
                && u.index == |orders| && |u.orders| == |orders| + 1 && u.orders[..|orders|] == orders
                && (forall i: nat :: !Matches(orders, a, i)) && Inserted(u.orders[|orders|], a)
              else
                && Matches(orders, a, u.index) && |u.orders| == |orders|
                && (forall i: nat | i < |orders| && i != u.index :: u.orders[i] == orders[i])
                && var r, r' := orders[u.index], u.orders[u.index];
                   && SameIdentity(r, r') && ItemsCombined(r.items, r'.items, a.order.items)
                   && if r.marketplace == WB && r.source == Some(LiveOrder) && a.order.source == Some(StatisticsOrder)
                      then OnlyEnriched(r, r', a.order) else Overwritten(r, r', a.order)
  {
    UpsertMatches(orders, a);
    var found := Existing(orders, a.accountId, a.order);
    if found.At? {
      UpdatedRow(orders[found.index], a.order);
    }
  }

  lemma UpdatedRow(r: Order, e: Incoming)
    ensures var r' := Merged(r, e);
            && SameIdentity(r, r') && ItemsCombined(r.items, r'.items, e.items)
            && if r.marketplace == WB && r.source == Some(LiveOrder) && e.source == Some(StatisticsOrder)
               then OnlyEnriched(r, r', e) else Overwritten(r, r', e)
  {
    MergedParts(r, e);
  }

  lemma UpsertMatches(orders: seq<Order>, a: Arrival)
    ensures match Existing(orders, a.accountId, a.order)
            case Several => exists i: nat, j: nat :: i < j && Matches(orders, a, i) && Matches(orders, a, j)
            case Nothing => forall i: nat :: !Matches(orders, a, i)
            case At(k) => forall i: nat :: Matches(orders, a, i) <==> i == k
  {
    var number, sale := ByExternal(a.accountId, a.order.marketplace, a.order.externalId), BySrid(a.accountId, a.order.srid);
    assert forall i: nat :: SelectsAt(orders, number, i) <==> ByNumber(orders, a, i);
    var byNumber := Lookup(orders, number);
    if byNumber.Nothing? {
      assert forall i: nat :: BySaleId(orders, a, i) <==>
               a.order.marketplace == WB && IsGiven(a.order.srid) && SelectsAt(orders, sale, i);
      if a.order.marketplace == WB && IsGiven(a.order.srid) && Lookup(orders, sale).Several? {
        var i: nat, j: nat :| i < j && SelectsAt(orders, sale, i) && SelectsAt(orders, sale, j);
        assert Matches(orders, a, i) && Matches(orders, a, j);
      }
    } else if byNumber.At? {
      assert ByNumber(orders, a, byNumber.index);
    } else {
      var i: nat, j: nat :| i < j && SelectsAt(orders, number, i) && SelectsAt(orders, number, j);
      assert Matches(orders, a, i) && Matches(orders, a, j);
    }
  }

  /** One more arrival overwrites the row or only enriches it, as its place in the history says. */
  lemma NextRow(h: seq<Arrival>, n: nat)
    requires OneMarket(h) && 0 < n < |h|
    ensures var r, r', e := RowAfter(h, n), RowAfter(h, n + 1), h[n].order;
            && SameIdentity(r, r')
            && if EnrichesAt(h, n) then OnlyEnriched(r, r', e) else Overwritten(r, r', e)
  {
    var p := OneLastOverwrite(h, n);
    ModeAfter(h, p, n);
    RowNext(h, n);
  }

  lemma NextItems(h: seq<Arrival>, n: nat)
    requires OneMarket(h) && 0 < n < |h|
    ensures RowAfter(h, n + 1).items == MergedItems(RowAfter(h, n).items, h[n].order.items)
  {
    var p := OneLastOverwrite(h, n);
    SourceAfter(h, p, n);
    RowNext(h, n);
    MergedParts(RowAfter(h, n), h[n].order);
  }

  // ----- Columns set when the row is created

  ghost predicate ShowsCreation(r: Order, h: seq<Arrival>)
    requires h != []
  {
    var (first, e) := (h[0], h[0].order);
    && (r.userId, r.accountId, r.marketplace, r.externalId) == (first.userId, first.accountId, e.marketplace, e.externalId)
    && (r.receivedAt, r.firstNotifiedAt, r.lastNotifiedAt, r.cancellationNotifiedAt) == (first.now, None, None, None)
  }

  lemma {:induction false} CreationAfter(h: seq<Arrival>, n: nat)
    requires OneMarket(h) && 0 < n <= |h|
    ensures ShowsCreation(RowAfter(h, n), h)
  {
    if n == 1 {
      FirstRow(h);
    } else {
      CreationAfter(h, n - 1);
      NextRow(h, n - 1);
    }
  }

  // ----- Columns of the last overwriting arrival

  ghost predicate CancelledSince(h: seq<Arrival>, p: nat, n: nat)
    requires n <= |h|
  {
    exists k | p < k < n :: h[k].order.status.normalized == Some("cancelled")
  }

  /** Source and details are those of the last overwriting arrival; its status too, unless a later one was
      cancelled; its payload, with the last enriching payload filed. */
  ghost predicate ShowsHeader(r: Order, h: seq<Arrival>, p: nat, n: nat)
    requires p < n <= |h|
  {
    && (r.source, r.details, r.payload.body) == (h[p].order.source, h[p].order.details, h[p].order.body)
    && r.status == (if CancelledSince(h, p, n) then Status("cancelled", Some("cancelled"), Some("cancelled"))
                    else h[p].order.status)
    && r.payload.statistics == (if n == p + 1 then None else Some(h[n - 1].order.body))
  }

  lemma {:induction false} HeaderAfter(h: seq<Arrival>, p: nat, n: nat)
    requires OneMarket(h) && LastOverwrite(h, p, n)
    ensures ShowsHeader(RowAfter(h, n), h, p, n)
    decreases n
  {
    if n == 1 {
      FirstRow(h);
    } else {
      NextRow(h, n - 1);
      if p < n - 1 {
        HeaderAfter(h, p, n - 1);
        assert CancelledSince(h, p, n) <==>
               CancelledSince(h, p, n - 1) || h[n - 1].order.status.normalized == Some("cancelled");
        assert EnrichesAt(h, n - 1);
      }
    }
  }

  // ----- The warehouse

  ghost predicate FirstNamed(h: seq<Arrival>, p: nat, n: nat, i: nat) {
    && p <= i < n <= |h| && Named(h[i].order.warehouse) && forall j | p <= j < i :: !Named(h[j].order.warehouse)
  }

  ghost predicate NoneNamed(h: seq<Arrival>, p: nat, n: nat) {
    n <= |h| && forall j | p <= j < n :: !Named(h[j].order.warehouse)
  }

  ghost predicate LastNumbered(h: seq<Arrival>, p: nat, n: nat, i: nat) {
    && p <= i < n <= |h| && IsGiven(h[i].order.warehouse) && forall j | i < j < n :: !IsGiven(h[j].order.warehouse)
  }

  ghost predicate NoneNumbered(h: seq<Arrival>, p: nat, n: nat) {
    n <= |h| && forall j | p <= j < n :: !IsGiven(h[j].order.warehouse)
  }

  /** The first named warehouse since `p`, else the last number, else what `p` had. */
  ghost predicate ShowsWarehouse(w: Option<string>, h: seq<Arrival>, p: nat, n: nat)
    requires p < n <= |h|
  {
    || (exists i: nat :: FirstNamed(h, p, n, i) && w == h[i].order.warehouse)
    || (NoneNamed(h, p, n) && exists i: nat :: LastNumbered(h, p, n, i) && w == h[i].order.warehouse)
    || (NoneNumbered(h, p, n) && w == h[p].order.warehouse)
  }

  lemma WarehouseNext(w: Option<string>, h: seq<Arrival>, p: nat, n: nat)
    requires p < n < |h| && ShowsWarehouse(w, h, p, n)
    ensures ShowsWarehouse(if !Named(w) && IsGiven(h[n].order.warehouse) then h[n].order.warehouse else w, h, p, n + 1)
  {
    var e := h[n].order.warehouse;
    if i: nat :| FirstNamed(h, p, n, i) && w == h[i].order.warehouse {
      assert FirstNamed(h, p, n + 1, i);
    } else if Named(e) {
      assert NoneNamed(h, p, n);
      assert FirstNamed(h, p, n + 1, n);
    } else if IsGiven(e) {
      assert NoneNamed(h, p, n + 1) && LastNumbered(h, p, n + 1, n);
    } else if i: nat :| LastNumbered(h, p, n, i) && w == h[i].order.warehouse {
      assert NoneNamed(h, p, n + 1) && LastNumbered(h, p, n + 1, i);
    } else {
      assert NoneNumbered(h, p, n + 1);
    }
  }

  lemma WarehouseStep(h: seq<Arrival>, n: nat)
    requires OneMarket(h) && 0 < n < |h|
    ensures var w, given := RowAfter(h, n).warehouse, h[n].order.warehouse;
            RowAfter(h, n + 1).warehouse == if EnrichesAt(h, n) && (Named(w) || !IsGiven(given)) then w else given
  {
    NextRow(h, n);
  }

  lemma {:induction false} WarehouseAfter(h: seq<Arrival>, p: nat, n: nat)
    requires OneMarket(h) && LastOverwrite(h, p, n)
    ensures ShowsWarehouse(RowAfter(h, n).warehouse, h, p, n)
    decreases n
  {
    if n == 1 { FirstRow(h); } else { WarehouseStep(h, n - 1); }
    if p < n - 1 {
      WarehouseAfter(h, p, n - 1);
      var w := RowAfter(h, n - 1).warehouse;
      assert EnrichesAt(h, n - 1);
      WarehouseNext(w, h, p, n - 1);
    }
  }

  ghost predicate FirstTyped(h: seq<Arrival>, p: nat, n: nat, i: nat) {
    && p <= i < n <= |h| && IsGiven(h[i].order.warehouseType) && forall j | p <= j < i :: !IsGiven(h[j].order.warehouseType)
  }

  ghost predicate NoneTyped(h: seq<Arrival>, p: nat, n: nat) {
    n <= |h| && forall j | p <= j < n :: !IsGiven(h[j].order.warehouseType)
  }

  /** The first warehouse type given since `p`, else what `p` had. */
  ghost predicate ShowsWarehouseType(t: Option<string>, h: seq<Arrival>, p: nat, n: nat)
    requires p < n <= |h|
  {
    || (exists i: nat :: FirstTyped(h, p, n, i) && t == h[i].order.warehouseType)
    || (NoneTyped(h, p, n) && t == h[p].order.warehouseType)
  }

  lemma WarehouseTypeNext(t: Option<string>, h: seq<Arrival>, p: nat, n: nat)
    requires p < n < |h| && ShowsWarehouseType(t, h, p, n)
    ensures var given := h[n].order.warehouseType;
            ShowsWarehouseType(if !IsGiven(t) && IsGiven(given) then given else t, h, p, n + 1)
  {
    if i: nat :| FirstTyped(h, p, n, i) && t == h[i].order.warehouseType {
      assert FirstTyped(h, p, n + 1, i);
    } else if IsGiven(h[n].order.warehouseType) {
      assert FirstTyped(h, p, n + 1, n);
    }
  }

  lemma SetWarehouseType(h: seq<Arrival>, p: nat)
    requires p < |h|
    ensures ShowsWarehouseType(h[p].order.warehouseType, h, p, p + 1)
  {
    assert IsGiven(h[p].order.warehouseType) ==> FirstTyped(h, p, p + 1, p);
  }

  lemma WarehouseTypeStep(h: seq<Arrival>, n: nat)
    requires OneMarket(h) && 0 < n < |h|
    ensures var t, given := RowAfter(h, n).warehouseType, h[n].order.warehouseType;
            RowAfter(h, n + 1).warehouseType ==
            if EnrichesAt(h, n) && (IsGiven(t) || !IsGiven(given)) then t else given
  {
    NextRow(h, n);
  }

  lemma {:induction false} WarehouseTypeAfter(h: seq<Arrival>, p: nat, n: nat)
    requires OneMarket(h) && LastOverwrite(h, p, n)
    ensures ShowsWarehouseType(RowAfter(h, n).warehouseType, h, p, n)
    decreases n
  {
    if n == 1 { FirstRow(h); } else { WarehouseTypeStep(h, n - 1); }
    if p == n - 1 {
      SetWarehouseType(h, p);
    } else {
      WarehouseTypeAfter(h, p, n - 1);
      var t, given := RowAfter(h, n - 1).warehouseType, h[n - 1].order.warehouseType;
      assert EnrichesAt(h, n - 1);
      WarehouseTypeNext(t, h, p, n - 1);
      assert RowAfter(h, n).warehouseType == if !IsGiven(t) && IsGiven(given) then given else t;
    }
  }

  // ----- Texts that an overwriting arrival may leave out

  /** An overwriting arrival that gave a text. */
  ghost predicate Gives(h: seq<Arrival>, k: nat, c: GivenColumn) {
    k < |h| && !EnrichesAt(h, k) && IsGiven(GivenBy(h[k].order, c))
  }

  ghost predicate LastGiver(h: seq<Arrival>, n: nat, c: GivenColumn, k: nat) {
    k < n && Gives(h, k, c) && forall j: nat | k < j < n :: !Gives(h, j, c)
  }

  /** The last text an overwriting arrival gave, else what the row was created with. */
  ghost predicate ShowsLastGiven(v: Option<string>, h: seq<Arrival>, n: nat, c: GivenColumn)
    requires 0 < n <= |h|
  {
    || (exists k: nat :: LastGiver(h, n, c, k) && v == GivenBy(h[k].order, c))
    || ((forall k: nat | k < n :: !Gives(h, k, c)) && v == GivenBy(h[0].order, c))
  }

  lemma GivenNext(v: Option<string>, h: seq<Arrival>, n: nat, c: GivenColumn)
    requires 0 < n < |h| && ShowsLastGiven(v, h, n, c)
    ensures ShowsLastGiven(if Gives(h, n, c) then GivenBy(h[n].order, c) else v, h, n + 1, c)
  {
    if Gives(h, n, c) {
      assert LastGiver(h, n + 1, c, n);
    } else if k: nat :| LastGiver(h, n, c, k) && v == GivenBy(h[k].order, c) {
      assert LastGiver(h, n + 1, c, k);
    }
  }

  lemma GivenStep(h: seq<Arrival>, n: nat, c: GivenColumn)
    requires OneMarket(h) && 0 < n < |h|
    ensures Column(RowAfter(h, n + 1), c) ==
            if Gives(h, n, c) then GivenBy(h[n].order, c) else Column(RowAfter(h, n), c)
  {
    NextRow(h, n);
  }

  lemma {:induction false} GivenAfter(h: seq<Arrival>, n: nat, c: GivenColumn)
    requires OneMarket(h) && 0 < n <= |h|
    ensures ShowsLastGiven(Column(RowAfter(h, n), c), h, n, c)
  {
    if n == 1 {
      FirstRow(h);
      assert Gives(h, 0, c) ==> LastGiver(h, 1, c, 0);
    } else {
      GivenAfter(h, n - 1, c);
      GivenStep(h, n - 1, c);
      GivenNext(Column(RowAfter(h, n - 1), c), h, n - 1, c);
    }
  }

  // ----- The items, in either mode

  ghost predicate FirstWithItems(h: seq<Arrival>, n: nat, f: nat) {
    && f < n <= |h| && h[f].order.items != [] && forall k | 0 <= k < f :: h[k].order.items == []
  }

  ghost predicate NoItems(h: seq<Arrival>, n: nat) {
    n <= |h| && forall k | 0 <= k < n :: h[k].order.items == []
  }

  /** The row has as many items as the first arrival that had any. */
  lemma {:induction false} CountAfter(h: seq<Arrival>, n: nat)
    requires OneMarket(h) && 0 < n <= |h|
    ensures var items := RowAfter(h, n).items;
            (items == [] && NoItems(h, n)) || exists f: nat :: FirstWithItems(h, n, f) && |items| == |h[f].order.items|
  {
    if n == 1 {
      FirstRow(h);
      assert h[0].order.items != [] ==> FirstWithItems(h, 1, 0);
    } else {
      CountAfter(h, n - 1);
      NextItems(h, n - 1);
      var items := RowAfter(h, n - 1).items;
      if f: nat :| FirstWithItems(h, n - 1, f) && |items| == |h[f].order.items| {
        assert FirstWithItems(h, n, f);
      } else if h[n - 1].order.items != [] {
        assert FirstWithItems(h, n, n - 1);
      }
    }
  }

  /** Arrival `k` is the last of the first `n` with an item at the position. */
  ghost predicate LastWithItem(h: seq<Arrival>, n: nat, pos: nat, k: nat) {
    && k < n <= |h| && |h[k].order.items| > pos && forall j | k < j < n :: |h[j].order.items| <= pos
  }

  ghost predicate ShowsAmounts(amounts: Amounts, h: seq<Arrival>, n: nat, pos: nat) {
    exists k: nat :: LastWithItem(h, n, pos, k) && amounts == h[k].order.items[pos].amounts
  }

  /** The amounts at a position are those last given there. */
  lemma {:induction false} AmountsAfter(h: seq<Arrival>, n: nat, pos: nat)
    requires OneMarket(h) && 0 < n <= |h|
    ensures pos < |RowAfter(h, n).items| ==> ShowsAmounts(RowAfter(h, n).items[pos].amounts, h, n, pos)
  {
    if n == 1 {
      FirstRow(h);
      assert |h[0].order.items| > pos ==> LastWithItem(h, 1, pos, 0);
    } else {
      AmountsAfter(h, n - 1, pos);
      NextItems(h, n - 1);
    }
  }

  predicate GivesText(h: seq<Arrival>, k: nat, pos: nat, c: TextColumn) {
    k < |h| && |h[k].order.items| > pos && IsGiven(TextOf(h[k].order.items[pos], c))
  }

  ghost predicate LastText(h: seq<Arrival>, n: nat, pos: nat, c: TextColumn, k: nat) {
    k < n && GivesText(h, k, pos, c) && forall j: nat | k < j < n :: !GivesText(h, j, pos, c)
  }

  /** A text at a position is the one last given there, if any was. */
  ghost predicate ShowsText(v: Option<string>, h: seq<Arrival>, n: nat, pos: nat, c: TextColumn)
    requires n <= |h|
  {
    || (exists k: nat :: LastText(h, n, pos, c, k) && v == TextOf(h[k].order.items[pos], c))
    || ((forall k: nat | k < n :: !GivesText(h, k, pos, c)) && !IsGiven(v))
  }

  lemma MergedShowsText(items: seq<Item>, h: seq<Arrival>, n: nat, pos: nat, c: TextColumn)
    requires n < |h| && pos < |MergedItems(items, h[n].order.items)|
    requires if pos < |items| then ShowsText(TextOf(items[pos], c), h, n, pos, c) else NoItems(h, n)
    ensures ShowsText(TextOf(MergedItems(items, h[n].order.items)[pos], c), h, n + 1, pos, c)
  {
  }

  lemma {:induction false} TextAfter(h: seq<Arrival>, n: nat, pos: nat, c: TextColumn)
    requires OneMarket(h) && 0 < n <= |h|
    ensures pos < |RowAfter(h, n).items| ==> ShowsText(TextOf(RowAfter(h, n).items[pos], c), h, n, pos, c)
  {
    if n == 1 {
      FirstRow(h);
      assert GivesText(h, 0, pos, c) ==> LastText(h, 1, pos, c, 0);
    } else {
      NextItems(h, n - 1);
      if pos < |RowAfter(h, n).items| {
        TextAfter(h, n - 1, pos, c);
        CountAfter(h, n - 1);
        MergedShowsText(RowAfter(h, n - 1).items, h, n - 1, pos, c);
      }
    }
  }

  // ----- The whole row, after any run

  ghost predicate ShowsItems(items: seq<Item>, h: seq<Arrival>)
  {
    && ((items == [] && NoItems(h, |h|)) || exists f: nat :: FirstWithItems(h, |h|, f) && |items| == |h[f].order.items|)
    && (forall pos: nat | pos < |items| ::
          && ShowsAmounts(items[pos].amounts, h, |h|, pos)
          && forall c: TextColumn :: ShowsText(TextOf(items[pos], c), h, |h|, pos, c))
  }

  lemma SaleHasOneMarket(arrivals: seq<Arrival>, x: Identity)
    ensures OneMarket(HistoryOf(arrivals, x))
  {
    HistoryMembers(arrivals, x);
    var h := HistoryOf(arrivals, x);
    forall i, j | 0 <= i < j < |h| ensures h[i].order.marketplace == h[j].order.marketplace {
      assert h[i] in h && h[j] in h;
    }
  }

  lemma RowOfRunIsRowAfter(arrivals: seq<Arrival>, x: Identity)
    requires Consistent(arrivals)
    ensures After([], arrivals).Ok? && OneMarket(HistoryOf(arrivals, x))
    ensures var h := HistoryOf(arrivals, x);
            RowOf(After([], arrivals).value, x) == if h == [] then None else Some(RowAfter(h, |h|))
  {
    var h := HistoryOf(arrivals, x);
    RowIsOwnHistory([], arrivals, AssignedBy(arrivals), x);
    SaleHasOneMarket(arrivals, x);
    assert h[..|h|] == h;
  }

  /** After any run of consistent arrivals each sale's row shows, column by column, what its own arrivals
      gave: `p` is the last of them that was not a Wildberries statistics order following a live one. */
  lemma RowShowsHistory(arrivals: seq<Arrival>, x: Identity, p: nat)
    requires Consistent(arrivals) && LastOverwrite(HistoryOf(arrivals, x), p, |HistoryOf(arrivals, x)|)
    ensures After([], arrivals).Ok? && RowOf(After([], arrivals).value, x).Some?
    ensures var r, h := RowOf(After([], arrivals).value, x).value, HistoryOf(arrivals, x);
            && ShowsCreation(r, h) && ShowsHeader(r, h, p, |h|)
            && ShowsWarehouse(r.warehouse, h, p, |h|) && ShowsWarehouseType(r.warehouseType, h, p, |h|)
            && (forall c: GivenColumn :: ShowsLastGiven(Column(r, c), h, |h|, c))
            && ShowsItems(r.items, h)
  {
    var h := HistoryOf(arrivals, x);
    RowOfRunIsRowAfter(arrivals, x);
    CreationAfter(h, |h|);
    HeaderAfter(h, p, |h|);
    WarehouseAfter(h, p, |h|);
    WarehouseTypeAfter(h, p, |h|);
    forall c: GivenColumn ensures ShowsLastGiven(Column(RowAfter(h, |h|), c), h, |h|, c) {
      GivenAfter(h, |h|, c);
    }
    ItemsShown(h);
  }

  lemma ItemsShown(h: seq<Arrival>)
    requires OneMarket(h) && h != []
    ensures ShowsItems(RowAfter(h, |h|).items, h)
  {
    CountAfter(h, |h|);
    var items := RowAfter(h, |h|).items;
    forall pos: nat | pos < |items| ensures ShowsAmounts(items[pos].amounts, h, |h|, pos) {
      AmountsAfter(h, |h|, pos);
    }
    forall pos: nat, c: TextColumn | pos < |items| ensures ShowsText(TextOf(items[pos], c), h, |h|, pos, c) {
      TextAfter(h, |h|, pos, c);
    }
  }

  /** The row shows the last arrival, and the last posting number, assembly id and srid given. */
  ghost predicate ShowsLast(r: Order, h: seq<Arrival>)
    requires h != []
  {
    var last := h[|h| - 1].order;
    && (r.status, r.details, r.source, r.warehouse, r.warehouseType, r.payload)
       == (last.status, last.details, last.source, last.warehouse, last.warehouseType, Payload(last.body, None))
    && forall c: GivenColumn :: ShowsLastGiven(Column(r, c), h, |h|, c)
  }

  lemma JustOverwritten(r: Order, h: seq<Arrival>)
    requires h != [] && ShowsHeader(r, h, |h| - 1, |h|)
    requires ShowsWarehouse(r.warehouse, h, |h| - 1, |h|) && ShowsWarehouseType(r.warehouseType, h, |h| - 1, |h|)
    requires forall c: GivenColumn :: ShowsLastGiven(Column(r, c), h, |h|, c)
    ensures ShowsLast(r, h)
  {
  }

  /** A sale never enriched - every Ozon sale, and every Wildberries sale without statistics after a live
      order - shows its last arrival's status, details, source, warehouse, warehouse type and payload, and
      the last posting number, assembly id and srid given. */
  lemma NeverEnrichedShowsLast(arrivals: seq<Arrival>, x: Identity)
    requires Consistent(arrivals) && HistoryOf(arrivals, x) != []
    requires forall k: nat :: !EnrichesAt(HistoryOf(arrivals, x), k)
    ensures After([], arrivals).Ok? && RowOf(After([], arrivals).value, x).Some?
    ensures ShowsLast(RowOf(After([], arrivals).value, x).value, HistoryOf(arrivals, x))
  {
    var h := HistoryOf(arrivals, x);
    assert LastOverwrite(h, |h| - 1, |h|);
    RowShowsHistory(arrivals, x, |h| - 1);
    JustOverwritten(RowOf(After([], arrivals).value, x).value, h);
  }

  /** No arrival enriches a sale of Ozon, or one whose live orders no statistics order follows. */
  lemma NeverEnriched(h: seq<Arrival>)
    requires forall i, k | 0 <= i < k < |h| && h[k].order.marketplace == WB ::
               !(h[i].order.source == Some(LiveOrder) && h[k].order.source == Some(StatisticsOrder))
    ensures forall k: nat :: !EnrichesAt(h, k)
  {
  }
}
