/** Each row of the order table is made by its own sale's arrivals alone: what a run leaves is a fold
    of every identity's history, so arrivals of different sales may be reordered, and a batch of
    statistics orders may be replayed. */
module RowHistories {
  import opened Common
  import opened Orders
  import opened OrderDedup

  // ----- A row, and what its arrivals make of it

  /** The row without its serial id. */
  function Body(o: Order): Order {
    o.(id := 0)
  }

  ghost function RowOf(orders: seq<Order>, x: Identity): Option<Order> {
    if i :| 0 <= i < |orders| && RowIdentity(orders[i]) == x then Some(Body(orders[i])) else None
  }

  function Step(row: Option<Order>, a: Arrival): Option<Order> {
    if row.None? then Some(Created(0, a)) else Some(Merged(row.value, a.order))
  }

  function Fold(row: Option<Order>, history: seq<Arrival>): (r: Option<Order>)
    ensures row.Some? || history != [] ==> r.Some?
    decreases |history|
  {
    if history == [] then row else Fold(Step(row, history[0]), history[1..])
  }

  /** The arrivals of one sale, in order. */
  function HistoryOf(arrivals: seq<Arrival>, x: Identity): seq<Arrival> {
    if arrivals == [] then []
    else
      var n := |arrivals| - 1;
      HistoryOf(arrivals[..n], x) + if ArrivalIdentity(arrivals[n]) == x then [arrivals[n]] else []
  }

  lemma {:induction false} FoldAppend(row: Option<Order>, first: seq<Arrival>, second: seq<Arrival>)
    ensures Fold(row, first + second) == Fold(Fold(row, first), second)
    decreases |first|
  {
    if first == [] {
      assert first + second == second;
    } else {
      var all, next := first + second, Step(row, first[0]);
      assert all[0] == first[0] && all[1..] == first[1..] + second;
      FoldAppend(next, first[1..], second);
    }
  }

  lemma {:induction false} HistoryAppend(first: seq<Arrival>, second: seq<Arrival>, x: Identity)
    ensures HistoryOf(first + second, x) == HistoryOf(first, x) + HistoryOf(second, x)
    decreases |second|
  {
    if second == [] {
      assert first + second == first;
    } else {
      var n := |second| - 1;
      HistoryAppend(first, second[..n], x);
      assert (first + second)[..|first + second| - 1] == first + second[..n];
    }
  }

  lemma RowOfAt(orders: seq<Order>, i: nat)
    requires DistinctIdentities(orders) && i < |orders|
    ensures RowOf(orders, RowIdentity(orders[i])) == Some(Body(orders[i]))
  {
  }

  lemma NoRowOf(orders: seq<Order>, x: Identity)
    ensures RowOf(orders, x).None? <==> x !in Identities(orders)
  {
    if x in Identities(orders) {
      var i :| 0 <= i < |orders| && RowIdentity(orders[i]) == x;
    }
  }

  lemma RowAfterUpdate(orders: seq<Order>, k: nat, o: Order, x: Identity)
    requires DistinctIdentities(orders) && k < |orders| && RowIdentity(o) == RowIdentity(orders[k])
    ensures RowOf(orders[k := o], x) == if RowIdentity(o) == x then Some(Body(o)) else RowOf(orders, x)
  {
    var after := orders[k := o];
    if i :| 0 <= i < |after| && RowIdentity(after[i]) == x {
      RowOfAt(orders, i);
      RowOfAt(after, i);
      assert i != k ==> RowIdentity(after[i]) != RowIdentity(after[k]);
    } else {
      assert RowIdentity(after[k]) != x;
      assert forall i | 0 <= i < |orders| :: RowIdentity(orders[i]) == RowIdentity(after[i]);
    }
  }

  lemma RowAfterAppend(orders: seq<Order>, o: Order, x: Identity)
    requires DistinctIdentities(orders) && RowIdentity(o) !in Identities(orders)
    ensures RowOf(orders + [o], x) == if RowIdentity(o) == x then Some(Body(o)) else RowOf(orders, x)
  {
    var after := orders + [o];
    forall i | 0 <= i < |orders| ensures RowIdentity(orders[i]) != RowIdentity(o) {
      assert orders[i] in orders;
    }
    if i :| 0 <= i < |after| && RowIdentity(after[i]) == x {
      RowOfAt(after, i);
      if i < |orders| { RowOfAt(orders, i); }
    } else {
      assert RowIdentity(after[|orders|]) != x;
      assert forall i | 0 <= i < |orders| :: orders[i] == after[i];
    }
  }

  /** One arrival changes its own sale's row, as `Step` says, and no other sale's. */
  lemma RowStep(orders: seq<Order>, a: Arrival, sridOf: (int, string) -> Option<string>, x: Identity)
    requires Tidy(orders, sridOf) && ArrivalAgrees(a, sridOf)
    ensures Upsert(orders, a).Ok?
    ensures RowOf(Upsert(orders, a).value.orders, x) ==
            if ArrivalIdentity(a) == x then Step(RowOf(orders, x), a) else RowOf(orders, x)
  {
    TidyFindsAtMostOne(orders, a, sridOf);
    var found := Existing(orders, a.accountId, a.order);
    if found.At? {
      MatchHasIdentity(orders, a, sridOf, found.index);
      RowAfterUpdate(orders, found.index, Merged(orders[found.index], a.order), x);
      RowOfAt(orders, found.index);
    } else {
      NoMatchIsNew(orders, a);
      RowAfterAppend(orders, Created(|orders|, a), x);
      NoRowOf(orders, x);
    }
  }

  /** The row of every sale is the fold of its own arrivals. */
  lemma {:induction false} RowIsOwnHistory(
    orders: seq<Order>, arrivals: seq<Arrival>, sridOf: (int, string) -> Option<string>, x: Identity)
    requires Tidy(orders, sridOf) && forall a | a in arrivals :: ArrivalAgrees(a, sridOf)
    ensures After(orders, arrivals).Ok?
    ensures RowOf(After(orders, arrivals).value, x) == Fold(RowOf(orders, x), HistoryOf(arrivals, x))
    decreases |arrivals|
  {
    TidyRun(orders, arrivals, sridOf);
    if arrivals != [] {
      var n := |arrivals| - 1;
      var rest, a := arrivals[..n], arrivals[n];
      assert arrivals == rest + [a];
      RowIsOwnHistory(orders, rest, sridOf, x);
      TidyRun(orders, rest, sridOf);
      RowStep(After(orders, rest).value, a, sridOf, x);
      AfterSnoc(orders, rest, a);
      FoldAppend(RowOf(orders, x), HistoryOf(rest, x), if ArrivalIdentity(a) == x then [a] else []);
    }
  }

  // ----- Reordering

  ghost predicate SameRows(orders: seq<Order>, orders': seq<Order>) {
    |orders| == |orders'| && forall x :: RowOf(orders, x) == RowOf(orders', x)
  }

  ghost predicate DistinctSales(arrivals: seq<Arrival>) {
    forall i, j | 0 <= i < j < |arrivals| :: ArrivalIdentity(arrivals[i]) != ArrivalIdentity(arrivals[j])
  }

  lemma SameMembers<T>(s: seq<T>, t: seq<T>)
    requires multiset(s) == multiset(t)
    ensures forall a :: a in s <==> a in t
  {
    forall a ensures a in s <==> a in t {
      assert a in s <==> a in multiset(s);
      assert a in t <==> a in multiset(t);
    }
  }

  /** The order of arrival does not matter between sales: every permutation stores the same identities
      in as many rows, and the same row, in all columns but its id, for each sale whose own arrivals
      come in the same order. */
  lemma ArrivalOrderDoesNotMatter(arrivals: seq<Arrival>, reordered: seq<Arrival>)
    requires Consistent(arrivals) && multiset(arrivals) == multiset(reordered)
    ensures After([], arrivals).Ok? && After([], reordered).Ok?
    ensures Identities(After([], arrivals).value) == Identities(After([], reordered).value)
    ensures |After([], arrivals).value| == |After([], reordered).value|
    ensures forall x | HistoryOf(arrivals, x) == HistoryOf(reordered, x) ::
              RowOf(After([], arrivals).value, x) == RowOf(After([], reordered).value, x)
  {
    SameMembers(arrivals, reordered);
    assert ArrivedIdentities(arrivals) == ArrivedIdentities(reordered);
    OneRowPerIdentity(arrivals);
    OneRowPerIdentity(reordered);
    var sridOf := AssignedBy(arrivals);
    forall x | HistoryOf(arrivals, x) == HistoryOf(reordered, x)
      ensures RowOf(After([], arrivals).value, x) == RowOf(After([], reordered).value, x)
    {
      RowIsOwnHistory([], arrivals, sridOf, x);
      RowIsOwnHistory([], reordered, sridOf, x);
    }
  }

  /** Orders of different sales may arrive in any order at all. */
  lemma DistinctSalesCommute(arrivals: seq<Arrival>, reordered: seq<Arrival>)
    requires Consistent(arrivals) && multiset(arrivals) == multiset(reordered)
    requires DistinctSales(arrivals) && DistinctSales(reordered)
    ensures After([], arrivals).Ok? && After([], reordered).Ok?
    ensures SameRows(After([], arrivals).value, After([], reordered).value)
  {
    SameMembers(arrivals, reordered);
    ArrivalOrderDoesNotMatter(arrivals, reordered);
    forall x ensures HistoryOf(arrivals, x) == HistoryOf(reordered, x) {
      HistoryOfDistinct(arrivals, x);
      HistoryOfDistinct(reordered, x);
    }
  }

  lemma {:induction false} HistoryOfDistinct(arrivals: seq<Arrival>, x: Identity)
    requires DistinctSales(arrivals)
    ensures forall a | a in arrivals && ArrivalIdentity(a) == x :: HistoryOf(arrivals, x) == [a]
    ensures x !in ArrivedIdentities(arrivals) ==> HistoryOf(arrivals, x) == []
  {
    if arrivals != [] {
      var rest, a := arrivals[..|arrivals| - 1], arrivals[|arrivals| - 1];
      assert arrivals == rest + [a];
      HistoryOfDistinct(rest, x);
    }
  }

  // ----- Replaying statistics orders

  ghost predicate AllStatistics(history: seq<Arrival>) {
    forall a | a in history :: a.order.source == Some(StatisticsOrder)
  }

  ghost predicate Either<T>(u: T, v: T, r: T) {
    u == v || u == r
  }

  /** Column by column, `u` shows what `v` shows or what `r` shows. */
  ghost predicate ItemBetween(u: Item, v: Item, r: Item) {
    && Either(u.amounts, v.amounts, r.amounts) && Either(u.title, v.title, r.title)
    && Either(u.sellerArticle, v.sellerArticle, r.sellerArticle)
    && Either(u.marketplaceArticle, v.marketplaceArticle, r.marketplaceArticle)
  }

  ghost predicate ItemsBetween(u: seq<Item>, v: seq<Item>, r: seq<Item>) {
    && |u| == |r|
    && if v == [] then u == r else |v| == |r| && forall k | 0 <= k < |r| :: ItemBetween(u[k], v[k], r[k])
  }

  ghost predicate HeaderBetween(u: Order, v: Order, r: Order) {
    && SameIdentity(u, v) && SameIdentity(v, r) && LiveRow(u) == LiveRow(v) == LiveRow(r)
    && Either(u.postingNumber, v.postingNumber, r.postingNumber) && Either(u.assemblyId, v.assemblyId, r.assemblyId)
    && Either(u.srid, v.srid, r.srid) && Either(u.source, v.source, r.source) && Either(u.details, v.details, r.details)
    && Either(u.status, v.status, r.status) && Either(u.warehouse, v.warehouse, r.warehouse)
    && Either(u.warehouseType, v.warehouseType, r.warehouseType)
    && Either(u.payload.body, v.payload.body, r.payload.body)
    && Either(u.payload.statistics, v.payload.statistics, r.payload.statistics)
  }

  /** What further statistics orders leave of `v` in `r`. */
  ghost predicate Leads(v: Order, r: Order) {
    && SameIdentity(v, r) && LiveRow(v) == LiveRow(r)
    && (v.items != [] ==> |r.items| == |v.items|)
    && (LiveRow(v) && !Technical(v.warehouse) ==> r.warehouse == v.warehouse)
    && (LiveRow(v) && Truthy(v.warehouseType) ==> r.warehouseType == v.warehouseType)
  }

  /** Both modes merge the items alike: texts that enrichment fills in would have been merged anyway. */
  lemma MergedParts(o: Order, e: Incoming)
    ensures Merged(o, e) ==
            (if Enriches(o, e) then EnrichedHeader(o, e) else Applied(o, e)).(items := MergedItems(o.items, e.items))
  {
  }

  lemma {:induction false} LeadsFold(v: Order, history: seq<Arrival>)
    requires AllStatistics(history)
    ensures Leads(v, Fold(Some(v), history).value)
    decreases |history|
  {
    if history != [] {
      LeadsFold(Merged(v, history[0].order), history[1..]);
    }
  }

  lemma AppliedStep(u: Order, v: Order, r: Order, e: Incoming)
    requires HeaderBetween(u, v, r) && !LiveRow(r) && e.source == Some(StatisticsOrder)
    ensures HeaderBetween(Applied(u, e), Applied(v, e), r)
  {
  }

  lemma EnrichedStep(u: Order, v: Order, r: Order, e: Incoming)
    requires HeaderBetween(u, v, r) && Leads(v, r) && LiveRow(r)
    ensures HeaderBetween(EnrichedHeader(u, e), EnrichedHeader(v, e), r)
  {
  }

  lemma HeaderStep(u: Order, v: Order, r: Order, e: Incoming)
    requires HeaderBetween(u, v, r) && Leads(v, r) && e.source == Some(StatisticsOrder)
    ensures HeaderBetween(Merged(u, e), Merged(v, e), r)
  {
    MergedParts(u, e);
    MergedParts(v, e);
    if LiveRow(r) { EnrichedStep(u, v, r, e); } else { AppliedStep(u, v, r, e); }
  }

  lemma ItemsStep(u: seq<Item>, v: seq<Item>, r: seq<Item>, incoming: seq<Item>)
    requires ItemsBetween(u, v, r) && (MergedItems(v, incoming) != [] ==> |MergedItems(v, incoming)| == |r|)
    ensures ItemsBetween(MergedItems(u, incoming), MergedItems(v, incoming), r)
  {
    if v == [] && incoming == [] {
      assert MergedItems(u, incoming) == u;
    }
  }

  lemma {:induction false} ReplayFrom(u: Order, v: Order, history: seq<Arrival>)
    requires AllStatistics(history)
    requires var r := Fold(Some(v), history).value; HeaderBetween(u, v, r) && ItemsBetween(u.items, v.items, r.items)
    ensures Fold(Some(u), history) == Fold(Some(v), history)
    decreases |history|
  {
    var r := Fold(Some(v), history).value;
    if history == [] {
      assert u.items == r.items;
    } else {
      var e := history[0].order;
      LeadsFold(v, history);
      LeadsFold(Merged(v, e), history[1..]);
      MergedParts(u, e);
      MergedParts(v, e);
      HeaderStep(u, v, r, e);
      ItemsStep(u.items, v.items, r.items, e.items);
      ReplayFrom(Merged(u, e), Merged(v, e), history[1..]);
    }
  }

  /** Whatever a row's statistics orders say, going through them a second time changes nothing. */
  lemma ReplayedHistory(row: Option<Order>, history: seq<Arrival>)
    requires AllStatistics(history)
    ensures Fold(Fold(row, history), history) == Fold(row, history)
  {
    if history != [] {
      var first := if row.Some? then row.value else Created(0, history[0]);
      CreatedThenMerged(0, history[0]);
      LeadsFold(first, history);
      ReplayFrom(Fold(Some(first), history).value, first, history);
    }
  }

  // ----- Where the rows stand

  /** The sales in row order. */
  function SalesOf(orders: seq<Order>): seq<Identity> {
    seq(|orders|, i requires 0 <= i < |orders| => RowIdentity(orders[i]))
  }

  /** New sales are noted in order of their first arrival. */
  function Noted(sales: seq<Identity>, arrivals: seq<Arrival>): seq<Identity> {
    if arrivals == [] then sales
    else
      var n := |arrivals| - 1;
      var before, x := Noted(sales, arrivals[..n]), ArrivalIdentity(arrivals[n]);
      if x in before then before else before + [x]
  }

  lemma {:induction false} NotedAppend(sales: seq<Identity>, first: seq<Arrival>, second: seq<Arrival>)
    ensures Noted(sales, first + second) == Noted(Noted(sales, first), second)
    decreases |second|
  {
    if second == [] {
      assert first + second == first;
    } else {
      NotedAppend(sales, first, second[..|second| - 1]);
      assert (first + second)[..|first + second| - 1] == first + second[..|second| - 1];
    }
  }

  lemma {:induction false} NotedHolds(sales: seq<Identity>, arrivals: seq<Arrival>)
    ensures forall x | x in sales :: x in Noted(sales, arrivals)
    ensures forall a | a in arrivals :: ArrivalIdentity(a) in Noted(sales, arrivals)
    ensures (forall a | a in arrivals :: ArrivalIdentity(a) in sales) ==> Noted(sales, arrivals) == sales
  {
    if arrivals != [] {
      var rest, a := arrivals[..|arrivals| - 1], arrivals[|arrivals| - 1];
      assert arrivals == rest + [a];
      NotedHolds(sales, rest);
    }
  }

  /** Rows keep their serial ids, and a new row's id is its position. */
  ghost predicate Numbered(before: seq<Order>, after: seq<Order>) {
    && |before| <= |after|
    && (forall i | 0 <= i < |before| :: after[i].id == before[i].id)
    && (forall i | |before| <= i < |after| :: after[i].id == i)
  }

  lemma PositionStep(orders: seq<Order>, a: Arrival, sridOf: (int, string) -> Option<string>)
    requires Tidy(orders, sridOf) && ArrivalAgrees(a, sridOf)
    ensures Upsert(orders, a).Ok? && SalesOf(Upsert(orders, a).value.orders) == Noted(SalesOf(orders), [a])
    ensures forall before | Numbered(before, orders) :: Numbered(before, Upsert(orders, a).value.orders)
  {
    TidyFindsAtMostOne(orders, a, sridOf);
    var after, found, x := Upsert(orders, a).value.orders, Existing(orders, a.accountId, a.order), ArrivalIdentity(a);
    assert [a][..0] == [];
    if found.At? {
      MatchHasIdentity(orders, a, sridOf, found.index);
      MergedColumns(orders[found.index], a.order);
      assert SalesOf(orders)[found.index] == x;
    } else {
      NoMatchIsNew(orders, a);
      forall i | 0 <= i < |orders| ensures SalesOf(orders)[i] != x {
        assert orders[i] in orders;
      }
    }
  }

  lemma {:induction false} PositionsAfter(
    orders: seq<Order>, arrivals: seq<Arrival>, sridOf: (int, string) -> Option<string>)
    requires Tidy(orders, sridOf) && forall a | a in arrivals :: ArrivalAgrees(a, sridOf)
    ensures After(orders, arrivals).Ok?
    ensures SalesOf(After(orders, arrivals).value) == Noted(SalesOf(orders), arrivals)
    ensures Numbered(orders, After(orders, arrivals).value)
    decreases |arrivals|
  {
    if arrivals != [] {
      var rest, a := arrivals[..|arrivals| - 1], arrivals[|arrivals| - 1];
      assert arrivals == rest + [a];
      PositionsAfter(orders, rest, sridOf);
      TidyRun(orders, rest, sridOf);
      PositionStep(After(orders, rest).value, a, sridOf);
      AfterSnoc(orders, rest, a);
      NotedAppend(SalesOf(orders), rest, [a]);
    }
  }

  /** Two runs over one table that note the same sales in the same order, and leave the same row for each,
      leave the same table. */
  lemma SameTable(before: seq<Order>, t: seq<Order>, t': seq<Order>)
    requires DistinctIdentities(t) && DistinctIdentities(t') && SalesOf(t) == SalesOf(t')
    requires Numbered(before, t) && Numbered(before, t') && SameRows(t, t')
    ensures t == t'
  {
    forall i | 0 <= i < |t| ensures t[i] == t'[i] {
      assert SalesOf(t)[i] == SalesOf(t')[i];
      RowOfAt(t, i);
      RowOfAt(t', i);
      assert Body(t[i]).(id := t[i].id) == t[i] && Body(t'[i]).(id := t'[i].id) == t'[i];
    }
  }

  // ----- Two runs compared

  /** Two runs leave the same rows when every sale's own arrivals make the same of its row. */
  lemma SameFoldsSameRows(
    orders: seq<Order>, p: seq<Arrival>, q: seq<Arrival>, sridOf: (int, string) -> Option<string>)
    requires Tidy(orders, sridOf) && forall a | a in p || a in q :: ArrivalAgrees(a, sridOf)
    requires forall x :: Fold(RowOf(orders, x), HistoryOf(p, x)) == Fold(RowOf(orders, x), HistoryOf(q, x))
    ensures After(orders, p).Ok? && After(orders, q).Ok? && SameRows(After(orders, p).value, After(orders, q).value)
  {
    TidyRun(orders, p, sridOf);
    TidyRun(orders, q, sridOf);
    var t, t' := After(orders, p).value, After(orders, q).value;
    forall x ensures RowOf(t, x) == RowOf(t', x) {
      RowIsOwnHistory(orders, p, sridOf, x);
      RowIsOwnHistory(orders, q, sridOf, x);
    }
    SameRowsSameCount(t, t');
  }

  lemma SameRowsSameCount(t: seq<Order>, t': seq<Order>)
    requires DistinctIdentities(t) && DistinctIdentities(t') && forall x :: RowOf(t, x) == RowOf(t', x)
    ensures |t| == |t'|
  {
    forall x ensures x in Identities(t) <==> x in Identities(t') {
      NoRowOf(t, x);
      NoRowOf(t', x);
    }
    assert Identities(t) == Identities(t');
    RowsCountIdentities(t);
    RowsCountIdentities(t');
  }

  /** If they also note new sales in the same order, they leave the same table. */
  lemma SameFoldsSameTable(
    orders: seq<Order>, p: seq<Arrival>, q: seq<Arrival>, sridOf: (int, string) -> Option<string>)
    requires Tidy(orders, sridOf) && forall a | a in p || a in q :: ArrivalAgrees(a, sridOf)
    requires forall x :: Fold(RowOf(orders, x), HistoryOf(p, x)) == Fold(RowOf(orders, x), HistoryOf(q, x))
    requires Noted(SalesOf(orders), p) == Noted(SalesOf(orders), q)
    ensures After(orders, p).Ok? && After(orders, p) == After(orders, q)
  {
    SameFoldsSameRows(orders, p, q, sridOf);
    TidyRun(orders, p, sridOf);
    TidyRun(orders, q, sridOf);
    PositionsAfter(orders, p, sridOf);
    PositionsAfter(orders, q, sridOf);
    SameTable(orders, After(orders, p).value, After(orders, q).value);
  }

  /** Upserting a batch of statistics orders again, in any order and with any repeats in it, changes nothing. */
  lemma ReplayedBatchIsNoOp(orders: seq<Order>, batch: seq<Arrival>, sridOf: (int, string) -> Option<string>)
    requires Tidy(orders, sridOf) && AllStatistics(batch) && forall a | a in batch :: ArrivalAgrees(a, sridOf)
    ensures After(orders, batch).Ok? && After(orders, batch + batch) == After(orders, batch)
  {
    forall x ensures Fold(RowOf(orders, x), HistoryOf(batch + batch, x)) == Fold(RowOf(orders, x), HistoryOf(batch, x)) {
      var row, h := RowOf(orders, x), HistoryOf(batch, x);
      HistoryAppend(batch, batch, x);
      FoldAppend(row, h, h);
      HistoryMembers(batch, x);
      ReplayedHistory(row, h);
    }
    NotedAppend(SalesOf(orders), batch, batch);
    NotedHolds(SalesOf(orders), batch);
    NotedHolds(Noted(SalesOf(orders), batch), batch);
    SameFoldsSameTable(orders, batch + batch, batch, sridOf);
  }

  lemma {:induction false} HistoryMembers(arrivals: seq<Arrival>, x: Identity)
    ensures forall a | a in HistoryOf(arrivals, x) :: a in arrivals && ArrivalIdentity(a) == x
  {
    if arrivals != [] {
      HistoryMembers(arrivals[..|arrivals| - 1], x);
    }
  }
}
