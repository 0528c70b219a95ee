/** What runs of `OrderRepository.upsert` guarantee about the order table: which rows exist, and
    what statistics rows may do to a live order. */
module OrderDedup {
  import opened Common
  import opened Orders

  /** The table after the arrivals, in order; an error stops the run. */
  ghost function After(orders: seq<Order>, arrivals: seq<Arrival>): Result<seq<Order>, Error> {
    if arrivals == [] then Ok(orders)
    else
      var n := |arrivals| - 1;
      match After(orders, arrivals[..n])
      case Err(e) => Err(e)
      case Ok(before) =>
        match Upsert(before, arrivals[n])
        case Err(e) => Err(e)
        case Ok(u) => Ok(u.orders)
  }

  lemma AfterSnoc(orders: seq<Order>, arrivals: seq<Arrival>, a: Arrival)
    requires After(orders, arrivals).Ok?
    ensures After(orders, arrivals + [a]) ==
            match Upsert(After(orders, arrivals).value, a) case Err(e) => Err(e) case Ok(u) => Ok(u.orders)
  {
    assert (arrivals + [a])[..|arrivals|] == arrivals;
  }

  lemma {:induction false} AfterAppend(orders: seq<Order>, first: seq<Arrival>, second: seq<Arrival>)
    ensures After(orders, first + second) ==
            match After(orders, first) case Err(e) => Err(e) case Ok(mid) => After(mid, second)
    decreases |second|
  {
    if second == [] {
      assert first + second == first;
    } else {
      var n := |second| - 1;
      AfterAppend(orders, first, second[..n]);
      assert (first + second)[..|first + second| - 1] == first + second[..n];
    }
  }

  // ----- One row per srid

  /** What makes two orders the same sale: the srid of a Wildberries order that has one, and
      otherwise the account's order number. */
  datatype Identity = Srid(account: int, srid: string) | Number(account: int, marketplace: Marketplace, externalId: string)

  function IdentityOf(account: int, marketplace: Marketplace, externalId: string, srid: Option<string>): Identity {
    if marketplace == WB && Truthy(srid) then Srid(account, srid.value) else Number(account, marketplace, externalId)
  }

  function RowIdentity(o: Order): Identity {
    IdentityOf(o.accountId, o.marketplace, o.externalId, o.srid)
  }

  function ArrivalIdentity(a: Arrival): Identity {
    IdentityOf(a.accountId, a.order.marketplace, a.order.externalId, a.order.srid)
  }

  function Identities(orders: seq<Order>): set<Identity> {
    set o | o in orders :: RowIdentity(o)
  }

  function ArrivedIdentities(arrivals: seq<Arrival>): set<Identity> {
    set a | a in arrivals :: ArrivalIdentity(a)
  }

  /** The table's unique constraint. */
  ghost predicate UniqueNumbers(orders: seq<Order>) {
    forall i, j | 0 <= i < j < |orders| ::
      orders[i].accountId != orders[j].accountId || orders[i].marketplace != orders[j].marketplace
      || orders[i].externalId != orders[j].externalId
  }

  ghost predicate DistinctIdentities(orders: seq<Order>) {
    forall i, j | 0 <= i < j < |orders| :: RowIdentity(orders[i]) != RowIdentity(orders[j])
  }

  /** At most one Wildberries row per account and non-empty srid. */
  ghost predicate UniqueSrids(orders: seq<Order>) {
    forall i, j | 0 <= i < j < |orders| && orders[i].marketplace == WB && orders[j].marketplace == WB
      && orders[i].accountId == orders[j].accountId && Truthy(orders[i].srid) :: orders[i].srid != orders[j].srid
  }

  function Norm(srid: Option<string>): Option<string> {
    if Truthy(srid) then srid else None
  }

  /** `sridOf` says which srid each account's Wildberries order number carries. */
  ghost predicate RowsAgree(orders: seq<Order>, sridOf: (int, string) -> Option<string>) {
    forall o | o in orders && o.marketplace == WB :: Norm(o.srid) == sridOf(o.accountId, o.externalId)
  }

  ghost predicate ArrivalAgrees(a: Arrival, sridOf: (int, string) -> Option<string>) {
    a.order.marketplace == WB ==> Norm(a.order.srid) == sridOf(a.accountId, a.order.externalId)
  }

  /** A table kept by arrivals whose order numbers always carry the same srid. */
  ghost predicate Tidy(orders: seq<Order>, sridOf: (int, string) -> Option<string>) {
    UniqueNumbers(orders) && DistinctIdentities(orders) && RowsAgree(orders, sridOf)
  }

  lemma TidyFindsAtMostOne(orders: seq<Order>, a: Arrival, sridOf: (int, string) -> Option<string>)
    requires Tidy(orders, sridOf)
    ensures !Existing(orders, a.accountId, a.order).Several?
  {
    var byNumber := ByExternal(a.accountId, a.order.marketplace, a.order.externalId);
    assert !Lookup(orders, byNumber).Several?;
    var bySrid := BySrid(a.accountId, a.order.srid);
    if Truthy(a.order.srid) {
      forall i: nat, j: nat | i < j && SelectsAt(orders, bySrid, i) ensures !SelectsAt(orders, bySrid, j) {
        assert j < |orders| ==> RowIdentity(orders[i]) != RowIdentity(orders[j]);
      }
    }
  }

  /** The row an arrival is merged into has the arrival's identity, and keeps it. */
  lemma MatchHasIdentity(orders: seq<Order>, a: Arrival, sridOf: (int, string) -> Option<string>, k: nat)
    requires Tidy(orders, sridOf) && ArrivalAgrees(a, sridOf)
    requires Existing(orders, a.accountId, a.order) == At(k)
    ensures k < |orders| && RowIdentity(orders[k]) == ArrivalIdentity(a)
    ensures RowIdentity(Merged(orders[k], a.order)) == ArrivalIdentity(a)
    ensures Norm(Merged(orders[k], a.order).srid) == Norm(orders[k].srid) || a.order.marketplace != WB
  {
    ExistingInRange(orders, a.accountId, a.order);
    MergedColumns(orders[k], a.order);
    assert orders[k] in orders;
  }

  lemma NoMatchIsNew(orders: seq<Order>, a: Arrival)
    requires Existing(orders, a.accountId, a.order).Nothing?
    ensures ArrivalIdentity(a) !in Identities(orders)
    ensures forall o | o in orders :: o.accountId != a.accountId || o.marketplace != a.order.marketplace
                                      || o.externalId != a.order.externalId
  {
    var byNumber := ByExternal(a.accountId, a.order.marketplace, a.order.externalId);
    forall o | o in orders
      ensures RowIdentity(o) != ArrivalIdentity(a) && !Selects(byNumber, o)
    {
      var i: nat :| i < |orders| && orders[i] == o;
      assert !SelectsAt(orders, byNumber, i);
      if a.order.marketplace == WB && Truthy(a.order.srid) {
        assert !SelectsAt(orders, BySrid(a.accountId, a.order.srid), i);
      }
    }
  }

  lemma IdentitiesAfterUpdate(orders: seq<Order>, k: nat, o: Order)
    requires k < |orders| && RowIdentity(o) == RowIdentity(orders[k])
    ensures Identities(orders[k := o]) == Identities(orders)
  {
    var after := orders[k := o];
    forall x ensures x in Identities(after) <==> x in Identities(orders) {
      if x in Identities(orders) {
        var i :| 0 <= i < |orders| && RowIdentity(orders[i]) == x;
        assert RowIdentity(after[i]) == x && after[i] in after;
      }
      if x in Identities(after) {
        var i :| 0 <= i < |after| && RowIdentity(after[i]) == x;
        assert RowIdentity(orders[i]) == x && orders[i] in orders;
      }
    }
  }

  lemma IdentitiesAfterAppend(orders: seq<Order>, o: Order)
    ensures Identities(orders + [o]) == Identities(orders) + {RowIdentity(o)}
  {
    var after := orders + [o];
    forall x | x in Identities(orders) + {RowIdentity(o)} ensures x in Identities(after) {
      if x == RowIdentity(o) {
        assert after[|orders|] in after;
      } else {
        var i :| 0 <= i < |orders| && RowIdentity(orders[i]) == x;
        assert after[i] in after;
      }
    }
  }

  /** One arrival keeps the table tidy and stores exactly its own identity besides the others. */
  lemma TidyStep(orders: seq<Order>, a: Arrival, sridOf: (int, string) -> Option<string>)
    requires Tidy(orders, sridOf) && ArrivalAgrees(a, sridOf)
    ensures Upsert(orders, a).Ok?
    ensures Tidy(Upsert(orders, a).value.orders, sridOf)
    ensures Identities(Upsert(orders, a).value.orders) == Identities(orders) + {ArrivalIdentity(a)}
  {
    TidyFindsAtMostOne(orders, a, sridOf);
    var found := Existing(orders, a.accountId, a.order);
    if found.At? {
      ExistingInRange(orders, a.accountId, a.order);
      MatchHasIdentity(orders, a, sridOf, found.index);
      MergedColumns(orders[found.index], a.order);
      IdentitiesAfterUpdate(orders, found.index, Merged(orders[found.index], a.order));
      assert orders[found.index] in orders;
    } else {
      NoMatchIsNew(orders, a);
      var row := Created(|orders|, a);
      IdentitiesAfterAppend(orders, row);
      forall i | 0 <= i < |orders| ensures RowIdentity(orders[i]) != RowIdentity(row) {
        assert orders[i] in orders;
      }
    }
  }

  lemma {:induction false} TidyRun(orders: seq<Order>, arrivals: seq<Arrival>, sridOf: (int, string) -> Option<string>)
    requires Tidy(orders, sridOf) && forall a | a in arrivals :: ArrivalAgrees(a, sridOf)
    ensures After(orders, arrivals).Ok?
    ensures Tidy(After(orders, arrivals).value, sridOf)
    ensures Identities(After(orders, arrivals).value) == Identities(orders) + ArrivedIdentities(arrivals)
    decreases |arrivals|
  {
    if arrivals != [] {
      var n := |arrivals| - 1;
      var rest, a := arrivals[..n], arrivals[n];
      assert arrivals == rest + [a];
      TidyRun(orders, rest, sridOf);
      TidyStep(After(orders, rest).value, a, sridOf);
      AfterSnoc(orders, rest, a);
    }
  }

  /** Every Wildberries order number always arrives with the same srid. */
  ghost predicate Consistent(arrivals: seq<Arrival>) {
    forall a, b | a in arrivals && b in arrivals && a.accountId == b.accountId
      && a.order.marketplace == WB && b.order.marketplace == WB && a.order.externalId == b.order.externalId ::
      Norm(a.order.srid) == Norm(b.order.srid)
  }

  ghost function AssignedBy(arrivals: seq<Arrival>): (int, string) -> Option<string> {
    (account: int, externalId: string) =>
      if a :| a in arrivals && a.order.marketplace == WB && a.accountId == account && a.order.externalId == externalId
      then Norm(a.order.srid) else None
  }

  /** The main theorem: for any arrival order, if every order number always carries the same srid, no
      lookup ever meets two rows, each srid has at most one row, and the table holds one row for
      each identity that arrived and no other. */
  lemma OneRowPerIdentity(arrivals: seq<Arrival>)
    requires Consistent(arrivals)
    ensures After([], arrivals).Ok?
    ensures var orders := After([], arrivals).value;
            && UniqueSrids(orders) && UniqueNumbers(orders)
            && Identities(orders) == ArrivedIdentities(arrivals)
            && |orders| == |ArrivedIdentities(arrivals)|
  {
    var sridOf := AssignedBy(arrivals);
    TidyRun([], arrivals, sridOf);
    var orders := After([], arrivals).value;
    assert Identities([]) == {};
    forall i, j | 0 <= i < j < |orders| && orders[i].marketplace == WB && orders[j].marketplace == WB
      && orders[i].accountId == orders[j].accountId && Truthy(orders[i].srid) ensures orders[i].srid != orders[j].srid
    {
      assert RowIdentity(orders[i]) != RowIdentity(orders[j]);
    }
    RowsCountIdentities(orders);
  }

  lemma RowsCountIdentities(orders: seq<Order>)
    requires DistinctIdentities(orders)
    ensures |orders| == |Identities(orders)|
  {
    var ids := seq(|orders|, i requires 0 <= i < |orders| => RowIdentity(orders[i]));
    DistinctSize(ids);
    forall x | x in Identities(orders) ensures x in Elements(ids) {
      var i :| 0 <= i < |orders| && RowIdentity(orders[i]) == x;
      assert ids[i] == x;
    }
    forall x | x in Elements(ids) ensures x in Identities(orders) {
      var i :| 0 <= i < |ids| && ids[i] == x;
      assert orders[i] in orders;
    }
    assert Elements(ids) == Identities(orders);
  }

  // ----- Exactly when one call breaks it

  /** The overwriting branch hands the matched row a srid that another row of the account has. */
  ghost predicate Collides(orders: seq<Order>, a: Arrival) {
    var found := Existing(orders, a.accountId, a.order);
    && found.At? && found.index < |orders|
    && a.order.marketplace == WB && Truthy(a.order.srid) && !Enriches(orders[found.index], a.order)
    && exists j: nat :: j < |orders| && j != found.index && SelectsAt(orders, BySrid(a.accountId, a.order.srid), j)
  }

  lemma SridsStayUniqueExactly(orders: seq<Order>, a: Arrival)
    requires UniqueSrids(orders) && Upsert(orders, a).Ok?
    ensures UniqueSrids(Upsert(orders, a).value.orders) <==> !Collides(orders, a)
  {
    var after := Upsert(orders, a).value.orders;
    var found := Existing(orders, a.accountId, a.order);
    if found.Nothing? {
      forall i: nat | i < |orders| && a.order.marketplace == WB && Truthy(a.order.srid)
        ensures !Selects(BySrid(a.accountId, a.order.srid), orders[i])
      {
        assert !SelectsAt(orders, BySrid(a.accountId, a.order.srid), i);
      }
    } else {
      ExistingInRange(orders, a.accountId, a.order);
      MergedColumns(orders[found.index], a.order);
      if Collides(orders, a) {
        var j: nat :| j < |orders| && j != found.index && SelectsAt(orders, BySrid(a.accountId, a.order.srid), j);
        assert after[j].srid == after[found.index].srid;
      } else {
        forall j | 0 <= j < |orders| && j != found.index && a.order.marketplace == WB && Truthy(a.order.srid)
                   && !Enriches(orders[found.index], a.order)
          ensures !Selects(BySrid(a.accountId, a.order.srid), orders[j])
        {
          assert !SelectsAt(orders, BySrid(a.accountId, a.order.srid), j);
        }
      }
    }
  }

  function Sample(externalId: string, srid: Option<string>, source: Source): Arrival {
    Arrival(1, 1, Incoming(WB, externalId, None, None, srid, Some(source),
                           Details(0, Some(FBS), None, None, None, None, None, false),
                           Status("new", None, None), None, None, [], 0), 0)
  }

  /** The table after a live order without srid, its statistics row, and the live order with srid. */
  lemma LateSridTable() returns (last: seq<Order>)
    ensures After([], [Sample("1", None, LiveOrder), Sample("s", Some("s"), StatisticsOrder), Sample("1", Some("s"), LiveOrder)])
         == Ok(last)
    ensures |last| == 2 && forall i | 0 <= i < 2 ::
              last[i].accountId == 1 && last[i].marketplace == WB && last[i].srid == Some("s")
              && last[i].externalId == ["1", "s"][i]
  {
    var a, b, c := Sample("1", None, LiveOrder), Sample("s", Some("s"), StatisticsOrder), Sample("1", Some("s"), LiveOrder);
    var one, two := Created(0, a), Created(1, b);
    last := [Merged(one, c.order), two];
    TwoOrdersOneSale(a, b, one, two);
    LookupIs([one, two], ByExternal(1, WB, "1"), At(0));
    AfterSnoc([], [a, b], c);
    assert [a, b] + [c] == [a, b, c] && [one, two][0 := Merged(one, c.order)] == last;
  }

  lemma TwoOrdersOneSale(a: Arrival, b: Arrival, one: Order, two: Order)
    requires a == Sample("1", None, LiveOrder) && b == Sample("s", Some("s"), StatisticsOrder)
    requires one == Created(0, a) && two == Created(1, b)
    ensures After([], [a, b]) == Ok([one, two])
  {
    LookupIs([], ByExternal(1, WB, "1"), Nothing);
    AfterSnoc([], [], a);
    assert [] + [a] == [a] && [] + [one] == [one];
    LookupIs([one], ByExternal(1, WB, "s"), Nothing);
    LookupIs([one], BySrid(1, Some("s")), Nothing);
    AfterSnoc([], [a], b);
    assert [a] + [b] == [a, b] && [one] + [two] == [one, two];
  }

  /** Without the hypothesis it fails: a live order first seen without its srid, then with it after the
      statistics row came, leaves two rows with one srid, and the next lookup by that srid raises. */
  lemma LateSridMakesDuplicates()
    ensures var arrivals := [Sample("1", None, LiveOrder), Sample("s", Some("s"), StatisticsOrder), Sample("1", Some("s"), LiveOrder)];
            && After([], arrivals).Ok? && !UniqueSrids(After([], arrivals).value)
            && Upsert(After([], arrivals).value, Sample("2", Some("s"), LiveOrder)) == Err(MultipleRows)
  {
    var last := LateSridTable();
    LookupIs(last, ByExternal(1, WB, "2"), Nothing);
    assert SelectsAt(last, BySrid(1, Some("s")), 0) && SelectsAt(last, BySrid(1, Some("s")), 1);
    LookupIs(last, BySrid(1, Some("s")), Several);
  }

  // ----- Live orders under statistics rows

  ghost predicate LiveRow(o: Order) {
    o.marketplace == WB && o.source == Some(LiveOrder)
  }

  /** Some statistics row in the run matched row `i` and said the order was cancelled. */
  ghost predicate CancelReaches(orders: seq<Order>, arrivals: seq<Arrival>, i: nat) {
    arrivals != [] &&
    var n := |arrivals| - 1;
    || CancelReaches(orders, arrivals[..n], i)
    || (&& After(orders, arrivals[..n]).Ok?
        && Existing(After(orders, arrivals[..n]).value, arrivals[n].accountId, arrivals[n].order) == At(i)
        && arrivals[n].order.status.normalized == Some("cancelled"))
  }

  /** What enrichment may change: the status, to cancelled, the filed payload, the warehouse and the items. */
  ghost predicate KeepsLive(o: Order, o': Order, cancelled: bool) {
    o' == o.(status := if cancelled then CANCELLED else o.status, payload := o'.payload,
             warehouse := o'.warehouse, warehouseType := o'.warehouseType, items := o'.items)
  }

  /** Over any run of statistics rows a live order keeps its number, srid, assembly, sale model,
      deadlines and source; its status becomes cancelled exactly if a cancellation reached it, and
      otherwise stays as it was. */
  lemma {:induction false} StatisticsKeepLiveOrder(orders: seq<Order>, arrivals: seq<Arrival>, i: nat)
    requires forall a | a in arrivals :: a.order.source == Some(StatisticsOrder)
    requires After(orders, arrivals).Ok? && i < |orders| && LiveRow(orders[i])
    ensures i < |After(orders, arrivals).value|
    ensures KeepsLive(orders[i], After(orders, arrivals).value[i], CancelReaches(orders, arrivals, i))
    decreases |arrivals|
  {
    if arrivals != [] {
      var n := |arrivals| - 1;
      assert arrivals[n] in arrivals;
      StatisticsKeepLiveOrder(orders, arrivals[..n], i);
    }
  }
}
