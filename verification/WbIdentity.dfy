/** Which order number and srid a Wildberries payload gets, and when the one-row-per-srid theorem's
    hypothesis holds of a run of payloads. */
module WbIdentity {
  import opened Common
  import opened Orders
  import opened OrderDedup

  /** The identifying fields of an assembly order (new or historical) and of a statistics row. */
  datatype Payload =
    | Assembly(account: int, id: string, rid: Option<string>, historical: bool)
    | Statistics(account: int, srid: Option<string>, odid: Option<string>, nmId: string, date: string)

  function OrderNumber(p: Payload): string {
    match p
    case Assembly(_, id, _, _) => id
    case Statistics(_, srid, odid, nmId, date) =>
      if Truthy(srid) then srid.value
      else if Truthy(odid) then odid.value
      else "wb-stat-order-" + nmId + "-" + date
  }

  function SridOf(p: Payload): Option<string> {
    match p
    case Assembly(_, _, rid, _) => rid
    case Statistics(_, srid, _, _, _) => Norm(srid)
  }

  function SourceOf(p: Payload): Source {
    if p.Assembly? && !p.historical then LiveOrder else StatisticsOrder
  }

  /** The arrival is the payload, normalised. */
  predicate Normalizes(a: Arrival, p: Payload) {
    && a.accountId == p.account && a.order.marketplace == WB && a.order.externalId == OrderNumber(p)
    && a.order.srid == SridOf(p) && a.order.source == Some(SourceOf(p))
  }

  /** The number a statistics row goes by: its srid, else its odid, else one made of its article and date. */
  ghost predicate GoesBy(p: Payload, number: string)
    requires p.Statistics?
  {
    if p.srid.Some? && |p.srid.value| > 0 then number == p.srid.value
    else if p.odid.Some? && |p.odid.value| > 0 then number == p.odid.value
    else number == "wb-stat-order-" + p.nmId + "-" + p.date
  }

  /** An assembly order never changes its rid, a missing one included. */
  ghost predicate RidsAreStable(payloads: seq<Payload>) {
    forall p, q | p in payloads && q in payloads && p.Assembly? && q.Assembly?
      && p.account == q.account && p.id == q.id :: Norm(p.rid) == Norm(q.rid)
  }

  /** A statistics row whose number is also an assembly id carries that order's rid. */
  ghost predicate NumbersDoNotClash(payloads: seq<Payload>) {
    forall p, q | p in payloads && q in payloads && p.Assembly? && q.Statistics?
      && p.account == q.account && GoesBy(q, p.id) :: Norm(p.rid) == Norm(q.srid)
  }

  /** No statistics row without srid has a number that is another one's srid. */
  ghost predicate SridsAreNotNumbers(payloads: seq<Payload>) {
    forall p, q | p in payloads && q in payloads && p.Statistics? && q.Statistics? && p.account == q.account
      && Truthy(p.srid) && !Truthy(q.srid) :: !GoesBy(q, p.srid.value)
  }

  ghost predicate AllNormalize(arrivals: seq<Arrival>, payloads: seq<Payload>) {
    |arrivals| == |payloads| && forall i | 0 <= i < |arrivals| :: Normalizes(arrivals[i], payloads[i])
  }

  ghost predicate OneSridPerNumber(payloads: seq<Payload>) {
    forall p, q | p in payloads && q in payloads && p.account == q.account && OrderNumber(p) == OrderNumber(q) ::
      Norm(SridOf(p)) == Norm(SridOf(q))
  }

  lemma ConsistentMeansOneSridPerNumber(arrivals: seq<Arrival>, payloads: seq<Payload>)
    requires AllNormalize(arrivals, payloads)
    ensures Consistent(arrivals) <==> OneSridPerNumber(payloads)
  {
    if Consistent(arrivals) {
      forall p, q | p in payloads && q in payloads && p.account == q.account && OrderNumber(p) == OrderNumber(q)
        ensures Norm(SridOf(p)) == Norm(SridOf(q))
      {
        var i :| 0 <= i < |payloads| && payloads[i] == p;
        var j :| 0 <= j < |payloads| && payloads[j] == q;
        assert arrivals[i] in arrivals && arrivals[j] in arrivals;
      }
    }
    if OneSridPerNumber(payloads) {
      forall a, b | a in arrivals && b in arrivals && a.accountId == b.accountId
        && a.order.marketplace == WB && b.order.marketplace == WB && a.order.externalId == b.order.externalId
        ensures Norm(a.order.srid) == Norm(b.order.srid)
      {
        var i :| 0 <= i < |arrivals| && arrivals[i] == a;
        var j :| 0 <= j < |arrivals| && arrivals[j] == b;
        assert payloads[i] in payloads && payloads[j] in payloads;
      }
    }
  }

  /** The theorem's hypothesis in terms of payloads: since a statistics row with a srid is numbered by
      it, only three things can give one number two srids. */
  lemma ConsistentExactly(arrivals: seq<Arrival>, payloads: seq<Payload>)
    requires AllNormalize(arrivals, payloads)
    ensures Consistent(arrivals) <==>
            RidsAreStable(payloads) && NumbersDoNotClash(payloads) && SridsAreNotNumbers(payloads)
  {
    ConsistentMeansOneSridPerNumber(arrivals, payloads);
    assert forall p | p in payloads && p.Statistics? && Truthy(p.srid) :: OrderNumber(p) == p.srid.value;
    if OneSridPerNumber(payloads) {
      assert RidsAreStable(payloads) && NumbersDoNotClash(payloads);
    }
  }

  /** The srids that some payload of the account carries. */
  ghost predicate CarriedBy(payloads: seq<Payload>, account: int, srid: string) {
    exists p | p in payloads :: p.account == account && (if p.Assembly? then p.rid else p.srid) == Some(srid)
  }

  lemma CarriedArrives(arrivals: seq<Arrival>, payloads: seq<Payload>, account: int, srid: string)
    requires AllNormalize(arrivals, payloads) && srid != ""
    ensures CarriedBy(payloads, account, srid) <==> Identity.Srid(account, srid) in ArrivedIdentities(arrivals)
  {
    assert forall p: Payload :: SridOf(p) == Some(srid) <==> (if p.Assembly? then p.rid else p.srid) == Some(srid);
    if p :| p in payloads && p.account == account && (if p.Assembly? then p.rid else p.srid) == Some(srid) {
      var i :| 0 <= i < |payloads| && payloads[i] == p;
      assert arrivals[i] in arrivals && ArrivalIdentity(arrivals[i]) == Identity.Srid(account, srid);
    }
    if a :| a in arrivals && ArrivalIdentity(a) == Identity.Srid(account, srid) {
      var i :| 0 <= i < |arrivals| && arrivals[i] == a;
      assert payloads[i] in payloads && SridOf(payloads[i]) == Some(srid);
    }
  }

  ghost predicate HasRow(orders: seq<Order>, account: int, srid: string) {
    exists o | o in orders :: Selects(BySrid(account, Some(srid)), o)
  }

  /** Live, historical and statistics payloads in any order: no lookup meets two rows, and the account has
      exactly one row for each srid that arrived and none for any other. */
  lemma OneRowPerSrid(arrivals: seq<Arrival>, payloads: seq<Payload>, account: int, srid: string)
    requires AllNormalize(arrivals, payloads) && srid != ""
    requires RidsAreStable(payloads) && NumbersDoNotClash(payloads) && SridsAreNotNumbers(payloads)
    ensures After([], arrivals).Ok?
    ensures HasRow(After([], arrivals).value, account, srid) <==> CarriedBy(payloads, account, srid)
    ensures !Lookup(After([], arrivals).value, BySrid(account, Some(srid))).Several?
  {
    ConsistentExactly(arrivals, payloads);
    OneRowPerIdentity(arrivals);
    CarriedArrives(arrivals, payloads, account, srid);
  }
}
