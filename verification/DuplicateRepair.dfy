/** The repair tool for Wildberries orders stored twice: a live row and a statistics row that share a
    srid are merged into the live row, and the statistics row is deleted.

    Deletion is the session's: before it deletes an order item it clears that column in every snapshot
    that still names the item, which the column forbids, so the commit raises and nothing is changed.
    Sales events are no part of that: the database clears the link to a deleted item. */
module DuplicateRepair {
  import opened Common
  import Orders

  /** `body` is absent for an empty payload; `statistics` is what `_enrichment` holds. */
  datatype Payload = Payload(body: Option<int>, statistics: Option<Payload>)

  datatype Item = Item(id: nat, contents: int)

  datatype Row = Row(
    account: int, marketplace: Marketplace, srid: Option<string>, source: Option<Orders.Source>,
    payload: Payload, items: seq<Item>)

  datatype Event = Event(order: Option<nat>, item: Option<nat>)

  /** Orders with their items, profit snapshots with their item, and sales events. */
  datatype Db = Db(orders: map<nat, Row>, nextItem: nat, snapshots: map<nat, nat>, events: map<nat, Event>)

  datatype Pair = Pair(live: nat, stat: nat)

  // ----- What the query finds

  predicate SameSale(a: Row, b: Row) {
    a.account == b.account && a.marketplace == b.marketplace && a.srid == b.srid
  }

  predicate IsDuplicate(orders: map<nat, Row>, p: Pair) {
    && p.live in orders && p.stat in orders && p.live != p.stat
    && SameSale(orders[p.live], orders[p.stat])
    && orders[p.live].marketplace == WB && Truthy(orders[p.live].srid)
    && orders[p.live].source == Some(Orders.LiveOrder) && orders[p.stat].source == Some(Orders.StatisticsOrder)
  }

  ghost predicate AllDuplicates(orders: map<nat, Row>, dups: seq<Pair>) {
    forall p | p in dups :: IsDuplicate(orders, p)
  }

  /** The query's answer: every duplicate pair, in some order. */
  ghost predicate Finds(orders: map<nat, Row>, dups: seq<Pair>) {
    forall p :: p in dups <==> IsDuplicate(orders, p)
  }

  // ----- One merge

  function Ids(items: seq<Item>): set<nat> {
    set item | item in items :: item.id
  }

  function MergedPayload(live: Payload, stat: Payload): Payload {
    if stat.body.None? && stat.statistics.None? then live else live.(statistics := Some(stat))
  }

  function Copies(items: seq<Item>, next: nat): (r: seq<Item>)
    ensures |r| == |items| && forall i | 0 <= i < |r| :: r[i].id == next + i && r[i].contents == items[i].contents
  {
    seq(|items|, i requires 0 <= i < |items| => Item(next + i, items[i].contents))
  }

  function MergedLive(db: Db, live: Row, stat: Row): Row {
    live.(payload := MergedPayload(live.payload, stat.payload),
          items := if live.items == [] then Copies(stat.items, db.nextItem) else live.items)
  }

  /** Snapshots move to the live order's first item, if it already had one. */
  function Relinked(snapshots: map<nat, nat>, live: Row, stat: Row): map<nat, nat> {
    if live.items == [] then snapshots
    else map k | k in snapshots :: if snapshots[k] in Ids(stat.items) then live.items[0].id else snapshots[k]
  }

  /** Sales events that named the statistics row name the live one. */
  function RelinkedEvents(events: map<nat, Event>, p: Pair): map<nat, Event> {
    map k | k in events :: if events[k].order == Some(p.stat) then events[k].(order := Some(p.live)) else events[k]
  }

  /** Everything the merge writes before it deletes anything. */
  function Merged(db: Db, p: Pair): Db
    requires p.live in db.orders && p.stat in db.orders
  {
    var live, stat := db.orders[p.live], db.orders[p.stat];
    Db(db.orders[p.live := MergedLive(db, live, stat)],
       if live.items == [] then db.nextItem + |stat.items| else db.nextItem,
       Relinked(db.snapshots, live, stat),
       RelinkedEvents(db.events, p))
  }

  /** Some snapshot names an item of the order, so the session cannot delete it. */
  predicate Pinned(db: Db, order: nat)
    requires order in db.orders
  {
    exists k | k in db.snapshots :: db.snapshots[k] in Ids(db.orders[order].items)
  }

  /** Deletes an order and its items. */
  function Deleted(db: Db, order: nat): Db
    requires order in db.orders
  {
    var gone := Ids(db.orders[order].items);
    db.(orders := db.orders - {order},
        events := map k | k in db.events ::
                    Event(if db.events[k].order == Some(order) then None else db.events[k].order,
                          if db.events[k].item.Some? && db.events[k].item.value in gone then None else db.events[k].item))
  }

  /** The merge is written, but its commit raises. */
  predicate Refused(db: Db, p: Pair) {
    p.live in db.orders && p.stat in db.orders && p.stat in Merged(db, p).orders && Pinned(Merged(db, p), p.stat)
  }

  /** What a merge that commits leaves; a pair whose row is gone is skipped. */
  function Repaired(db: Db, p: Pair): Db {
    if p.live in db.orders && p.stat in db.orders then Deleted(Merged(db, p), p.stat) else db
  }

  function RepairedAll(db: Db, dups: seq<Pair>): Db {
    if dups == [] then db else Repaired(RepairedAll(db, dups[..|dups| - 1]), dups[|dups| - 1])
  }

  /** The run gets through the first `n` pairs, and stops there if that is not all of them. */
  ghost predicate RunsTo(db: Db, dups: seq<Pair>, n: nat) {
    && n <= |dups|
    && (forall i | 0 <= i < n :: !Refused(RepairedAll(db, dups[..i]), dups[i]))
    && (n < |dups| ==> Refused(RepairedAll(db, dups[..n]), dups[n]))
  }

  /** The first `n` pairs have been done, and `now` is what they leave. */
  ghost predicate Through(db: Db, dups: seq<Pair>, n: nat, now: Db) {
    && n <= |dups| && now == RepairedAll(db, dups[..n])
    && forall i | 0 <= i < n :: !Refused(RepairedAll(db, dups[..i]), dups[i])
  }

  lemma ThroughStep(db: Db, dups: seq<Pair>, n: nat, now: Db)
    requires Through(db, dups, n, now) && n < |dups|
    ensures RepairedAll(db, dups[..n + 1]) == Repaired(now, dups[n])
    ensures !Refused(now, dups[n]) ==> Through(db, dups, n + 1, Repaired(now, dups[n]))
    ensures Refused(now, dups[n]) ==> RunsTo(db, dups, n)
  {
    assert dups[..n + 1][..n] == dups[..n];
  }

  // ----- The tool

  datatype Step = NotFound | PayloadMerged | ItemMoved | SnapshotsRelinked | EventsRelinked | StatDeleted | DryRun

  function Moves(n: nat): seq<Step> {
    seq(n, _ => ItemMoved)
  }

  class Session {
    var committed: Db
    var working: Db

    constructor (db: Db)
      ensures committed == working == db
    {
      committed, working := db, db;
    }

    method FindDuplicates() returns (dups: seq<Pair>)
      ensures Finds(working.orders, dups) && Distinct(dups)
      ensures forall p: Pair :: p in dups <==>
                && p.live in working.orders && p.stat in working.orders && p.live != p.stat
                && var live, stat := working.orders[p.live], working.orders[p.stat];
                   && stat.account == live.account && stat.marketplace == live.marketplace == WB
                   && stat.srid == live.srid && live.srid.Some? && live.srid.value != ""
                   && live.source == Some(Orders.LiveOrder) && stat.source == Some(Orders.StatisticsOrder)
    {
      dups := [];
      var todo := set l, s | l in working.orders && s in working.orders && IsDuplicate(working.orders, Pair(l, s)) :: Pair(l, s);
      ghost var all := todo;
      forall p: Pair | IsDuplicate(working.orders, p) ensures p in all {
        assert p == Pair(p.live, p.stat);
      }
      while todo != {}
        invariant todo <= all && Distinct(dups) && forall p :: p in dups <==> p in all - todo
        decreases todo
      {
        var p :| p in todo;
        assert p !in dups && forall i | 0 <= i < |dups| :: dups[i] in dups;
        dups, todo := dups + [p], todo - {p};
      }
    }

    /** The new items, and a step for each. */
    static method CopyItems(given: seq<Item>, next: nat) returns (items: seq<Item>, steps: seq<Step>)
      ensures items == Copies(given, next) && steps == Moves(|given|)
    {
      items, steps := [], [];
      for i := 0 to |given|
        invariant items == Copies(given, next)[..i] && steps == Moves(i)
      {
        items := items + [Item(next + i, given[i].contents)];
        steps := steps + [ItemMoved];
      }
    }

    /** Merges one pair.  When the commit raises, the transaction is gone and nothing has changed. */
    method MergeAndDelete(p: Pair, dryRun: bool) returns (steps: seq<Step>, raised: bool)
      modifies this
      ensures dryRun ==> committed == old(committed)
      ensures raised <==> !dryRun && Refused(old(working), p)
      ensures raised ==> committed == working == old(committed)
      ensures !dryRun && !raised && old(committed == working) ==>
                committed == working && working == Repaired(old(working), p)
      ensures p.live !in old(working.orders) || p.stat !in old(working.orders) ==> steps == [NotFound]
      ensures p.live in old(working.orders) && p.stat in old(working.orders) ==>
                var live, stat := old(working.orders)[p.live], old(working.orders)[p.stat];
                steps == (if stat.payload != Payload(None, None) then [PayloadMerged] else [])
                         + Moves(if live.items == [] then |stat.items| else 0)
                         + (if live.items != [] && stat.items != [] then [SnapshotsRelinked] else [])
                         + [EventsRelinked]
                         + (if dryRun then [DryRun] else if raised then [] else [StatDeleted])
    {
      raised := false;
      if p.live !in working.orders || p.stat !in working.orders {
        return [NotFound], false;
      }
      var live, stat := working.orders[p.live], working.orders[p.stat];
      var items, next, snapshots := live.items, working.nextItem, working.snapshots;
      var filed, moved, relinked := [], [], [];
      if stat.payload.body.Some? || stat.payload.statistics.Some? {
        live := live.(payload := live.payload.(statistics := Some(stat.payload)));
        filed := [PayloadMerged];
      }
      if live.items == [] && stat.items != [] {
        items, moved := CopyItems(stat.items, next);
        next := next + |stat.items|;
      }
      if stat.items != [] && live.items != [] {
        snapshots := map k | k in snapshots ::
                       if snapshots[k] in Ids(stat.items) then live.items[0].id else snapshots[k];
        relinked := [SnapshotsRelinked];
      }
      assert moved == Moves(if live.items == [] then |stat.items| else 0);
      ghost var merged := Merged(working, p);
      assert items == merged.orders[p.live].items;
      working := Db(working.orders[p.live := live.(items := items)], next, snapshots, RelinkedEvents(working.events, p));
      assert working == merged;
      steps := filed + moved + relinked + [EventsRelinked];
      if !dryRun {
        if Pinned(working, p.stat) {
          working := committed;
          assert steps + [] == steps;
          return steps, true;
        }
        working := Deleted(working, p.stat);
        committed := working;
        steps := steps + [StatDeleted];
      } else {
        steps := steps + [DryRun];
      }
    }

    /** A dry run leaves the committed tables alone; an applied run repairs the pairs the query found, one
        by one, up to the first whose commit raises, which nothing catches. */
    method RunRepair(dryRun: bool) returns (ghost dups: seq<Pair>, ghost done: nat, raised: bool)
      requires committed == working
      modifies this
      ensures committed == working && Finds(old(committed.orders), dups) && Distinct(dups)
      ensures dryRun ==> committed == old(committed) && !raised
      ensures !dryRun ==> RunsTo(old(committed), dups, done) && committed == RepairedAll(old(committed), dups[..done])
      ensures !dryRun ==> (raised <==> done < |dups|)
    {
      var found := FindDuplicates();
      dups, done, raised := found, 0, false;
      ghost var start := committed;
      var i := 0;
      while i < |found| && !raised
        invariant i <= |found| && (!dryRun && !raised ==> done == i)
        invariant dryRun ==> committed == start && !raised
        invariant !dryRun ==> committed == working && Through(start, found, done, committed)
        invariant raised ==> done < |found| && RunsTo(start, found, done)
        decreases |found| - i
      {
        if !dryRun { ThroughStep(start, found, done, committed); }
        var steps;
        steps, raised := MergeAndDelete(found[i], dryRun);
        i := i + 1;
        if !dryRun && !raised { done := i; }
      }
      working := committed;
    }
  }

  // ----- What an applied run leaves

  function Stats(dups: seq<Pair>): set<nat> {
    set p | p in dups :: p.stat
  }

  /** The columns no merge writes. */
  ghost predicate SameHeader(a: Row, b: Row) {
    SameSale(a, b) && a.source == b.source
  }

  /** After any part of the run exactly the statistics rows of the pairs done are gone, and the rows
      that remain are who they were. */
  lemma {:induction false} OrdersAfterRepair(db: Db, dups: seq<Pair>)
    requires AllDuplicates(db.orders, dups)
    ensures RepairedAll(db, dups).orders.Keys == db.orders.Keys - Stats(dups)
    ensures forall o | o in RepairedAll(db, dups).orders :: SameHeader(RepairedAll(db, dups).orders[o], db.orders[o])
    ensures forall p | p in dups :: p.live in RepairedAll(db, dups).orders
  {
    if dups != [] {
      var rest, p := dups[..|dups| - 1], dups[|dups| - 1];
      assert dups == rest + [p];
      OrdersAfterRepair(db, rest);
      OrdersStep(db.orders, RepairedAll(db, rest), rest, p);
    }
  }

  lemma OrdersStep(first: map<nat, Row>, mid: Db, rest: seq<Pair>, p: Pair)
    requires IsDuplicate(first, p) && p.live !in Stats(rest) && mid.orders.Keys == first.Keys - Stats(rest)
    requires forall o | o in mid.orders :: SameHeader(mid.orders[o], first[o])
    ensures Repaired(mid, p).orders.Keys == first.Keys - Stats(rest + [p])
    ensures forall o | o in Repaired(mid, p).orders :: SameHeader(Repaired(mid, p).orders[o], first[o])
  {
  }

  /** When every pair is done, no live and statistics row of one sale remain: the query finds nothing. */
  lemma NoDuplicatesRemain(db: Db, dups: seq<Pair>)
    requires Finds(db.orders, dups)
    ensures Finds(RepairedAll(db, dups).orders, [])
  {
    OrdersAfterRepair(db, dups);
    var after := RepairedAll(db, dups).orders;
    forall p ensures !IsDuplicate(after, p) {
      if p.live in after && p.stat in after {
        assert p.stat !in Stats(dups) && p !in dups;
        assert SameHeader(after[p.live], db.orders[p.live]) && SameHeader(after[p.stat], db.orders[p.stat]);
      }
    }
  }

  /** At its turn a pair is a duplicate still, unless its statistics row has been merged already. */
  lemma AtItsTurn(db: Db, dups: seq<Pair>, n: nat)
    requires AllDuplicates(db.orders, dups) && n < |dups|
    ensures AllDuplicates(db.orders, dups[..n])
    ensures var mid, p := RepairedAll(db, dups[..n]), dups[n];
            p.live in mid.orders && (p.stat in mid.orders <==> IsDuplicate(mid.orders, p))
  {
    var rest, p := dups[..n], dups[n];
    OrdersAfterRepair(db, rest);
    assert p in dups && forall q | q in Stats(rest) :: q in Stats(dups);
    var mid := RepairedAll(db, rest);
    assert SameHeader(mid.orders[p.live], db.orders[p.live]);
    assert p.stat in mid.orders ==> SameHeader(mid.orders[p.stat], db.orders[p.stat]);
  }

  /** The run leaves no duplicates exactly when it ends normally; the pair it stops at is still one. */
  lemma CleanExactlyWhenItEnds(db: Db, dups: seq<Pair>, n: nat)
    requires Finds(db.orders, dups) && RunsTo(db, dups, n)
    ensures Finds(RepairedAll(db, dups[..n]).orders, []) <==> n == |dups|
  {
    if n == |dups| {
      assert dups[..n] == dups;
      NoDuplicatesRemain(db, dups);
    } else {
      AtItsTurn(db, dups, n);
      assert IsDuplicate(RepairedAll(db, dups[..n]).orders, dups[n]);
    }
  }

  /** A live order without items, and a statistics row whose item has a snapshot: the first merge raises. */
  lemma RefusedPairExample()
    ensures var live := Row(1, WB, Some("s"), Some(Orders.LiveOrder), Payload(None, None), []);
            var stat := Row(1, WB, Some("s"), Some(Orders.StatisticsOrder), Payload(None, None), [Item(5, 0)]);
            var db := Db(map[1 := live, 2 := stat], 6, map[7 := 5], map[]);
            ItemsKeyed(db) && Finds(db.orders, [Pair(1, 2)]) && RunsTo(db, [Pair(1, 2)], 0)
  {
    var live := Row(1, WB, Some("s"), Some(Orders.LiveOrder), Payload(None, None), []);
    var stat := Row(1, WB, Some("s"), Some(Orders.StatisticsOrder), Payload(None, None), [Item(5, 0)]);
    var db := Db(map[1 := live, 2 := stat], 6, map[7 := 5], map[]);
    assert stat.items[0] in stat.items;
    assert Owns(db, 2, db.snapshots[7]);
    forall q: Pair ensures q in [Pair(1, 2)] <==> IsDuplicate(db.orders, q) {
      assert q == Pair(q.live, q.stat);
    }
    assert ItemsKeyed(db) by {
      assert forall o: nat, item: nat | Owns(db, o, item) :: o == 2 && item == 5;
    }
    RefusedExactly(db, Pair(1, 2));
    assert [Pair(1, 2)][..0] == [];
  }

  // ----- Sales events

  /** Every sales event that names an order names an existing one. */
  ghost predicate EventsResolve(db: Db) {
    forall e | e in db.events && db.events[e].order.Some? :: db.events[e].order.value in db.orders
  }

  /** Whether an event names the same sale before and after. */
  ghost predicate NamesSameSale(before: Option<nat>, after: Option<nat>, old': map<nat, Row>, new': map<nat, Row>) {
    match (before, after)
    case (None, None) => true
    case (Some(o), Some(o')) => o in old' && o' in new' && SameSale(old'[o], new'[o']) && (o in new' ==> o' == o)
    case _ => false
  }

  /** Every sales event survives the run and names an existing order of the sale it named before: the
      same order, unless that was a deleted statistics row. */
  lemma {:induction false} EventsSurvive(db: Db, dups: seq<Pair>)
    requires EventsResolve(db) && AllDuplicates(db.orders, dups)
    ensures RepairedAll(db, dups).events.Keys == db.events.Keys
    ensures forall e | e in db.events ::
              NamesSameSale(db.events[e].order, RepairedAll(db, dups).events[e].order, db.orders, RepairedAll(db, dups).orders)
  {
    if dups != [] {
      var rest, p := dups[..|dups| - 1], dups[|dups| - 1];
      assert p in dups && forall q | q in rest :: q in dups;
      EventsSurvive(db, rest);
      AtItsTurn(db, dups, |dups| - 1);
      OrdersAfterRepair(db, rest);
      var mid := RepairedAll(db, rest);
      forall e | e in db.events
        ensures NamesSameSale(db.events[e].order, Repaired(mid, p).events[e].order, db.orders, Repaired(mid, p).orders)
      {
        EventStillNames(db.orders, mid, p, db.events[e].order, e);
      }
    }
  }

  lemma EventStillNames(first: map<nat, Row>, mid: Db, p: Pair, order: Option<nat>, e: nat)
    requires e in mid.events && NamesSameSale(order, mid.events[e].order, first, mid.orders)
    requires IsDuplicate(first, p) && p.live in mid.orders && SameHeader(mid.orders[p.live], first[p.live])
    requires p.stat in mid.orders ==> SameHeader(mid.orders[p.stat], first[p.stat])
    ensures e in Repaired(mid, p).events
    ensures NamesSameSale(order, Repaired(mid, p).events[e].order, first, Repaired(mid, p).orders)
  {
  }

  // ----- Items and snapshots

  ghost predicate Owns(db: Db, order: nat, item: nat) {
    order in db.orders && item in Ids(db.orders[order].items)
  }

  /** Item ids are serial and belong to one order each. */
  ghost predicate ItemsKeyed(db: Db) {
    && (forall o: nat, item: nat | Owns(db, o, item) :: item < db.nextItem)
    && (forall o: nat, o': nat, item: nat | Owns(db, o, item) && Owns(db, o', item) :: o == o')
  }

  /** A merge's commit raises exactly when the live order has no item of its own and some snapshot belongs
      to the statistics row; otherwise the snapshots have been moved to the live order's first item. */
  lemma RefusedExactly(db: Db, p: Pair)
    requires IsDuplicate(db.orders, p) && ItemsKeyed(db)
    ensures Refused(db, p) <==>
            db.orders[p.live].items == [] && Snapshotted(db, p.stat)
  {
    var live, merged := db.orders[p.live], Merged(db, p);
    if live.items != [] {
      assert live.items[0] in live.items;
      assert Owns(db, p.live, live.items[0].id) && !Owns(db, p.stat, live.items[0].id);
    } else if k :| k in db.snapshots && Owns(db, p.stat, db.snapshots[k]) {
      assert merged.snapshots[k] in Ids(merged.orders[p.stat].items);
    }
  }

  /** What one merge leaves of a duplicate pair: the live row's payload keeps its body and has the statistics
      payload filed, unless that is empty; its items stay, or are the statistics row's contents under new
      ids; the statistics row is gone; and no other order is touched. */
  lemma MergeExactly(db: Db, p: Pair)
    requires IsDuplicate(db.orders, p)
    ensures var live, stat, after := db.orders[p.live], db.orders[p.stat], Repaired(db, p);
            && after.orders.Keys == db.orders.Keys - {p.stat}
            && (forall o | o in after.orders && o != p.live :: after.orders[o] == db.orders[o])
            && after.orders[p.live].(payload := live.payload, items := live.items) == live
            && after.orders[p.live].payload.body == live.payload.body
            && after.orders[p.live].payload.statistics ==
                 (if stat.payload == Payload(None, None) then live.payload.statistics else Some(stat.payload))
            && if live.items == [] then CopiedFrom(after.orders[p.live].items, stat.items, db.nextItem)
               else after.orders[p.live].items == live.items
  {
  }

  /** The same contents, in the same order, under ids that are all new and all different. */
  ghost predicate CopiedFrom(items: seq<Item>, given: seq<Item>, next: nat) {
    && |items| == |given| && (forall i | 0 <= i < |items| :: items[i].contents == given[i].contents && items[i].id >= next)
    && forall i, j | 0 <= i < j < |items| :: items[i].id != items[j].id
  }

  /** The snapshots of the statistics row's items move to the live order's first item, and no others move. */
  lemma SnapshotMovesExactly(db: Db, p: Pair, k: nat)
    requires IsDuplicate(db.orders, p) && k in db.snapshots
    ensures k in Repaired(db, p).snapshots
    ensures Repaired(db, p).snapshots[k] ==
            if db.orders[p.live].items != [] && Owns(db, p.stat, db.snapshots[k]) then db.orders[p.live].items[0].id
            else db.snapshots[k]
  {
  }

  /** An event's order link moves to the live row exactly if it named the statistics row.  Its item link does
      not move: an event that named an item of the statistics row is left without one, and no other item
      link changes. */
  lemma EventLinksExactly(db: Db, p: Pair, e: nat)
    requires IsDuplicate(db.orders, p) && e in db.events
    ensures e in Repaired(db, p).events
    ensures var before, after := db.events[e], Repaired(db, p).events[e];
            && after.order == (if before.order == Some(p.stat) then Some(p.live) else before.order)
            && after.item == (if before.item.Some? && Owns(db, p.stat, before.item.value) then None else before.item)
  {
  }

  /** Copied items get new ids, so items stay keyed. */
  lemma ItemsKeyedAfterOne(db: Db, p: Pair)
    requires p.live in db.orders && ItemsKeyed(db) && p.live != p.stat
    ensures ItemsKeyed(Repaired(db, p))
  {
    var after := Repaired(db, p);
    forall o: nat, item: nat | Owns(after, o, item)
      ensures item < after.nextItem && (Owns(db, o, item) || (o == p.live && item >= db.nextItem))
    {
      if o != p.live || p.stat !in db.orders || db.orders[p.live].items != [] {
        assert Owns(db, o, item);
      }
    }
  }

  lemma {:induction false} ItemsStayKeyed(db: Db, dups: seq<Pair>, n: nat)
    requires ItemsKeyed(db) && AllDuplicates(db.orders, dups) && n <= |dups|
    ensures ItemsKeyed(RepairedAll(db, dups[..n]))
    decreases n
  {
    if n == 0 {
      assert dups[..0] == [];
    } else {
      ItemsStayKeyed(db, dups, n - 1);
      AtItsTurn(db, dups, n - 1);
      assert dups[..n][..n - 1] == dups[..n - 1] && dups[n - 1] in dups;
      ItemsKeyedAfterOne(RepairedAll(db, dups[..n - 1]), dups[n - 1]);
    }
  }

  /** A snapshot's item belongs to an order of the given sale. */
  ghost predicate SnapshotOf(db: Db, k: nat, sale: Row) {
    k in db.snapshots && exists o: nat :: Owns(db, o, db.snapshots[k]) && SameSale(db.orders[o], sale)
  }

  lemma SnapshotAfterOne(db: Db, p: Pair, k: nat, sale: Row)
    requires IsDuplicate(db.orders, p) && ItemsKeyed(db) && !Refused(db, p)
    requires SnapshotOf(db, k, sale)
    ensures SnapshotOf(Repaired(db, p), k, sale)
  {
    RefusedExactly(db, p);
    var o: nat :| Owns(db, o, db.snapshots[k]) && SameSale(db.orders[o], sale);
    var after, live := Repaired(db, p), db.orders[p.live];
    if o == p.stat {
      assert live.items[0] in live.items;
      assert after.snapshots[k] == live.items[0].id && Owns(after, p.live, live.items[0].id);
    } else {
      assert !Owns(db, p.stat, db.snapshots[k]);
      assert after.snapshots[k] == db.snapshots[k] && Owns(after, o, db.snapshots[k]);
    }
  }

  /** However far the run gets, every snapshot survives on an item of an existing order of its sale. */
  lemma {:induction false} SnapshotsSurvive(db: Db, dups: seq<Pair>, n: nat, now: Db, k: nat, sale: Row)
    requires AllDuplicates(db.orders, dups) && ItemsKeyed(db) && SnapshotOf(db, k, sale) && Through(db, dups, n, now)
    ensures now.snapshots.Keys == db.snapshots.Keys && SnapshotOf(now, k, sale)
    decreases n
  {
    if n == 0 {
      assert dups[..0] == [];
    } else {
      var mid := RepairedAll(db, dups[..n - 1]);
      SnapshotsSurvive(db, dups, n - 1, mid, k, sale);
      AtItsTurn(db, dups, n - 1);
      ItemsStayKeyed(db, dups, n - 1);
      ThroughStep(db, dups, n - 1, mid);
      if dups[n - 1].stat in mid.orders {
        SnapshotAfterOne(mid, dups[n - 1], k, sale);
      }
    }
  }

  // ----- When a run ends normally, read off the tables it starts from

  /** Pair `i` is the first of the run with its statistics row, so the row is still there at its turn. */
  ghost predicate FirstOfItsRow(dups: seq<Pair>, i: nat) {
    i < |dups| && forall j | 0 <= j < i :: dups[j].stat != dups[i].stat
  }

  /** One of the first `n` pairs gives the live order its statistics row's items. */
  ghost predicate Given(db: Db, dups: seq<Pair>, n: nat, live: nat) {
    exists i: nat :: i < n && Gives(db, dups, i, live)
  }

  ghost predicate Gives(db: Db, dups: seq<Pair>, i: nat, live: nat) {
    && FirstOfItsRow(dups, i) && dups[i].live == live
    && dups[i].stat in db.orders && db.orders[dups[i].stat].items != []
  }

  /** Pair `n` stops the run: its statistics row is still there and carries a snapshot, and the live order
      had no item and has been given none. */
  ghost predicate Blocks(db: Db, dups: seq<Pair>, n: nat) {
    && FirstOfItsRow(dups, n) && IsDuplicate(db.orders, dups[n])
    && db.orders[dups[n].live].items == [] && !Given(db, dups, n, dups[n].live)
    && Snapshotted(db, dups[n].stat)
  }

  ghost predicate Snapshotted(db: Db, order: nat) {
    exists k | k in db.snapshots :: Owns(db, order, db.snapshots[k])
  }

  lemma StatThere(db: Db, dups: seq<Pair>, n: nat)
    requires AllDuplicates(db.orders, dups) && n < |dups|
    ensures dups[n].stat in RepairedAll(db, dups[..n]).orders <==> FirstOfItsRow(dups, n)
  {
    AtItsTurn(db, dups, n);
    OrdersAfterRepair(db, dups[..n]);
    assert dups[n] in dups;
    if j :| 0 <= j < n && dups[j].stat == dups[n].stat {
      assert dups[..n][j] in dups[..n];
    }
  }

  /** What a merge does to the items of other rows, and of its own live row. */
  lemma ItemsAfterOne(db: Db, p: Pair, o: nat)
    requires p.live in db.orders && p.live != p.stat && o in Repaired(db, p).orders
    ensures o in db.orders
    ensures o != p.live || p.stat !in db.orders ==> Repaired(db, p).orders[o] == db.orders[o]
    ensures o == p.live && p.stat in db.orders ==>
              (Repaired(db, p).orders[o].items == [] <==> db.orders[o].items == [] && db.orders[p.stat].items == [])
    ensures db.orders[o].items != [] ==> Repaired(db, p).orders[o].items == db.orders[o].items
  {
  }

  /** A row that has items keeps exactly those through any part of the run. */
  lemma {:induction false} ItemsUntouched(db: Db, dups: seq<Pair>, n: nat, o: nat)
    requires AllDuplicates(db.orders, dups) && n <= |dups| && o in RepairedAll(db, dups[..n]).orders
    ensures o in db.orders
    ensures db.orders[o].items != [] ==> RepairedAll(db, dups[..n]).orders[o].items == db.orders[o].items
    decreases n
  {
    if n == 0 {
      assert dups[..0] == [];
    } else {
      assert dups[..n][..n - 1] == dups[..n - 1] && dups[n - 1] in dups;
      AtItsTurn(db, dups, n - 1);
      ItemsAfterOne(RepairedAll(db, dups[..n - 1]), dups[n - 1], o);
      ItemsUntouched(db, dups, n - 1, o);
    }
  }

  /** Statistics rows stay as they are as long as they are there. */
  lemma {:induction false} StatRows(db: Db, dups: seq<Pair>, n: nat, o: nat)
    requires AllDuplicates(db.orders, dups) && n <= |dups| && o in RepairedAll(db, dups[..n]).orders
    requires o in db.orders && db.orders[o].source == Some(Orders.StatisticsOrder)
    ensures RepairedAll(db, dups[..n]).orders[o] == db.orders[o]
    decreases n
  {
    if n == 0 {
      assert dups[..0] == [];
    } else {
      assert dups[..n][..n - 1] == dups[..n - 1] && dups[n - 1] in dups;
      AtItsTurn(db, dups, n - 1);
      ItemsAfterOne(RepairedAll(db, dups[..n - 1]), dups[n - 1], o);
      StatRows(db, dups, n - 1, o);
    }
  }

  lemma GivenStep(db: Db, dups: seq<Pair>, n: nat, live: nat)
    requires n > 0
    ensures Given(db, dups, n, live) <==> Given(db, dups, n - 1, live) || Gives(db, dups, n - 1, live)
  {
  }

  /** A live row is without items as long as it had none and was given none. */
  lemma {:induction false} LiveItems(db: Db, dups: seq<Pair>, n: nat, live: nat)
    requires AllDuplicates(db.orders, dups) && n <= |dups|
    requires live in db.orders && db.orders[live].source == Some(Orders.LiveOrder)
    ensures live in RepairedAll(db, dups[..n]).orders
    ensures RepairedAll(db, dups[..n]).orders[live].items == [] <==>
            db.orders[live].items == [] && !Given(db, dups, n, live)
    decreases n
  {
    if n == 0 {
      assert dups[..0] == [];
    } else {
      var mid, p := RepairedAll(db, dups[..n - 1]), dups[n - 1];
      LiveItems(db, dups, n - 1, live);
      assert dups[..n][..n - 1] == dups[..n - 1] && p in dups;
      AtItsTurn(db, dups, n - 1);
      ItemsAfterOne(mid, p, live);
      GivenStep(db, dups, n, live);
      StatThere(db, dups, n - 1);
      if p.stat in mid.orders {
        StatRows(db, dups, n - 1, p.stat);
      }
    }
  }

  // ----- Payloads and items over a run

  /** Pair `i`, at its turn, files its statistics row's payload with the live order. */
  ghost predicate Files(db: Db, dups: seq<Pair>, i: nat, live: nat) {
    && FirstOfItsRow(dups, i) && dups[i].live == live
    && dups[i].stat in db.orders && db.orders[dups[i].stat].payload != Payload(None, None)
  }

  ghost predicate LastFiler(db: Db, dups: seq<Pair>, n: nat, live: nat, i: nat) {
    i < n && Files(db, dups, i, live) && forall j: nat | i < j < n :: !Files(db, dups, j, live)
  }

  /** The payload of a live order when `n` pairs are done: its own body, and the payload last filed with it, as
      it stood in the first tables, or what was filed from the start. */
  ghost predicate ShowsPayload(payload: Payload, db: Db, dups: seq<Pair>, n: nat, live: nat)
    requires live in db.orders
  {
    && payload.body == db.orders[live].payload.body
    && (|| (exists i: nat :: LastFiler(db, dups, n, live, i) && payload.statistics == Some(db.orders[dups[i].stat].payload))
        || ((forall i: nat | i < n :: !Files(db, dups, i, live)) && payload.statistics == db.orders[live].payload.statistics))
  }

  lemma PayloadNext(payload: Payload, db: Db, dups: seq<Pair>, n: nat, live: nat)
    requires live in db.orders && ShowsPayload(payload, db, dups, n, live)
    ensures ShowsPayload(if Files(db, dups, n, live) then payload.(statistics := Some(db.orders[dups[n].stat].payload)) else payload,
                         db, dups, n + 1, live)
  {
    if Files(db, dups, n, live) {
      assert LastFiler(db, dups, n + 1, live, n);
    } else if i: nat :| LastFiler(db, dups, n, live, i) && payload.statistics == Some(db.orders[dups[i].stat].payload) {
      assert LastFiler(db, dups, n + 1, live, i);
    }
  }

  /** What pair `n` does to a live row at its turn, with the statistics row as it stood at first. */
  lemma LiveStep(db: Db, dups: seq<Pair>, n: nat, live: nat)
    requires AllDuplicates(db.orders, dups) && n < |dups|
    requires live in db.orders && db.orders[live].source == Some(Orders.LiveOrder)
    ensures live in RepairedAll(db, dups[..n]).orders && live in RepairedAll(db, dups[..n + 1]).orders
    ensures var mid, p := RepairedAll(db, dups[..n]), dups[n];
            var row, row' := mid.orders[live], RepairedAll(db, dups[..n + 1]).orders[live];
            if FirstOfItsRow(dups, n) && p.live == live then
              && p.stat in db.orders && p.stat in mid.orders
              && row' == MergedLive(mid, row, db.orders[p.stat])
            else row' == row
  {
    var mid, p := RepairedAll(db, dups[..n]), dups[n];
    LiveItems(db, dups, n, live);
    LiveItems(db, dups, n + 1, live);
    assert dups[..n + 1][..n] == dups[..n] && p in dups;
    AtItsTurn(db, dups, n);
    StatThere(db, dups, n);
    ItemsAfterOne(mid, p, live);
    if p.stat in mid.orders {
      StatRows(db, dups, n, p.stat);
    }
  }

  lemma PayloadStep(db: Db, dups: seq<Pair>, n: nat, live: nat)
    requires AllDuplicates(db.orders, dups) && n < |dups|
    requires live in db.orders && db.orders[live].source == Some(Orders.LiveOrder)
    ensures live in RepairedAll(db, dups[..n]).orders && live in RepairedAll(db, dups[..n + 1]).orders
    ensures var payload := RepairedAll(db, dups[..n]).orders[live].payload;
            RepairedAll(db, dups[..n + 1]).orders[live].payload ==
            if Files(db, dups, n, live) then payload.(statistics := Some(db.orders[dups[n].stat].payload)) else payload
  {
    LiveStep(db, dups, n, live);
  }

  /** After any part of a run a live row's body is its own, and filed with it is the payload of the last pair
      done for it that was first with its statistics row and whose payload was not empty. */
  lemma {:induction false} LivePayload(db: Db, dups: seq<Pair>, n: nat, live: nat)
    requires AllDuplicates(db.orders, dups) && n <= |dups|
    requires live in db.orders && db.orders[live].source == Some(Orders.LiveOrder)
    ensures live in RepairedAll(db, dups[..n]).orders
    ensures ShowsPayload(RepairedAll(db, dups[..n]).orders[live].payload, db, dups, n, live)
    decreases n
  {
    if n == 0 {
      assert dups[..0] == [];
    } else {
      LivePayload(db, dups, n - 1, live);
      PayloadStep(db, dups, n - 1, live);
      PayloadNext(RepairedAll(db, dups[..n - 1]).orders[live].payload, db, dups, n - 1, live);
    }
  }

  /** Pair `i` is the first that gives the live order items. */
  ghost predicate FirstGiver(db: Db, dups: seq<Pair>, n: nat, live: nat, i: nat) {
    i < n && Gives(db, dups, i, live) && forall j: nat | j < i :: !Gives(db, dups, j, live)
  }

  ghost predicate ShowsContents(items: seq<Item>, db: Db, dups: seq<Pair>, n: nat, live: nat) {
    || (items == [] && !Given(db, dups, n, live))
    || exists i: nat :: FirstGiver(db, dups, n, live, i) && CopiedFrom(items, db.orders[dups[i].stat].items, db.nextItem)
  }

  lemma ContentsNext(items: seq<Item>, items': seq<Item>, db: Db, dups: seq<Pair>, n: nat, live: nat)
    requires ShowsContents(items, db, dups, n, live)
    requires if items == [] && Gives(db, dups, n, live) then CopiedFrom(items', db.orders[dups[n].stat].items, db.nextItem)
             else items' == items
    ensures ShowsContents(items', db, dups, n + 1, live)
  {
    if i: nat :| FirstGiver(db, dups, n, live, i) && CopiedFrom(items, db.orders[dups[i].stat].items, db.nextItem) {
      assert FirstGiver(db, dups, n + 1, live, i);
    } else if Gives(db, dups, n, live) {
      assert FirstGiver(db, dups, n + 1, live, n);
    }
  }

  lemma {:induction false} NextItemGrows(db: Db, dups: seq<Pair>, n: nat)
    requires n <= |dups|
    ensures RepairedAll(db, dups[..n]).nextItem >= db.nextItem
    decreases n
  {
    if n == 0 {
      assert dups[..0] == [];
    } else {
      assert dups[..n][..n - 1] == dups[..n - 1];
      NextItemGrows(db, dups, n - 1);
    }
  }

  /** A live order without items ends with the contents of the first statistics row that had any, under new
      ids, and without items if none had. */
  lemma {:induction false} LiveContents(db: Db, dups: seq<Pair>, n: nat, live: nat)
    requires AllDuplicates(db.orders, dups) && n <= |dups|
    requires live in db.orders && db.orders[live].source == Some(Orders.LiveOrder) && db.orders[live].items == []
    ensures live in RepairedAll(db, dups[..n]).orders
    ensures ShowsContents(RepairedAll(db, dups[..n]).orders[live].items, db, dups, n, live)
    decreases n
  {
    LiveItems(db, dups, n, live);
    if n == 0 {
      assert dups[..0] == [];
    } else {
      LiveContents(db, dups, n - 1, live);
      LiveStep(db, dups, n - 1, live);
      NextItemGrows(db, dups, n - 1);
      var items := RepairedAll(db, dups[..n - 1]).orders[live].items;
      var items' := RepairedAll(db, dups[..n]).orders[live].items;
      ContentsNext(items, items', db, dups, n - 1, live);
    }
  }

  /** A merge moves snapshots only off its own statistics row, and onto its live row. */
  lemma SnapshotsAfterOne(db: Db, p: Pair, o: nat)
    requires p.live in db.orders && p.live != p.stat && ItemsKeyed(db) && o != p.live && o in Repaired(db, p).orders
    ensures Snapshotted(Repaired(db, p), o) <==> Snapshotted(db, o)
  {
    var after := Repaired(db, p);
    assert forall item: nat :: Owns(after, o, item) <==> Owns(db, o, item);
    forall k | k in db.snapshots
      ensures k in after.snapshots && (Owns(after, o, after.snapshots[k]) <==> Owns(db, o, db.snapshots[k]))
    {
      if after.snapshots[k] != db.snapshots[k] {
        var live := db.orders[p.live];
        assert live.items[0] in live.items;
        assert Owns(db, p.live, live.items[0].id) && Owns(db, p.stat, db.snapshots[k]);
      }
    }
  }

  lemma {:induction false} StatSnapshots(db: Db, dups: seq<Pair>, n: nat, o: nat)
    requires AllDuplicates(db.orders, dups) && n <= |dups| && ItemsKeyed(db) && o in RepairedAll(db, dups[..n]).orders
    requires o in db.orders && db.orders[o].source == Some(Orders.StatisticsOrder)
    ensures Snapshotted(RepairedAll(db, dups[..n]), o) <==> Snapshotted(db, o)
    decreases n
  {
    if n == 0 {
      assert dups[..0] == [];
    } else {
      var mid, p := RepairedAll(db, dups[..n - 1]), dups[n - 1];
      assert dups[..n][..n - 1] == dups[..n - 1] && p in dups;
      AtItsTurn(db, dups, n - 1);
      ItemsStayKeyed(db, dups, n - 1);
      SnapshotsAfterOne(mid, p, o);
      StatSnapshots(db, dups, n - 1, o);
    }
  }

  /** The commit of a pair raises at its turn exactly if the pair blocks, seen from the first tables. */
  lemma RefusedAtItsTurn(db: Db, dups: seq<Pair>, n: nat)
    requires AllDuplicates(db.orders, dups) && ItemsKeyed(db) && n < |dups|
    ensures Refused(RepairedAll(db, dups[..n]), dups[n]) <==> Blocks(db, dups, n)
  {
    var mid, p := RepairedAll(db, dups[..n]), dups[n];
    assert p in dups;
    AtItsTurn(db, dups, n);
    StatThere(db, dups, n);
    LiveItems(db, dups, n, p.live);
    ItemsStayKeyed(db, dups, n);
    if p.stat in mid.orders {
      RefusedExactly(mid, p);
      StatSnapshots(db, dups, n, p.stat);
    }
  }

  /** An applied run ends normally exactly if no pair blocks; otherwise it stops at the first that does. */
  lemma EndsNormallyExactly(db: Db, dups: seq<Pair>, n: nat)
    requires AllDuplicates(db.orders, dups) && ItemsKeyed(db) && RunsTo(db, dups, n)
    ensures n == |dups| <==> forall m: nat | m < |dups| :: !Blocks(db, dups, m)
    ensures n < |dups| ==> Blocks(db, dups, n)
    ensures forall m: nat | m < n :: !Blocks(db, dups, m)
  {
    forall m: nat | m < |dups| ensures Refused(RepairedAll(db, dups[..m]), dups[m]) <==> Blocks(db, dups, m) {
      RefusedAtItsTurn(db, dups, m);
    }
  }
}
