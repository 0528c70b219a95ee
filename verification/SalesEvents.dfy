/** `SalesEventRepository`: one row per event key, links that are only ever improved, and a
    notification mark that only `mark_notified` writes. */
module SalesEvents {
  import opened Common

  datatype Key = Key(account: nat, marketplace: Marketplace, externalEventId: string)

  /** What a call brings.  Database ids start at one, so 0 stands for a missing id, as in the source's `or`. */
  datatype Event = Event(
    relatedOrder: nat, relatedItem: nat, product: nat, orderExternalId: Option<string>,
    sellerArticle: Option<string>, marketplaceArticle: Option<string>, estimatedProfit: Option<real>,
    eventType: string, eventDate: int, quantity: int, amount: real, expectedPayout: Option<real>)

  datatype Row = Row(id: nat, userId: nat, event: Event, notifiedAt: Option<int>)

  datatype Table = Table(rows: map<Key, Row>, nextId: nat)

  datatype Op =
    | Upsert(key: Key, userId: nat, event: Event)
    | AddOnce(key: Key, userId: nat, event: Event)
    | MarkNotified(id: nat, at: int)

  const EMPTY := Table(map[], 1)

  function OrId(a: nat, b: nat): nat {
    if a != 0 then a else b
  }

  /** The row's data after an upsert that finds it. */
  function Refreshed(old_: Event, e: Event): Event {
    e.(relatedOrder := OrId(e.relatedOrder, old_.relatedOrder), relatedItem := OrId(e.relatedItem, old_.relatedItem),
       product := OrId(e.product, old_.product), orderExternalId := Or(e.orderExternalId, old_.orderExternalId),
       sellerArticle := Or(e.sellerArticle, old_.sellerArticle),
       marketplaceArticle := Or(e.marketplaceArticle, old_.marketplaceArticle),
       estimatedProfit := if e.estimatedProfit.Some? then e.estimatedProfit else old_.estimatedProfit)
  }

  function Inserted(t: Table, key: Key, userId: nat, e: Event): Table {
    Table(t.rows[key := Row(t.nextId, userId, e, None)], t.nextId + 1)
  }

  function Apply(t: Table, op: Op): Table {
    match op
    case Upsert(key, userId, e) =>
      if key in t.rows then t.(rows := t.rows[key := t.rows[key].(event := Refreshed(t.rows[key].event, e))])
      else Inserted(t, key, userId, e)
    case AddOnce(key, userId, e) => if key in t.rows then t else Inserted(t, key, userId, e)
    case MarkNotified(id, at) =>
      t.(rows := map k | k in t.rows :: if t.rows[k].id == id then t.rows[k].(notifiedAt := Some(at)) else t.rows[k])
  }

  function After(ops: seq<Op>): Table {
    if ops == [] then EMPTY else Apply(After(ops[..|ops| - 1]), ops[|ops| - 1])
  }

  class SalesEventRepository {
    var table: Table

    constructor ()
      ensures table == EMPTY
    {
      table := EMPTY;
    }

    method UpsertNormalized(key: Key, userId: nat, e: Event) returns (row: Row, created: bool)
      modifies this
      ensures table == Apply(old(table), Upsert(key, userId, e)) && key in table.rows && row == table.rows[key]
      ensures created <==> key !in old(table).rows
    {
      if key !in table.rows {
        row := Row(table.nextId, userId, e, None);
        table := Table(table.rows[key := row], table.nextId + 1);
        return row, true;
      }
      row := table.rows[key];
      var x := row.event;
      x := x.(relatedOrder := if e.relatedOrder != 0 then e.relatedOrder else x.relatedOrder);
      x := x.(relatedItem := if e.relatedItem != 0 then e.relatedItem else x.relatedItem);
      x := x.(product := if e.product != 0 then e.product else x.product);
      x := x.(orderExternalId := Or(e.orderExternalId, x.orderExternalId));
      x := x.(eventType := e.eventType, eventDate := e.eventDate);
      x := x.(sellerArticle := Or(e.sellerArticle, x.sellerArticle));
      x := x.(marketplaceArticle := Or(e.marketplaceArticle, x.marketplaceArticle));
      x := x.(quantity := e.quantity, amount := e.amount, expectedPayout := e.expectedPayout);
      x := x.(estimatedProfit := if e.estimatedProfit.Some? then e.estimatedProfit else x.estimatedProfit);
      row := row.(event := x);
      table := table.(rows := table.rows[key := row]);
      created := false;
    }

    method AddOnce(key: Key, userId: nat, e: Event) returns (added: bool)
      modifies this
      ensures table == Apply(old(table), Op.AddOnce(key, userId, e))
      ensures added <==> key !in old(table).rows
    {
      if key in table.rows {
        return false;
      }
      table := Table(table.rows[key := Row(table.nextId, userId, e, None)], table.nextId + 1);
      added := true;
    }

    method MarkNotified(id: nat, at: int)
      modifies this
      ensures table == Apply(old(table), Op.MarkNotified(id, at))
    {
      table := table.(rows :=
        map k | k in table.rows :: if table.rows[k].id == id then table.rows[k].(notifiedAt := Some(at)) else table.rows[k]);
    }
  }

  // ----- What a row holds after any history

  /** The calls for `key` that put data into its row: the first to name it, and every upsert after that. */
  function History(ops: seq<Op>, key: Key): seq<Event> {
    if ops == [] then []
    else
      var before, op := History(ops[..|ops| - 1], key), ops[|ops| - 1];
      if !op.MarkNotified? && op.key == key && (op.Upsert? || before == []) then before + [op.event] else before
  }

  ghost predicate Named(op: Op, key: Key) {
    !op.MarkNotified? && op.key == key
  }

  /** A key has a row exactly when a call named it. */
  lemma {:induction false} RowIffNamed(ops: seq<Op>, key: Key)
    ensures key in After(ops).rows <==> exists op | op in ops :: Named(op, key)
    ensures key in After(ops).rows <==> History(ops, key) != []
  {
    if ops != [] {
      var front, op := ops[..|ops| - 1], ops[|ops| - 1];
      RowIffNamed(front, key);
      assert ops == front + [op];
      assert forall o :: o in ops <==> o in front || o == op;
      assert Named(op, key) <==> !op.MarkNotified? && op.key == key;
    }
  }

  /** Ids are positive, below the sequence, and no two rows share one. */
  ghost predicate IdsAreKeys(t: Table) {
    && t.nextId > 0
    && (forall k | k in t.rows :: 0 < t.rows[k].id < t.nextId)
    && (forall j, k | j in t.rows && k in t.rows && t.rows[j].id == t.rows[k].id :: j == k)
  }

  lemma {:induction false} IdsAlways(ops: seq<Op>)
    ensures IdsAreKeys(After(ops))
  {
    if ops != [] {
      IdsAlways(ops[..|ops| - 1]);
    }
  }

  /** `get` of the last event in `h` for which `given` holds, or that of the first event. */
  function LastGiven<T>(h: seq<Event>, given: Event -> bool, get: Event -> T): T
    requires h != []
  {
    if |h| == 1 || given(h[|h| - 1]) then get(h[|h| - 1]) else LastGiven(h[..|h| - 1], given, get)
  }

  /** The row is a fold of its history: each link and article, and the profit estimate, is the last one
      given; the rest is the last call's. */
  ghost predicate IsFold(x: Event, h: seq<Event>)
    requires h != []
  {
    var last := h[|h| - 1];
    x == Event(
      LastGiven(h, (e: Event) => e.relatedOrder != 0, (e: Event) => e.relatedOrder),
      LastGiven(h, (e: Event) => e.relatedItem != 0, (e: Event) => e.relatedItem),
      LastGiven(h, (e: Event) => e.product != 0, (e: Event) => e.product),
      LastGiven(h, (e: Event) => Truthy(e.orderExternalId), (e: Event) => e.orderExternalId),
      LastGiven(h, (e: Event) => Truthy(e.sellerArticle), (e: Event) => e.sellerArticle),
      LastGiven(h, (e: Event) => Truthy(e.marketplaceArticle), (e: Event) => e.marketplaceArticle),
      LastGiven(h, (e: Event) => e.estimatedProfit.Some?, (e: Event) => e.estimatedProfit),
      last.eventType, last.eventDate, last.quantity, last.amount, last.expectedPayout)
  }

  lemma FoldStep(x: Event, h: seq<Event>, e: Event)
    requires h != [] && IsFold(x, h)
    ensures IsFold(Refreshed(x, e), h + [e])
  {
    assert (h + [e])[..|h|] == h && (h + [e])[|h|] == e;
  }

  lemma {:induction false} RowIsFold(ops: seq<Op>, key: Key)
    requires key in After(ops).rows
    ensures History(ops, key) != [] && IsFold(After(ops).rows[key].event, History(ops, key))
  {
    var front, op := ops[..|ops| - 1], ops[|ops| - 1];
    RowIffNamed(front, key);
    if key in After(front).rows {
      RowIsFold(front, key);
      if op.Upsert? && op.key == key {
        FoldStep(After(front).rows[key].event, History(front, key), op.event);
      }
    }
  }

  /** An operation that is not `mark_notified` on the row leaves its id, its owner and its mark alone. */
  lemma MarkIsUntouched(ops: seq<Op>, op: Op, key: Key)
    requires key in After(ops).rows
    ensures var before, after := After(ops).rows[key], After(ops + [op]).rows;
            && key in after && after[key].id == before.id && after[key].userId == before.userId
            && after[key].notifiedAt ==
                 if op.MarkNotified? && op.id == before.id then Some(op.at) else before.notifiedAt
  {
    assert (ops + [op])[..|ops|] == ops;
  }

  /** Call `i` is the first to name the key. */
  ghost predicate FirstNaming(ops: seq<Op>, key: Key, i: nat) {
    && i < |ops| && !ops[i].MarkNotified? && ops[i].key == key
    && forall j | 0 <= j < i :: !Named(ops[j], key)
  }

  /** The row belongs to the user of the first call that named its key; later calls do not change that. */
  lemma {:induction false} OwnerIsFirst(ops: seq<Op>, key: Key, i: nat)
    requires FirstNaming(ops, key, i)
    ensures key in After(ops).rows && After(ops).rows[key].userId == ops[i].userId
    decreases |ops|
  {
    var n := |ops| - 1;
    var front, op := ops[..n], ops[n];
    RowIffNamed(front, key);
    if i < n {
      assert FirstNaming(front, key, i);
      OwnerIsFirst(front, key, i);
      MarkIsUntouched(front, op, key);
      assert front + [op] == ops;
    }
  }

  /** Call `i` is the last that marked the row's id while the row was there. */
  ghost predicate LastMark(ops: seq<Op>, key: Key, i: nat)
    requires key in After(ops).rows
  {
    && MarksAt(ops, key, After(ops).rows[key].id, i) && forall j: nat | i < j < |ops| :: !MarksAt(ops, key, After(ops).rows[key].id, j)
  }

  ghost predicate MarksAt(ops: seq<Op>, key: Key, id: nat, i: nat) {
    i < |ops| && ops[i].MarkNotified? && ops[i].id == id && exists j | 0 <= j < i :: Named(ops[j], key)
  }

  /** A row's mark is that of the last `mark_notified` with its id since it was inserted, and none if none. */
  lemma {:induction false} MarkIsLast(ops: seq<Op>, key: Key)
    requires key in After(ops).rows
    ensures var row := After(ops).rows[key];
            || (exists i: nat :: LastMark(ops, key, i) && row.notifiedAt == Some(ops[i].at))
            || ((forall i: nat :: !MarksAt(ops, key, row.id, i)) && row.notifiedAt.None?)
    decreases |ops|
  {
    var n: nat := |ops| - 1;
    var front, op := ops[..n], ops[n];
    assert front + [op] == ops;
    RowIffNamed(front, key);
    var row := After(ops).rows[key];
    forall i: nat | i < n ensures MarksAt(ops, key, row.id, i) <==> MarksAt(front, key, row.id, i) {
      assert forall j | 0 <= j < i :: ops[j] == front[j];
    }
    if key in After(front).rows {
      MarkIsLast(front, key);
      MarkIsUntouched(front, op, key);
      var o :| o in front && Named(o, key);
      var j :| 0 <= j < n && front[j] == o;
      assert Named(ops[j], key);
      if op.MarkNotified? && op.id == row.id {
        assert LastMark(ops, key, n);
      } else if i: nat :| LastMark(front, key, i) && row.notifiedAt == Some(front[i].at) {
        assert LastMark(ops, key, i);
      }
    } else {
      assert forall j | 0 <= j < n :: front[j] in front && !Named(front[j], key);
    }
  }

  /** So the mark, once set, stays set, over any further calls. */
  lemma {:induction false} MarkedStaysMarked(ops: seq<Op>, more: seq<Op>, key: Key)
    requires key in After(ops).rows && After(ops).rows[key].notifiedAt.Some?
    ensures key in After(ops + more).rows && After(ops + more).rows[key].notifiedAt.Some?
    ensures (forall op | op in more :: !op.MarkNotified?) ==>
              After(ops + more).rows[key].notifiedAt == After(ops).rows[key].notifiedAt
  {
    if more == [] {
      assert ops + more == ops;
    } else {
      var n := |more| - 1;
      MarkedStaysMarked(ops, more[..n], key);
      MarkIsUntouched(ops + more[..n], more[n], key);
      assert ops + more == ops + more[..n] + [more[n]];
      assert forall op | op in more[..n] :: op in more;
    }
  }
}
