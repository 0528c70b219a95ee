/** New-order notifications: send, mark, commit, roll back.

    The order table is what is committed; a delivery session holds the marks it has executed but not
    yet committed.  `accepted` and `refused` record what Telegram answered, whatever the program makes of it. */
module Delivery {
  import opened Common
  import opened Orders

  // ----- Failures

  datatype Fault = Forbidden | BadRequest(message: string) | OtherFault

  predicate Contains(s: string, part: string) {
    exists i | 0 <= i <= |s| :: part <= s[i..]
  }

  /** `_is_permanent_failure` */
  predicate IsPermanent(fault: Fault) {
    match fault
    case Forbidden => true
    case BadRequest(message) => Contains(Lower(message), "bot was blocked") || Contains(Lower(message), "chat not found")
    case OtherFault => false
  }

  /** The phrase is in the text at position `i`, upper-case letters counting as lower-case ones. */
  predicate SaysAt(text: string, phrase: string, i: nat) {
    && i + |phrase| <= |text|
    && forall k | 0 <= k < |phrase| ::
         text[i..][k] == phrase[k] || ('A' <= text[i..][k] <= 'Z' && text[i..][k] as int + 32 == phrase[k] as int)
  }

  predicate Says(text: string, phrase: string) {
    exists i: nat | i <= |text| :: SaysAt(text, phrase, i)
  }

  /** Telegram's answer that no later attempt will change: the bot is forbidden, blocked, or has no chat. */
  predicate Final(fault: Fault) {
    fault.Forbidden? || (fault.BadRequest? && (Says(fault.message, "bot was blocked") || Says(fault.message, "chat not found")))
  }

  predicate InLowerCase(phrase: string) {
    forall k | 0 <= k < |phrase| :: !('A' <= phrase[k] <= 'Z')
  }

  lemma ContainsIsSays(text: string, phrase: string)
    requires InLowerCase(phrase)
    ensures Contains(Lower(text), phrase) <==> Says(text, phrase)
  {
    assert forall i: nat | i <= |text| :: phrase <= Lower(text)[i..] <==> SaysAt(text, phrase, i);
  }

  /** A failure is taken for permanent exactly when it is final. */
  lemma IsPermanentExactly(fault: Fault)
    ensures IsPermanent(fault) <==> Final(fault)
  {
    if fault.BadRequest? {
      ContainsIsSays(fault.message, "bot was blocked");
      ContainsIsSays(fault.message, "chat not found");
    }
  }

  /** How a commit ends: it may also raise although it took effect, or raise and leave the executed
      marks in the session or not. */
  datatype CommitResult = Committed | LostReply | Lost(kept: bool)

  /** Everything the outside world decides about one notification. */
  datatype Attempt = Attempt(
    refusal: Option<Fault>, markRaises: bool, commit: CommitResult,
    rollbackWorks: bool, secondMarkRaises: bool, secondCommit: CommitResult, now: int)

  datatype Mark = Mark(orderId: nat, at: int)

  datatype Refusal = Refusal(orderId: nat, fault: Fault)

  datatype World = World(orders: seq<Order>, pending: seq<Mark>, accepted: set<nat>, refused: set<Refusal>)

  // ----- Database effects

  /** `mark_notified`: the first mark stays, the last one moves. */
  function Marked(o: Order, m: Mark): Order {
    if o.id != m.orderId then o
    else o.(firstNotifiedAt := if o.firstNotifiedAt.Some? then o.firstNotifiedAt else Some(m.at),
            lastNotifiedAt := Some(m.at))
  }

  function MarkAll(orders: seq<Order>, m: Mark): seq<Order> {
    seq(|orders|, i requires 0 <= i < |orders| => Marked(orders[i], m))
  }

  function ApplyMarks(orders: seq<Order>, marks: seq<Mark>): (r: seq<Order>)
    ensures |r| == |orders|
  {
    if marks == [] then orders else MarkAll(ApplyMarks(orders, marks[..|marks| - 1]), marks[|marks| - 1])
  }

  function AfterCommit(w: World, result: CommitResult): (r: World)
    ensures |r.orders| == |w.orders|
  {
    match result
    case Committed => w.(orders := ApplyMarks(w.orders, w.pending), pending := [])
    case LostReply => w.(orders := ApplyMarks(w.orders, w.pending), pending := [])
    case Lost(kept) => if kept then w else w.(pending := [])
  }

  predicate TookEffect(result: CommitResult) {
    result.Committed? || result.LostReply?
  }

  // ----- Specification: one notification, one batch

  datatype Verdict = Sent | NotSent | Raised

  /** The exception handler: roll back, and mark a permanently refused order as if it were delivered. */
  function Handled(w: World, id: nat, a: Attempt, permanent: bool): (r: (World, Verdict))
    ensures |r.0.orders| == |w.orders|
  {
    var w1 := if a.rollbackWorks then w.(pending := []) else w;
    if !permanent then (w1, NotSent)
    else if a.secondMarkRaises then (w1, Raised)
    else (AfterCommit(w1.(pending := w1.pending + [Mark(id, a.now)]), a.secondCommit), NotSent)
  }

  function Delivered(w: World, id: nat, a: Attempt): (r: (World, Verdict))
    ensures |r.0.orders| == |w.orders|
  {
    if a.refusal.Some? then
      Handled(w.(refused := w.refused + {Refusal(id, a.refusal.value)}), id, a, IsPermanent(a.refusal.value))
    else
      var w1 := w.(accepted := w.accepted + {id});
      if a.markRaises then Handled(w1, id, a, false)
      else
        var w2 := AfterCommit(w1.(pending := w1.pending + [Mark(id, a.now)]), a.commit);
        if a.commit.Committed? then (w2, Sent) else Handled(w2, id, a, false)
  }

  datatype Tally = Tally(world: World, sent: nat, failed: nat, raised: bool)

  /** The batch's first `n` notifications; a raise in the handler ends it. */
  function DeliveredUpTo(w: World, ids: seq<nat>, attempts: nat -> Attempt, n: nat): (t: Tally)
    requires n <= |ids|
    ensures |t.world.orders| == |w.orders|
  {
    if n == 0 then Tally(w, 0, 0, false)
    else
      var t := DeliveredUpTo(w, ids, attempts, n - 1);
      if t.raised then t
      else
        var (w', verdict) := Delivered(t.world, ids[n - 1], attempts(n - 1));
        match verdict
        case Sent => Tally(w', t.sent + 1, t.failed, false)
        case NotSent => Tally(w', t.sent, t.failed + 1, false)
        case Raised => Tally(w', t.sent, t.failed + 1, true)
  }

  class Session {
    var orders: seq<Order>     // committed rows
    var pending: seq<Mark>
    ghost var accepted: set<nat>
    ghost var refused: set<Refusal>

    ghost function State(): World
      reads this
    {
      World(orders, pending, accepted, refused)
    }

    constructor (orders: seq<Order>)
      ensures State() == World(orders, [], {}, {})
    {
      this.orders, pending, accepted, refused := orders, [], {}, {};
    }

    /** Runs the UPDATE inside the transaction. */
    method MarkNotified(id: nat, now: int)
      modifies this`pending
      ensures State() == old(State()).(pending := old(pending) + [Mark(id, now)])
    {
      pending := pending + [Mark(id, now)];
    }

    method Commit(result: CommitResult) returns (raised: bool)
      modifies this`orders, this`pending
      ensures State() == AfterCommit(old(State()), result) && raised == !result.Committed?
    {
      raised := !result.Committed?;
      if TookEffect(result) {
        orders, pending := ApplyMarks(orders, pending), [];
      } else if !result.kept {
        pending := [];
      }
    }

    method DeliverOne(id: nat, a: Attempt) returns (verdict: Verdict)
      modifies this
      ensures (State(), verdict) == Delivered(old(State()), id, a)
    {
      var raised, permanent := true, false;
      if a.refusal.None? {
        accepted := accepted + {id};
        if !a.markRaises {
          MarkNotified(id, a.now);
          raised := Commit(a.commit);
        }
      } else {
        refused := refused + {Refusal(id, a.refusal.value)};
        permanent := IsPermanent(a.refusal.value);
      }
      if !raised {
        return Sent;
      }
      if a.rollbackWorks { pending := []; }
      if permanent {
        if a.secondMarkRaises {
          return Raised;
        }
        MarkNotified(id, a.now);
        var ignored := Commit(a.secondCommit);
      }
      verdict := NotSent;
    }

    /** `_deliver_new_order_notifications` */
    method DeliverNewOrders(ids: seq<nat>, attempts: nat -> Attempt) returns (sent: nat, failed: nat, raised: bool)
      modifies this
      ensures Tally(State(), sent, failed, raised) == DeliveredUpTo(old(State()), ids, attempts, |ids|)
    {
      sent, failed, raised := 0, 0, false;
      var i := 0;
      while i < |ids| && !raised
        invariant i <= |ids|
        invariant Tally(State(), sent, failed, raised) == DeliveredUpTo(old(State()), ids, attempts, i)
        decreases |ids| - i
      {
        var verdict := DeliverOne(ids[i], attempts(i));
        i := i + 1;
        match verdict
        case Sent => sent := sent + 1;
        case NotSent => failed := failed + 1;
        case Raised => failed, raised := failed + 1, true;
      }
      RaisedStops(old(State()), ids, attempts, i, |ids|);
    }
  }

  lemma {:induction false} RaisedStops(w: World, ids: seq<nat>, attempts: nat -> Attempt, i: nat, n: nat)
    requires i <= n <= |ids| && (i == n || DeliveredUpTo(w, ids, attempts, i).raised)
    ensures DeliveredUpTo(w, ids, attempts, n) == DeliveredUpTo(w, ids, attempts, i)
    decreases n - i
  {
    if i < n { RaisedStops(w, ids, attempts, i + 1, n); }
  }

  // ----- Runs: upserts and batches in any order

  datatype Op = Arrive(arrival: Arrival) | Batch(ids: seq<nat>, attempts: nat -> Attempt)

  /** An upsert is its own transaction; a batch has a session of its own, and closing it drops what was
      not committed. */
  ghost function AfterOp(w: World, op: Op): World {
    match op
    case Arrive(a) => if Upsert(w.orders, a).Ok? then w.(orders := Upsert(w.orders, a).value.orders) else w
    case Batch(ids, attempts) => DeliveredUpTo(w, ids, attempts, |ids|).world.(pending := [])
  }

  ghost function AfterOps(w: World, ops: seq<Op>): World {
    if ops == [] then w else AfterOp(AfterOps(w, ops[..|ops| - 1]), ops[|ops| - 1])
  }

  /** Telegram accepted the order's message, or refused it for good. */
  ghost predicate Settled(w: World, id: nat) {
    id in w.accepted || exists r :: r in w.refused && r.orderId == id && Final(r.fault)
  }

  /** Every mark, committed or not, is for an order whose message was accepted or refused for good. */
  ghost predicate Explained(w: World) {
    && (forall i | 0 <= i < |w.orders| && w.orders[i].firstNotifiedAt.Some? :: Settled(w, w.orders[i].id))
    && (forall i | 0 <= i < |w.pending| :: Settled(w, w.pending[i].orderId))
  }

  /** Rows keep their place and their id, a first mark is never rewritten, and answers are not forgotten. */
  ghost predicate Later(w: World, w': World) {
    && |w.orders| <= |w'.orders|
    && (forall i | 0 <= i < |w.orders| ::
          && w'.orders[i].id == w.orders[i].id
          && (w.orders[i].firstNotifiedAt.Some? ==> w'.orders[i].firstNotifiedAt == w.orders[i].firstNotifiedAt))
    && w.accepted <= w'.accepted && w.refused <= w'.refused
  }

  lemma {:induction false} ApplyMarksExplained(orders: seq<Order>, marks: seq<Mark>, w: World)
    requires forall i | 0 <= i < |orders| && orders[i].firstNotifiedAt.Some? :: Settled(w, orders[i].id)
    requires forall i | 0 <= i < |marks| :: Settled(w, marks[i].orderId)
    ensures var after := ApplyMarks(orders, marks);
            forall i | 0 <= i < |orders| ::
                 && after[i].id == orders[i].id
                 && (orders[i].firstNotifiedAt.Some? ==> after[i].firstNotifiedAt == orders[i].firstNotifiedAt)
                 && (after[i].firstNotifiedAt.Some? ==> Settled(w, after[i].id))
  {
    if marks != [] {
      ApplyMarksExplained(orders, marks[..|marks| - 1], w);
    }
  }

  lemma CommitExplained(w: World, result: CommitResult)
    requires Explained(w)
    ensures Explained(AfterCommit(w, result)) && Later(w, AfterCommit(w, result))
  {
    ApplyMarksExplained(w.orders, w.pending, w);
  }

  lemma HandledExplained(w: World, id: nat, a: Attempt, permanent: bool)
    requires Explained(w) && (permanent ==> Settled(w, id))
    ensures Explained(Handled(w, id, a, permanent).0) && Later(w, Handled(w, id, a, permanent).0)
  {
    var w1 := if a.rollbackWorks then w.(pending := []) else w;
    if permanent && !a.secondMarkRaises {
      CommitExplained(w1.(pending := w1.pending + [Mark(id, a.now)]), a.secondCommit);
    }
  }

  lemma DeliveredExplained(w: World, id: nat, a: Attempt)
    requires Explained(w)
    ensures Explained(Delivered(w, id, a).0) && Later(w, Delivered(w, id, a).0)
  {
    if a.refusal.Some? {
      var r := Refusal(id, a.refusal.value);
      IsPermanentExactly(r.fault);
      var w1 := w.(refused := w.refused + {r});
      assert r in w1.refused && forall x: nat :: Settled(w, x) ==> Settled(w1, x);
      HandledExplained(w1, id, a, IsPermanent(r.fault));
    } else {
      var w1 := w.(accepted := w.accepted + {id});
      if a.markRaises {
        HandledExplained(w1, id, a, false);
      } else {
        var w2 := w1.(pending := w1.pending + [Mark(id, a.now)]);
        CommitExplained(w2, a.commit);
        HandledExplained(AfterCommit(w2, a.commit), id, a, false);
      }
    }
  }

  lemma {:induction false} BatchExplained(w: World, ids: seq<nat>, attempts: nat -> Attempt, n: nat)
    requires Explained(w) && n <= |ids|
    ensures var w' := DeliveredUpTo(w, ids, attempts, n).world; Explained(w') && Later(w, w')
  {
    if n > 0 {
      BatchExplained(w, ids, attempts, n - 1);
      var mid := DeliveredUpTo(w, ids, attempts, n - 1).world;
      DeliveredExplained(mid, ids[n - 1], attempts(n - 1));
    }
  }

  lemma OpExplained(w: World, op: Op)
    requires Explained(w)
    ensures Explained(AfterOp(w, op)) && Later(w, AfterOp(w, op))
  {
    match op
    case Arrive(a) =>
      if Upsert(w.orders, a).Ok? {
        UpsertKeepsIdentity(w.orders, a);
        var after := Upsert(w.orders, a).value.orders;
        forall i | 0 <= i < |after| && after[i].firstNotifiedAt.Some? ensures Settled(w, after[i].id) {
          if i < |w.orders| { assert SameIdentity(w.orders[i], after[i]); }
        }
      }
    case Batch(ids, attempts) => BatchExplained(w, ids, attempts, |ids|);
  }

  /** Over any run of upserts, batches, refusals and failed commits, an order is marked only if its message
      was accepted, or refused because the bot is forbidden, blocked or has no chat, and once its first mark
      is committed that mark never changes and never goes away. */
  lemma {:induction false} MarksAreEarnedAndFinal(w: World, ops: seq<Op>)
    requires Explained(w)
    ensures Explained(AfterOps(w, ops)) && Later(w, AfterOps(w, ops))
    decreases |ops|
  {
    if ops != [] {
      var rest := ops[..|ops| - 1];
      MarksAreEarnedAndFinal(w, rest);
      OpExplained(AfterOps(w, rest), ops[|ops| - 1]);
    }
  }

  // ----- Exactly when one attempt takes an order off the pending list

  lemma {:induction false} ApplyMarksOf(orders: seq<Order>, marks: seq<Mark>, i: nat)
    requires i < |orders|
    ensures ApplyMarks(orders, marks)[i].id == orders[i].id
    ensures ApplyMarks(orders, marks)[i].firstNotifiedAt.Some? <==>
            orders[i].firstNotifiedAt.Some? || exists k :: 0 <= k < |marks| && marks[k].orderId == orders[i].id
  {
    if marks != [] {
      var n := |marks| - 1;
      ApplyMarksOf(orders, marks[..n], i);
      if k :| 0 <= k < |marks| && marks[k].orderId == orders[i].id {
        if k < n { assert marks[..n][k].orderId == orders[i].id; }
      }
      if k :| 0 <= k < n && marks[..n][k].orderId == orders[i].id {
        assert marks[k].orderId == orders[i].id;
      }
    }
  }

  /** The session holds an executed, uncommitted mark for the order. */
  ghost predicate Holds(w: World, id: nat) {
    exists k :: 0 <= k < |w.pending| && w.pending[k].orderId == id
  }

  /** The message was refused for good, and the handler's UPDATE went through. */
  predicate MarksRefusal(a: Attempt) {
    a.refusal.Some? && Final(a.refusal.value) && !a.secondMarkRaises
  }

  /** The message was accepted, and the UPDATE went through. */
  predicate MarksSuccess(a: Attempt) {
    a.refusal.None? && !a.markRaises
  }

  /** The attempt's own mark is committed by the attempt itself. */
  predicate CommitsOwn(a: Attempt) {
    (MarksSuccess(a) && TookEffect(a.commit)) || (MarksRefusal(a) && TookEffect(a.secondCommit))
  }

  /** The attempt's own mark is left in the session, uncommitted. */
  predicate KeepsOwn(a: Attempt) {
    || (MarksSuccess(a) && a.commit == Lost(true) && !a.rollbackWorks)
    || (MarksRefusal(a) && a.secondCommit == Lost(true))
  }

  /** Marks that earlier attempts left in the session are committed by this one. */
  predicate CommitsEarlier(a: Attempt) {
    (MarksSuccess(a) && TookEffect(a.commit)) || (MarksRefusal(a) && !a.rollbackWorks && TookEffect(a.secondCommit))
  }

  /** Marks that earlier attempts left in the session are still there, uncommitted. */
  predicate KeepsEarlier(a: Attempt) {
    && !a.rollbackWorks
    && (MarksSuccess(a) ==> a.commit == Lost(true))
    && (MarksRefusal(a) ==> a.secondCommit == Lost(true))
  }

  lemma HoldsOneMore(w: World, m: Mark, id: nat)
    ensures Holds(w.(pending := w.pending + [m]), id) <==> m.orderId == id || Holds(w, id)
  {
    var pending := w.pending + [m];
    assert pending[|w.pending|] == m && forall k | 0 <= k < |w.pending| :: pending[k] == w.pending[k];
  }

  lemma CommitMarks(w: World, result: CommitResult, i: nat)
    requires i < |w.orders|
    ensures var w', id := AfterCommit(w, result), w.orders[i].id;
            && w'.orders[i].id == id
            && (w'.orders[i].firstNotifiedAt.Some? <==>
                  w.orders[i].firstNotifiedAt.Some? || (TookEffect(result) && Holds(w, id)))
            && (Holds(w', id) <==> result == Lost(true) && Holds(w, id))
  {
    ApplyMarksOf(w.orders, w.pending, i);
  }

  /** The handler: rolls back if it can, and then marks a permanent refusal. */
  lemma HandledMarks(w: World, id: nat, a: Attempt, permanent: bool, i: nat)
    requires i < |w.orders|
    ensures var w', row := Handled(w, id, a, permanent).0, w.orders[i];
            var marks := permanent && !a.secondMarkRaises;
            && w'.orders[i].id == row.id
            && (w'.orders[i].firstNotifiedAt.Some? <==>
                  row.firstNotifiedAt.Some?
                  || (marks && TookEffect(a.secondCommit) && (id == row.id || (Holds(w, row.id) && !a.rollbackWorks))))
            && (Holds(w', row.id) <==>
                  if marks then a.secondCommit == Lost(true) && (id == row.id || (Holds(w, row.id) && !a.rollbackWorks))
                  else Holds(w, row.id) && !a.rollbackWorks)
  {
    var w1 := if a.rollbackWorks then w.(pending := []) else w;
    assert !Holds(w.(pending := []), w.orders[i].id);
    if permanent && !a.secondMarkRaises {
      HoldsOneMore(w1, Mark(id, a.now), w.orders[i].id);
      CommitMarks(w1.(pending := w1.pending + [Mark(id, a.now)]), a.secondCommit, i);
    }
  }

  /** What one attempt does to any order, whatever the session still holds: the order becomes marked
      exactly by the attempt's own committed mark or by an earlier one that its commit carries along. */
  lemma AttemptMarksExactly(w: World, id: nat, a: Attempt, i: nat)
    requires i < |w.orders|
    ensures var w' := Delivered(w, id, a).0;
            && w'.orders[i].id == w.orders[i].id
            && (w'.orders[i].firstNotifiedAt.Some? <==>
                  || w.orders[i].firstNotifiedAt.Some?
                  || (id == w.orders[i].id && CommitsOwn(a))
                  || (Holds(w, w.orders[i].id) && CommitsEarlier(a)))
            && (Holds(w', w.orders[i].id) <==>
                  || (id == w.orders[i].id && KeepsOwn(a))
                  || (Holds(w, w.orders[i].id) && KeepsEarlier(a)))
  {
    var row, mark := w.orders[i].id, Mark(id, a.now);
    if a.refusal.Some? {
      IsPermanentExactly(a.refusal.value);
      HandledMarks(w.(refused := w.refused + {Refusal(id, a.refusal.value)}), id, a, IsPermanent(a.refusal.value), i);
    } else {
      var w1 := w.(accepted := w.accepted + {id});
      if a.markRaises {
        HandledMarks(w1, id, a, false, i);
      } else {
        var w2 := w1.(pending := w1.pending + [mark]);
        HoldsOneMore(w1, mark, row);
        CommitMarks(w2, a.commit, i);
        HandledMarks(AfterCommit(w2, a.commit), id, a, false, i);
      }
    }
  }

  /** When the session holds nothing else for the order, a committed mark sets its last time, and its first
      time if it had none, to the attempt's. */
  lemma MarkCarriesTime(w: World, id: nat, a: Attempt, i: nat)
    requires i < |w.orders| && w.orders[i].id == id && !Holds(w, id)
    ensures var row := w.orders[i];
            Delivered(w, id, a).0.orders[i] ==
            if CommitsOwn(a)
            then row.(firstNotifiedAt := if row.firstNotifiedAt.None? then Some(a.now) else row.firstNotifiedAt,
                      lastNotifiedAt := Some(a.now))
            else row
  {
    if MarksSuccess(a) {
      CommitOfLast(w.(accepted := w.accepted + {id}), Mark(id, a.now), a.commit, i);
    } else if MarksRefusal(a) {
      var w1 := w.(refused := w.refused + {Refusal(id, a.refusal.value)});
      IsPermanentExactly(a.refusal.value);
      CommitOfLast(if a.rollbackWorks then w1.(pending := []) else w1, Mark(id, a.now), a.secondCommit, i);
    } else if a.refusal.Some? {
      IsPermanentExactly(a.refusal.value);
    }
  }

  /** Any other refusal - a timeout, a flood limit, another bad request - leaves every order as it was, to be
      sent again, and is counted as failed. */
  lemma OtherRefusalRetries(w: World, id: nat, a: Attempt)
    requires a.refusal.Some? && a.refusal.value != Forbidden
    requires a.refusal.value.BadRequest? ==>
               !Says(a.refusal.value.message, "bot was blocked") && !Says(a.refusal.value.message, "chat not found")
    ensures Delivered(w, id, a) ==
            (w.(pending := if a.rollbackWorks then [] else w.pending, refused := w.refused + {Refusal(id, a.refusal.value)}),
             NotSent)
  {
    IsPermanentExactly(a.refusal.value);
  }

  /** An attempt counts as sent exactly if the message was accepted and its mark committed without any
      exception, and ends the batch exactly if the handler's own mark raises. */
  lemma VerdictExactly(w: World, id: nat, a: Attempt)
    ensures Delivered(w, id, a).1 == Sent <==> a.refusal.None? && !a.markRaises && a.commit == Committed
    ensures Delivered(w, id, a).1 == Raised <==> HandlerRaises(a)
  {
    if a.refusal.Some? {
      IsPermanentExactly(a.refusal.value);
    }
  }

  lemma CommitOfLast(w: World, m: Mark, result: CommitResult, i: nat)
    requires i < |w.orders| && !Holds(w, w.orders[i].id)
    ensures var w' := AfterCommit(w.(pending := w.pending + [m]), result);
            w'.orders[i] == if TookEffect(result) then Marked(w.orders[i], m) else w.orders[i]
  {
    AppliedLast(w.orders, w.pending, m, i);
  }

  lemma AppliedLast(orders: seq<Order>, marks: seq<Mark>, m: Mark, i: nat)
    requires i < |orders| && forall k | 0 <= k < |marks| :: marks[k].orderId != orders[i].id
    ensures ApplyMarks(orders, marks + [m])[i] == Marked(orders[i], m)
  {
    ApplyOthers(orders, marks, i);
    assert (marks + [m])[..|marks|] == marks;
  }

  lemma {:induction false} ApplyOthers(orders: seq<Order>, marks: seq<Mark>, i: nat)
    requires i < |orders| && forall k | 0 <= k < |marks| :: marks[k].orderId != orders[i].id
    ensures ApplyMarks(orders, marks)[i] == orders[i]
  {
    if marks != [] {
      ApplyOthers(orders, marks[..|marks| - 1], i);
    }
  }

  /** Attempt `k` of a batch left its mark in the session, and none of the next ones up to `n` ended that. */
  ghost predicate StillHeld(ids: seq<nat>, attempts: nat -> Attempt, k: nat, n: nat, id: nat) {
    k < n <= |ids| && ids[k] == id && KeepsOwn(attempts(k)) && forall j: nat | k < j < n :: KeepsEarlier(attempts(j))
  }

  /** Attempt `k`'s executed mark took effect: by its own commit, or by the commit of attempt `m`. */
  ghost predicate TakesEffect(ids: seq<nat>, attempts: nat -> Attempt, k: nat, m: nat, id: nat) {
    && k <= m < |ids| && ids[k] == id
    && if k == m then CommitsOwn(attempts(k)) else StillHeld(ids, attempts, k, m, id) && CommitsEarlier(attempts(m))
  }

  ghost predicate HeldAt(ids: seq<nat>, attempts: nat -> Attempt, n: nat, id: nat) {
    exists k: nat :: StillHeld(ids, attempts, k, n, id)
  }

  ghost predicate EffectBy(ids: seq<nat>, attempts: nat -> Attempt, n: nat, id: nat) {
    exists k: nat, m: nat :: m < n && TakesEffect(ids, attempts, k, m, id)
  }

  lemma HeldStep(ids: seq<nat>, attempts: nat -> Attempt, n: nat, id: nat)
    requires n < |ids|
    ensures HeldAt(ids, attempts, n + 1, id) <==>
            (ids[n] == id && KeepsOwn(attempts(n))) || (HeldAt(ids, attempts, n, id) && KeepsEarlier(attempts(n)))
  {
    var next := n + 1;
    if k: nat :| StillHeld(ids, attempts, k, next, id) {
      assert k < n ==> StillHeld(ids, attempts, k, n, id) && KeepsEarlier(attempts(n));
    }
    if ids[n] == id && KeepsOwn(attempts(n)) {
      assert StillHeld(ids, attempts, n, n + 1, id);
    }
    if k: nat :| StillHeld(ids, attempts, k, n, id) && KeepsEarlier(attempts(n)) {
      assert StillHeld(ids, attempts, k, n + 1, id);
    }
  }

  lemma EffectStep(ids: seq<nat>, attempts: nat -> Attempt, n: nat, id: nat)
    requires n < |ids|
    ensures EffectBy(ids, attempts, n + 1, id) <==>
            || EffectBy(ids, attempts, n, id) || (ids[n] == id && CommitsOwn(attempts(n)))
            || (HeldAt(ids, attempts, n, id) && CommitsEarlier(attempts(n)))
  {
    if ids[n] == id && CommitsOwn(attempts(n)) {
      assert TakesEffect(ids, attempts, n, n, id);
    }
    if k: nat :| StillHeld(ids, attempts, k, n, id) && CommitsEarlier(attempts(n)) {
      assert TakesEffect(ids, attempts, k, n, id);
    }
    if k: nat, m: nat :| m < n + 1 && TakesEffect(ids, attempts, k, m, id) {
      assert m == n && k < n ==> StillHeld(ids, attempts, k, n, id);
    }
  }

  /** After a batch an order is marked exactly if it was before, or some attempt's executed mark took
      effect, at once or with a later attempt's commit.  `n` is where the batch ended: at its last
      notification, or at the first whose handler raised. */
  lemma {:induction false} BatchMarksExactly(w: World, ids: seq<nat>, attempts: nat -> Attempt, n: nat, i: nat)
    requires w.pending == [] && i < |w.orders| && n <= |ids|
    requires n == 0 || !DeliveredUpTo(w, ids, attempts, n - 1).raised
    ensures var w' := DeliveredUpTo(w, ids, attempts, n).world;
            && w'.orders[i].id == w.orders[i].id
            && (w'.orders[i].firstNotifiedAt.Some? <==>
                  w.orders[i].firstNotifiedAt.Some? || EffectBy(ids, attempts, n, w.orders[i].id))
            && (Holds(w', w.orders[i].id) <==> HeldAt(ids, attempts, n, w.orders[i].id))
  {
    if n > 0 {
      if n > 1 { NotRaisedBefore(w, ids, attempts, n - 1); }
      BatchMarksExactly(w, ids, attempts, n - 1, i);
      AttemptMarksExactly(DeliveredUpTo(w, ids, attempts, n - 1).world, ids[n - 1], attempts(n - 1), i);
      HeldStep(ids, attempts, n - 1, w.orders[i].id);
      EffectStep(ids, attempts, n - 1, w.orders[i].id);
    }
  }

  lemma NotRaisedBefore(w: World, ids: seq<nat>, attempts: nat -> Attempt, n: nat)
    requires 0 < n <= |ids| && !DeliveredUpTo(w, ids, attempts, n).raised
    ensures !DeliveredUpTo(w, ids, attempts, n - 1).raised
  {
  }

  /** A counted success is a committed mark, whatever the session held; a message can be accepted and
      still be counted as failed and sent again, when the commit that should record it is lost. */
  lemma SentIsMarked(w: World, id: nat, a: Attempt, i: nat)
    requires i < |w.orders| && w.orders[i].id == id
    ensures Delivered(w, id, a).1.Sent? ==>
              id in Delivered(w, id, a).0.accepted && Delivered(w, id, a).0.orders[i].firstNotifiedAt.Some?
    ensures MarksSuccess(a) && w.orders[i].firstNotifiedAt.None? && a.commit.Lost? ==>
              id in Delivered(w, id, a).0.accepted && Delivered(w, id, a).1.NotSent?
              && Delivered(w, id, a).0.orders[i].firstNotifiedAt.None?
  {
    AttemptMarksExactly(w, id, a, i);
  }

  // ----- The pending query

  /** The WHERE clause of `pending_unnotified_for_account`. */
  predicate PendingFor(o: Order, account: int, models: set<SaleModel>) {
    && o.accountId == account && o.firstNotifiedAt.None?
    && o.details.saleModel.Some? && o.details.saleModel.value in models
  }

  predicate InModels(model: Option<SaleModel>, models: set<SaleModel>) {
    model.Some? && model.value in models
  }

  /** The arrival is taken by row `i`, and overwrites it. */
  ghost predicate Overwrites(orders: seq<Order>, a: Arrival, i: nat) {
    i < |orders| && Existing(orders, a.accountId, a.order) == At(i) && !Enriches(orders[i], a.order)
  }

  /** An upsert, too, moves rows on and off the pending list: exactly when it overwrites an unmarked row of
      the account with a sale model on the other side of the list's models. */
  lemma UpsertMovesPendingExactly(orders: seq<Order>, a: Arrival, i: nat, account: int, models: set<SaleModel>)
    requires Upsert(orders, a).Ok? && i < |orders|
    ensures var o, o' := orders[i], Upsert(orders, a).value.orders[i];
            PendingFor(o, account, models) != PendingFor(o', account, models) <==>
              && o.accountId == account && o.firstNotifiedAt.None? && Overwrites(orders, a, i)
              && InModels(o.details.saleModel, models) != InModels(a.order.details.saleModel, models)
    ensures Overwrites(orders, a, i) ==>
              Upsert(orders, a).value.orders[i].details.saleModel == a.order.details.saleModel
  {
    MergedColumns(orders[i], a.order);
  }

  function Sale(model: SaleModel): Arrival {
    Arrival(1, 1, Incoming(WB, "s", None, None, Some("s"), Some(StatisticsOrder),
                           Details(0, Some(model), None, None, None, None, None, false),
                           Status("statistics_order", None, None), None, None, [], 0), 0)
  }

  /** A statistics row seen first in the seller's warehouse and then in the marketplace's leaves the list
      of orders the seller delivers, without any message. */
  lemma MovedWarehouseLeavesList()
    ensures var before := [Created(0, Sale(FBS))];
            && Upsert([], Sale(FBS)) == Ok(Upserted(before, 0, true)) && PendingFor(before[0], 1, {FBS})
            && Upsert(before, Sale(FBO)).Ok? && !PendingFor(Upsert(before, Sale(FBO)).value.orders[0], 1, {FBS})
  {
    var before := [Created(0, Sale(FBS))];
    LookupIs([], ByExternal(1, WB, "s"), Nothing);
    LookupIs([], BySrid(1, Some("s")), Nothing);
    assert [] + [Created(0, Sale(FBS))] == before;
    LookupIs(before, ByExternal(1, WB, "s"), At(0));
    UpsertMovesPendingExactly(before, Sale(FBO), 0, 1, {FBS});
  }

  // ----- When an order leaves the list, over any run

  /** The handler itself raises, which ends the batch. */
  predicate HandlerRaises(a: Attempt) {
    a.refusal.Some? && Final(a.refusal.value) && a.secondMarkRaises
  }

  /** How many of the first `n` notifications are attempted. */
  function BatchEnd(attempts: nat -> Attempt, n: nat): (k: nat)
    ensures k <= n
  {
    if n == 0 then 0
    else
      var k := BatchEnd(attempts, n - 1);
      if k < n - 1 || (k > 0 && HandlerRaises(attempts(k - 1))) then k else n
  }

  /** All of them, or those up to the first whose handler raises. */
  lemma {:induction false} BatchEndsAtFirstRaise(attempts: nat -> Attempt, n: nat)
    ensures var k := BatchEnd(attempts, n);
            && (k < n ==> exists j: nat :: j + 1 == k && HandlerRaises(attempts(j)))
            && forall j: nat | j + 1 < k :: !HandlerRaises(attempts(j))
  {
    if n > 0 {
      BatchEndsAtFirstRaise(attempts, n - 1);
    }
  }

  lemma RaisesNext(w: World, ids: seq<nat>, attempts: nat -> Attempt, n: nat)
    requires n < |ids| && !DeliveredUpTo(w, ids, attempts, n).raised
    ensures DeliveredUpTo(w, ids, attempts, n + 1).raised <==> HandlerRaises(attempts(n))
  {
    VerdictExactly(DeliveredUpTo(w, ids, attempts, n).world, ids[n], attempts(n));
  }

  lemma {:induction false} QuietUpTo(w: World, ids: seq<nat>, attempts: nat -> Attempt, n: nat)
    requires n <= |ids| && forall j: nat | j < n :: !HandlerRaises(attempts(j))
    ensures !DeliveredUpTo(w, ids, attempts, n).raised
  {
    if n > 0 {
      QuietUpTo(w, ids, attempts, n - 1);
      RaisesNext(w, ids, attempts, n - 1);
    }
  }

  lemma BatchEnds(w: World, ids: seq<nat>, attempts: nat -> Attempt, n: nat)
    requires n <= |ids|
    ensures var k := BatchEnd(attempts, n);
            && DeliveredUpTo(w, ids, attempts, n) == DeliveredUpTo(w, ids, attempts, k)
            && (k == 0 || !DeliveredUpTo(w, ids, attempts, k - 1).raised)
            && (DeliveredUpTo(w, ids, attempts, k).raised <==> k > 0 && HandlerRaises(attempts(k - 1)))
  {
    var k := BatchEnd(attempts, n);
    BatchEndsAtFirstRaise(attempts, n);
    if k > 0 {
      QuietUpTo(w, ids, attempts, k - 1);
      RaisesNext(w, ids, attempts, k - 1);
    }
    RaisedStops(w, ids, attempts, k, n);
  }

  /** The attempt goes through without an exception. */
  predicate Succeeds(a: Attempt) {
    a.refusal.None? && !a.markRaises && a.commit == Committed
  }

  ghost function Successes(attempts: nat -> Attempt, n: nat): set<nat> {
    set k: nat | k < n && Succeeds(attempts(k))
  }

  lemma SuccessesNext(attempts: nat -> Attempt, n: nat)
    ensures |Successes(attempts, n + 1)| == |Successes(attempts, n)| + if Succeeds(attempts(n)) then 1 else 0
  {
    assert Successes(attempts, n + 1) == Successes(attempts, n) + if Succeeds(attempts(n)) then {n} else {};
  }

  /** A batch sends what goes through without an exception, and fails all other attempts it comes to: those up
      to its end, or up to the first whose handler raises. */
  lemma BatchCountsExactly(w: World, ids: seq<nat>, attempts: nat -> Attempt)
    ensures var t, k := DeliveredUpTo(w, ids, attempts, |ids|), BatchEnd(attempts, |ids|);
            && t.sent == |Successes(attempts, k)| && t.sent + t.failed == k
            && (t.raised <==> k > 0 && HandlerRaises(attempts(k - 1)))
  {
    BatchEnds(w, ids, attempts, |ids|);
    CountsUpTo(w, ids, attempts, BatchEnd(attempts, |ids|));
  }

  lemma {:induction false} CountsUpTo(w: World, ids: seq<nat>, attempts: nat -> Attempt, n: nat)
    requires n <= |ids| && (n == 0 || !DeliveredUpTo(w, ids, attempts, n - 1).raised)
    ensures var t := DeliveredUpTo(w, ids, attempts, n); t.sent == |Successes(attempts, n)| && t.sent + t.failed == n
  {
    if n == 0 {
      assert Successes(attempts, 0) == {};
    } else {
      if n > 1 { NotRaisedBefore(w, ids, attempts, n - 1); }
      CountsUpTo(w, ids, attempts, n - 1);
      VerdictExactly(DeliveredUpTo(w, ids, attempts, n - 1).world, ids[n - 1], attempts(n - 1));
      SuccessesNext(attempts, n - 1);
    }
  }

  /** Only the notification columns differ. */
  ghost predicate SameButMarks(o: Order, o': Order) {
    o' == o.(firstNotifiedAt := o'.firstNotifiedAt, lastNotifiedAt := o'.lastNotifiedAt)
  }

  lemma {:induction false} ApplyMarksKeeps(orders: seq<Order>, marks: seq<Mark>, i: nat)
    requires i < |orders|
    ensures SameButMarks(orders[i], ApplyMarks(orders, marks)[i])
  {
    if marks != [] {
      ApplyMarksKeeps(orders, marks[..|marks| - 1], i);
    }
  }

  lemma CommitKeeps(w: World, result: CommitResult, i: nat)
    requires i < |w.orders|
    ensures SameButMarks(w.orders[i], AfterCommit(w, result).orders[i])
  {
    ApplyMarksKeeps(w.orders, w.pending, i);
  }

  lemma DeliveredKeeps(w: World, id: nat, a: Attempt, i: nat)
    requires i < |w.orders|
    ensures SameButMarks(w.orders[i], Delivered(w, id, a).0.orders[i])
  {
    var m := Mark(id, a.now);
    if a.refusal.Some? {
      var w1 := w.(refused := w.refused + {Refusal(id, a.refusal.value)});
      var w2 := if a.rollbackWorks then w1.(pending := []) else w1;
      CommitKeeps(w2.(pending := w2.pending + [m]), a.secondCommit, i);
    } else {
      var w1 := w.(accepted := w.accepted + {id});
      CommitKeeps(w1.(pending := w1.pending + [m]), a.commit, i);
    }
  }

  lemma {:induction false} BatchKeeps(w: World, ids: seq<nat>, attempts: nat -> Attempt, n: nat, i: nat)
    requires n <= |ids| && i < |w.orders|
    ensures var w' := DeliveredUpTo(w, ids, attempts, n).world; SameButMarks(w.orders[i], w'.orders[i])
  {
    if n > 0 {
      BatchKeeps(w, ids, attempts, n - 1, i);
      DeliveredKeeps(DeliveredUpTo(w, ids, attempts, n - 1).world, ids[n - 1], attempts(n - 1), i);
    }
  }

  /** The operation takes order `i` off the list: a mark for it takes effect, or an arrival overwrites its
      sale model with one the list does not show. */
  ghost predicate TakesOff(w: World, op: Op, i: nat, account: int, models: set<SaleModel>) {
    && i < |w.orders| && PendingFor(w.orders[i], account, models)
    && match op
       case Batch(ids, attempts) => EffectBy(ids, attempts, BatchEnd(attempts, |ids|), w.orders[i].id)
       case Arrive(a) => Overwrites(w.orders, a, i) && !InModels(a.order.details.saleModel, models)
  }

  /** The operation puts order `i` on the list: an arrival gives it a sale model the list shows. */
  ghost predicate PutsOn(w: World, op: Op, i: nat, account: int, models: set<SaleModel>) {
    && i < |w.orders| && !PendingFor(w.orders[i], account, models)
    && w.orders[i].accountId == account && w.orders[i].firstNotifiedAt.None?
    && op.Arrive? && Overwrites(w.orders, op.arrival, i) && InModels(op.arrival.order.details.saleModel, models)
  }

  lemma OpMovesPendingExactly(w: World, op: Op, i: nat, account: int, models: set<SaleModel>)
    requires w.pending == [] && i < |w.orders|
    ensures var w' := AfterOp(w, op);
            && w'.pending == [] && i < |w'.orders|
            && (PendingFor(w'.orders[i], account, models) <==>
                  (PendingFor(w.orders[i], account, models) && !TakesOff(w, op, i, account, models))
                  || PutsOn(w, op, i, account, models))
  {
    match op
    case Arrive(a) =>
      if Upsert(w.orders, a).Ok? {
        UpsertMovesPendingExactly(w.orders, a, i, account, models);
      }
    case Batch(ids, attempts) => WholeBatchMarks(w, ids, attempts, i);
  }

  lemma WholeBatchMarks(w: World, ids: seq<nat>, attempts: nat -> Attempt, i: nat)
    requires w.pending == [] && i < |w.orders|
    ensures var w' := DeliveredUpTo(w, ids, attempts, |ids|).world;
            && SameButMarks(w.orders[i], w'.orders[i])
            && (w'.orders[i].firstNotifiedAt.Some? <==>
                  w.orders[i].firstNotifiedAt.Some? || EffectBy(ids, attempts, BatchEnd(attempts, |ids|), w.orders[i].id))
  {
    BatchEnds(w, ids, attempts, |ids|);
    BatchKeeps(w, ids, attempts, |ids|, i);
    BatchMarksExactly(w, ids, attempts, BatchEnd(attempts, |ids|), i);
  }

  ghost predicate TakesOffAt(w: World, ops: seq<Op>, k: nat, i: nat, account: int, models: set<SaleModel>) {
    k < |ops| && TakesOff(AfterOps(w, ops[..k]), ops[k], i, account, models)
  }

  ghost predicate PutsOnAt(w: World, ops: seq<Op>, k: nat, i: nat, account: int, models: set<SaleModel>) {
    k < |ops| && PutsOn(AfterOps(w, ops[..k]), ops[k], i, account, models)
  }

  /** After `n` operations: true from the start or put on at `k`, and not taken off since. */
  ghost predicate Kept(start: bool, on: set<nat>, off: set<nat>, n: nat) {
    || (start && forall m | m in off :: m >= n)
    || exists k | k in on :: k < n && forall m | m in off :: m <= k || m >= n
  }

  lemma KeptStep(start: bool, on: set<nat>, off: set<nat>, n: nat)
    ensures Kept(start, on, off, n + 1) <==> (Kept(start, on, off, n) && n !in off) || n in on
  {
  }

  ghost function PuttingOn(w: World, ops: seq<Op>, i: nat, account: int, models: set<SaleModel>): set<nat> {
    set k: nat | k < |ops| && PutsOnAt(w, ops, k, i, account, models)
  }

  ghost function TakingOff(w: World, ops: seq<Op>, i: nat, account: int, models: set<SaleModel>): set<nat> {
    set k: nat | k < |ops| && TakesOffAt(w, ops, k, i, account, models)
  }

  /** On the list after `n` operations, as the operations that take the order off or put it on decide. */
  ghost predicate StaysOn(w: World, ops: seq<Op>, n: nat, i: nat, account: int, models: set<SaleModel>)
    requires i < |w.orders|
  {
    Kept(PendingFor(w.orders[i], account, models),
         PuttingOn(w, ops, i, account, models), TakingOff(w, ops, i, account, models), n)
  }

  /** Over any run of upserts and batches, failed commits included, an order is on the pending list
      exactly if it was on it, or an arrival's sale model put it on, and since then neither a mark that
      took effect nor an arrival's sale model has taken it off. */
  lemma {:induction false} PendingListExactly(w: World, ops: seq<Op>, n: nat, i: nat, account: int, models: set<SaleModel>)
    requires w.pending == [] && i < |w.orders| && n <= |ops|
    ensures AfterOps(w, ops[..n]).pending == [] && i < |AfterOps(w, ops[..n]).orders|
    ensures PendingFor(AfterOps(w, ops[..n]).orders[i], account, models) <==> StaysOn(w, ops, n, i, account, models)
    decreases n
  {
    if n > 0 {
      PendingListExactly(w, ops, n - 1, i, account, models);
      assert ops[..n][..n - 1] == ops[..n - 1];
      OpMovesPendingExactly(AfterOps(w, ops[..n - 1]), ops[n - 1], i, account, models);
      KeptStep(PendingFor(w.orders[i], account, models),
               PuttingOn(w, ops, i, account, models), TakingOff(w, ops, i, account, models), n - 1);
    }
  }

  /** Once marked, an order is on no pending list, in any later state of any run. */
  lemma MarkedNeverPendingAgain(w: World, ops: seq<Op>, i: nat, account: int, models: set<SaleModel>)
    requires Explained(w) && i < |w.orders| && w.orders[i].firstNotifiedAt.Some?
    ensures i < |AfterOps(w, ops).orders| && !PendingFor(AfterOps(w, ops).orders[i], account, models)
  {
    MarksAreEarnedAndFinal(w, ops);
  }
}
