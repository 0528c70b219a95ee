/** `UserRepository.get_or_create` under concurrency: any number of calls, each in a transaction of
    its own, against a table whose `telegram_id` is unique.

    Reads see committed rows and the transaction's own; an insert of a key that another open
    transaction has inserted waits for that transaction to end.  No user is ever deleted. */
module UserRace {
  import opened Common

  datatype User = User(id: nat, telegramId: int, username: Option<string>, firstName: Option<string>)

  /** One call: its arguments and where it is. */
  datatype Call = Call(telegramId: int, username: Option<string>, firstName: Option<string>, pc: Pc)

  datatype Pc =
    | Looking                       // before the first SELECT
    | Inserting                     // not found; the INSERT is about to be flushed
    | LookingAgain                  // unique violation, rolled back
    | Returned(user: User, inserted: bool)
    | Raised                        // the second SELECT found nothing either
    | Closed(user: User)            // returned, and its transaction has committed
    | Abandoned                     // returned, and its transaction was rolled back by the caller

  /** `committed` is the table by row id; `nextId` the id sequence. */
  datatype State = State(committed: map<nat, User>, nextId: nat, calls: map<nat, Call>)

  datatype Step = Look(c: nat) | Insert(c: nat) | LookAgain(c: nat) | Commit(c: nat) | Rollback(c: nat)

  // ----- Rows in sight

  predicate Committed(s: State, key: int, id: nat) {
    id in s.committed && s.committed[id].telegramId == key
  }

  /** An open transaction that has inserted a row for `key`. */
  predicate OpenInsert(s: State, key: int, c: nat) {
    c in s.calls && s.calls[c].telegramId == key && s.calls[c].pc.Returned? && s.calls[c].pc.inserted
  }

  ghost predicate Inserted(s: State, c: nat) {
    c in s.calls && s.calls[c].pc.Returned? && s.calls[c].pc.inserted
  }

  /** The row as the call leaves it: its names are the caller's. */
  function Named(u: User, call: Call): User {
    u.(username := call.username, firstName := call.firstName)
  }

  ghost predicate Next(s: State, step: Step, s': State) {
    step.c in s.calls &&
    var c, call := step.c, s.calls[step.c];
    var key := call.telegramId;
    match step
    case Look(_) =>
      && call.pc.Looking?
      && (if exists id :: Committed(s, key, id)
          then exists id :: Committed(s, key, id) && s' == Moved(s, c, Returned(Named(s.committed[id], call), false))
          else s' == Moved(s, c, Inserting))
    case Insert(_) =>
      && call.pc.Inserting?
      && (forall d :: !OpenInsert(s, key, d))                       // otherwise the insert is still waiting
      && (if exists id :: Committed(s, key, id) then s' == Moved(s, c, LookingAgain)
          else s' == Moved(s, c, Returned(User(s.nextId, key, call.username, call.firstName), true)).(nextId := s.nextId + 1))
    case LookAgain(_) =>
      && call.pc.LookingAgain?
      && (if exists id :: Committed(s, key, id)
          then exists id :: Committed(s, key, id) && s' == Moved(s, c, Returned(Named(s.committed[id], call), false))
          else s' == Moved(s, c, Raised))
    case Commit(_) =>
      call.pc.Returned? && s' == Moved(s, c, Closed(call.pc.user)).(committed := s.committed[call.pc.user.id := call.pc.user])
    case Rollback(_) => call.pc.Returned? && s' == Moved(s, c, Abandoned)
  }

  function Moved(s: State, c: nat, pc: Pc): State
    requires c in s.calls
  {
    s.(calls := s.calls[c := s.calls[c].(pc := pc)])
  }

  ghost predicate Init(s: State) {
    && OneRowPerKey(s.committed)
    && (forall id | id in s.committed :: id < s.nextId && s.committed[id].id == id)
    && (forall c | c in s.calls :: s.calls[c].pc.Looking?)
  }

  /** A run: any interleaving of the calls' steps and of their callers' commits and rollbacks. */
  ghost predicate IsRun(trace: seq<State>, steps: seq<Step>) {
    && |trace| == |steps| + 1 && Init(trace[0])
    && forall i | 0 <= i < |steps| :: Next(trace[i], steps[i], trace[i + 1])
  }

  // ----- The invariant

  ghost predicate OneRowPerKey(committed: map<nat, User>) {
    forall i, j | i in committed && j in committed && committed[i].telegramId == committed[j].telegramId :: i == j
  }

  /** A call that holds a user holds the key's row: the committed one, or the one it inserted. */
  ghost predicate CallInv(s: State, c: nat)
    requires c in s.calls
  {
    var call := s.calls[c];
    match call.pc
    case Returned(u, inserted) =>
      && u == Named(u, call) && u.telegramId == call.telegramId && u.id < s.nextId
      && (if inserted then u.id !in s.committed && forall id :: !Committed(s, call.telegramId, id)
          else Committed(s, call.telegramId, u.id))
    case Closed(u) => u == Named(u, call) && u.telegramId == call.telegramId && Committed(s, call.telegramId, u.id)
    case LookingAgain => exists id :: Committed(s, call.telegramId, id)
    case Raised => false
    case _ => true
  }

  ghost predicate Inv(s: State) {
    && OneRowPerKey(s.committed)
    && (forall id | id in s.committed :: id < s.nextId && s.committed[id].id == id)
    && (forall c | c in s.calls :: CallInv(s, c))
    && (forall c, d | Inserted(s, c) && Inserted(s, d) && c != d ::
          s.calls[c].telegramId != s.calls[d].telegramId && s.calls[c].pc.user.id != s.calls[d].pc.user.id)
  }

  /** Rows are only ever added, one at a time, by the commit of the call that inserted them. */
  lemma CommittedStep(s: State, step: Step, s': State, key: int, id: nat)
    requires Inv(s) && Next(s, step, s')
    ensures Committed(s', key, id) <==>
            || Committed(s, key, id)
            || (step.Commit? && Inserted(s, step.c) && key == s.calls[step.c].telegramId && id == s.calls[step.c].pc.user.id)
  {
    assert CallInv(s, step.c);
  }

  lemma TableStep(s: State, step: Step, s': State)
    requires Inv(s) && Next(s, step, s')
    ensures OneRowPerKey(s'.committed)
    ensures forall id | id in s'.committed :: id < s'.nextId && s'.committed[id].id == id
    ensures s'.calls.Keys == s.calls.Keys && s.nextId <= s'.nextId
    ensures forall d | d in s.calls && d != step.c :: s'.calls[d] == s.calls[d]
    ensures s'.calls[step.c].telegramId == s.calls[step.c].telegramId
  {
    assert CallInv(s, step.c);
    if step.Commit? {
      var u := s.calls[step.c].pc.user;
      forall i, j | i in s'.committed && j in s'.committed && s'.committed[i].telegramId == s'.committed[j].telegramId
        ensures i == j
      {
        CommittedStep(s, step, s', s'.committed[i].telegramId, i);
        CommittedStep(s, step, s', s'.committed[i].telegramId, j);
      }
    }
  }

  lemma OtherCallStep(s: State, step: Step, s': State, d: nat)
    requires Inv(s) && Next(s, step, s') && d in s.calls && d != step.c
    ensures d in s'.calls && CallInv(s', d)
  {
    TableStep(s, step, s');
    assert CallInv(s, d);
    var call := s.calls[d];
    forall id ensures Committed(s', call.telegramId, id) <==>
                      || Committed(s, call.telegramId, id)
                      || (step.Commit? && Inserted(s, step.c) && call.telegramId == s.calls[step.c].telegramId
                          && id == s.calls[step.c].pc.user.id)
    {
      CommittedStep(s, step, s', call.telegramId, id);
    }
    if step.Commit? && Inserted(s, step.c) && Inserted(s, d) {
      assert s.calls[step.c].pc.user.id != call.pc.user.id;
    }
  }

  lemma OwnCallStep(s: State, step: Step, s': State)
    requires Inv(s) && Next(s, step, s')
    ensures step.c in s'.calls && CallInv(s', step.c)
  {
    assert CallInv(s, step.c);
    if step.Insert? && s'.calls[step.c].pc.Returned? {
      forall id ensures !Committed(s', s.calls[step.c].telegramId, id) {
        CommittedStep(s, step, s', s.calls[step.c].telegramId, id);
      }
    }
    if step.Insert? && s'.calls[step.c].pc.LookingAgain? {
      var id :| Committed(s, s.calls[step.c].telegramId, id);
      assert Committed(s', s.calls[step.c].telegramId, id);
    }
  }

  lemma InsertersStep(s: State, step: Step, s': State, c: nat, d: nat)
    requires Inv(s) && Next(s, step, s') && Inserted(s', c) && Inserted(s', d) && c != d
    ensures s'.calls[c].telegramId != s'.calls[d].telegramId && s'.calls[c].pc.user.id != s'.calls[d].pc.user.id
  {
    TableStep(s, step, s');
    assert CallInv(s, c) && CallInv(s, d);
    if step.Insert? && s'.nextId == s.nextId + 1 {
      assert !OpenInsert(s, s.calls[step.c].telegramId, c) && !OpenInsert(s, s.calls[step.c].telegramId, d);
    }
  }

  lemma InvStep(s: State, step: Step, s': State)
    requires Inv(s) && Next(s, step, s')
    ensures Inv(s')
  {
    TableStep(s, step, s');
    forall c | c in s'.calls ensures CallInv(s', c) {
      if c == step.c { OwnCallStep(s, step, s'); } else { OtherCallStep(s, step, s', c); }
    }
    forall c, d | Inserted(s', c) && Inserted(s', d) && c != d
      ensures s'.calls[c].telegramId != s'.calls[d].telegramId && s'.calls[c].pc.user.id != s'.calls[d].pc.user.id
    {
      InsertersStep(s, step, s', c, d);
    }
  }

  lemma {:induction false} InvAlways(trace: seq<State>, steps: seq<Step>, i: nat)
    requires IsRun(trace, steps) && i < |trace|
    ensures Inv(trace[i])
  {
    if i > 0 {
      InvAlways(trace, steps, i - 1);
      InvStep(trace[i - 1], steps[i - 1], trace[i]);
    }
  }

  // ----- What callers may rely on

  /** In every interleaving a telegram id has at most one row, and no call ever raises. */
  lemma OneRowAndNoRaise(trace: seq<State>, steps: seq<Step>, i: nat)
    requires IsRun(trace, steps) && i < |trace|
    ensures OneRowPerKey(trace[i].committed)
    ensures forall c | c in trace[i].calls :: !trace[i].calls[c].pc.Raised?
  {
    InvAlways(trace, steps, i);
    forall c | c in trace[i].calls ensures !trace[i].calls[c].pc.Raised? {
      assert CallInv(trace[i], c);
    }
  }

  lemma {:induction false} RowsStay(trace: seq<State>, steps: seq<Step>, i: nat, j: nat, key: int, id: nat)
    requires IsRun(trace, steps) && i <= j < |trace| && Committed(trace[i], key, id)
    ensures Committed(trace[j], key, id)
    decreases j
  {
    if i < j {
      RowsStay(trace, steps, i, j - 1, key, id);
      InvAlways(trace, steps, j - 1);
      CommittedStep(trace[j - 1], steps[j - 1], trace[j], key, id);
    }
  }

  /** All calls for one telegram id that finish and commit return one and the same row, with the
      names they asked for, and that row is in the table from then on. */
  lemma FinishedCallsShareTheRow(trace: seq<State>, steps: seq<Step>, i: nat, j: nat, c: nat, d: nat)
    requires IsRun(trace, steps) && i <= j < |trace|
    requires c in trace[i].calls && trace[i].calls[c].pc.Closed?
    requires d in trace[j].calls && (trace[j].calls[d].pc.Closed? || trace[j].calls[d].pc.Returned?)
    requires trace[i].calls[c].telegramId == trace[j].calls[d].telegramId
    ensures var u, v := trace[i].calls[c].pc.user, trace[j].calls[d].pc.user;
            && Committed(trace[j], u.telegramId, u.id)
            && (v.id, v.username, v.firstName) == (u.id, trace[j].calls[d].username, trace[j].calls[d].firstName)
  {
    InvAlways(trace, steps, i);
    InvAlways(trace, steps, j);
    var u := trace[i].calls[c].pc.user;
    assert CallInv(trace[i], c) && CallInv(trace[j], d);
    RowsStay(trace, steps, i, j, u.telegramId, u.id);
  }

  // ----- One call, with everyone else acting between its queries

  /** The user table as one transaction sees it: rows already there stay, rows may appear. */
  class UserTable {
    var committed: map<int, User>        // by telegram id
    var nextId: nat

    ghost predicate Valid()
      reads this
    {
      forall key | key in committed :: committed[key].telegramId == key && committed[key].id < nextId
    }

    constructor ()
      ensures Valid() && committed == map[]
    {
      committed, nextId := map[], 0;
    }

    /** Other transactions commit while this one waits. */
    method Await(arrived: map<int, User>)
      requires Valid()
      requires forall key | key in arrived && key !in committed :: arrived[key].telegramId == key
      modifies this
      ensures Valid() && nextId >= old(nextId)
      ensures committed.Keys >= old(committed.Keys)
      ensures forall key | key in old(committed) :: committed[key].id == old(committed)[key].id
      ensures forall key | key in committed && key !in old(committed) :: committed[key].id >= old(nextId)
    {
      var added := arrived.Keys - committed.Keys;
      while added != {}
        invariant Valid() && nextId >= old(nextId) && added <= arrived.Keys - committed.Keys
        invariant committed.Keys >= old(committed.Keys)
        invariant forall key | key in old(committed) :: committed[key] == old(committed)[key]
        invariant forall key | key in committed && key !in old(committed) :: committed[key].id >= old(nextId)
        invariant forall key | key in added :: arrived[key].telegramId == key
        decreases added
      {
        var key :| key in added;
        added := added - {key};
        committed := committed[key := arrived[key].(id := nextId)];
        nextId := nextId + 1;
      }
    }
  }

  /** `get_or_create`, with `arrived` what other transactions commit between its first SELECT and its
      flush.  It always returns the key's user with the caller's names, and raises in no case; a row
      is inserted exactly when nobody else's is there, and takes an id no other row has. */
  method GetOrCreate(
    table: UserTable, telegramId: int, username: Option<string>, firstName: Option<string>, arrived: map<int, User>)
    returns (user: User, inserted: bool)
    requires table.Valid() && forall key | key in arrived :: arrived[key].telegramId == key
    modifies table
    ensures table.Valid() && user.telegramId == telegramId && user.username == username && user.firstName == firstName
    ensures inserted <==> telegramId !in table.committed
    ensures !inserted ==> user.id == table.committed[telegramId].id
    ensures inserted ==> user.id < table.nextId && forall key | key in table.committed :: table.committed[key].id != user.id
    ensures table.committed.Keys >= old(table.committed.Keys)
    ensures forall key | key in old(table.committed) :: table.committed[key].id == old(table.committed)[key].id
    ensures telegramId in old(table.committed) ==> table.committed == old(table.committed)
  {
    inserted := false;
    if telegramId in table.committed {
      user := table.committed[telegramId].(username := username, firstName := firstName);
      return;
    }
    user := User(table.nextId, telegramId, username, firstName);
    table.nextId := table.nextId + 1;
    table.Await(arrived);
    if telegramId in table.committed {
      // unique violation: roll back and look again; the row that caused it is committed and stays
      user := table.committed[telegramId].(username := username, firstName := firstName);
    } else {
      inserted := true;
    }
  }
}
