/** `CacheManager`: a read-through cache over Redis keys with time-outs.  Time is in milliseconds. */
module Cache {
  import opened Common

  /** A Python value: `None`, one that JSON reproduces, or one that `default=str` turns into text. */
  datatype Value = Null | Json(text: string) | Object(text: string)

  /** `json.loads(json.dumps(v, default=str))`. */
  function Reloaded(v: Value): Value {
    if v.Object? then Json(v.text) else v
  }

  datatype Entry = Entry(value: Value, deadline: Option<int>)

  datatype Store = Store(entries: map<string, Entry>, now: int)

  /** What happens to the store: only operations that took effect; `ttl` is in seconds. */
  datatype Op = Write(key: string, value: Value, ttl: Option<int>) | Erase(key: string) | Pass(ms: nat)

  /** `if ttl:` - none and zero both mean "no time-out". */
  predicate TimesOut(ttl: Option<int>) {
    ttl.Some? && ttl.value != 0
  }

  function Apply(s: Store, op: Op): Store {
    match op
    case Write(key, value, ttl) =>
      s.(entries := s.entries[key := Entry(Reloaded(value), if TimesOut(ttl) then Some(s.now + 1000 * ttl.value) else None)])
    case Erase(key) => s.(entries := s.entries - {key})
    case Pass(ms) => s.(now := s.now + ms)
  }

  function Run(s: Store, ops: seq<Op>): Store {
    if ops == [] then s else Apply(Run(s, ops[..|ops| - 1]), ops[|ops| - 1])
  }

  /** What a successful GET of `key` yields; `Null` for a missing or expired key, and for a stored null. */
  function Served(s: Store, key: string): Value {
    if key in s.entries && (s.entries[key].deadline.Some? ==> s.now < s.entries[key].deadline.value)
    then s.entries[key].value else Null
  }

  const EMPTY := Store(map[], 0)

  // ----- Histories

  function Elapsed(ops: seq<Op>): nat {
    if ops == [] then 0
    else Elapsed(ops[..|ops| - 1]) + if ops[|ops| - 1].Pass? then ops[|ops| - 1].ms else 0
  }

  predicate Touches(op: Op, key: string) {
    !op.Pass? && op.key == key
  }

  /** The write at `i` is the last thing done to its key. */
  ghost predicate LastWrite(ops: seq<Op>, key: string, i: nat) {
    i < |ops| && ops[i].Write? && ops[i].key == key && forall j | i < j < |ops| :: !Touches(ops[j], key)
  }

  lemma {:induction false} ClockIsElapsed(ops: seq<Op>)
    ensures Run(EMPTY, ops).now == Elapsed(ops)
  {
    if ops != [] {
      ClockIsElapsed(ops[..|ops| - 1]);
    }
  }

  /** The position of the write at which `key` got its present entry, if it has one. */
  function Origin(ops: seq<Op>, key: string): (r: Option<nat>)
    ensures r.Some? ==> r.value < |ops| && ops[r.value].Write? && ops[r.value].key == key
  {
    if ops == [] then None
    else if Touches(ops[|ops| - 1], key) then if ops[|ops| - 1].Write? then Some(|ops| - 1) else None
    else Origin(ops[..|ops| - 1], key)
  }

  lemma {:induction false} OriginIsLastWrite(ops: seq<Op>, key: string, i: nat)
    ensures Origin(ops, key) == Some(i) <==> LastWrite(ops, key, i)
  {
    if ops != [] {
      var n := |ops| - 1;
      var front := ops[..n];
      OriginIsLastWrite(front, key, i);
      if LastWrite(front, key, i) && !Touches(ops[n], key) {
        forall j | i < j < |ops| ensures !Touches(ops[j], key) {
          assert j < n ==> ops[j] == front[j];
        }
      }
      if i < n && LastWrite(ops, key, i) {
        assert forall j | i < j < n :: front[j] == ops[j];
        assert !Touches(ops[n], key);
      }
    }
  }

  /** A key is present exactly when its last operation was a write, and holds what that wrote. */
  lemma {:induction false} EntryIsLastWrite(ops: seq<Op>, key: string)
    ensures var origin := Origin(ops, key);
            if origin.None? then key !in Run(EMPTY, ops).entries
            else
              var w := ops[origin.value];
              var deadline := if w.ttl.Some? && w.ttl.value != 0 then Some(Elapsed(ops[..origin.value]) + 1000 * w.ttl.value)
                              else None;
              key in Run(EMPTY, ops).entries && Run(EMPTY, ops).entries[key] == Entry(Reloaded(w.value), deadline)
  {
    if ops != [] {
      var n := |ops| - 1;
      EntryIsLastWrite(ops[..n], key);
      ClockIsElapsed(ops[..n]);
      var origin := Origin(ops, key);
      if origin.Some? && origin.value < n {
        assert ops[..n][..origin.value] == ops[..origin.value];
      }
    }
  }

  /** Freshness, over every history: a value other than null is served for a key exactly when the last
      operation on the key wrote it and less than its time-out, if it has one, has passed since. */
  lemma ServedExactly(ops: seq<Op>, key: string, v: Value)
    requires v != Null
    ensures Served(Run(EMPTY, ops), key) == v <==>
            exists i: nat :: && LastWrite(ops, key, i)
                        && v == (if ops[i].value.Object? then Json(ops[i].value.text) else ops[i].value)
                        && (ops[i].ttl.Some? && ops[i].ttl.value != 0 ==>
                              Elapsed(ops) - Elapsed(ops[..i]) < 1000 * ops[i].ttl.value)
  {
    EntryIsLastWrite(ops, key);
    ClockIsElapsed(ops);
    forall i: nat ensures Origin(ops, key) == Some(i) <==> LastWrite(ops, key, i) {
      OriginIsLastWrite(ops, key, i);
    }
  }

  /** So with one time-out of T seconds for every write to a key, nothing older than T is served. */
  lemma NothingStale(ops: seq<Op>, key: string, T: int) returns (i: nat)
    requires T > 0 && forall i | 0 <= i < |ops| && ops[i].Write? && ops[i].key == key :: ops[i].ttl == Some(T)
    requires Served(Run(EMPTY, ops), key) != Null
    ensures i < |ops| && ops[i].Write? && ops[i].key == key && ops[i].value != Null
    ensures Served(Run(EMPTY, ops), key) == if ops[i].value.Object? then Json(ops[i].value.text) else ops[i].value
    ensures Elapsed(ops) - Elapsed(ops[..i]) < 1000 * T
  {
    var v := Served(Run(EMPTY, ops), key);
    ServedExactly(ops, key, v);
    i :| && LastWrite(ops, key, i) && v == Reloaded(ops[i].value)
         && (ops[i].ttl.Some? && ops[i].ttl.value != 0 ==> Elapsed(ops) - Elapsed(ops[..i]) < 1000 * ops[i].ttl.value);
  }

  // ----- The manager

  /** What one Redis command does: it works, it fails, or it fails after taking effect. */
  datatype Reply = Done | Failed | FailedAfterEffect

  class CacheManager {
    var store: Store

    constructor ()
      ensures store == EMPTY
    {
      store := EMPTY;
    }

    /** Every failure reads as a miss. */
    method Get(key: string, reply: Reply) returns (value: Value)
      ensures value == if reply.Done? then Served(store, key) else Null
    {
      if !reply.Done? {
        return Null;
      }
      if key !in store.entries {
        return Null;
      }
      var e := store.entries[key];
      if e.deadline.Some? && store.now >= e.deadline.value {
        return Null;
      }
      value := e.value;
    }

    /** Redis refuses a negative expire time.  `True` means stored; `False` leaves the store alone unless the
        answer was lost on the way back. */
    method Set(key: string, value: Value, ttl: Option<int>, reply: Reply) returns (ok: bool)
      modifies this
      ensures ok <==> reply.Done? && (ttl.None? || ttl.value >= 0)
      ensures (ttl.Some? && ttl.value < 0) || reply.Failed? ==> store == old(store)
      ensures (ttl.None? || ttl.value >= 0) && !reply.Failed? ==> store == Apply(old(store), Write(key, value, ttl))
    {
      if ttl.Some? && ttl.value != 0 {
        if reply.Failed? || ttl.value < 0 {
          return false;
        }
        store := store.(entries := store.entries[key := Entry(Reloaded(value), Some(store.now + 1000 * ttl.value))]);
      } else {
        if reply.Failed? {
          return false;
        }
        store := store.(entries := store.entries[key := Entry(Reloaded(value), None)]);
      }
      ok := reply.Done?;
    }

    method Delete(key: string, reply: Reply) returns (ok: bool)
      modifies this
      ensures ok <==> reply.Done?
      ensures store == if reply.Failed? then old(store) else Apply(old(store), Erase(key))
    {
      if reply.Failed? {
        return false;
      }
      store := store.(entries := store.entries - {key});
      ok := reply.Done?;
    }

    /** `get_or_set`, with `made` what the factory returns.  A stored value is served as it stands and
        nothing is written; otherwise, and whenever the store fails, the result is the factory's own.
        `None` therefore only ever comes from the factory. */
    method GetOrSet(key: string, made: Value, ttl: Option<int>, read: Reply, write: Reply) returns (value: Value, cached: bool)
      modifies this
      ensures cached <==> read.Done? && Served(old(store), key) != Null
      ensures cached ==> value == Served(old(store), key) && value != Null && store == old(store)
      ensures !cached ==> value == made
      ensures !cached ==>
                store == if (ttl.None? || ttl.value >= 0) && !write.Failed? then Apply(old(store), Write(key, made, ttl))
                         else old(store)
    {
      value := Get(key, read);
      cached := value != Null;
      if cached {
        return;
      }
      value := made;
      var _ := Set(key, value, ttl, write);
    }
  }
}
