/** The Redis lock: many handles, one key, one clock.

    The first half is the protocol as an interleaved step system, one Redis command or one clock
    move a step; the second half is `DistributedLock` itself, whose methods run those commands
    while other clients act at every `await`.  The clock counts milliseconds.  Tokens are fresh
    and the two Lua scripts are atomic. */
module DistributedLock {
  import opened Common

  const MS_PER_SECOND := 1000

  type Token = nat

  datatype Entry<+V> = Entry(value: V, expiresAt: int)

  // ----- Redis commands on one key

  /** What `GET` sees: an expired entry is gone. */
  function Live<V>(stored: Option<Entry<V>>, now: int): (r: Option<Entry<V>>) {
    if stored.Some? && now < stored.value.expiresAt then stored else None
  }

  predicate Owns(stored: Option<Entry<Token>>, now: int, token: Token) {
    Live(stored, now).Some? && stored.value.value == token
  }

  /** `SET key token EX ttl NX` */
  function AfterSetNx(stored: Option<Entry<Token>>, now: int, token: Token, ttlSeconds: int): Option<Entry<Token>> {
    if Live(stored, now).Some? then stored else Some(Entry(token, now + ttlSeconds * MS_PER_SECOND))
  }

  /** The release script: delete the key only while it holds our token. */
  function AfterRelease(stored: Option<Entry<Token>>, now: int, token: Token): Option<Entry<Token>> {
    if Owns(stored, now, token) then None else stored
  }

  /** `TTL` answers in whole seconds; rounding may go either way. */
  predicate TtlReply(stored: Option<Entry<Token>>, now: int, reply: int) {
    Live(stored, now).Some? ==>
      && reply >= 0
      && -MS_PER_SECOND < reply * MS_PER_SECOND - (stored.value.expiresAt - now) < MS_PER_SECOND
  }

  predicate Extends(stored: Option<Entry<Token>>, now: int, token: Token, reply: int) {
    Owns(stored, now, token) && reply > 0
  }

  /** The extend script: `EXPIRE key (ttl + additional)`; a lifetime that is not positive deletes the key. */
  function AfterExtend(stored: Option<Entry<Token>>, now: int, token: Token, reply: int, additional: int)
    : Option<Entry<Token>>
  {
    if !Extends(stored, now, token, reply) then stored
    else if reply + additional <= 0 then None
    else Some(Entry(token, now + (reply + additional) * MS_PER_SECOND))
  }

  /** The cooldown marker holds whole seconds and lives for twice the cooldown. */
  function Marker(now: int, cooldownSeconds: int): Entry<int> {
    Entry(now / MS_PER_SECOND, now + cooldownSeconds * 2 * MS_PER_SECOND)
  }

  predicate InCooldown(marker: Option<Entry<int>>, now: int, cooldownSeconds: int) {
    && cooldownSeconds > 0
    && Live(marker, now).Some?
    && now / MS_PER_SECOND - marker.value.value < cooldownSeconds
  }

  // ----- The protocol

  datatype Config = Config(ttlSeconds: int, maxRetries: int, cooldownSeconds: int)

  datatype Pc = Idle | Trying(attempts: nat) | Stamping

  /** The right to be in the critical section, as its holder knows it. */
  datatype Lease = Lease(token: Token, until: int)

  datatype Handle = Handle(config: Config, token: Option<Token>, pc: Pc, section: Option<Lease>)

  datatype State = State(
    now: int, stored: Option<Entry<Token>>, marker: Option<Entry<int>>,
    issued: set<Token>, handles: map<nat, Handle>)

  datatype Step =
    | Tick(ms: nat)
    | Begin(h: nat, token: Token)              // acquire: cooldown passed, token drawn
    | Refuse(h: nat)                           // acquire: still in cooldown
    | TrySet(h: nat)
    | GiveUp(h: nat)
    | Stamp(h: nat)
    | Release(h: nat)
    | Extend(h: nat, additional: int, reply: int)
    | Leave(h: nat)                            // the section ends without a release

  predicate ByHandle(step: Step, h: nat) {
    !step.Tick? && step.h == h
  }

  predicate Enabled(s: State, step: Step) {
    && (step.Tick? || step.h in s.handles)
    && match step
       case Tick(_) => true
       case Begin(h, token) =>
         s.handles[h].pc.Idle? && token !in s.issued && !InCooldown(s.marker, s.now, s.handles[h].config.cooldownSeconds)
       case Refuse(h) => s.handles[h].pc.Idle? && InCooldown(s.marker, s.now, s.handles[h].config.cooldownSeconds)
       case TrySet(h) => s.handles[h].pc.Trying? && s.handles[h].pc.attempts <= s.handles[h].config.maxRetries
       case GiveUp(h) => s.handles[h].pc.Trying? && s.handles[h].pc.attempts > s.handles[h].config.maxRetries
       case Stamp(h) => s.handles[h].pc.Stamping?
       case Release(h) => s.handles[h].pc.Idle?
       case Extend(h, _, reply) => TtlReply(s.stored, s.now, reply)
       case Leave(h) => true
  }

  function Apply(s: State, step: Step): State
    requires Enabled(s, step)
  {
    match step
    case Tick(ms) => s.(now := s.now + ms)
    case Begin(h, token) =>
      s.(issued := s.issued + {token}, handles := s.handles[h := s.handles[h].(token := Some(token), pc := Trying(0))])
    case Refuse(h) => s
    case TrySet(h) =>
      var me := s.handles[h];
      if me.token.None? then s
      else if Live(s.stored, s.now).Some? then
        s.(handles := s.handles[h := me.(pc := Trying(me.pc.attempts + 1))])
      else
        var stored := AfterSetNx(s.stored, s.now, me.token.value, me.config.ttlSeconds);
        s.(stored := stored,
           handles := s.handles[h := me.(pc := if me.config.cooldownSeconds > 0 then Stamping else Idle,
                                         section := Some(Lease(me.token.value, stored.value.expiresAt)))])
    case GiveUp(h) => s.(handles := s.handles[h := s.handles[h].(pc := Idle)])
    case Stamp(h) =>
      s.(marker := Some(Marker(s.now, s.handles[h].config.cooldownSeconds)),
         handles := s.handles[h := s.handles[h].(pc := Idle)])
    case Release(h) =>
      var me := s.handles[h];
      s.(stored := if me.token.Some? then AfterRelease(s.stored, s.now, me.token.value) else s.stored,
         handles := s.handles[h := me.(token := None, section := None)])
    case Extend(h, additional, reply) =>
      var me := s.handles[h];
      if me.token.None? || !Extends(s.stored, s.now, me.token.value, reply) then s
      else
        var stored := AfterExtend(s.stored, s.now, me.token.value, reply, additional);
        s.(stored := stored,
           handles := s.handles[h := if me.section.Some? && me.section.value.token == me.token.value then
                                       me.(section := Some(Lease(me.token.value,
                                             if stored.Some? then stored.value.expiresAt else s.now)))
                                     else me])
    case Leave(h) => s.(handles := s.handles[h := s.handles[h].(section := None)])
  }

  /** Redis refuses a lifetime that is not positive. */
  ghost predicate Init(s: State) {
    && s.stored.None? && s.marker.None? && s.issued == {}
    && forall h | h in s.handles ::
         s.handles[h].config.ttlSeconds > 0 && s.handles[h].token.None?
         && s.handles[h].pc.Idle? && s.handles[h].section.None?
  }

  /** A run: any interleaving of enabled steps. */
  ghost predicate IsRun(trace: seq<State>, steps: seq<Step>) {
    && |trace| == |steps| + 1
    && Init(trace[0])
    && forall i | 0 <= i < |steps| :: Enabled(trace[i], steps[i]) && trace[i + 1] == Apply(trace[i], steps[i])
  }

  /** `t` is a token this handle drew: the one it would release with, or the one it entered with. */
  ghost predicate Drew(me: Handle, t: Token) {
    me.token == Some(t) || (me.section.Some? && me.section.value.token == t)
  }

  /** A lease that has not run out is the stored entry itself. */
  ghost predicate LeaseBacked(s: State, me: Handle) {
    me.section.Some? ==>
      var lease := me.section.value;
      && (s.now < lease.until ==> s.stored == Some(Entry(lease.token, lease.until)))
      && (s.stored.Some? && s.stored.value.value == lease.token ==> s.stored.value.expiresAt == lease.until)
  }

  ghost predicate HandleInv(s: State, me: Handle) {
    && me.config.ttlSeconds > 0
    && (forall t | Drew(me, t) :: t in s.issued)
    && (!me.pc.Idle? ==> me.token.Some?)
    && (me.pc.Trying? ==> me.pc.attempts == 0 || me.pc.attempts <= me.config.maxRetries + 1)
    && LeaseBacked(s, me)
  }

  ghost predicate Inv(s: State) {
    && (s.stored.Some? ==> s.stored.value.value in s.issued)
    && (forall h | h in s.handles :: HandleInv(s, s.handles[h]))
    && (forall g, h, t | g in s.handles && h in s.handles && Drew(s.handles[g], t) && Drew(s.handles[h], t) :: g == h)
  }

  /** The only new token a step brings into play is the one an acquire draws. */
  lemma DrewStep(s: State, step: Step, g: nat, t: Token)
    requires Inv(s) && Enabled(s, step) && g in s.handles
    requires Drew(Apply(s, step).handles[g], t)
    ensures Drew(s.handles[g], t) || step == Begin(g, t)
  {
  }

  /** A step leaves every other handle alone, and changes the stored entry only by letting an
      unheld key be taken or by acting on the stepping handle's own token. */
  lemma StoredStep(s: State, step: Step)
    requires Inv(s) && Enabled(s, step)
    ensures var s' := Apply(s, step);
            && s'.handles.Keys == s.handles.Keys
            && s'.now == s.now + (if step.Tick? then step.ms else 0)
            && (forall g | g in s.handles && !ByHandle(step, g) :: s'.handles[g] == s.handles[g])
            && (s'.stored == s.stored ||
                (&& !step.Tick? && s.handles[step.h].token.Some?
                 && (Live(s.stored, s.now).Some? ==> s.stored.value.value == s.handles[step.h].token.value)
                 && (s'.stored.Some? ==> s'.stored.value.value == s.handles[step.h].token.value)))
  {
  }

  lemma OtherHandleStep(s: State, step: Step, g: nat)
    requires Inv(s) && Enabled(s, step) && g in s.handles && !ByHandle(step, g)
    ensures HandleInv(Apply(s, step), s.handles[g])
  {
    StoredStep(s, step);
    var s' := Apply(s, step);
    var me := s.handles[g];
    assert HandleInv(s, me);
    if me.section.Some? {
      var t := me.section.value.token;
      assert Drew(me, t);
      if s'.stored != s.stored {
        var u := s.handles[step.h].token.value;
        assert Drew(s.handles[step.h], u);
        assert t != u;
      }
    }
  }

  lemma OwnHandleStep(s: State, step: Step, h: nat)
    requires Inv(s) && Enabled(s, step) && h in s.handles && ByHandle(step, h)
    ensures HandleInv(Apply(s, step), Apply(s, step).handles[h])
  {
    var s' := Apply(s, step);
    var me, me' := s.handles[h], s'.handles[h];
    assert HandleInv(s, me);
    forall t | Drew(me', t) ensures t in s'.issued {
      DrewStep(s, step, h, t);
    }
  }

  lemma InvStep(s: State, step: Step)
    requires Inv(s) && Enabled(s, step)
    ensures Inv(Apply(s, step))
  {
    var s' := Apply(s, step);
    StoredStep(s, step);
    if s'.stored.Some? && s'.stored != s.stored {
      assert Drew(s.handles[step.h], s.handles[step.h].token.value);
    }
    forall h | h in s'.handles ensures HandleInv(s', s'.handles[h]) {
      if ByHandle(step, h) { OwnHandleStep(s, step, h); } else { OtherHandleStep(s, step, h); }
    }
    forall g, h, t | g in s'.handles && h in s'.handles && Drew(s'.handles[g], t) && Drew(s'.handles[h], t) ensures g == h {
      DrewStep(s, step, g, t);
      DrewStep(s, step, h, t);
    }
  }

  lemma {:induction false} InvAlways(trace: seq<State>, steps: seq<Step>, i: nat)
    requires IsRun(trace, steps) && i < |trace|
    ensures Inv(trace[i])
  {
    if i > 0 {
      InvAlways(trace, steps, i - 1);
      InvStep(trace[i - 1], steps[i - 1]);
    }
  }

  // ----- What the protocol guarantees

  /** The live stored value is this handle's token. */
  ghost predicate Holds(s: State, h: nat) {
    h in s.handles && s.handles[h].token.Some? && Owns(s.stored, s.now, s.handles[h].token.value)
  }

  ghost predicate Inside(s: State, h: nat) {
    h in s.handles && s.handles[h].section.Some?
  }

  /** Everyone in the critical section is there within the lease they were given. */
  ghost predicate Punctual(s: State) {
    forall h | Inside(s, h) :: s.now < s.handles[h].section.value.until
  }

  /** In every interleaving at most one handle's token matches the live value. */
  lemma AtMostOneHolder(trace: seq<State>, steps: seq<Step>, i: nat, g: nat, h: nat)
    requires IsRun(trace, steps) && i < |trace|
    requires Holds(trace[i], g) && Holds(trace[i], h)
    ensures g == h
  {
    InvAlways(trace, steps, i);
    assert Drew(trace[i].handles[g], trace[i].stored.value.value);
    assert Drew(trace[i].handles[h], trace[i].stored.value.value);
  }

  /** While a handle holds the key, nobody else's step, and no clock move, changes the entry. */
  lemma OthersNeverTouchAHeldKey(trace: seq<State>, steps: seq<Step>, i: nat, h: nat)
    requires IsRun(trace, steps) && i < |steps|
    requires Holds(trace[i], h) && !ByHandle(steps[i], h)
    ensures trace[i + 1].stored == trace[i].stored && trace[i + 1].handles[h].token == trace[i].handles[h].token
  {
    InvAlways(trace, steps, i);
    var s, step := trace[i], steps[i];
    StoredStep(s, step);
    if Apply(s, step).stored != s.stored {
      assert Drew(s.handles[h], s.stored.value.value) && Drew(s.handles[step.h], s.stored.value.value);
    }
  }

  /** A release or extend that comes after the lease lapsed or went to another leaves the entry as it
      is, and changes no section but the caller's own. */
  lemma LateCallsAreHarmless(trace: seq<State>, steps: seq<Step>, i: nat)
    requires IsRun(trace, steps) && i < |steps| && (steps[i].Release? || steps[i].Extend?)
    requires !Holds(trace[i], steps[i].h)
    ensures trace[i + 1].stored == trace[i].stored
    ensures forall g | g in trace[i].handles && g != steps[i].h :: trace[i + 1].handles[g] == trace[i].handles[g]
  {
    InvAlways(trace, steps, i);
    StoredStep(trace[i], steps[i]);
  }

  /** Mutual exclusion: while every holder is within its lease, no two are inside together. */
  lemma MutualExclusion(trace: seq<State>, steps: seq<Step>, i: nat, g: nat, h: nat)
    requires IsRun(trace, steps) && i < |trace| && Punctual(trace[i])
    requires Inside(trace[i], g) && Inside(trace[i], h)
    ensures g == h
  {
    InvAlways(trace, steps, i);
    var s := trace[i];
    assert LeaseBacked(s, s.handles[g]) && LeaseBacked(s, s.handles[h]);
    assert Drew(s.handles[g], s.stored.value.value) && Drew(s.handles[h], s.stored.value.value);
  }

  /** Being late is the only way in for a second handle: whoever enters finds nobody inside on time. */
  lemma EntryFindsSectionEmpty(trace: seq<State>, steps: seq<Step>, i: nat, h: nat)
    requires IsRun(trace, steps) && i < |steps|
    requires steps[i] == TrySet(h) && trace[i + 1].stored != trace[i].stored
    ensures forall g | Inside(trace[i], g) :: trace[i].handles[g].section.value.until <= trace[i].now
  {
    InvAlways(trace, steps, i);
    StoredStep(trace[i], steps[i]);
    var s := trace[i];
    forall g | Inside(s, g) ensures s.handles[g].section.value.until <= s.now {
      assert LeaseBacked(s, s.handles[g]);
    }
  }

  /** `is_locked` on the protocol's key. */
  predicate Locked(s: State) {
    Live(s.stored, s.now).Some?
  }

  /** A handle that tries the key enters exactly when the key is not locked: it then holds the key and is
      inside for a full lifetime; otherwise it has only used up an attempt. */
  lemma EntersExactlyWhenUnlocked(trace: seq<State>, steps: seq<Step>, i: nat, h: nat)
    requires IsRun(trace, steps) && i < |steps| && steps[i] == TrySet(h)
    ensures var s, s' := trace[i], trace[i + 1];
            && (!Locked(s) <==> s'.stored != s.stored)
            && (!Locked(s) ==> Locked(s') && Holds(s', h) && Inside(s', h)
                               && s'.handles[h].section.value.until == s.now + s.handles[h].config.ttlSeconds * MS_PER_SECOND)
            && (Locked(s) ==> s'.handles == s.handles[h := s.handles[h].(pc := Trying(s.handles[h].pc.attempts + 1))])
  {
    InvAlways(trace, steps, i);
    assert HandleInv(trace[i], trace[i].handles[h]);
    assert trace[i + 1] == Apply(trace[i], steps[i]);
  }

  lemma {:induction false} SomeToken(issued: set<Token>) returns (token: Token)
    ensures token !in issued && forall t | t in issued :: t < token
  {
    token := 0;
    if issued != {} {
      var t :| t in issued;
      token := SomeToken(issued - {t});
      token := if t < token then token else t + 1;
      assert forall u | u in issued :: u == t || u in issued - {t};
    }
  }

  /** No handle is ever stuck: an idle one can begin with a token nobody has drawn, or is refused by the
      cooldown, never both; one in the loop tries or gives up; a stamp can always be written; and a release,
      an extension or the end of a section waits for no one. */
  lemma NoHandleStuck(s: State, h: nat, additional: int, reply: int)
    requires h in s.handles
    ensures s.handles[h].pc.Idle? ==>
              && Enabled(s, Release(h))
              && ((exists token :: Enabled(s, Begin(h, token))) <==> !Enabled(s, Refuse(h)))
    ensures s.handles[h].pc.Trying? ==> (Enabled(s, TrySet(h)) <==> !Enabled(s, GiveUp(h)))
    ensures s.handles[h].pc.Stamping? ==> Enabled(s, Stamp(h))
    ensures Enabled(s, Leave(h)) && (TtlReply(s.stored, s.now, reply) ==> Enabled(s, Extend(h, additional, reply)))
  {
    var token := SomeToken(s.issued);
    if s.handles[h].pc.Idle? && !Enabled(s, Refuse(h)) {
      assert Enabled(s, Begin(h, token));
    }
  }

  /** The key is locked while anyone holds it, and while anyone is inside on time. */
  lemma LockedWhileHeld(trace: seq<State>, steps: seq<Step>, i: nat, h: nat)
    requires IsRun(trace, steps) && i < |trace|
    requires Holds(trace[i], h) || (Inside(trace[i], h) && trace[i].now < trace[i].handles[h].section.value.until)
    ensures Locked(trace[i])
  {
    InvAlways(trace, steps, i);
    assert LeaseBacked(trace[i], trace[i].handles[h]);
  }

  /** A release by the holder frees the key and takes the handle out of the section. */
  lemma ReleaseFreesTheKey(trace: seq<State>, steps: seq<Step>, i: nat, h: nat)
    requires IsRun(trace, steps) && i < |steps| && steps[i] == Release(h) && Holds(trace[i], h)
    ensures trace[i + 1].stored.None? && !Inside(trace[i + 1], h) && trace[i + 1].handles[h].token.None?
  {
    assert trace[i + 1] == Apply(trace[i], steps[i]);
  }

  /** An extend by the holder, TTL answering a positive number, ends the lease that number and the
      additional seconds from now, for the key and for the holder inside alike. */
  lemma ExtendRenewsTheLease(trace: seq<State>, steps: seq<Step>, i: nat, h: nat, additional: int, reply: int)
    requires IsRun(trace, steps) && i < |steps| && steps[i] == Extend(h, additional, reply)
    requires Holds(trace[i], h) && reply > 0 && reply + additional > 0
    ensures var token, until := trace[i].handles[h].token.value, trace[i].now + (reply + additional) * MS_PER_SECOND;
            && trace[i + 1].stored == Some(Entry(token, until))
            && (Inside(trace[i], h) && trace[i].handles[h].section.value.token == token ==>
                  trace[i + 1].handles[h].section == Some(Lease(token, until)))
  {
    assert trace[i + 1] == Apply(trace[i], steps[i]);
  }

  /** A successful extend by at least a second never brings the end of the lease nearer. */
  lemma ExtendNeverShortens(stored: Option<Entry<Token>>, now: int, token: Token, reply: int, additional: int)
    requires TtlReply(stored, now, reply) && Extends(stored, now, token, reply) && additional >= 1
    ensures var after := AfterExtend(stored, now, token, reply, additional);
            after.Some? && after.value.value == token && after.value.expiresAt > stored.value.expiresAt
  {
  }

  /** A token a handle has let go of never comes back to any handle. */
  lemma {:induction false} LostTokenStaysLost(trace: seq<State>, steps: seq<Step>, i: nat, k: nat, h: nat, token: Token)
    requires IsRun(trace, steps) && i <= k < |trace|
    requires h in trace[i].handles && token in trace[i].issued && trace[i].handles[h].token != Some(token)
    ensures h in trace[k].handles && token in trace[k].issued && trace[k].handles[h].token != Some(token)
    decreases k
  {
    if i < k {
      LostTokenStaysLost(trace, steps, i, k - 1, h, token);
      assert trace[k] == Apply(trace[k - 1], steps[k - 1]);
    }
  }

  /** Calling `acquire` again on a handle that holds the key draws a new token, so the handle can no
      longer release or extend the entry it entered with: only the TTL frees the key. */
  lemma ReacquireForfeitsRelease(trace: seq<State>, steps: seq<Step>, i: nat, k: nat, h: nat, token: Token)
    requires IsRun(trace, steps) && i < k < |steps|
    requires Holds(trace[i], h) && steps[i] == Begin(h, token)
    requires ByHandle(steps[k], h) && (steps[k].Release? || steps[k].Extend?)
    requires trace[k].stored == trace[i].stored
    ensures trace[k + 1].stored == trace[k].stored
  {
    InvAlways(trace, steps, i);
    assert Drew(trace[i].handles[h], trace[i].stored.value.value);
    assert trace[i + 1] == Apply(trace[i], steps[i]);
    LostTokenStaysLost(trace, steps, i + 1, k, h, trace[i].stored.value.value);
    assert trace[k + 1] == Apply(trace[k], steps[k]);
  }

  // ----- Cooldown, when all handles of the key share one

  ghost predicate SharedCooldown(s: State, cooldownSeconds: int) {
    forall h | h in s.handles :: s.handles[h].config.cooldownSeconds == cooldownSeconds
  }

  /** The clock never runs back, and handles keep their configuration. */
  lemma {:induction false} RunMonotone(trace: seq<State>, steps: seq<Step>, i: nat, j: nat)
    requires IsRun(trace, steps) && i <= j < |trace|
    ensures trace[i].now <= trace[j].now && trace[i].handles.Keys == trace[j].handles.Keys
    ensures forall h | h in trace[i].handles :: trace[j].handles[h].config == trace[i].handles[h].config
    decreases j
  {
    if i < j {
      RunMonotone(trace, steps, i, j - 1);
      assert trace[j] == Apply(trace[j - 1], steps[j - 1]);
    }
  }

  /** After a stamp the marker always holds a stamp no older. */
  lemma {:induction false} MarkerRemembers(trace: seq<State>, steps: seq<Step>, i: nat, j: nat, cooldownSeconds: int)
    requires IsRun(trace, steps) && i < j < |trace| && steps[i].Stamp? && SharedCooldown(trace[0], cooldownSeconds)
    ensures exists at :: trace[i].now <= at <= trace[j].now && trace[j].marker == Some(Marker(at, cooldownSeconds))
    decreases j
  {
    RunMonotone(trace, steps, 0, j - 1);
    RunMonotone(trace, steps, j - 1, j);
    assert trace[j] == Apply(trace[j - 1], steps[j - 1]);
    if i < j - 1 {
      MarkerRemembers(trace, steps, i, j - 1, cooldownSeconds);
    }
    if steps[j - 1].Stamp? {
      RunMonotone(trace, steps, i, j - 1);
      assert trace[j].marker == Some(Marker(trace[j - 1].now, cooldownSeconds));
    }
  }

  /** The doubled lifetime: a marker that has expired would have let the check pass anyway. */
  lemma MarkerOutlivesCheck(at: int, now: int, cooldownSeconds: int)
    requires cooldownSeconds > 0
    ensures InCooldown(Some(Marker(at, cooldownSeconds)), now, cooldownSeconds)
       <==> now / MS_PER_SECOND - at / MS_PER_SECOND < cooldownSeconds
  {
  }

  /** In every interleaving, whoever passes the cooldown check after a stamp does so a whole cooldown later
      on the seconds clock. */
  lemma CheckWaitsOutTheStamp(trace: seq<State>, steps: seq<Step>, i: nat, j: nat, cooldownSeconds: int)
    requires IsRun(trace, steps) && SharedCooldown(trace[0], cooldownSeconds) && cooldownSeconds > 0
    requires i < j < |steps| && steps[i].Stamp? && steps[j].Begin?
    ensures trace[j].now / MS_PER_SECOND - trace[i].now / MS_PER_SECOND >= cooldownSeconds
  {
    MarkerRemembers(trace, steps, i, j, cooldownSeconds);
    RunMonotone(trace, steps, 0, j);
    var at :| trace[i].now <= at <= trace[j].now && trace[j].marker == Some(Marker(at, cooldownSeconds));
    MarkerOutlivesCheck(at, trace[j].now, cooldownSeconds);
  }

  /** From step `i` on a handle acquires without interruption and at its first attempt. */
  ghost predicate AcquiresAt(steps: seq<Step>, i: nat) {
    && i + 2 < |steps| && steps[i].Begin? && steps[i + 1] == TrySet(steps[i].h) && steps[i + 2] == Stamp(steps[i].h)
  }

  /** Two uninterrupted acquisitions of a key are a whole cooldown apart on the seconds clock, so in real
      time they are more than `cooldown - 1` seconds apart, whatever the other handles do. */
  lemma CooldownSpacing(trace: seq<State>, steps: seq<Step>, i: nat, j: nat, cooldownSeconds: int)
    requires IsRun(trace, steps) && SharedCooldown(trace[0], cooldownSeconds) && cooldownSeconds > 0
    requires i < j && AcquiresAt(steps, i) && AcquiresAt(steps, j)
    ensures trace[j].now / MS_PER_SECOND - trace[i].now / MS_PER_SECOND >= cooldownSeconds
    ensures trace[j].now - trace[i].now > (cooldownSeconds - 1) * MS_PER_SECOND
  {
    assert j > i + 2;
    assert trace[i + 1] == Apply(trace[i], steps[i]) && trace[i + 2] == Apply(trace[i + 1], steps[i + 1]);
    CheckWaitsOutTheStamp(trace, steps, i + 2, j, cooldownSeconds);
  }

  /** Exactly when the check passes before a full cooldown of real time is over: the second boundary falls
      between, and the later instant is earlier within its second. */
  lemma CooldownCutShortExactly(first: int, second: int, cooldownSeconds: int)
    requires cooldownSeconds > 0 && first <= second
    ensures !InCooldown(Some(Marker(first, cooldownSeconds)), second, cooldownSeconds)
              && second - first < cooldownSeconds * MS_PER_SECOND <==>
            second / MS_PER_SECOND - first / MS_PER_SECOND == cooldownSeconds
              && second % MS_PER_SECOND < first % MS_PER_SECOND
  {
    MarkerOutlivesCheck(first, second, cooldownSeconds);
  }

  lemma OneMore(trace: seq<State>, steps: seq<Step>, step: Step, s: State)
    requires IsRun(trace, steps) && Enabled(trace[|steps|], step) && s == Apply(trace[|steps|], step)
    ensures IsRun(trace + [s], steps + [step])
  {
  }

  /** A handle with a one-second cooldown, alone with its key. */
  function Alone(now: int, stored: Option<Entry<Token>>, marker: Option<Entry<int>>, issued: set<Token>,
                 token: Option<Token>, pc: Pc, section: Option<Lease>): State
  {
    State(now, stored, marker, issued, map[0 := Handle(Config(300, 0, 1), token, pc, section)])
  }

  lemma AcquireAlone(trace: seq<State>, steps: seq<Step>, now: int, marker: Option<Entry<int>>, issued: set<Token>, t: Token)
    returns (longer: seq<State>)
    requires IsRun(trace, steps) && trace[|steps|] == Alone(now, None, marker, issued, None, Idle, None)
    requires t !in issued && !InCooldown(marker, now, 1)
    ensures IsRun(longer, steps + [Begin(0, t), TrySet(0), Stamp(0)]) && trace <= longer
    ensures longer[|steps| + 3] ==
            Alone(now, Some(Entry(t, now + 300000)), Some(Marker(now, 1)), issued + {t}, Some(t), Idle, Some(Lease(t, now + 300000)))
  {
    var entry, lease := Some(Entry(t, now + 300000)), Some(Lease(t, now + 300000));
    var s1 := Alone(now, None, marker, issued + {t}, Some(t), Trying(0), None);
    var s2 := Alone(now, entry, marker, issued + {t}, Some(t), Stamping, lease);
    var s3 := Alone(now, entry, Some(Marker(now, 1)), issued + {t}, Some(t), Idle, lease);
    OneMore(trace, steps, Begin(0, t), s1);
    OneMore(trace + [s1], steps + [Begin(0, t)], TrySet(0), s2);
    OneMore(trace + [s1] + [s2], steps + [Begin(0, t)] + [TrySet(0)], Stamp(0), s3);
    longer := trace + [s1] + [s2] + [s3];
    assert steps + [Begin(0, t)] + [TrySet(0)] + [Stamp(0)] == steps + [Begin(0, t), TrySet(0), Stamp(0)];
  }

  lemma ReleaseAlone(
    trace: seq<State>, steps: seq<Step>, now: int, marker: Option<Entry<int>>, issued: set<Token>, t: Token, until: int, ms: nat)
    returns (longer: seq<State>)
    requires IsRun(trace, steps) && now < until
    requires trace[|steps|] == Alone(now, Some(Entry(t, until)), marker, issued, Some(t), Idle, Some(Lease(t, until)))
    ensures IsRun(longer, steps + [Release(0), Tick(ms)]) && trace <= longer
    ensures longer[|steps| + 2] == Alone(now + ms, None, marker, issued, None, Idle, None)
  {
    var s1, s2 := Alone(now, None, marker, issued, None, Idle, None), Alone(now + ms, None, marker, issued, None, Idle, None);
    OneMore(trace, steps, Release(0), s1);
    OneMore(trace + [s1], steps + [Release(0)], Tick(ms), s2);
    longer := trace + [s1] + [s2];
    assert steps + [Release(0)] + [Tick(ms)] == steps + [Release(0), Tick(ms)];
  }

  /** With a one-second cooldown a handle can acquire the key twice within one millisecond. */
  lemma CooldownCutShortExample() returns (trace: seq<State>, steps: seq<Step>)
    ensures IsRun(trace, steps) && SharedCooldown(trace[0], 1)
    ensures AcquiresAt(steps, 0) && AcquiresAt(steps, 5) && trace[5].now - trace[0].now == 1
  {
    trace, steps := [Alone(999, None, None, {}, None, Idle, None)], [];
    trace := AcquireAlone(trace, steps, 999, None, {}, 0);
    steps := steps + [Begin(0, 0), TrySet(0), Stamp(0)];
    trace := ReleaseAlone(trace, steps, 999, Some(Marker(999, 1)), {} + {0}, 0, 300999, 1);
    steps := steps + [Release(0), Tick(1)];
    trace := AcquireAlone(trace, steps, 1000, Some(Marker(999, 1)), {} + {0}, 1);
    steps := steps + [Begin(0, 1), TrySet(0), Stamp(0)];
  }

  // ----- The handle object and the server it talks to

  /** A `SET key token EX ttl NX` as the server received it, with the live entry it found. */
  datatype Received = Received(key: string, token: Token, ttlSeconds: int, at: int, found: Option<Entry<Token>>)

  /** A cooldown marker as the server received it. */
  datatype Stamped = Stamped(key: string, marker: Entry<int>)

  /** The SETs of one `acquire` outside cooldown: for this key, with one token, a delay apart, each but
      the last finding the key taken.  The call succeeds exactly if one found it free, and gives up only
      after `maxRetries + 1` of them. */
  ghost predicate Attempts(sent: seq<Received>, key: string, config: Config, retryDelayMs: nat, acquired: bool) {
    && (forall i | 0 <= i < |sent| ::
          sent[i].key == key && sent[i].token == sent[0].token && sent[i].ttlSeconds == config.ttlSeconds)
    && (forall i, j | 0 <= i && j == i + 1 && j < |sent| ::
          sent[i].found.Some? && sent[j].at >= sent[i].at + retryDelayMs)
    && (acquired <==> exists i :: 0 <= i < |sent| && sent[i].found.None?)
    && (!acquired ==> |sent| == if config.maxRetries >= 0 then config.maxRetries + 1 else 0)
    && (sent == [] || |sent| <= config.maxRetries + 1)
  }

  /** SETs that all found the key taken, the next one being a delay away if there is to be one. */
  ghost predicate AllTaken(
    sent: seq<Received>, key: string, token: Token, ttlSeconds: int, retryDelayMs: nat, now: int, more: bool)
  {
    && (forall i | 0 <= i < |sent| ::
          sent[i].key == key && sent[i].token == token && sent[i].ttlSeconds == ttlSeconds && sent[i].found.Some?)
    && (forall i, j | 0 <= i && j == i + 1 && j < |sent| :: sent[j].at >= sent[i].at + retryDelayMs)
    && (more && sent != [] ==> now >= sent[|sent| - 1].at + retryDelayMs)
  }

  lemma OneMoreSet(
    sent: seq<Received>, last: Received, key: string, token: Token, config: Config, retryDelayMs: nat, now: int)
    requires |sent| <= config.maxRetries && last.at == now
    requires last.key == key && last.token == token && last.ttlSeconds == config.ttlSeconds
    requires exists earlier | earlier <= now :: AllTaken(sent, key, token, config.ttlSeconds, retryDelayMs, earlier, true)
    ensures last.found.Some? ==> AllTaken(sent + [last], key, token, config.ttlSeconds, retryDelayMs, now, false)
    ensures last.found.None? ==> Attempts(sent + [last], key, config, retryDelayMs, true)
  {
    if last.found.None? {
      assert (sent + [last])[|sent|].found.None?;
    }
  }

  class Redis {
    var clock: int
    ghost var received: seq<Received>      // the SETs this client has sent
    ghost var stamps: seq<Stamped>         // and the markers
    var locks: map<string, Entry<Token>>
    var markers: map<string, Entry<int>>   // the `<key>:cooldown` keys
    var issued: set<Token>

    /** Every token in a key was drawn by some client. */
    ghost predicate Valid()
      reads this
    {
      forall k | k in locks :: locks[k].value in issued
    }

    constructor ()
      ensures Valid() && locks == map[] && markers == map[]
    {
      clock, locks, markers, issued, received, stamps := 0, map[], map[], {}, [], [];
    }

    function Stored(key: string): Option<Entry<Token>>
      reads this
    {
      if key in locks then Some(locks[key]) else None
    }

    function StoredMarker(key: string): Option<Entry<int>>
      reads this
    {
      if key in markers then Some(markers[key]) else None
    }

    /** An `await`: time passes and other clients may do anything the protocol lets them, which
        leaves an entry holding the caller's token alone (`OthersNeverTouchAHeldKey`) and never
        writes a token drawn here. */
    method Await(key: string, mine: Token, ms: nat)
      requires Valid()
      modifies this
      ensures Valid()
      ensures clock >= old(clock) + ms && issued >= old(issued) && received == old(received) && stamps == old(stamps)
      ensures Owns(old(Stored(key)), old(clock), mine) && clock < old(Stored(key)).value.expiresAt ==>
                Stored(key) == old(Stored(key))
      ensures Owns(Stored(key), clock, mine) ==> Stored(key) == old(Stored(key))
    {
      clock := clock + ms;
    }

    method DrawToken() returns (token: Token)
      modifies this`issued
      ensures token !in old(issued) && issued == old(issued) + {token}
    {
      token := Unused(issued);
      issued := issued + {token};
    }

    /** `SET key token EX ttl NX` */
    method SetNx(key: string, token: Token, ttlSeconds: int) returns (done: bool)
      requires Valid() && token in issued
      modifies this`locks, this`received
      ensures Valid() && forall k | k != key :: Stored(k) == old(Stored(k))
      ensures var found := if old(Stored(key)).Some? && clock < old(Stored(key)).value.expiresAt then old(Stored(key)) else None;
              && received == old(received) + [Received(key, token, ttlSeconds, clock, found)]
              && (done <==> found.None?)
              && Stored(key) == if done then Some(Entry(token, clock + ttlSeconds * MS_PER_SECOND)) else old(Stored(key))
    {
      received := received + [Received(key, token, ttlSeconds, clock, Live(Stored(key), clock))];
      done := Live(Stored(key), clock).None?;
      if done {
        locks := locks[key := AfterSetNx(Stored(key), clock, token, ttlSeconds).value];
      }
    }

    /** `SET key:cooldown seconds EX twice` */
    method SetMarker(key: string, cooldownSeconds: int)
      modifies this`markers, this`stamps
      ensures var marker := Entry(clock / 1000, clock + cooldownSeconds * 2 * 1000);
              && stamps == old(stamps) + [Stamped(key, marker)] && StoredMarker(key) == Some(marker)
              && forall k | k != key :: StoredMarker(k) == old(StoredMarker(k))
    {
      markers := markers[key := Marker(clock, cooldownSeconds)];
      stamps := stamps + [Stamped(key, markers[key])];
    }

    /** The release script. */
    method DeleteIfOwned(key: string, token: Token) returns (deleted: bool)
      modifies this`locks
      ensures deleted <==> old(Owns(Stored(key), clock, token))
      ensures Stored(key) == if deleted then None else old(Stored(key))
      ensures forall k | k != key :: Stored(k) == old(Stored(k))
    {
      deleted := Owns(Stored(key), clock, token);
      if AfterRelease(Stored(key), clock, token).None? {
        locks := locks - {key};
      }
    }

    /** The extend script, `reply` being what TTL answers inside it. */
    method ExtendIfOwned(key: string, token: Token, additional: int, reply: int) returns (extended: bool)
      modifies this`locks
      ensures extended <==> old(Owns(Stored(key), clock, token)) && reply > 0
      ensures Stored(key) ==
              if !extended then old(Stored(key))
              else if reply + additional <= 0 then None
              else Some(Entry(token, clock + (reply + additional) * MS_PER_SECOND))
      ensures forall k | k != key :: Stored(k) == old(Stored(k))
    {
      extended := Extends(Stored(key), clock, token, reply);
      if extended {
        var after := AfterExtend(Stored(key), clock, token, reply, additional);
        locks := if after.Some? then locks[key := after.value] else locks - {key};
      }
    }
  }

  /** A token outside a finite set of tokens. */
  method Unused(issued: set<Token>) returns (token: Token)
    ensures token !in issued
  {
    var rest := issued;
    token := 0;
    while rest != {}
      invariant forall t | t in issued :: t in rest || t < token
      decreases rest
    {
      var t :| t in rest;
      rest := rest - {t};
      if token <= t { token := t + 1; }
    }
  }

  class DistributedLock {
    const redis: Redis
    const key: string
    const config: Config
    const retryDelayMs: nat
    var token: Option<Token>

    constructor (redis: Redis, key: string, config: Config, retryDelayMs: nat)
      ensures this.redis == redis && this.key == key && this.config == config && this.retryDelayMs == retryDelayMs
      ensures token.None?
    {
      this.redis, this.key, this.config, this.retryDelayMs := redis, key, config, retryDelayMs;
      token := None;
    }

    /** True exactly when one of at most `maxRetries + 1` SETs sent found the key free; the key then holds
        this handle's fresh token until `until`, whatever the other clients do.  In cooldown nothing is
        sent and nothing changes. */
    method Acquire() returns (acquired: bool, attempts: int, ghost until: int)
      requires redis.Valid() && config.ttlSeconds > 0
      modifies this, redis
      ensures redis.Valid() && |old(redis.received)| <= |redis.received|
      ensures redis.received[..|old(redis.received)|] == old(redis.received)
      ensures attempts == |redis.received| - |old(redis.received)|
      ensures var sent := redis.received[|old(redis.received)|..];
              var stamp := old(redis.StoredMarker(key));
              if config.cooldownSeconds > 0 && stamp.Some? && old(redis.clock) < stamp.value.expiresAt
                 && old(redis.clock) / 1000 - stamp.value.value < config.cooldownSeconds
              then !acquired && sent == [] && token == old(token) && redis.locks == old(redis.locks)
              else
                && Attempts(sent, key, config, retryDelayMs, acquired)
                && token.Some? && token.value !in old(redis.issued) && (sent != [] ==> sent[0].token == token.value)
                && (acquired ==> until == sent[|sent| - 1].at + config.ttlSeconds * MS_PER_SECOND)
                && (!acquired ==> !Owns(redis.Stored(key), redis.clock, token.value))
      ensures var marker := Entry(redis.clock / 1000, redis.clock + config.cooldownSeconds * 2 * 1000);
              if acquired && config.cooldownSeconds > 0
              then redis.stamps == old(redis.stamps) + [Stamped(key, marker)] && redis.StoredMarker(key) == Some(marker)
              else redis.stamps == old(redis.stamps)
      ensures acquired ==>
                old(redis.clock) + config.ttlSeconds * MS_PER_SECOND <= until <= redis.clock + config.ttlSeconds * MS_PER_SECOND
      ensures acquired && redis.clock < until ==> redis.Stored(key) == Some(Entry(token.value, until))
    {
      acquired, attempts, until := false, 0, redis.clock;
      if InCooldown(redis.StoredMarker(key), redis.clock, config.cooldownSeconds) {
        return;
      }
      var drawn := redis.DrawToken();
      token := Some(drawn);
      ghost var before := redis.received;
      ghost var sent;
      acquired, attempts, sent, until := TryAcquire(drawn);
      assert redis.received[|before|..] == sent;
      if acquired && config.cooldownSeconds > 0 {
        redis.Await(key, drawn, 0);
        redis.SetMarker(key, config.cooldownSeconds);
      }
    }

    /** The loop of `acquire`. */
    method TryAcquire(drawn: Token) returns (acquired: bool, attempts: int, ghost sent: seq<Received>, ghost until: int)
      requires redis.Valid() && drawn in redis.issued && !Owns(redis.Stored(key), redis.clock, drawn)
      modifies redis
      ensures redis.Valid() && redis.received == old(redis.received) + sent && redis.clock >= old(redis.clock)
      ensures redis.stamps == old(redis.stamps)
      ensures attempts == |sent| && Attempts(sent, key, config, retryDelayMs, acquired) && (sent != [] ==> sent[0].token == drawn)
      ensures !acquired ==> !Owns(redis.Stored(key), redis.clock, drawn)
      ensures acquired ==>
                && until == sent[|sent| - 1].at + config.ttlSeconds * MS_PER_SECOND
                && sent[|sent| - 1].at == redis.clock && redis.Stored(key) == Some(Entry(drawn, until))
    {
      acquired, attempts, sent, until := false, 0, [], redis.clock;
      ghost var before := redis.received;
      while attempts <= config.maxRetries
        invariant 0 <= attempts && (attempts == 0 || attempts <= config.maxRetries + 1) && redis.clock >= old(redis.clock)
        invariant redis.Valid() && drawn in redis.issued && !Owns(redis.Stored(key), redis.clock, drawn)
        invariant redis.received == before + sent && |sent| == attempts && !acquired && redis.stamps == old(redis.stamps)
        invariant AllTaken(sent, key, drawn, config.ttlSeconds, retryDelayMs, redis.clock, attempts <= config.maxRetries)
        decreases config.maxRetries + 1 - attempts
      {
        redis.Await(key, drawn, 0);
        acquired := redis.SetNx(key, drawn, config.ttlSeconds);
        ghost var last := redis.received[|redis.received| - 1];
        OneMoreSet(sent, last, key, drawn, config, retryDelayMs, redis.clock);
        sent := sent + [last];
        attempts := attempts + 1;
        if acquired {
          until := redis.clock + config.ttlSeconds * MS_PER_SECOND;
          return;
        }
        if attempts <= config.maxRetries {
          redis.Await(key, drawn, retryDelayMs);
        }
      }
    }

    /** Deletes the key exactly when it still holds our token; forgets the token in any case. */
    method Release() returns (released: bool)
      modifies this, redis`locks
      ensures token.None?
      ensures released <==> old(token.Some? && Owns(redis.Stored(key), redis.clock, token.value))
      ensures redis.Stored(key) == if released then None else old(redis.Stored(key))
      ensures forall k | k != key :: redis.Stored(k) == old(redis.Stored(k))
    {
      released := false;
      if token.Some? {
        released := redis.DeleteIfOwned(key, token.value);
      }
      token := None;
    }

    /** Sets the end of the lease to what TTL answers and the additional seconds from now, exactly when the
        token still owns a key with a second left; that moves the end by the additional seconds, give or
        take the second TTL rounds. */
    method Extend(additional: int, reply: int) returns (extended: bool)
      requires TtlReply(redis.Stored(key), redis.clock, reply)
      modifies redis`locks
      ensures extended <==> token.Some? && old(Owns(redis.Stored(key), redis.clock, token.value)) && reply > 0
      ensures redis.Stored(key) ==
              if !extended then old(redis.Stored(key))
              else if reply + additional <= 0 then None
              else Some(Entry(token.value, redis.clock + (reply + additional) * MS_PER_SECOND))
      ensures extended && redis.Stored(key).Some? ==>
                var moved := redis.Stored(key).value.expiresAt - old(redis.Stored(key)).value.expiresAt;
                (additional - 1) * MS_PER_SECOND < moved < (additional + 1) * MS_PER_SECOND
      ensures extended && additional >= 1 ==> redis.Stored(key).Some?
      ensures forall k | k != key :: redis.Stored(k) == old(redis.Stored(k))
    {
      extended := false;
      if token.Some? {
        extended := redis.ExtendIfOwned(key, token.value, additional, reply);
      }
    }

    /** Whether a SET sent now, with any token and lifetime, would find the key taken. */
    method IsLocked() returns (locked: bool)
      ensures locked <==> forall t: Token, ttl: int | ttl > 0 ::
                AfterSetNx(redis.Stored(key), redis.clock, t, ttl) == redis.Stored(key)
      ensures locked <==> exists t: Token :: Owns(redis.Stored(key), redis.clock, t)
    {
      locked := Live(redis.Stored(key), redis.clock).Some?;
      if locked {
        assert Owns(redis.Stored(key), redis.clock, redis.Stored(key).value.value);
      } else {
        assert AfterSetNx(redis.Stored(key), redis.clock, 0, 1) != redis.Stored(key);
      }
    }

    /** `async with lock()`: enters exactly if an `acquire` does; a body that ends within the lease always
        gives the key back itself, and the handle is left without a token whenever it had entered. */
    method WithLock(bodyMs: nat) returns (acquired: bool, released: bool, ghost until: int)
      requires redis.Valid() && config.ttlSeconds > 0
      modifies this, redis
      ensures |old(redis.received)| <= |redis.received|
      ensures var sent := redis.received[|old(redis.received)|..];
              var stamp := old(redis.StoredMarker(key));
              if config.cooldownSeconds > 0 && stamp.Some? && old(redis.clock) < stamp.value.expiresAt
                 && old(redis.clock) / 1000 - stamp.value.value < config.cooldownSeconds
              then !acquired && sent == []
              else Attempts(sent, key, config, retryDelayMs, acquired)
                   && (acquired ==> until == sent[|sent| - 1].at + config.ttlSeconds * MS_PER_SECOND)
      ensures acquired ==> token.None?
      ensures acquired && redis.clock < until ==> released && redis.Stored(key).None?
      ensures released ==> acquired
    {
      var attempts: int;
      acquired, attempts, until := Acquire();
      released := false;
      if acquired {
        redis.Await(key, token.value, bodyMs);
        released := Release();
      }
    }
  }
}
