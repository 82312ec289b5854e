/** Invariants of the token table over every interleaving, and what they promise about validation. */
module TokenRuns {
  import opened Options
  import opened Tokens
  import opened Transactions

  // ----- what holds of rows, and of rows remembered by validations under way

  /** A row as it can stand in the table at `clock`, or have stood there earlier. */
  ghost predicate RowOk(cfg: Config, s: State, t: Token) {
    && t.serial < s.serials
    && t.created <= t.lastAccess <= s.clock
    && t.lastAccess <= t.expires <= t.created + cfg.timeToLive
    && (t.status.Failed? ==> s.clock > t.expires)
  }

  /**
    The stored access time lags the last use by less than ten minutes, and leads it
    only to an access stored without a report.
   */
  ghost predicate Tracks(t: Token, u: Use, clock: Time) {
    && u.start <= u.end <= clock
    && u.start < t.lastAccess + TOUCH_AFTER
    && u.lost <= t.lastAccess <= Max(u.end, u.lost)
  }

  /** How a row relates to an earlier sight of it. */
  ghost predicate LaterSight(was: Token, t: Token) {
    && t.created == was.created && t.expires == was.expires
    && was.lastAccess <= t.lastAccess
    && (t.status == was.status || (was.status.Pending? && (t.status.Issued? || t.status.Failed?)))
  }

  ghost predicate Remembered(cfg: Config, s: State, id: Id, row: Token) {
    && RowOk(cfg, s, row)
    && forall j :: j in s.tokens && s.tokens[j].serial == row.serial ==> j == id && LaterSight(row, s.tokens[j])
  }

  ghost predicate PhaseOk(cfg: Config, s: State, p: Phase) {
    && Remembered(cfg, s, p.id, p.row)
    && (p.LookedUp? ==> Tracks(p.row, p.last, s.clock) && Secret(cfg, p.row) == Some(p.secret))
    && (p.Discarding? ==> Spent(cfg, p.row, s.clock))
    && (p.Touching? ==>
          && p.now <= s.clock && !Spent(cfg, p.row, p.now)
          && !p.row.status.Failed? && Secret(cfg, p.row) == Some(p.presented))
  }

  ghost predicate Inv(cfg: Config, s: State) {
    && s.keys.current in s.keys.known && "" !in s.tokens
    && (forall id :: id in s.tokens ==> RowOk(cfg, s, s.tokens[id]) && Readable(cfg, s.keys, s.tokens[id]))
    && (forall id :: id in s.tokens ==>
          s.tokens[id].serial in s.uses && Tracks(s.tokens[id], LastUse(s.uses, s.tokens[id]), s.clock))
    && (forall i, j :: i in s.tokens && j in s.tokens && s.tokens[i].serial == s.tokens[j].serial ==> i == j)
    && (forall op :: op in s.inFlight ==> PhaseOk(cfg, s, s.inFlight[op]))
    && (forall n: nat :: n in s.uses <==> n < s.serials)
  }

  ghost predicate Initial(s: State) {
    && s.serials == 0 && s.tokens == map[] && s.inFlight == map[] && s.uses == map[]
    && s.keys.current in s.keys.known
  }

  lemma InvInitial(cfg: Config, s: State)
    requires Initial(s)
    ensures Inv(cfg, s)
  {
  }

  // ----- every step keeps the invariant

  lemma InvElapse(cfg: Config, s: State, d: nat)
    requires Inv(cfg, s)
    ensures Inv(cfg, s.(clock := s.clock + d))
  {
    var s' := s.(clock := s.clock + d);
    forall op | op in s'.inFlight ensures PhaseOk(cfg, s', s'.inFlight[op]) {
      assert PhaseOk(cfg, s, s.inFlight[op]);
    }
  }

  lemma InvCreate(
    cfg: Config, s: State, id: Id, started: Time, pending: bool, secret: string, nonce: nat, outcome: Outcome)
    requires cfg.Valid() && Inv(cfg, s) && !outcome.NotDone? && id != "" && id !in s.tokens && started <= s.clock
    ensures Inv(cfg, Next(cfg, s, Create(id, started, pending, secret, nonce, outcome)).state)
  {
    var s' := Next(cfg, s, Create(id, started, pending, secret, nonce, outcome)).state;
    forall op | op in s'.inFlight ensures PhaseOk(cfg, s', s'.inFlight[op]) {
      assert PhaseOk(cfg, s, s.inFlight[op]);
    }
    forall j | j in s'.tokens
      ensures RowOk(cfg, s', s'.tokens[j]) && Tracks(s'.tokens[j], LastUse(s'.uses, s'.tokens[j]), s'.clock)
    {
      if j != id {
        assert RowOk(cfg, s, s.tokens[j]) && Tracks(s.tokens[j], LastUse(s.uses, s.tokens[j]), s.clock);
      }
    }
  }

  /** Replacing one row by a later sight of it, with a use that tracks it. */
  lemma InvUpdate(cfg: Config, s: State, id: Id, t: Token, u: Use)
    requires Inv(cfg, s) && id in s.tokens
    requires t.serial == s.tokens[id].serial && LaterSight(s.tokens[id], t)
    requires RowOk(cfg, s, t) && Readable(cfg, s.keys, t) && Tracks(t, u, s.clock)
    ensures Inv(cfg, s.(tokens := s.tokens[id := t], uses := s.uses[t.serial := u]))
  {
    var s' := s.(tokens := s.tokens[id := t], uses := s.uses[t.serial := u]);
    assert RowOk(cfg, s, s.tokens[id]);
    forall op | op in s'.inFlight ensures PhaseOk(cfg, s', s'.inFlight[op]) {
      assert PhaseOk(cfg, s, s.inFlight[op]);
    }
    forall j | j in s'.tokens
      ensures RowOk(cfg, s', s'.tokens[j]) && Tracks(s'.tokens[j], LastUse(s'.uses, s'.tokens[j]), s'.clock)
    {
      if j != id {
        assert RowOk(cfg, s, s.tokens[j]) && Tracks(s.tokens[j], LastUse(s.uses, s.tokens[j]), s.clock);
      }
    }
  }

  lemma ClosedRow(cfg: Config, s: State, s': State, t: Token, u: Use)
    requires RowOk(cfg, s, t) && Readable(cfg, s.keys, t) && Tracks(t, u, s.clock)
    requires s'.clock == s.clock && s'.serials == s.serials
    ensures var t' := Closed(t, s.clock);
            && t'.serial == t.serial && t'.created == t.created
            && RowOk(cfg, s', t') && Readable(cfg, s.keys, t') && Tracks(t', u, s.clock)
            && forall was :: LaterSight(was, t) ==> LaterSight(was, t')
  {
  }

  lemma InvClose(cfg: Config, s: State, outcome: Outcome)
    requires Inv(cfg, s) && !outcome.NotDone?
    ensures Inv(cfg, Next(cfg, s, CloseExpired(outcome)).state)
  {
    hide RowOk, Readable, Tracks, LaterSight, Closed, Spent;
    var s' := Next(cfg, s, CloseExpired(outcome)).state;
    forall j | j in s'.tokens
      ensures RowOk(cfg, s', s'.tokens[j]) && Readable(cfg, s'.keys, s'.tokens[j])
      ensures s'.tokens[j].serial == s.tokens[j].serial && s'.tokens[j].serial in s'.uses
      ensures Tracks(s'.tokens[j], LastUse(s'.uses, s'.tokens[j]), s'.clock)
      ensures forall was :: LaterSight(was, s.tokens[j]) ==> LaterSight(was, s'.tokens[j])
    {
      ClosedRow(cfg, s, s', s.tokens[j], LastUse(s.uses, s.tokens[j]));
    }
    forall op | op in s'.inFlight ensures PhaseOk(cfg, s', s'.inFlight[op]) {
      assert PhaseOk(cfg, s, s.inFlight[op]);
      RowOkSame(cfg, s, s', s.inFlight[op].row);
    }
  }

  lemma RowOkSame(cfg: Config, s: State, s': State, t: Token)
    requires RowOk(cfg, s, t) && s'.clock == s.clock && s'.serials == s.serials
    ensures RowOk(cfg, s', t)
  {
  }

  lemma InvRemove(cfg: Config, s: State, id: Id)
    requires Inv(cfg, s)
    ensures Inv(cfg, s.(tokens := s.tokens - {id}))
  {
    var s' := s.(tokens := s.tokens - {id});
    forall op | op in s'.inFlight ensures PhaseOk(cfg, s', s'.inFlight[op]) {
      assert PhaseOk(cfg, s, s.inFlight[op]);
    }
    forall j | j in s'.tokens
      ensures RowOk(cfg, s', s'.tokens[j]) && Tracks(s'.tokens[j], LastUse(s'.uses, s'.tokens[j]), s'.clock)
    {
      assert RowOk(cfg, s, s.tokens[j]);
    }
  }

  lemma InvPhase(cfg: Config, s: State, op: nat, p: Phase)
    requires Inv(cfg, s) && PhaseOk(cfg, s, p)
    ensures Inv(cfg, s.(inFlight := s.inFlight[op := p]))
  {
    var s' := s.(inFlight := s.inFlight[op := p]);
    InvSameRows(cfg, s, s');
    forall o | o in s'.inFlight ensures PhaseOk(cfg, s', s'.inFlight[o]) {
      assert o != op ==> PhaseOk(cfg, s, s.inFlight[o]);
      assert PhaseOk(cfg, s, p);
    }
  }

  lemma InvLand(cfg: Config, s: State, op: nat)
    requires Inv(cfg, s)
    ensures Inv(cfg, s.(inFlight := s.inFlight - {op}))
  {
    var s' := s.(inFlight := s.inFlight - {op});
    InvSameRows(cfg, s, s');
    forall o | o in s'.inFlight ensures PhaseOk(cfg, s', s'.inFlight[o]) {
      assert PhaseOk(cfg, s, s.inFlight[o]);
    }
  }

  lemma InvSameRows(cfg: Config, s: State, s': State)
    requires Inv(cfg, s)
    requires s'.tokens == s.tokens && s'.uses == s.uses && s'.keys == s.keys
    requires s'.clock == s.clock && s'.serials == s.serials
    ensures forall id :: id in s'.tokens ==> RowOk(cfg, s', s'.tokens[id]) && Readable(cfg, s'.keys, s'.tokens[id])
    ensures forall id :: id in s'.tokens ==> Tracks(s'.tokens[id], LastUse(s'.uses, s'.tokens[id]), s'.clock)
  {
    forall id | id in s'.tokens ensures RowOk(cfg, s', s'.tokens[id]) {
      assert RowOk(cfg, s, s.tokens[id]);
    }
  }

  /** A use ending now, whose start the row's access time is close enough to. */
  lemma InvUse(cfg: Config, s: State, id: Id, row: Token, start: Time)
    requires Inv(cfg, s) && Remembered(cfg, s, id, row)
    requires start <= s.clock && start < row.lastAccess + TOUCH_AFTER
    ensures Inv(cfg, s.(uses := UsedFrom(s.uses, row.serial, start, s.clock)))
  {
    var s' := s.(uses := UsedFrom(s.uses, row.serial, start, s.clock));
    forall j | j in s'.tokens
      ensures RowOk(cfg, s', s'.tokens[j]) && Tracks(s'.tokens[j], LastUse(s'.uses, s'.tokens[j]), s'.clock)
    {
      assert RowOk(cfg, s, s.tokens[j]) && Tracks(s.tokens[j], LastUse(s.uses, s.tokens[j]), s.clock);
    }
    forall op | op in s'.inFlight ensures PhaseOk(cfg, s', s'.inFlight[op]) {
      assert PhaseOk(cfg, s, s.inFlight[op]);
    }
  }

  lemma InvKeys(cfg: Config, s: State, keys: KeyRing)
    requires Inv(cfg, s) && keys.current in keys.known
    requires forall id :: id in s.tokens ==> s.tokens[id].keyId in keys.known
    ensures Inv(cfg, s.(keys := keys))
  {
    var s' := s.(keys := keys);
    forall j | j in s'.tokens
      ensures RowOk(cfg, s', s'.tokens[j]) && Readable(cfg, s'.keys, s'.tokens[j])
      ensures Tracks(s'.tokens[j], LastUse(s'.uses, s'.tokens[j]), s'.clock)
    {
      assert RowOk(cfg, s, s.tokens[j]) && Readable(cfg, s.keys, s.tokens[j]);
    }
    forall op | op in s'.inFlight ensures PhaseOk(cfg, s', s'.inFlight[op]) {
      assert PhaseOk(cfg, s, s.inFlight[op]);
    }
  }

  lemma InvDecide(cfg: Config, s: State, op: nat)
    requires Inv(cfg, s) && op in s.inFlight && s.inFlight[op].LookedUp?
    ensures Inv(cfg, DecideStep(cfg, s, op).state)
  {
    var p := s.inFlight[op];
    assert PhaseOk(cfg, s, p);
    InvLand(cfg, s, op);
    hide Inv;
    if Spent(cfg, p.row, s.clock) {
      InvPhase(cfg, s, op, Discarding(p.id, p.row));
    } else if p.secret != p.presented {
    } else if s.clock - p.row.lastAccess >= TOUCH_AFTER {
      InvPhase(cfg, s, op, Touching(p.id, p.presented, p.row, s.clock));
    } else {
      var landed := s.(inFlight := s.inFlight - {op});
      InvUse(cfg, landed, p.id, p.row, s.clock);
    }
  }

  lemma InvCommit(cfg: Config, s: State, op: nat, outcome: Outcome)
    requires Inv(cfg, s) && op in s.inFlight && !s.inFlight[op].LookedUp?
    ensures Inv(cfg, CommitStep(s, op, outcome).state)
  {
    var p := s.inFlight[op];
    var landed := s.(inFlight := s.inFlight - {op});
    assert PhaseOk(cfg, s, p);
    InvLand(cfg, s, op);
    if !outcome.NotDone? {
      if p.Discarding? {
        InvRemove(cfg, landed, p.id);
      } else if p.id in s.tokens && s.clock <= s.tokens[p.id].expires {
        var t := s.tokens[p.id];
        assert RowOk(cfg, s, t) && Tracks(t, LastUse(s.uses, t), s.clock);
        var t' := t.(lastAccess := s.clock);
        var u := Accessed(s.uses, t.serial, p.now, s.clock, outcome)[t.serial];
        InvUpdate(cfg, landed, p.id, t', u);
      }
    }
    hide Inv;
  }

  lemma InvNext(cfg: Config, s: State, e: Event)
    requires cfg.Valid() && Inv(cfg, s)
    ensures Inv(cfg, Next(cfg, s, e).state)
  {
    hide RowOk, Tracks, PhaseOk, LastUse;
    match e
    case Elapse(d) => InvElapse(cfg, s, d);
    case Create(id, started, pending, secret, nonce, outcome) =>
      if !outcome.NotDone? && id != "" && id !in s.tokens && started <= s.clock {
        InvCreate(cfg, s, id, started, pending, secret, nonce, outcome);
      }
    case Issue(id, outcome) => InvIssue(cfg, s, id, outcome);
    case CloseExpired(outcome) =>
      if !outcome.NotDone? {
        InvClose(cfg, s, outcome);
      }
    case Delete(id, outcome) => InvRemove(cfg, s, id);
    case Look(op, id, presented) =>
      if op !in s.inFlight && presented != "" && id != "" && id in s.tokens && Readable(cfg, s.keys, s.tokens[id]) {
        InvLook(cfg, s, op, id, presented);
      }
    case Decide(op) =>
      if op in s.inFlight && s.inFlight[op].LookedUp? {
        InvDecide(cfg, s, op);
      }
    case Commit(op, outcome) =>
      if op in s.inFlight && !s.inFlight[op].LookedUp? {
        InvCommit(cfg, s, op, outcome);
      }
    case RotateKey(key) => InvKeys(cfg, s, KeyRing(key, s.keys.known + {key}));
    case DestroyKey(key) =>
      if key != s.keys.current && !exists id :: id in s.tokens && s.tokens[id].keyId == key {
        InvKeys(cfg, s, s.keys.(known := s.keys.known - {key}));
      }
    case Rewrap(id, nonce, outcome) => InvRewrap(cfg, s, id, nonce, outcome);
  }

  lemma InvLook(cfg: Config, s: State, op: nat, id: Id, presented: string)
    requires Inv(cfg, s) && id in s.tokens && Readable(cfg, s.keys, s.tokens[id])
    ensures var t := s.tokens[id];
            var p := LookedUp(id, presented, t, Secret(cfg, t).value, LastUse(s.uses, t));
            Inv(cfg, s.(inFlight := s.inFlight[op := p]))
  {
    var t := s.tokens[id];
    assert RowOk(cfg, s, t) && Tracks(t, LastUse(s.uses, t), s.clock);
    InvPhase(cfg, s, op, LookedUp(id, presented, t, Secret(cfg, t).value, LastUse(s.uses, t)));
    hide Inv;
  }

  lemma InvIssue(cfg: Config, s: State, id: Id, outcome: Outcome)
    requires Inv(cfg, s)
    ensures Inv(cfg, Next(cfg, s, Issue(id, outcome)).state)
  {
    if !outcome.NotDone? && Issuable(cfg, s, id) {
      var t := s.tokens[id];
      assert RowOk(cfg, s, t) && Tracks(t, LastUse(s.uses, t), s.clock);
      var u := Accessed(s.uses, t.serial, s.clock, s.clock, outcome)[t.serial];
      InvUpdate(cfg, s, id, t.(status := Issued, lastAccess := s.clock), u);
    }
    hide Inv;
  }

  lemma InvRewrap(cfg: Config, s: State, id: Id, nonce: nat, outcome: Outcome)
    requires cfg.Valid() && Inv(cfg, s)
    ensures Inv(cfg, Next(cfg, s, Rewrap(id, nonce, outcome)).state)
  {
    if !outcome.NotDone? && id in s.tokens && Readable(cfg, s.keys, s.tokens[id]) {
      var t := s.tokens[id];
      assert RowOk(cfg, s, t) && Tracks(t, LastUse(s.uses, t), s.clock);
      InvUpdate(cfg, s, id, Rewrapped(cfg, s.keys, t, nonce), s.uses[t.serial]);
      assert s.uses == s.uses[t.serial := s.uses[t.serial]];
    }
    hide Inv;
  }

  // ----- runs

  ghost predicate IsRun(cfg: Config, states: seq<State>, events: seq<Event>) {
    && |states| == |events| + 1
    && Initial(states[0])
    && forall i :: 0 <= i < |events| ==> states[i + 1] == Next(cfg, states[i], events[i]).state
  }

  lemma {:induction false} RunInv(cfg: Config, states: seq<State>, events: seq<Event>, i: nat)
    requires cfg.Valid() && IsRun(cfg, states, events) && i < |states|
    ensures Inv(cfg, states[i])
  {
    if i == 0 {
      InvInitial(cfg, states[0]);
    } else {
      RunInv(cfg, states, events, i - 1);
      InvNext(cfg, states[i - 1], events[i - 1]);
    }
  }

  // ----- the life of a row

  /**
    Serials are never reused: a row with an old serial was there before the step, and
    the step shows a later sight of it.
   */
  lemma StepSight(cfg: Config, s: State, e: Event, id: Id)
    requires cfg.Valid() && id in Next(cfg, s, e).state.tokens
    requires id in s.tokens ==> s.tokens[id].lastAccess <= s.clock
    requires Next(cfg, s, e).state.tokens[id].serial < s.serials
    ensures id in s.tokens && s.tokens[id].serial == Next(cfg, s, e).state.tokens[id].serial
    ensures LaterSight(s.tokens[id], Next(cfg, s, e).state.tokens[id])
    ensures Secret(cfg, Next(cfg, s, e).state.tokens[id]) == Secret(cfg, s.tokens[id])
  {
    hide Inv, LastUse, Spent, UsedFrom, Truncate, Max;
  }

  lemma AccessedBefore(cfg: Config, s: State, id: Id)
    requires Inv(cfg, s)
    ensures id in s.tokens ==> s.tokens[id].lastAccess <= s.clock
  {
    assert id in s.tokens ==> RowOk(cfg, s, s.tokens[id]);
  }

  lemma StepSerials(cfg: Config, s: State, e: Event)
    ensures s.serials <= Next(cfg, s, e).state.serials
  {
  }

  /** Over any run, two sights of one row: final statuses stay, times only advance, and the secret is the same. */
  lemma {:induction false} RowLife(cfg: Config, states: seq<State>, events: seq<Event>, id: Id, i: nat, j: nat)
    requires cfg.Valid() && IsRun(cfg, states, events) && i <= j < |states|
    requires id in states[j].tokens && states[j].tokens[id].serial < states[i].serials
    ensures id in states[i].tokens && states[i].tokens[id].serial == states[j].tokens[id].serial
    ensures LaterSight(states[i].tokens[id], states[j].tokens[id])
    ensures Secret(cfg, states[j].tokens[id]) == Secret(cfg, states[i].tokens[id])
    decreases j - i
  {
    hide Next, Inv, Secret, RowOk;
    if i < j {
      RunInv(cfg, states, events, j - 1);
      SerialsGrow(cfg, states, events, i, j - 1);
      AccessedBefore(cfg, states[j - 1], id);
      StepSight(cfg, states[j - 1], events[j - 1], id);
      RowLife(cfg, states, events, id, i, j - 1);
    }
  }

  lemma {:induction false} SerialsGrow(cfg: Config, states: seq<State>, events: seq<Event>, i: nat, j: nat)
    requires IsRun(cfg, states, events) && i <= j < |states|
    ensures states[i].serials <= states[j].serials
    decreases j - i
  {
    hide Next;
    if i < j {
      SerialsGrow(cfg, states, events, i, j - 1);
      StepSerials(cfg, states[j - 1], events[j - 1]);
    }
  }

  /** The event makes an issued row of a pending one, whether or not it is reported to have. */
  ghost predicate Issues(cfg: Config, s: State, e: Event, id: Id) {
    e.Issue? && e.id == id && !e.outcome.NotDone? && Issuable(cfg, s, id)
  }

  /**
    Between its creation and its deletion a token is issued at most once: two issues
    under one id are of different rows.
   */
  lemma IssuedOnce(cfg: Config, states: seq<State>, events: seq<Event>, id: Id, i: nat, j: nat)
    requires cfg.Valid() && IsRun(cfg, states, events) && i < j < |events|
    requires Issues(cfg, states[i], events[i], id) && Issues(cfg, states[j], events[j], id)
    ensures states[i].tokens[id].serial != states[j].tokens[id].serial
  {
    RunInv(cfg, states, events, i);
    assert RowOk(cfg, states[i], states[i].tokens[id]);
    assert states[i + 1] == Next(cfg, states[i], events[i]).state;
    assert states[i + 1].tokens[id].status.Issued?;
    if states[i].tokens[id].serial == states[j].tokens[id].serial {
      RowLife(cfg, states, events, id, i + 1, j);
    }
  }

  // ----- validation

  /**
    A step that answers with a token: the row remembered was in life when judged, and
    if it still stands it is neither expired nor failed.
   */
  lemma ReturnedStep(cfg: Config, s: State, e: Event)
    requires cfg.Valid() && Inv(cfg, s) && (e.Decide? || e.Commit?) && Next(cfg, s, e).answer.Returned?
    ensures e.op in s.inFlight
    ensures var t := Next(cfg, s, e).answer.token;
            var now := if s.inFlight[e.op].Touching? then s.inFlight[e.op].now else s.clock;
            && !s.inFlight[e.op].Discarding?
            && t == s.inFlight[e.op].row && Secret(cfg, t) == Some(s.inFlight[e.op].presented)
            && now <= t.expires && now - t.created <= cfg.timeToLive && now - t.lastAccess < cfg.timeToStale
            && !t.status.Failed?
    ensures forall j :: j in s.tokens && s.tokens[j].serial == Next(cfg, s, e).answer.token.serial ==>
              s.clock <= s.tokens[j].expires && !s.tokens[j].status.Failed?
  {
    var p := s.inFlight[e.op];
    assert PhaseOk(cfg, s, p);
    forall j | j in s.tokens && s.tokens[j].serial == p.row.serial
      ensures s.clock <= s.tokens[j].expires && !s.tokens[j].status.Failed?
    {
      assert RowOk(cfg, s, s.tokens[j]) && j == p.id && LaterSight(p.row, s.tokens[j]);
    }
  }

  /**
    Never discarded early: within the time to stale less ten minutes of the last use
    known at lookup, or the time to stale of an unreported access.
   */
  lemma NotDiscardedEarly(cfg: Config, s: State, op: nat)
    requires Inv(cfg, s) && op in s.inFlight && s.inFlight[op].LookedUp?
    requires var p := s.inFlight[op];
             && s.clock <= p.row.expires
             && (s.clock <= p.last.start + cfg.timeToStale - TOUCH_AFTER || s.clock < p.last.lost + cfg.timeToStale)
    ensures var s' := Next(cfg, s, Decide(op)).state; op in s'.inFlight ==> !s'.inFlight[op].Discarding?
  {
    assert PhaseOk(cfg, s, s.inFlight[op]);
  }

  /**
    Always discarded late, at least the time to stale after the last use known at
    lookup, unless an access was stored since without being reported; with such an
    access, exactly when that is the time to stale ago too, or the row has expired.
   */
  lemma DiscardedLateIff(cfg: Config, s: State, op: nat)
    requires Inv(cfg, s) && op in s.inFlight && s.inFlight[op].LookedUp?
    requires s.clock >= s.inFlight[op].last.end + cfg.timeToStale
    ensures var p := s.inFlight[op];
            var s' := Next(cfg, s, Decide(op)).state;
            var discards := op in s'.inFlight && s'.inFlight[op].Discarding?;
            discards <==> s.clock > p.row.expires || s.clock >= p.last.lost + cfg.timeToStale
  {
    assert PhaseOk(cfg, s, s.inFlight[op]);
  }

  // ----- uses and lost accesses, told from the events alone

  /** The row whose stored access time the event moves to now, if any. */
  function Stores(cfg: Config, s: State, e: Event): Option<Id> {
    match e
    case Issue(id, outcome) => if !outcome.NotDone? && Issuable(cfg, s, id) then Some(id) else None
    case Commit(op, outcome) =>
      if !outcome.NotDone? && op in s.inFlight && s.inFlight[op].Touching? && s.inFlight[op].id in s.tokens
         && s.clock <= s.tokens[s.inFlight[op].id].expires
      then Some(s.inFlight[op].id) else None
    case _ => None
  }

  ghost predicate StoresAccess(cfg: Config, s: State, e: Event, n: nat) {
    Stores(cfg, s, e).Some? && Stores(cfg, s, e).value in s.tokens && s.tokens[Stores(cfg, s, e).value].serial == n
  }

  /**
    The event uses row `n`: issues it or returns it from a validation, with success,
    or creates it, even if that is reported as an error.
   */
  ghost predicate UsesRow(cfg: Config, s: State, e: Event, n: nat) {
    var r := Next(cfg, s, e);
    || (n == s.serials < r.state.serials)
    || (e.Decide? && r.answer.Returned? && r.answer.token.serial == n)
    || (StoresAccess(cfg, s, e, n) && r.answer.Returned?)
  }

  /** The event stores an access to row `n` and reports an error. */
  ghost predicate LosesAccess(cfg: Config, s: State, e: Event, n: nat) {
    StoresAccess(cfg, s, e, n) && Next(cfg, s, e).answer.Refused?
  }

  /** When a use began: a validation's at its judgement. */
  function UseStart(s: State, e: Event): Time {
    if e.Commit? && e.op in s.inFlight && s.inFlight[e.op].Touching? then s.inFlight[e.op].now else s.clock
  }

  /** The record of row `n` follows the event: a use, a lost access, or nothing. */
  ghost predicate Follows(cfg: Config, s: State, e: Event, n: nat) {
    var uses' := Next(cfg, s, e).state.uses;
    if UsesRow(cfg, s, e, n) then
      && n in uses' && uses'[n].end == s.clock && UseStart(s, e) <= uses'[n].start
      && (if n in s.uses then s.uses[n].start <= uses'[n].start && uses'[n].lost == s.uses[n].lost
          else uses'[n].lost == s.clock)
    else if LosesAccess(cfg, s, e, n) then
      n in s.uses && n in uses' && uses'[n] == s.uses[n].(lost := s.clock)
    else
      (n in uses' <==> n in s.uses) && (n in s.uses ==> uses'[n] == s.uses[n])
  }

  lemma FollowsDecide(cfg: Config, s: State, e: Event, n: nat)
    requires Inv(cfg, s) && e.Decide?
    ensures Follows(cfg, s, e, n)
  {
    hide Spent, Secret;
    assert e.op in s.inFlight ==> PhaseOk(cfg, s, s.inFlight[e.op]);
  }

  lemma FollowsCommit(cfg: Config, s: State, e: Event, n: nat)
    requires Inv(cfg, s) && e.Commit?
    ensures Follows(cfg, s, e, n)
  {
    assert e.op in s.inFlight && s.inFlight[e.op].id in s.tokens ==> RowOk(cfg, s, s.tokens[s.inFlight[e.op].id]);
    hide Inv, RowOk;
  }

  lemma FollowsOthers(cfg: Config, s: State, e: Event, n: nat)
    requires Inv(cfg, s) && !e.Decide? && !e.Commit?
    ensures Follows(cfg, s, e, n)
  {
    hide Secret, Truncate, Closed, Rewrapped, PhaseOk, RowOk, Tracks, Readable;
  }

  /** The record of uses follows the events, row by row. */
  lemma UsesFollow(cfg: Config, s: State, e: Event, n: nat)
    requires Inv(cfg, s)
    ensures Follows(cfg, s, e, n)
  {
    hide *;
    if e.Decide? {
      FollowsDecide(cfg, s, e, n);
    } else if e.Commit? {
      FollowsCommit(cfg, s, e, n);
    } else {
      FollowsOthers(cfg, s, e, n);
    }
  }

  // ----- validation over runs

  lemma {:induction false} LookStays(cfg: Config, states: seq<State>, events: seq<Event>, op: nat, i: nat, j: nat)
    requires IsRun(cfg, states, events) && i <= j < |states|
    requires op in states[i].inFlight && states[i].inFlight[op].LookedUp?
    requires forall k :: i <= k < j ==> events[k] != Decide(op)
    ensures op in states[j].inFlight && states[j].inFlight[op] == states[i].inFlight[op]
    decreases j - i
  {
    if i < j {
      LookStays(cfg, states, events, op, i, j - 1);
      OtherEvents(cfg, states[j - 1], events[j - 1], op);
    }
    hide Next;
  }

  lemma OtherEvents(cfg: Config, s: State, e: Event, op: nat)
    requires op in s.inFlight && s.inFlight[op].LookedUp? && e != Decide(op)
    ensures var s' := Next(cfg, s, e).state; op in s'.inFlight && s'.inFlight[op] == s.inFlight[op]
  {
  }

  lemma {:induction false} ClockRuns(cfg: Config, states: seq<State>, events: seq<Event>, i: nat, j: nat)
    requires IsRun(cfg, states, events) && i <= j < |states|
    ensures states[i].clock <= states[j].clock
    decreases j - i
  {
    if i < j {
      ClockRuns(cfg, states, events, i, j - 1);
    }
  }

  /** The record of a row after `i` events bounds every use and every lost access among them. */
  lemma {:induction false} RecordBounds(cfg: Config, states: seq<State>, events: seq<Event>, i: nat, k: nat, n: nat)
    requires cfg.Valid() && IsRun(cfg, states, events) && k < i < |states|
    ensures UsesRow(cfg, states[k], events[k], n) ==>
      n in states[i].uses && UseStart(states[k], events[k]) <= states[i].uses[n].start
    ensures LosesAccess(cfg, states[k], events[k], n) ==>
      n in states[i].uses && states[k].clock <= states[i].uses[n].lost
    decreases i
  {
    hide Next, Inv, UsesRow, LosesAccess, UseStart;
    RunInv(cfg, states, events, i - 1);
    UsesFollow(cfg, states[i - 1], events[i - 1], n);
    UsesOnce(cfg, states[i - 1], events[i - 1], n);
    ClockRuns(cfg, states, events, k, i - 1);
    if k < i - 1 {
      RecordBounds(cfg, states, events, i - 1, k, n);
    }
  }

  lemma UsesOnce(cfg: Config, s: State, e: Event, n: nat)
    ensures !(UsesRow(cfg, s, e, n) && LosesAccess(cfg, s, e, n))
  {
  }

  /** And is no larger than they make it: its end is that of a use, its lost access is one or the creation. */
  lemma {:induction false} RecordWitness(cfg: Config, states: seq<State>, events: seq<Event>, i: nat, n: nat)
    requires cfg.Valid() && IsRun(cfg, states, events) && i < |states| && n in states[i].uses
    ensures exists k :: 0 <= k < i && UsesRow(cfg, states[k], events[k], n) && states[i].uses[n].end == states[k].clock
    ensures exists k :: 0 <= k < i && states[i].uses[n].lost == states[k].clock &&
              (UsesRow(cfg, states[k], events[k], n) || LosesAccess(cfg, states[k], events[k], n))
    decreases i
  {
    hide Next, Inv, UsesRow, LosesAccess, UseStart;
    if i > 0 {
      RunInv(cfg, states, events, i - 1);
      UsesFollow(cfg, states[i - 1], events[i - 1], n);
      if n in states[i - 1].uses {
        RecordWitness(cfg, states, events, i - 1, n);
      }
    }
  }

  /**
    The lazily stored access time serves as well as the exact one, to within ten
    minutes, over every interleaving. Take a validation that looks up a row and
    later judges it, whatever happens in between. It never discards an unexpired
    row when some use before the lookup began no more than the time to stale less
    ten minutes ago, or some access stored without a report is younger than the time
    to stale. When every use ended at least the time to stale ago, it
    discards the row exactly if that holds of every access stored without a report
    too, or the row has expired.
   */
  lemma LazyAccessTime(
    cfg: Config, states: seq<State>, events: seq<Event>, op: nat, id: Id, presented: string, i: nat, j: nat)
    requires cfg.Valid() && IsRun(cfg, states, events) && i < j < |events|
    requires events[i] == Look(op, id, presented) && Next(cfg, states[i], events[i]).answer.Quiet?
    requires events[j] == Decide(op) && forall k :: i < k < j ==> events[k] != Decide(op)
    ensures id in states[i].tokens
    ensures var row, now := states[i].tokens[id], states[j].clock;
            var discards := op in states[j + 1].inFlight && states[j + 1].inFlight[op].Discarding?;
            && (forall k :: 0 <= k < i && UsesRow(cfg, states[k], events[k], row.serial)
                  && now <= row.expires && now <= UseStart(states[k], events[k]) + cfg.timeToStale - TOUCH_AFTER
                  ==> !discards)
            && (forall k :: 0 <= k < i && LosesAccess(cfg, states[k], events[k], row.serial)
                  && now <= row.expires && now < states[k].clock + cfg.timeToStale
                  ==> !discards)
            && ((forall k :: 0 <= k < i && UsesRow(cfg, states[k], events[k], row.serial)
                  ==> now >= states[k].clock + cfg.timeToStale)
                ==> (discards <==>
                      || now > row.expires
                      || forall k :: 0 <= k < i && LosesAccess(cfg, states[k], events[k], row.serial)
                           ==> now >= states[k].clock + cfg.timeToStale))
  {
    hide Inv, UsesRow, LosesAccess, UseStart, Spent;
    LookedUpAt(cfg, states, events, op, id, presented, i, j);
    RunInv(cfg, states, events, i);
    RunInv(cfg, states, events, j);
    var row, now := states[i].tokens[id], states[j].clock;
    var n, last := row.serial, LastUse(states[i].uses, row);
    Recorded(cfg, states[i], id);
    hide Next, LastUse;
    forall k | 0 <= k < i
      ensures UsesRow(cfg, states[k], events[k], n) ==> UseStart(states[k], events[k]) <= last.start
      ensures LosesAccess(cfg, states[k], events[k], n) ==> states[k].clock <= last.lost
    {
      RecordBounds(cfg, states, events, i, k, n);
    }
    RecordWitness(cfg, states, events, i, n);
    if now <= row.expires && (now <= last.start + cfg.timeToStale - TOUCH_AFTER || now < last.lost + cfg.timeToStale) {
      NotDiscardedEarly(cfg, states[j], op);
    }
    if now >= last.end + cfg.timeToStale {
      DiscardedLateIff(cfg, states[j], op);
    }
  }

  lemma Recorded(cfg: Config, s: State, id: Id)
    requires Inv(cfg, s) && id in s.tokens
    ensures s.tokens[id].serial in s.uses && LastUse(s.uses, s.tokens[id]) == s.uses[s.tokens[id].serial]
  {
  }

  lemma LookedUpAt(
    cfg: Config, states: seq<State>, events: seq<Event>, op: nat, id: Id, presented: string, i: nat, j: nat)
    requires IsRun(cfg, states, events) && i < j < |events|
    requires events[i] == Look(op, id, presented) && Next(cfg, states[i], events[i]).answer.Quiet?
    requires forall k :: i < k < j ==> events[k] != Decide(op)
    ensures id in states[i].tokens && op in states[j].inFlight && states[j].inFlight[op].LookedUp?
    ensures states[j].inFlight[op].row == states[i].tokens[id]
    ensures states[j].inFlight[op].last == LastUse(states[i].uses, states[i].tokens[id])
  {
    var t := states[i].tokens[id];
    assert states[i + 1].inFlight[op] == LookedUp(id, presented, t, Secret(cfg, t).value, LastUse(states[i].uses, t));
    LookStays(cfg, states, events, op, i + 1, j);
  }

  /** A step moves the access time of a row that stays exactly if it stores an access to it, and then to now. */
  lemma StepAccess(cfg: Config, s: State, e: Event, id: Id)
    requires Inv(cfg, s) && id in s.tokens && id in Next(cfg, s, e).state.tokens
    requires Next(cfg, s, e).state.tokens[id].serial == s.tokens[id].serial
    ensures Next(cfg, s, e).state.tokens[id].lastAccess ==
      if StoresAccess(cfg, s, e, s.tokens[id].serial) then s.clock else s.tokens[id].lastAccess
  {
    hide Secret, Truncate, PhaseOk, RowOk, Tracks, Readable, Accessed, UsedFrom, LastUse, Spent;
    RowOfSerial(cfg, s, id);
  }

  lemma RowOfSerial(cfg: Config, s: State, id: Id)
    requires Inv(cfg, s) && id in s.tokens
    ensures s.tokens[id].serial < s.serials
    ensures forall j :: j in s.tokens && s.tokens[j].serial == s.tokens[id].serial ==> j == id
  {
    assert RowOk(cfg, s, s.tokens[id]);
  }

  /** Between two sights of a row, its access time is as it was or that of the last access stored. */
  lemma {:induction false} AccessSince(cfg: Config, states: seq<State>, events: seq<Event>, id: Id, i: nat, j: nat)
    requires cfg.Valid() && IsRun(cfg, states, events) && i <= j < |states|
    requires id in states[i].tokens && id in states[j].tokens
    requires states[i].tokens[id].serial == states[j].tokens[id].serial
    ensures var n, last := states[i].tokens[id].serial, states[j].tokens[id].lastAccess;
            && (forall k :: i <= k < j && StoresAccess(cfg, states[k], events[k], n) ==> states[k].clock <= last)
            && (|| last == states[i].tokens[id].lastAccess
                || exists k :: i <= k < j && StoresAccess(cfg, states[k], events[k], n) && last == states[k].clock)
    decreases j - i
  {
    hide Next, Inv, StoresAccess, LaterSight;
    if i < j {
      var n := states[i].tokens[id].serial;
      RunInv(cfg, states, events, i);
      RunInv(cfg, states, events, j - 1);
      RowOfSerial(cfg, states[i], id);
      SerialsGrow(cfg, states, events, i, j - 1);
      RowLife(cfg, states, events, id, j - 1, j);
      AccessSince(cfg, states, events, id, i, j - 1);
      StepAccess(cfg, states[j - 1], events[j - 1], id);
      AccessedBefore(cfg, states[j - 1], id);
      forall k | i <= k < j && StoresAccess(cfg, states[k], events[k], n)
        ensures states[k].clock <= states[j].tokens[id].lastAccess
      {
        ClockRuns(cfg, states, events, k, j - 1);
      }
    }
  }

  /**
    When a discarding commits on the row it judged, the deletion is rightful, that
    is the row is expired or stale at that moment, exactly if it has expired or every
    access stored since the row was looked up is the time to stale ago again. `i` is
    the lookup, or any moment at which the row stood as it was looked up.
   */
  lemma DiscardRightfulIff(cfg: Config, states: seq<State>, events: seq<Event>, op: nat, i: nat, j: nat)
    requires cfg.Valid() && IsRun(cfg, states, events) && i <= j < |states|
    requires op in states[j].inFlight && states[j].inFlight[op].Discarding?
    requires var p := states[j].inFlight[op];
             && p.id in states[i].tokens && states[i].tokens[p.id] == p.row
             && p.id in states[j].tokens && states[j].tokens[p.id].serial == p.row.serial
    ensures var p, now := states[j].inFlight[op], states[j].clock;
            Spent(cfg, states[j].tokens[p.id], now) <==>
              || now > p.row.expires
              || forall k :: i <= k < j && StoresAccess(cfg, states[k], events[k], p.row.serial)
                   ==> now >= states[k].clock + cfg.timeToStale
  {
    hide Next, StoresAccess;
    var p := states[j].inFlight[op];
    RunInv(cfg, states, events, j);
    assert PhaseOk(cfg, states[j], p) && LaterSight(p.row, states[j].tokens[p.id]);
    hide Inv;
    AccessSince(cfg, states, events, p.id, i, j);
  }

  /** In particular, a row that was not accessed since the lookup is spent when its discarding commits. */
  lemma DiscardIsOfSpentRow(cfg: Config, states: seq<State>, events: seq<Event>, op: nat, i: nat, j: nat)
    requires cfg.Valid() && IsRun(cfg, states, events) && i <= j < |states|
    requires op in states[j].inFlight && states[j].inFlight[op].Discarding?
    requires var p := states[j].inFlight[op];
             && p.id in states[i].tokens && states[i].tokens[p.id] == p.row
             && p.id in states[j].tokens && states[j].tokens[p.id].serial == p.row.serial
    requires forall k :: i <= k < j ==> !StoresAccess(cfg, states[k], events[k], states[j].inFlight[op].row.serial)
    ensures Spent(cfg, states[j].tokens[states[j].inFlight[op].id], states[j].clock)
  {
    hide *;
    DiscardRightfulIff(cfg, states, events, op, i, j);
  }

  // ----- where a validation under way comes from

  /** The event is the lookup that `p` remembers. */
  ghost predicate LooksUp(cfg: Config, s: State, e: Event, op: nat, p: Phase) {
    && e.Look? && e.op == op && e.id == p.id && Next(cfg, s, e).answer.Quiet?
    && p.id in s.tokens && s.tokens[p.id] == p.row && (!p.Discarding? ==> e.presented == p.presented)
  }

  /** The event is the judgement that led to `p`. */
  ghost predicate Judges(cfg: Config, s: State, e: Event, op: nat, p: Phase) {
    e == Decide(op) && (p.Touching? ==> p.now == s.clock) && (p.Discarding? ==> Spent(cfg, p.row, s.clock))
  }

  lemma StepPhase(cfg: Config, s: State, e: Event, op: nat)
    requires op in Next(cfg, s, e).state.inFlight
    ensures var p := Next(cfg, s, e).state.inFlight[op];
            || (op in s.inFlight && p == s.inFlight[op])
            || (p.LookedUp? && LooksUp(cfg, s, e, op, p))
            || (&& !p.LookedUp? && Judges(cfg, s, e, op, p)
                && op in s.inFlight && s.inFlight[op].LookedUp?
                && s.inFlight[op].id == p.id && s.inFlight[op].row == p.row
                && (p.Touching? ==> s.inFlight[op].presented == p.presented))
  {
    hide Secret, Truncate, Readable, Accessed, UsedFrom, LastUse, Spent, Issuable;
  }

  /** Every validation under way was looked up at some `i`, and judged, if it was, at some later `d`. */
  lemma {:induction false} PhaseOrigin(cfg: Config, states: seq<State>, events: seq<Event>, op: nat, j: nat)
    returns (i: nat, d: nat)
    requires IsRun(cfg, states, events) && j < |states| && op in states[j].inFlight
    ensures i < j && LooksUp(cfg, states[i], events[i], op, states[j].inFlight[op])
    ensures !states[j].inFlight[op].LookedUp? ==>
      i < d < j && Judges(cfg, states[d], events[d], op, states[j].inFlight[op])
    decreases j
  {
    hide Next, Judges;
    i, d := 0, 0;
    assert j > 0;
    StepPhase(cfg, states[j - 1], events[j - 1], op);
    if op in states[j - 1].inFlight {
      i, d := PhaseOrigin(cfg, states, events, op, j - 1);
      if states[j].inFlight[op] == states[j - 1].inFlight[op] {
        return;
      }
    }
    if states[j].inFlight[op].LookedUp? {
      i := j - 1;
    } else {
      d := j - 1;
    }
  }

  /**
    A token returned by a validation, in any run: it is the row stored when that
    validation looked it up, under the secret presented; at the later moment of
    judgement it was no older than the time to live, not expired, not stale and not
    failed; and if it still stands when it is returned, it is neither expired nor failed.
   */
  lemma ReturnedInLife(cfg: Config, states: seq<State>, events: seq<Event>, j: nat) returns (i: nat, d: nat)
    requires cfg.Valid() && IsRun(cfg, states, events) && j < |events|
    requires (events[j].Decide? || events[j].Commit?) && Next(cfg, states[j], events[j]).answer.Returned?
    ensures i < d <= j && events[i].Look? && events[d] == Decide(events[j].op) && events[i].op == events[j].op
    ensures var t, now := Next(cfg, states[j], events[j]).answer.token, states[d].clock;
            && events[i].id in states[i].tokens && t == states[i].tokens[events[i].id]
            && Secret(cfg, t) == Some(events[i].presented)
            && now <= t.expires && now - t.created <= cfg.timeToLive && now - t.lastAccess < cfg.timeToStale
            && !t.status.Failed?
    ensures var serial := Next(cfg, states[j], events[j]).answer.token.serial;
            forall id :: id in states[j].tokens && states[j].tokens[id].serial == serial ==>
              states[j].clock <= states[j].tokens[id].expires && !states[j].tokens[id].status.Failed?
  {
    hide Next, Inv, Secret;
    RunInv(cfg, states, events, j);
    ReturnedStep(cfg, states[j], events[j]);
    DecidesLookedUp(cfg, states[j], events[j]);
    i, d := PhaseOrigin(cfg, states, events, events[j].op, j);
    if events[j].Decide? {
      d := j;
    }
  }

  lemma DecidesLookedUp(cfg: Config, s: State, e: Event)
    requires (e.Decide? || e.Commit?) && Next(cfg, s, e).answer.Returned?
    ensures e.op in s.inFlight && (if e.Decide? then s.inFlight[e.op].LookedUp? else s.inFlight[e.op].Touching?)
  {
  }

  // ----- a limit of the promise

  /** One validation about to touch a row, another about to discard it for its old access time. */
  ghost predicate Standoff(s: State, id: Id) {
    && id in s.tokens && s.clock <= s.tokens[id].expires
    && 1 in s.inFlight && s.inFlight[1].Touching? && s.inFlight[1].id == id
    && 2 in s.inFlight && s.inFlight[2].Discarding? && s.inFlight[2].id == id
  }

  /** The first then returns the token, used at this moment; the second deletes it as stale. */
  lemma StandoffDiscardsFreshToken(cfg: Config, s: State, id: Id)
    requires Standoff(s, id)
    ensures var used := Next(cfg, s, Commit(1, Done));
            && used.answer.Returned? && id in used.state.tokens && used.state.tokens[id].lastAccess == s.clock
            && id !in Next(cfg, used.state, Commit(2, Done)).state.tokens
  {
    assert 2 in Next(cfg, s, Commit(1, Done)).state.inFlight;
  }

  /** Two overlapping validations get there from any start. */
  lemma StandoffHappens(cfg: Config, s0: State, id: Id, secret: string) returns (states: seq<State>, events: seq<Event>)
    requires cfg.Valid() && Initial(s0) && id != "" && secret != ""
    requires cfg.timeToStale > TOUCH_AFTER && cfg.timeToLive >= cfg.timeToStale + SECOND
    ensures IsRun(cfg, states, events) && Standoff(states[|events|], id)
  {
    var create := Create(id, s0.clock, false, secret, 0, Done);
    var t := CreateToken(cfg, s0, s0.clock, false, secret, 0);
    var last := Use(s0.clock, s0.clock, s0.clock);
    var s1 := s0.(serials := s0.serials + 1, tokens := map[id := t], uses := map[t.serial := last]);
    var s2 := s1.(clock := s1.clock + cfg.timeToStale - 1);
    var s3 := s2.(inFlight := map[1 := LookedUp(id, secret, t, secret, last)]);
    var s4 := s3.(inFlight := map[1 := Touching(id, secret, t, s3.clock)]);
    var s5 := s4.(inFlight := s4.inFlight[2 := LookedUp(id, secret, t, secret, last)]);
    var s6 := s5.(clock := s5.clock + 1);
    var s7 := s6.(inFlight := s6.inFlight[2 := Discarding(id, t)]);
    assert Next(cfg, s0, create).state == s1;
    assert Next(cfg, s1, Elapse(cfg.timeToStale - 1)).state == s2;
    assert Next(cfg, s2, Look(1, id, secret)).state == s3;
    assert Next(cfg, s3, Decide(1)).state == s4;
    assert Next(cfg, s4, Look(2, id, secret)).state == s5;
    assert Next(cfg, s5, Elapse(1)).state == s6;
    assert Next(cfg, s6, Decide(2)).state == s7;
    hide Next;
    events := [create, Elapse(cfg.timeToStale - 1), Look(1, id, secret), Decide(1), Look(2, id, secret), Elapse(1),
               Decide(2)];
    states := [s0, s1, s2, s3, s4, s5, s6, s7];
  }

  /**
    A lookup of an unexpired row whose last use ended the time to stale ago, and which
    the judgement will not discard.
   */
  ghost predicate StaleButKept(cfg: Config, s: State, op: nat) {
    && op in s.inFlight && s.inFlight[op].LookedUp?
    && s.clock <= s.inFlight[op].row.expires
    && s.clock >= s.inFlight[op].last.end + cfg.timeToStale
    && var s' := Next(cfg, s, Decide(op)).state;
    && (op in s'.inFlight ==> !s'.inFlight[op].Discarding?)
  }

  /** One access stored without a report gets there: the validation failed, but the token lives on. */
  lemma LostAccessKeepsToken(
    cfg: Config, s0: State, id: Id, secret: string)
    returns (states: seq<State>, events: seq<Event>)
    requires cfg.Valid() && Initial(s0) && id != "" && secret != ""
    requires cfg.timeToStale > TOUCH_AFTER && cfg.timeToLive >= cfg.timeToStale + SECOND
    ensures IsRun(cfg, states, events) && StaleButKept(cfg, states[|events|], 2)
  {
    var create := Create(id, s0.clock, false, secret, 0, Done);
    var t := CreateToken(cfg, s0, s0.clock, false, secret, 0);
    var now, last := s0.clock + TOUCH_AFTER, Use(s0.clock, s0.clock, s0.clock);
    var t' := t.(lastAccess := now);
    var s1 := s0.(serials := 1, tokens := map[id := t], uses := map[0 := last]);
    var s2 := s1.(clock := now);
    var s3 := s2.(inFlight := map[1 := LookedUp(id, secret, t, secret, last)]);
    var s4 := s3.(inFlight := map[1 := Touching(id, secret, t, now)]);
    var s5 := s2.(tokens := map[id := t'], uses := map[0 := last.(lost := now)]);
    var s6 := s5.(clock := s0.clock + cfg.timeToStale);
    var s7 := s6.(inFlight := map[2 := LookedUp(id, secret, t', secret, last.(lost := now))]);
    assert Next(cfg, s0, create).state == s1;
    assert Next(cfg, s1, Elapse(TOUCH_AFTER)).state == s2;
    assert Next(cfg, s2, Look(1, id, secret)).state == s3;
    assert Next(cfg, s3, Decide(1)).state == s4;
    assert Next(cfg, s4, Commit(1, Unreported)).state == s5;
    assert Next(cfg, s5, Elapse(cfg.timeToStale - TOUCH_AFTER)).state == s6;
    assert Next(cfg, s6, Look(2, id, secret)).state == s7;
    assert StaleButKept(cfg, s7, 2);
    hide Next, StaleButKept;
    events := [create, Elapse(TOUCH_AFTER), Look(1, id, secret), Decide(1), Commit(1, Unreported),
               Elapse(cfg.timeToStale - TOUCH_AFTER), Look(2, id, secret)];
    states := [s0, s1, s2, s3, s4, s5, s6, s7];
  }
}
