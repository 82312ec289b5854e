/** What each event does to the table, row by row, and what rows go through over runs. */
module TokenSteps {
  import opened Options
  import opened Tokens
  import opened TokenRuns
  import opened Transactions

  // ----- one event

  /** A row goes exactly by its own deletion, or by the commit of a validation that discards it. */
  lemma RowGoneIff(cfg: Config, s: State, e: Event, id: Id)
    requires id in s.tokens
    ensures id !in Next(cfg, s, e).state.tokens <==>
      || (e.Delete? && e.id == id && id != "" && e.outcome != NotDone)
      || (&& e.Commit? && e.outcome != NotDone
          && e.op in s.inFlight && s.inFlight[e.op].Discarding? && s.inFlight[e.op].id == id)
  {
    hide Secret, Truncate, Readable, Accessed, LastUse, Spent, Issuable;
  }

  /**
    A row comes exactly by its creation: from now until the time to live after the
    operation began, cut to the second but not before now, pending or issued as
    asked, with the secret under the current key.
   */
  lemma RowNewIff(cfg: Config, s: State, e: Event, id: Id)
    requires cfg.Valid() && id !in s.tokens
    ensures id in Next(cfg, s, e).state.tokens <==>
      e.Create? && e.id == id && id != "" && e.started <= s.clock && e.outcome != NotDone
    ensures id in Next(cfg, s, e).state.tokens ==>
      var t, end := Next(cfg, s, e).state.tokens[id], e.started + cfg.timeToLive;
      var second := end - end % 1_000_000_000;
      && t.serial == s.serials && t.created == t.lastAccess == s.clock
      && t.expires == (if second < s.clock then s.clock else second)
      && t.status == (if e.pending then Pending else Issued)
      && t.keyId == s.keys.current && cfg.cipher.decrypt(t.keyId, t.sealed) == Some(e.secret)
  {
    hide Readable, Accessed, LastUse, Spent;
    if e.Create? {
      var k := s.keys.current;
      assert cfg.cipher.Lawful();
      assert cfg.cipher.decrypt(k, cfg.cipher.encrypt(k, e.nonce, e.secret)) == Some(e.secret);
    }
  }

  /**
    A row that stays changes only in these ways: an issue of a pending row in life, the
    closing of pending rows past their expiration, the access a validation stores, and
    encryption under another key.
   */
  lemma RowAfter(cfg: Config, s: State, e: Event, id: Id)
    requires id in s.tokens && id in Next(cfg, s, e).state.tokens
    ensures var row := s.tokens[id];
            var readable := row.keyId in s.keys.known && cfg.cipher.decrypt(row.keyId, row.sealed).Some?;
            Next(cfg, s, e).state.tokens[id] == (
              match e
              case Issue(i, o) =>
                if i == id && o != NotDone && row.status == Pending && s.clock <= row.expires && readable
                then row.(status := Issued, lastAccess := s.clock) else row
              case CloseExpired(o) =>
                if o != NotDone && row.status == Pending && s.clock > row.expires then row.(status := Failed) else row
              case Commit(op, o) =>
                if o != NotDone && op in s.inFlight && s.inFlight[op].Touching? && s.inFlight[op].id == id
                   && s.clock <= row.expires
                then row.(lastAccess := s.clock) else row
              case Rewrap(i, nonce, o) =>
                if i == id && o != NotDone && readable then
                  var secret := cfg.cipher.decrypt(row.keyId, row.sealed).value;
                  row.(keyId := s.keys.current, sealed := cfg.cipher.encrypt(s.keys.current, nonce, secret))
                else row
              case _ => row)
  {
    hide Truncate, Accessed, LastUse, Spent;
  }

  /** Time passes only by itself, keys change only by their own events, and a key in use is not destroyed. */
  lemma RestAfter(cfg: Config, s: State, e: Event)
    ensures var r := Next(cfg, s, e).state;
            && r.clock == (if e.Elapse? then s.clock + e.d else s.clock)
            && (!e.RotateKey? && !e.DestroyKey? ==> r.keys == s.keys)
            && (e.RotateKey? ==> r.keys == KeyRing(e.key, s.keys.known + {e.key}))
            && (e.DestroyKey? ==>
                  var inUse := e.key == s.keys.current || exists id :: id in s.tokens && s.tokens[id].keyId == e.key;
                  r.keys == KeyRing(s.keys.current, if inUse then s.keys.known else s.keys.known - {e.key}))
  {
    hide Secret, Truncate, Readable, Accessed, LastUse, Spent, Issuable;
  }

  /**
    The judgement: discard what is expired or stale, refuse a wrong secret, store an
    access that is due, or return the row.
   */
  lemma Judgement(cfg: Config, s: State, op: nat)
    requires op in s.inFlight && s.inFlight[op].LookedUp?
    ensures var p, now, r := s.inFlight[op], s.clock, Next(cfg, s, Decide(op));
            && r.state.tokens == s.tokens
            && if now > p.row.expires || now - p.row.lastAccess >= cfg.timeToStale then
                 r.state.inFlight == s.inFlight[op := Discarding(p.id, p.row)] && r.answer == Quiet
               else if p.secret != p.presented then
                 r.state.inFlight == s.inFlight - {op} && r.answer == NoToken
               else if now - p.row.lastAccess >= 600_000_000_000 then
                 r.state.inFlight == s.inFlight[op := Touching(p.id, p.presented, p.row, now)] && r.answer == Quiet
               else
                 r.state.inFlight == s.inFlight - {op} && r.answer == Returned(p.row)
  {
    hide UsedFrom;
  }

  /** What the caller of a validation's transaction hears. */
  lemma CommitAnswer(cfg: Config, s: State, op: nat, outcome: Outcome)
    requires op in s.inFlight && !s.inFlight[op].LookedUp?
    ensures var p := s.inFlight[op];
            Next(cfg, s, Commit(op, outcome)).answer ==
              if outcome != Done then Refused
              else if p.Discarding? then NoToken
              else if p.id in s.tokens && s.clock > s.tokens[p.id].expires then Refused
              else Returned(p.row)
    ensures Next(cfg, s, Commit(op, outcome)).state.inFlight == s.inFlight - {op}
  {
    hide Accessed;
  }

  // ----- runs

  /** The event removes the row under `id`. */
  ghost predicate Removes(s: State, e: Event, id: Id) {
    || (e.Delete? && e.id == id && id != "" && e.outcome != NotDone)
    || (&& e.Commit? && e.outcome != NotDone
        && e.op in s.inFlight && s.inFlight[e.op].Discarding? && s.inFlight[e.op].id == id)
  }

  /** The event is about the row under `id`. */
  ghost predicate Names(s: State, e: Event, id: Id) {
    || ((e.Create? || e.Issue? || e.Delete? || e.Rewrap?) && e.id == id)
    || (e.Commit? && e.op in s.inFlight && s.inFlight[e.op].id == id)
  }

  /** The event closes the row under `id`: it is pending and past its expiration. */
  ghost predicate Closes(s: State, e: Event, id: Id) {
    && e.CloseExpired? && e.outcome != NotDone
    && id in s.tokens && s.tokens[id].status == Pending && s.clock > s.tokens[id].expires
  }

  /** A row stays, whatever happens, until an event removes it. */
  lemma {:induction false} RowStays(
    cfg: Config, states: seq<State>, events: seq<Event>, id: Id, i: nat, j: nat)
    requires IsRun(cfg, states, events) && i <= j < |states| && id in states[i].tokens
    requires forall k :: i <= k < j ==> !Removes(states[k], events[k], id)
    ensures id in states[j].tokens && states[j].tokens[id].serial == states[i].tokens[id].serial
    decreases j - i
  {
    hide Next;
    if i < j {
      RowStays(cfg, states, events, id, i, j - 1);
      RowGoneIff(cfg, states[j - 1], events[j - 1], id);
      RowAfter(cfg, states[j - 1], events[j - 1], id);
    }
  }

  /** A row that no event is about stays as it is, but that it fails if it is closed. */
  lemma {:induction false} OtherRowsStay(
    cfg: Config, states: seq<State>, events: seq<Event>, id: Id, i: nat, j: nat)
    requires IsRun(cfg, states, events) && i <= j < |states| && id in states[i].tokens
    requires forall k :: i <= k < j ==> !Names(states[k], events[k], id)
    ensures id in states[j].tokens
    ensures states[j].tokens[id] ==
      if exists k :: i <= k < j && Closes(states[k], events[k], id) then states[i].tokens[id].(status := Failed)
      else states[i].tokens[id]
    decreases j - i
  {
    hide Next;
    if i < j {
      OtherRowsStay(cfg, states, events, id, i, j - 1);
      RowGoneIff(cfg, states[j - 1], events[j - 1], id);
      RowAfter(cfg, states[j - 1], events[j - 1], id);
    }
  }

  /**
    The history of a status. Between two sights of a pending row: it is issued exactly
    if an issue found it pending, in life and readable, failed exactly if a closing
    found it past its expiration, and otherwise pending still.
   */
  lemma {:induction false} StatusHistory(
    cfg: Config, states: seq<State>, events: seq<Event>, id: Id, i: nat, j: nat)
    requires cfg.Valid() && IsRun(cfg, states, events) && i <= j < |states|
    requires id in states[i].tokens && id in states[j].tokens
    requires states[i].tokens[id].serial == states[j].tokens[id].serial && states[i].tokens[id].status == Pending
    ensures states[j].tokens[id].status == Issued <==> exists k :: i <= k < j && Issues(cfg, states[k], events[k], id)
    ensures states[j].tokens[id].status == Failed <==> exists k :: i <= k < j && Closes(states[k], events[k], id)
    ensures states[j].tokens[id].status in {Pending, Issued, Failed}
    decreases j - i
  {
    hide Next, Inv, Secret, LaterSight;
    if i < j {
      RunInv(cfg, states, events, i);
      RowOfSerial(cfg, states[i], id);
      SerialsGrow(cfg, states, events, i, j - 1);
      RowLife(cfg, states, events, id, j - 1, j);
      StatusHistory(cfg, states, events, id, i, j - 1);
      StatusStep(cfg, states[j - 1], events[j - 1], id);
    }
  }

  lemma StatusStep(cfg: Config, s: State, e: Event, id: Id)
    requires id in s.tokens && id in Next(cfg, s, e).state.tokens
    ensures Next(cfg, s, e).state.tokens[id].status ==
      if Issues(cfg, s, e, id) then Issued else if Closes(s, e, id) then Failed else s.tokens[id].status
    ensures Issues(cfg, s, e, id) || Closes(s, e, id) ==> s.tokens[id].status == Pending
  {
    hide Next;
    RowAfter(cfg, s, e, id);
  }

  /** An issue succeeds exactly on a pending row in life whose secret can be read. */
  lemma IssuesIff(cfg: Config, s: State, e: Event, id: Id)
    ensures Issues(cfg, s, e, id) <==>
      && e.Issue? && e.id == id && e.outcome != NotDone
      && id in s.tokens && s.tokens[id].status == Pending && s.clock <= s.tokens[id].expires
      && s.tokens[id].keyId in s.keys.known && cfg.cipher.decrypt(s.tokens[id].keyId, s.tokens[id].sealed).Some?
  {
  }
}
