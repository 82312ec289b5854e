/**
  The repository as one controller runs it: its methods change the table in
  place. Delays are the time that passes between an operation's reading of the
  clock and its transaction; `outcome` is how that transaction ends.
 */
module Repositories {
  import opened Options
  import opened Tokens
  import opened TokenRuns
  import opened TokenSteps
  import opened Transactions

  /** The steps of one validation, with nothing in between. */
  function Validation(
    cfg: Config, s: State, id: Id, presented: string, delay: nat, txDelay: nat, outcome: Outcome): Step
  {
    var look := Next(cfg, s, Look(0, id, presented));
    if !look.answer.Quiet? then look
    else
      var judged := Next(cfg, Next(cfg, look.state, Elapse(delay)).state, Decide(0));
      if !judged.answer.Quiet? then judged
      else Next(cfg, Next(cfg, judged.state, Elapse(txDelay)).state, Commit(0, outcome))
  }

  /**
    What the three steps come to. Without a secret or an id, or with an unreadable
    row, an error; without a row, no token. A row expired or stale at the judgement is
    deleted, and no other, if the transaction takes effect. A wrong secret changes
    nothing. An access due is stored, if the transaction takes effect in the row's
    life, and then returned if that is reported. Otherwise the row is returned.
   */
  lemma ValidationSteps(
    cfg: Config, s: State, id: Id, presented: string, delay: nat, txDelay: nat, outcome: Outcome)
    requires s.inFlight == map[]
    ensures var r := Validation(cfg, s, id, presented, delay, txDelay, outcome);
      if presented == "" || id == "" then r == Step(s, Refused)
      else if id !in s.tokens then r == Step(s, NoToken)
      else
        var row, now, later := s.tokens[id], s.clock + delay, s.clock + delay + txDelay;
        var secret := cfg.cipher.decrypt(row.keyId, row.sealed);
        if row.keyId !in s.keys.known || secret.None? then r == Step(s, Refused)
        else if now > row.expires || now - row.lastAccess >= cfg.timeToStale then
          && r.state.tokens == (if outcome == NotDone then s.tokens else s.tokens - {id})
          && r.answer == (if outcome == Done then NoToken else Refused)
          && r.state == s.(clock := later, tokens := r.state.tokens)
        else if secret.value != presented then r == Step(s.(clock := now), NoToken)
        else if now - row.lastAccess >= 600_000_000_000 then
          var stored := outcome != NotDone && later <= row.expires;
          && r.state.tokens == (if stored then s.tokens[id := row.(lastAccess := later)] else s.tokens)
          && r.answer == (if stored && outcome == Done then Returned(row) else Refused)
          && r.state == s.(clock := later, tokens := r.state.tokens, uses := r.state.uses)
          && r.state.uses == (if stored then Accessed(s.uses, row.serial, now, later, outcome) else s.uses)
        else r == Step(s.(clock := now, uses := UsedFrom(s.uses, row.serial, now, now)), Returned(row))
  {
    hide Validation, UsedFrom, Accessed;
    if presented != "" && id != "" && id in s.tokens && Readable(cfg, s.keys, s.tokens[id]) {
      ValidationOfRow(cfg, s, id, presented, delay, txDelay, outcome);
    } else {
      ValidationOfNone(cfg, s, id, presented, delay, txDelay, outcome);
    }
  }

  lemma ValidationOfNone(
    cfg: Config, s: State, id: Id, presented: string, delay: nat, txDelay: nat, outcome: Outcome)
    requires s.inFlight == map[]
    requires presented == "" || id == "" || id !in s.tokens || !Readable(cfg, s.keys, s.tokens[id])
    ensures Validation(cfg, s, id, presented, delay, txDelay, outcome) ==
      Step(s, if presented != "" && id != "" && id !in s.tokens then NoToken else Refused)
  {
  }

  lemma ValidationOfRow(
    cfg: Config, s: State, id: Id, presented: string, delay: nat, txDelay: nat, outcome: Outcome)
    requires s.inFlight == map[]
    requires presented != "" && id != "" && id in s.tokens && Readable(cfg, s.keys, s.tokens[id])
    ensures var r := Validation(cfg, s, id, presented, delay, txDelay, outcome);
      var row, now, later := s.tokens[id], s.clock + delay, s.clock + delay + txDelay;
      if Spent(cfg, row, now) then
        r == Step(s.(clock := later, tokens := if outcome == NotDone then s.tokens else s.tokens - {id}),
                  if outcome == Done then NoToken else Refused)
      else if Secret(cfg, row) != Some(presented) then r == Step(s.(clock := now), NoToken)
      else if now - row.lastAccess >= TOUCH_AFTER then
        if outcome == NotDone || later > row.expires then r == Step(s.(clock := later), Refused)
        else
          r == Step(s.(clock := later, tokens := s.tokens[id := row.(lastAccess := later)],
                       uses := Accessed(s.uses, row.serial, now, later, outcome)), Told(outcome, Returned(row)))
      else r == Step(s.(clock := now, uses := UsedFrom(s.uses, row.serial, now, now)), Returned(row))
  {
    hide UsedFrom, Accessed, LastUse, Secret;
  }

  lemma InvLater(cfg: Config, s: State, delay: nat, e: Event)
    requires cfg.Valid() && Inv(cfg, s)
    ensures Inv(cfg, Next(cfg, s.(clock := s.clock + delay), e).state)
  {
    InvElapse(cfg, s, delay);
    InvNext(cfg, s.(clock := s.clock + delay), e);
    hide Inv, Next;
  }

  lemma ValidationInv(cfg: Config, s: State, id: Id, presented: string, delay: nat, txDelay: nat, outcome: Outcome)
    requires cfg.Valid() && Inv(cfg, s)
    ensures Inv(cfg, Validation(cfg, s, id, presented, delay, txDelay, outcome).state)
  {
    hide Inv;
    var look := Next(cfg, s, Look(0, id, presented));
    InvNext(cfg, s, Look(0, id, presented));
    InvNext(cfg, look.state, Elapse(delay));
    var judged := Next(cfg, Next(cfg, look.state, Elapse(delay)).state, Decide(0));
    InvNext(cfg, Next(cfg, look.state, Elapse(delay)).state, Decide(0));
    InvNext(cfg, judged.state, Elapse(txDelay));
    InvNext(cfg, Next(cfg, judged.state, Elapse(txDelay)).state, Commit(0, outcome));
  }

  /** The same row but for the key it is encrypted under: the secret is unchanged. */
  ghost predicate SameButKey(cfg: Config, was: Token, t: Token) {
    && t == was.(keyId := t.keyId, sealed := t.sealed)
    && cfg.cipher.decrypt(t.keyId, t.sealed) == cfg.cipher.decrypt(was.keyId, was.sealed)
  }

  lemma RewrapRow(cfg: Config, s: State, id: Id, nonce: nat)
    requires cfg.Valid() && Inv(cfg, s) && id in s.tokens && Readable(cfg, s.keys, s.tokens[id])
    ensures var t := Rewrapped(cfg, s.keys, s.tokens[id], nonce);
            && Inv(cfg, s.(tokens := s.tokens[id := t]))
            && SameButKey(cfg, s.tokens[id], t) && t.keyId == s.keys.current
  {
    hide Inv;
    InvRewrap(cfg, s, id, nonce, Done);
  }

  class Repository {
    const cfg: Config
    var clock: Time
    var serials: nat
    var tokens: map<Id, Token>
    var keys: KeyRing
    ghost var uses: map<nat, Use>

    ghost function View(): State
      reads this
    {
      State(clock, serials, tokens, keys, map[], uses)
    }

    ghost predicate Valid()
      reads this
    {
      cfg.Valid() && Inv(cfg, View())
    }

    constructor (cfg: Config, clock: Time, key: KeyId)
      requires cfg.Valid()
      ensures this.cfg == cfg && Initial(View()) && Valid()
    {
      this.cfg := cfg;
      this.clock, serials, tokens, uses := clock, 0, map[], map[];
      keys := KeyRing(key, {key});
    }

    /**
      The expiration comes from the clock before the transaction; the row is created at
      the transaction's time and never expires before that.
     */
    method CreateAuthToken(
      id: Id, delay: nat, pending: bool, secret: string, nonce: nat, outcome: Outcome)
      returns (answer: Answer)
      requires Valid()
      modifies this`clock, this`serials, this`tokens, this`uses
      ensures Valid()
      ensures var create := Create(id, old(clock), pending, secret, nonce, outcome);
              var step := Next(cfg, old(View()).(clock := old(clock) + delay), create);
              View() == step.state && answer == step.answer
      ensures clock == old(clock) + delay
      ensures outcome == NotDone || id == "" || id in old(tokens) ==> tokens == old(tokens) && answer == Refused
      ensures outcome != NotDone && id != "" && id !in old(tokens) ==>
        && tokens.Keys == old(tokens).Keys + {id} && (forall j :: j in old(tokens) ==> tokens[j] == old(tokens)[j])
        && var t, end := tokens[id], old(clock) + cfg.timeToLive;
        var second := end - end % 1_000_000_000;
        && t.created == t.lastAccess == clock && t.expires == (if second < clock then clock else second)
        && t.status == (if pending then Pending else Issued)
        && t.keyId == keys.current && cfg.cipher.decrypt(t.keyId, t.sealed) == Some(secret)
        && answer == (if outcome == Done then Returned(t) else Refused)
    {
      hide Inv, Cipher.Lawful;
      if id !in tokens {
        RowNewIff(cfg, View().(clock := clock + delay), Create(id, clock, pending, secret, nonce, outcome), id);
      }
      InvLater(cfg, View(), delay, Create(id, clock, pending, secret, nonce, outcome));
      var expires := Truncate(clock + cfg.timeToLive);
      clock := clock + delay;
      if outcome.NotDone? || id == "" || id in tokens {
        return Refused;
      }
      var t := Token(serials, clock, Max(expires, clock), clock, if pending then Pending else Issued,
                     keys.current, cfg.cipher.encrypt(keys.current, nonce, secret));
      tokens := tokens[id := t];
      serials := serials + 1;
      uses := uses[t.serial := Use(clock, clock, clock)];
      return Told(outcome, Returned(t));
    }

    method IssueAuthToken(id: Id, outcome: Outcome) returns (answer: Answer)
      requires Valid()
      modifies this`tokens, this`uses
      ensures Valid()
      ensures var step := Next(cfg, old(View()), Issue(id, outcome)); View() == step.state && answer == step.answer
      ensures forall j :: j in old(tokens) && j != id ==> j in tokens && tokens[j] == old(tokens)[j]
      ensures var issues := outcome != NotDone && id in old(tokens)
                && old(tokens)[id].status == Pending && clock <= old(tokens)[id].expires;
              if issues then
                && tokens == old(tokens)[id := old(tokens)[id].(status := Issued, lastAccess := clock)]
                && answer == (if outcome == Done then Returned(tokens[id]) else Refused)
              else tokens == old(tokens) && answer == Refused
    {
      hide Inv, Cipher.Lawful, Accessed;
      AllReadable(cfg, View(), id);
      InvNext(cfg, View(), Issue(id, outcome));
      if outcome.NotDone? || id !in tokens || !tokens[id].status.Pending? || clock > tokens[id].expires
         || !Readable(cfg, keys, tokens[id]) {
        return Refused;
      }
      var t := tokens[id].(status := Issued, lastAccess := clock);
      tokens := tokens[id := t];
      uses := Accessed(uses, t.serial, clock, clock, outcome);
      return Told(outcome, Returned(t));
    }

    /** Closes the pending rows past their expiration, and counts them. */
    method CloseExpiredPendingTokens(outcome: Outcome) returns (closed: nat)
      requires Valid()
      modifies this`tokens
      ensures Valid() && View() == Next(cfg, old(View()), CloseExpired(outcome)).state
      ensures tokens.Keys == old(tokens).Keys && (outcome == NotDone ==> tokens == old(tokens))
      ensures outcome != NotDone ==>
        forall id :: id in tokens ==>
          var was := old(tokens)[id];
          tokens[id] == if was.status == Pending && clock > was.expires then was.(status := Failed) else was
      ensures closed == if outcome.Done? then |set id | id in old(tokens) && tokens[id] != old(tokens)[id]| else 0
    {
      hide Inv, Cipher.Lawful;
      InvNext(cfg, View(), CloseExpired(outcome));
      if outcome.NotDone? {
        return 0;
      }
      var expired := set id | id in tokens && tokens[id].status.Pending? && clock > tokens[id].expires;
      ghost var before := tokens;
      tokens := map id | id in tokens :: Closed(tokens[id], clock);
      assert expired == set id | id in before && tokens[id] != before[id];
      return if outcome.Done? then |expired| else 0;
    }

    method DeleteAuthToken(id: Id, outcome: Outcome) returns (deleted: nat)
      requires Valid()
      modifies this`tokens
      ensures Valid() && View() == Next(cfg, old(View()), Delete(id, outcome)).state
      ensures tokens == (if outcome == NotDone then old(tokens) else old(tokens) - {id})
      ensures deleted == if outcome == Done then |old(tokens)| - |tokens| else 0
    {
      hide Inv, Cipher.Lawful;
      InvNext(cfg, View(), Delete(id, outcome));
      assert "" !in tokens by {
        NoEmptyId(cfg, View());
      }
      if outcome.NotDone? || id == "" {
        return 0;
      }
      deleted := if outcome.Done? && id in tokens then 1 else 0;
      ghost var before := tokens;
      tokens := tokens - {id};
      assert tokens.Keys == before.Keys - {id};
    }

    method ValidateToken(id: Id, presented: string, delay: nat, txDelay: nat, outcome: Outcome) returns (answer: Answer)
      requires Valid()
      modifies this`clock, this`tokens, this`uses
      ensures Valid()
      ensures var step := Validation(cfg, old(View()), id, presented, delay, txDelay, outcome);
              View() == step.state && answer == step.answer
      ensures forall j :: j in old(tokens) && j != id ==> j in tokens && tokens[j] == old(tokens)[j]
      ensures tokens.Keys <= old(tokens).Keys
    {
      hide Inv, Cipher.Lawful, Validation, UsedFrom, Accessed;
      ValidationInv(cfg, View(), id, presented, delay, txDelay, outcome);
      ValidationSteps(cfg, View(), id, presented, delay, txDelay, outcome);
      if presented == "" || id == "" {
        return Refused;
      }
      if id !in tokens {
        return NoToken;
      }
      var row := tokens[id];
      if !Readable(cfg, keys, row) {
        return Refused;
      }
      var secret := Secret(cfg, row).value;
      clock := clock + delay;
      var now := clock;
      if Spent(cfg, row, now) {
        clock := clock + txDelay;
        if outcome.NotDone? {
          return Refused;
        }
        tokens := tokens - {id};
        return Told(outcome, NoToken);
      }
      if secret != presented {
        return NoToken;
      }
      if now - row.lastAccess >= TOUCH_AFTER {
        clock := clock + txDelay;
        if outcome.NotDone? || clock > row.expires {
          return Refused;
        }
        tokens := tokens[id := row.(lastAccess := clock)];
        uses := Accessed(uses, row.serial, now, clock, outcome);
        return Told(outcome, Returned(row));
      }
      uses := UsedFrom(uses, row.serial, now, now);
      return Returned(row);
    }

    /**
      Re-encrypts every row under an old key version with the current one. Any of
      the lookups, decryptions, encryptions and updates may fail, and the loop then
      stops where it is, with or without the last update; `outcome` says at which row.
     */
    method RewrapTokens(oldKey: KeyId, outcome: nat -> Outcome, nonce: nat -> nat) returns (ok: bool)
      requires Valid()
      modifies this`tokens
      ensures Valid() && tokens.Keys == old(tokens).Keys
      ensures forall id :: id in tokens && old(tokens)[id].keyId != oldKey ==> tokens[id] == old(tokens)[id]
      ensures forall id :: id in tokens ==>
        var was, t := old(tokens)[id], tokens[id];
        && t == was.(keyId := t.keyId, sealed := t.sealed)
        && cfg.cipher.decrypt(t.keyId, t.sealed) == cfg.cipher.decrypt(was.keyId, was.sealed)
      ensures ok && keys.current != oldKey ==> forall id :: id in tokens ==> tokens[id].keyId != oldKey
      ensures ok ==> forall id :: id in tokens && old(tokens)[id].keyId == oldKey ==> tokens[id].keyId == keys.current
      ensures oldKey != "" && (forall n :: outcome(n) == Done) ==> ok
    {
      hide Inv, Cipher.Lawful, Rewrapped, Secret, Rewrapping;
      var todo := set id | id in tokens && tokens[id].keyId == oldKey;
      RewrappingStarts(cfg, tokens, todo, keys.current, oldKey);
      if oldKey == "" {
        RewrappingMeans(cfg, tokens, tokens, todo, keys.current, oldKey);
        return false;
      }
      var n := 0;
      while todo != {}
        invariant Valid() && todo <= tokens.Keys == old(tokens).Keys
        invariant Rewrapping(cfg, old(tokens), tokens, todo, keys.current, oldKey)
      {
        RewrappingMeans(cfg, old(tokens), tokens, todo, keys.current, oldKey);
        var id :| id in todo;
        AllReadable(cfg, View(), id);
        if outcome(n).NotDone? || !Readable(cfg, keys, tokens[id]) {
          return false;
        }
        RewrapRow(cfg, View(), id, nonce(n));
        var t := Rewrapped(cfg, keys, tokens[id], nonce(n));
        RewrappingGoesOn(cfg, old(tokens), tokens, todo, keys.current, oldKey, id, t);
        tokens := tokens[id := t];
        todo := todo - {id};
        if outcome(n).Unreported? {
          RewrappingMeans(cfg, old(tokens), tokens, todo, keys.current, oldKey);
          return false;
        }
        n := n + 1;
      }
      RewrappingMeans(cfg, old(tokens), tokens, todo, keys.current, oldKey);
      return true;
    }
  }

  /** Part way through a rewrapping: `todo` are the rows still to do. */
  ghost predicate Rewrapping(
    cfg: Config, before: map<Id, Token>, now: map<Id, Token>, todo: set<Id>, current: KeyId, oldKey: KeyId)
  {
    && now.Keys == before.Keys && todo <= before.Keys
    && (forall id :: id in before ==> SameButKey(cfg, before[id], now[id]))
    && (forall id :: id in before && before[id].keyId != oldKey ==> now[id] == before[id] && id !in todo)
    && (forall id :: id in before && before[id].keyId == oldKey && id !in todo ==> now[id].keyId == current)
  }

  lemma RewrappingStarts(cfg: Config, before: map<Id, Token>, todo: set<Id>, current: KeyId, oldKey: KeyId)
    requires todo == set id | id in before && before[id].keyId == oldKey
    ensures Rewrapping(cfg, before, before, todo, current, oldKey)
  {
  }

  lemma RewrappingGoesOn(
    cfg: Config, before: map<Id, Token>, now: map<Id, Token>, todo: set<Id>, current: KeyId, oldKey: KeyId,
    id: Id, t: Token)
    requires Rewrapping(cfg, before, now, todo, current, oldKey) && id in todo && id in now
    requires SameButKey(cfg, now[id], t) && t.keyId == current
    ensures Rewrapping(cfg, before, now[id := t], todo - {id}, current, oldKey)
  {
  }

  lemma RewrappingMeans(
    cfg: Config, before: map<Id, Token>, now: map<Id, Token>, todo: set<Id>, current: KeyId, oldKey: KeyId)
    requires Rewrapping(cfg, before, now, todo, current, oldKey)
    ensures now.Keys == before.Keys
    ensures forall id :: id in now && before[id].keyId != oldKey ==> now[id] == before[id]
    ensures forall id :: id in now ==>
      && now[id] == before[id].(keyId := now[id].keyId, sealed := now[id].sealed)
      && cfg.cipher.decrypt(now[id].keyId, now[id].sealed) == cfg.cipher.decrypt(before[id].keyId, before[id].sealed)
    ensures todo == {} ==> forall id :: id in now && before[id].keyId == oldKey ==> now[id].keyId == current
    ensures todo == {} && current != oldKey ==> forall id :: id in now ==> now[id].keyId != oldKey
  {
  }

  lemma AllReadable(cfg: Config, s: State, id: Id)
    requires Inv(cfg, s)
    ensures id in s.tokens ==> Readable(cfg, s.keys, s.tokens[id])
  {
  }

  lemma NoEmptyId(cfg: Config, s: State)
    requires Inv(cfg, s)
    ensures "" !in s.tokens
  {
  }

  /**
    Without interference, a validation deletes exactly the rows spent at the moment of
    judgement, if its transaction takes effect, reported or not.
   */
  lemma ValidationDeletesSpent(
    cfg: Config, s: State, id: Id, presented: string, delay: nat, txDelay: nat, outcome: Outcome)
    requires cfg.Valid() && Inv(cfg, s) && s.inFlight == map[] && id in s.tokens && presented != ""
    ensures var step := Validation(cfg, s, id, presented, delay, txDelay, outcome);
            var row, now := s.tokens[id], s.clock + delay;
            && (id !in step.state.tokens <==>
                  outcome != NotDone && (now > row.expires || now - row.lastAccess >= cfg.timeToStale))
            && (id !in step.state.tokens ==> step.answer == if outcome == Done then NoToken else Refused)
            && (forall j :: j in s.tokens && j != id ==> j in step.state.tokens && step.state.tokens[j] == s.tokens[j])
  {
    hide Validation;
    assert Readable(cfg, s.keys, s.tokens[id]);
    ValidationSteps(cfg, s, id, presented, delay, txDelay, outcome);
  }

  /**
    Without interference, a validation returns the row exactly if it is in life when
    judged, the secret is its own, and an access that is due is stored and reported
    within its life. The status has no part in it.
   */
  lemma ValidationReturnsIff(
    cfg: Config, s: State, id: Id, presented: string, delay: nat, txDelay: nat, outcome: Outcome)
    requires cfg.Valid() && Inv(cfg, s) && s.inFlight == map[] && id in s.tokens && presented != ""
    ensures var row, now := s.tokens[id], s.clock + delay;
            Validation(cfg, s, id, presented, delay, txDelay, outcome).answer == Returned(row) <==>
              && now <= row.expires && now - row.lastAccess < cfg.timeToStale
              && cfg.cipher.decrypt(row.keyId, row.sealed) == Some(presented)
              && (now - row.lastAccess < 600_000_000_000 || (outcome == Done && now + txDelay <= row.expires))
  {
    hide Validation;
    assert Readable(cfg, s.keys, s.tokens[id]);
    ValidationSteps(cfg, s, id, presented, delay, txDelay, outcome);
  }

  /** The status is not consulted: a pending token in life validates like an issued one. */
  lemma PendingTokenValidates(cfg: Config, s: State, id: Id, delay: nat, txDelay: nat)
    requires cfg.Valid() && Inv(cfg, s) && s.inFlight == map[] && id in s.tokens && s.tokens[id].status.Pending?
    requires Secret(cfg, s.tokens[id]) != Some("") && !Spent(cfg, s.tokens[id], s.clock + delay)
    requires s.clock + delay + txDelay <= s.tokens[id].expires
    ensures Secret(cfg, s.tokens[id]).Some?
    ensures var secret := Secret(cfg, s.tokens[id]).value;
            Validation(cfg, s, id, secret, delay, txDelay, Done).answer == Returned(s.tokens[id])
  {
    hide Validation;
    assert Readable(cfg, s.keys, s.tokens[id]);
    ValidationSteps(cfg, s, id, Secret(cfg, s.tokens[id]).value, delay, txDelay, Done);
  }
}
