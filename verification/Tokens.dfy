/**
  The auth token table and the operations on it, at the grain at which they can
  interleave. Validation of a token is three steps: a lookup, a decision against
  the clock on the row as looked up, and for some decisions a transaction that
  discards or touches the row. Everything else is one transaction. One clock
  serves controllers and database.
 */
module Tokens {
  import opened Bytes
  import opened Options
  import opened Transactions

  type Time = int                     // nanoseconds

  type Id = string

  type KeyId = string

  const SECOND: int := 1_000_000_000
  const TOUCH_AFTER: int := 600 * SECOND

  datatype Status = Pending | Issued | Failed | SystemError

  /** A row. The serial tells apart rows created under one public id at different times; it is not a column. */
  datatype Token = Token(
    serial: nat, created: Time, expires: Time, lastAccess: Time, status: Status, keyId: KeyId, sealed: ByteString)

  /** Encryption under a key, with a nonce, and its inverse. */
  datatype Cipher = Cipher(
    encrypt: (KeyId, nat, string) -> ByteString,
    decrypt: (KeyId, ByteString) -> Option<string>)
  {
    ghost predicate Lawful() {
      forall k, n, x :: decrypt(k, encrypt(k, n, x)) == Some(x)
    }
  }

  datatype Config = Config(timeToLive: int, timeToStale: int, cipher: Cipher) {
    ghost predicate Valid() {
      timeToLive > 0 && timeToStale > 0 && cipher.Lawful()
    }
  }

  datatype KeyRing = KeyRing(current: KeyId, known: set<KeyId>)

  /**
    When a row was last used with success: the latest start of such a use, and the
    latest end. And when an access to it was last stored without being reported.
    Creation counts as both.
   */
  datatype Use = Use(start: Time, end: Time, lost: Time)

  /** A validation under way. */
  datatype Phase =
    | LookedUp(id: Id, presented: string, row: Token, secret: string, last: Use)
    | Discarding(id: Id, row: Token)
    | Touching(id: Id, presented: string, row: Token, now: Time)

  datatype State = State(
    clock: Time, serials: nat, tokens: map<Id, Token>, keys: KeyRing, inFlight: map<nat, Phase>, uses: map<nat, Use>)

  datatype Event =
    | Elapse(d: nat)
    | Create(id: Id, started: Time, pending: bool, secret: string, nonce: nat, outcome: Outcome)
    | Issue(id: Id, outcome: Outcome)
    | CloseExpired(outcome: Outcome)
    | Delete(id: Id, outcome: Outcome)
    | Look(op: nat, id: Id, presented: string)
    | Decide(op: nat)
    | Commit(op: nat, outcome: Outcome)
    | RotateKey(key: KeyId)
    | DestroyKey(key: KeyId)
    | Rewrap(id: Id, nonce: nat, outcome: Outcome)

  /** What an operation answers: nothing of note, a token, no token, or an error. */
  datatype Answer = Quiet | Returned(token: Token) | NoToken | Refused

  datatype Step = Step(state: State, answer: Answer)

  function Truncate(t: Time): Time {
    t - t % SECOND
  }

  function Max(a: int, b: int): int {
    if a < b then b else a
  }

  function Secret(cfg: Config, t: Token): Option<string> {
    cfg.cipher.decrypt(t.keyId, t.sealed)
  }

  predicate Readable(cfg: Config, keys: KeyRing, t: Token) {
    t.keyId in keys.known && Secret(cfg, t).Some?
  }

  /** Expired, or unused for the time to stale, by the row's own last access time. */
  predicate Spent(cfg: Config, t: Token, now: Time) {
    now > t.expires || now - t.lastAccess >= cfg.timeToStale
  }

  /** The last use on record. */
  function LastUse(uses: map<nat, Use>, t: Token): Use {
    if t.serial in uses then uses[t.serial] else Use(t.created, t.created, t.created)
  }

  function UsedFrom(uses: map<nat, Use>, serial: nat, start: Time, end: Time): map<nat, Use> {
    uses[serial :=
      if serial in uses then Use(Max(uses[serial].start, start), end, uses[serial].lost) else Use(start, end, end)]
  }

  function LostAt(uses: map<nat, Use>, serial: nat, now: Time): map<nat, Use> {
    uses[serial := if serial in uses then uses[serial].(lost := now) else Use(now, now, now)]
  }

  /** The record after an access from `start` was stored now. */
  function Accessed(uses: map<nat, Use>, serial: nat, start: Time, now: Time, outcome: Outcome): map<nat, Use> {
    if outcome.Unreported? then LostAt(uses, serial, now) else UsedFrom(uses, serial, start, now)
  }

  /** What the caller hears. */
  function Told(outcome: Outcome, answer: Answer): Answer {
    if outcome.Done? then answer else Refused
  }

  /** Only a pending row matches, and the table refuses an access time past the expiration. */
  predicate Issuable(cfg: Config, s: State, id: Id) {
    && id in s.tokens && s.tokens[id].status.Pending?
    && s.clock <= s.tokens[id].expires && Readable(cfg, s.keys, s.tokens[id])
  }

  function CreateToken(cfg: Config, s: State, started: Time, pending: bool, secret: string, nonce: nat): Token {
    Token(s.serials, s.clock, Max(Truncate(started + cfg.timeToLive), s.clock), s.clock,
          if pending then Pending else Issued, s.keys.current, cfg.cipher.encrypt(s.keys.current, nonce, secret))
  }

  function Next(cfg: Config, s: State, e: Event): Step {
    match e
    case Elapse(d) => Step(s.(clock := s.clock + d), Quiet)
    case Create(id, started, pending, secret, nonce, outcome) =>
      if outcome.NotDone? || id == "" || id in s.tokens || started > s.clock then Step(s, Refused)
      else
        var t := CreateToken(cfg, s, started, pending, secret, nonce);
        Step(s.(serials := s.serials + 1, tokens := s.tokens[id := t],
                uses := s.uses[t.serial := Use(s.clock, s.clock, s.clock)]), Told(outcome, Returned(t)))
    case Issue(id, outcome) =>
      if outcome.NotDone? || !Issuable(cfg, s, id) then Step(s, Refused)
      else
        var t := s.tokens[id].(status := Issued, lastAccess := s.clock);
        Step(s.(tokens := s.tokens[id := t], uses := Accessed(s.uses, t.serial, s.clock, s.clock, outcome)),
             Told(outcome, Returned(t)))
    case CloseExpired(outcome) =>
      if outcome.NotDone? then Step(s, Refused)
      else Step(s.(tokens := map id | id in s.tokens :: Closed(s.tokens[id], s.clock)), Told(outcome, Quiet))
    case Delete(id, outcome) =>
      if outcome.NotDone? || id == "" then Step(s, Refused)
      else Step(s.(tokens := s.tokens - {id}), Told(outcome, Quiet))
    case Look(op, id, presented) =>
      if op in s.inFlight || presented == "" || id == "" then Step(s, Refused)
      else if id !in s.tokens then Step(s, NoToken)
      else if !Readable(cfg, s.keys, s.tokens[id]) then Step(s, Refused)
      else
        var t := s.tokens[id];
        var p := LookedUp(id, presented, t, Secret(cfg, t).value, LastUse(s.uses, t));
        Step(s.(inFlight := s.inFlight[op := p]), Quiet)
    case Decide(op) =>
      if op !in s.inFlight || !s.inFlight[op].LookedUp? then Step(s, Refused) else DecideStep(cfg, s, op)
    case Commit(op, outcome) =>
      if op !in s.inFlight || s.inFlight[op].LookedUp? then Step(s, Refused) else CommitStep(s, op, outcome)
    case RotateKey(key) => Step(s.(keys := KeyRing(key, s.keys.known + {key})), Quiet)
    case DestroyKey(key) =>
      // rows reference their key version, so a version in use cannot go
      if key == s.keys.current || exists id :: id in s.tokens && s.tokens[id].keyId == key then Step(s, Refused)
      else Step(s.(keys := s.keys.(known := s.keys.known - {key})), Quiet)
    case Rewrap(id, nonce, outcome) =>
      if outcome.NotDone? || id !in s.tokens || !Readable(cfg, s.keys, s.tokens[id]) then Step(s, Refused)
      else Step(s.(tokens := s.tokens[id := Rewrapped(cfg, s.keys, s.tokens[id], nonce)]), Told(outcome, Quiet))
  }

  function Closed(t: Token, now: Time): Token {
    if t.status.Pending? && now > t.expires then t.(status := Failed) else t
  }

  function Rewrapped(cfg: Config, keys: KeyRing, t: Token, nonce: nat): Token
    requires Secret(cfg, t).Some?
  {
    t.(keyId := keys.current, sealed := cfg.cipher.encrypt(keys.current, nonce, Secret(cfg, t).value))
  }

  function DecideStep(cfg: Config, s: State, op: nat): Step
    requires op in s.inFlight && s.inFlight[op].LookedUp?
  {
    var LookedUp(id, presented, row, secret, _) := s.inFlight[op];
    var now := s.clock;
    if Spent(cfg, row, now) then Step(s.(inFlight := s.inFlight[op := Discarding(id, row)]), Quiet)
    else if secret != presented then Step(s.(inFlight := s.inFlight - {op}), NoToken)
    else if now - row.lastAccess >= TOUCH_AFTER then
      Step(s.(inFlight := s.inFlight[op := Touching(id, presented, row, now)]), Quiet)
    else Step(s.(inFlight := s.inFlight - {op}, uses := UsedFrom(s.uses, row.serial, now, now)), Returned(row))
  }

  /** The transaction of a validation. A row that is gone is not missed. */
  function CommitStep(s: State, op: nat, outcome: Outcome): Step
    requires op in s.inFlight && !s.inFlight[op].LookedUp?
  {
    var landed := s.(inFlight := s.inFlight - {op});
    if outcome.NotDone? then Step(landed, Refused)
    else
      match s.inFlight[op]
      case Discarding(id, _) => Step(landed.(tokens := s.tokens - {id}), Told(outcome, NoToken))
      case Touching(id, _, row, now) =>
        if id !in s.tokens then Step(landed, Told(outcome, Returned(row)))
        else if s.clock > s.tokens[id].expires then Step(landed, Refused)
        else
          var t := s.tokens[id].(lastAccess := s.clock);
          Step(landed.(tokens := s.tokens[id := t], uses := Accessed(s.uses, t.serial, now, s.clock, outcome)),
               Told(outcome, Returned(row)))
  }
}
