/** The retrying transaction loop, against any behaviour of the database and of the handler. */
module Transactions {
  import opened Bytes

  const WORD: int := 0x1_0000_0000_0000_0000
  const HALF: int := 0x8000_0000_0000_0000

  /** What a signed 64-bit integer keeps of `n`. */
  function Signed(n: int): (w: int)
    ensures -HALF <= w < HALF
    ensures -HALF <= n < HALF ==> w == n
  {
    var m := n % WORD;
    if m < HALF then m else m - WORD
  }

  datatype HandlerResult = Succeeded | TicketRedeemed | OtherError

  /** A commit that reports an error may or may not have taken effect. */
  datatype CommitResult = Committed | CommitError(applied: bool)

  /** What happens at one attempt, were it made. */
  datatype Attempt<!S> = Attempt(
    beginOk: bool, handler: HandlerResult, effect: S -> S, rollbackOk: bool, commit: CommitResult, random: real)

  datatype TxError = Success | MaxRetries | BeginFailed | HandlerFailed | RollbackFailed | CommitFailed

  datatype RetryInfo = RetryInfo(retries: int, backoff: int)

  /** Attempts in the order they would be made, from 1, however many there are. */
  type World<!S> = nat -> Attempt<S>

  /** A delay in nanoseconds, from the counter of attempts and a random number. */
  type Backoff = (nat, real) -> int

  predicate Retryable<S>(a: Attempt<S>) {
    a.beginOk && a.handler.TicketRedeemed? && a.rollbackOk
  }

  /** The loop gives up before attempt `n`. The counter of attempts and the bound are both 64-bit words. */
  predicate GivesUp(retries: nat, n: nat) {
    n % WORD > (retries + 1) % WORD
  }

  /** The loop ends at its turn `n`: it gives up, or the attempt is not to be retried. */
  predicate EndsAt<S>(retries: nat, world: World<S>, n: nat) {
    GivesUp(retries, n) || !Retryable(world(n))
  }

  /** How an attempt that is not retried ends the loop. */
  function Verdict<S>(a: Attempt<S>): TxError {
    if !a.beginOk then BeginFailed
    else if a.handler.Succeeded? then (if a.commit.Committed? then Success else CommitFailed)
    else if !a.rollbackOk then RollbackFailed
    else HandlerFailed
  }

  predicate Applied<S>(a: Attempt<S>) {
    a.beginOk && a.handler.Succeeded? && (a.commit.Committed? || a.commit.applied)
  }

  /** How a transaction ends for its caller: done, not done, or done although an error is reported. */
  datatype Outcome = Done | NotDone | Unreported

  function OutcomeOf<S>(err: TxError, a: Attempt<S>): Outcome {
    if err == Success then Done else if err == CommitFailed && Applied(a) then Unreported else NotDone
  }

  function TotalBackoff(randoms: nat -> real, backoff: Backoff, n: nat): int {
    if n == 0 then 0 else Signed(TotalBackoff(randoms, backoff, n - 1) + backoff(n % WORD, randoms(n)))
  }

  function Randoms<S>(world: World<S>): nat -> real {
    (k: nat) => world(k).random
  }

  class Db<S> {
    var state: S
    ghost var runs: nat               // handler runs
    ghost var applied: seq<nat>       // attempts whose effect reached the database

    constructor (state: S)
      ensures this.state == state && runs == 0 && applied == []
    {
      this.state, runs, applied := state, 0, [];
    }

    /**
      Ends at the first turn at which it can, with what that turn says. Attempts are
      retried exactly while they fail for a redeemed ticket and roll back. For
      counts below 2^64 - 2 the handler runs at most once more than the count.
     */
    method DoTx(retries: nat, world: World<S>, backoff: Backoff) returns (info: RetryInfo, err: TxError, last: nat)
      requires retries < WORD
      requires exists n :: n >= 1 && EndsAt(retries, world, n)
      modifies this
      ensures last >= 1 && EndsAt(retries, world, last) && forall k :: 1 <= k < last ==> !EndsAt(retries, world, k)
      ensures forall k :: 1 <= k < last ==>
        world(k).beginOk && world(k).handler == TicketRedeemed && world(k).rollbackOk
      ensures err == MaxRetries <==> last % WORD > (retries + 1) % WORD
      ensures err != MaxRetries ==>
        var a := world(last);
        && (err == BeginFailed <==> !a.beginOk)
        && (err == Success <==> a.beginOk && a.handler == Succeeded && a.commit == Committed)
        && (err == CommitFailed <==> a.beginOk && a.handler == Succeeded && a.commit != Committed)
        && (err == RollbackFailed <==> a.beginOk && a.handler != Succeeded && !a.rollbackOk)
        && (err == HandlerFailed <==> a.beginOk && a.handler == OtherError && a.rollbackOk)
      ensures info.retries == Signed(last - 1)
      ensures info.backoff == TotalBackoff(Randoms(world), backoff, last - 1)
      ensures runs - old(runs) == last - 1 + (if err == MaxRetries || err == BeginFailed then 0 else 1)
      ensures retries < WORD - 2 ==> runs - old(runs) <= retries + 1 && (err == MaxRetries <==> last == retries + 2)
      ensures var a := world(last);
              var done := err == Success || (err == CommitFailed && a.commit == CommitError(true));
              && applied == old(applied) + (if done then [last] else [])
              && state == (if done then a.effect(old(state)) else old(state))
              && OutcomeOf(err, a) == (if err == Success then Done else if done then Unreported else NotDone)
    {
      hide Signed, TotalBackoff;
      info, last := RetryInfo(0, 0), 1;
      var attempts := 1;
      Nothing(world, backoff);
      ghost var end :| end >= 1 && EndsAt(retries, world, end);
      while true
        invariant 1 <= last <= end && attempts == last % WORD
        invariant forall k :: 1 <= k < last ==> !EndsAt(retries, world, k)
        invariant forall k :: 1 <= k < last ==>
          world(k).beginOk && world(k).handler == TicketRedeemed && world(k).rollbackOk
        invariant info.retries == Signed(last - 1)
        invariant info.backoff == TotalBackoff(Randoms(world), backoff, last - 1)
        invariant runs == old(runs) + last - 1
        invariant state == old(state) && applied == old(applied)
        decreases end - last
      {
        BoundHolds(retries, world, last);
        if attempts > (retries + 1) % WORD {
          return info, MaxRetries, last;
        }
        var a := world(last);
        if !a.beginOk {
          return info, BeginFailed, last;
        }
        runs := runs + 1;
        if !a.handler.Succeeded? {
          if !a.rollbackOk {
            return info, RollbackFailed, last;
          }
          if a.handler.TicketRedeemed? {
            assert Retryable(a) && last != end;
            NextTurn(world, backoff, last);
            info := RetryInfo(Signed(info.retries + 1), Signed(info.backoff + backoff(attempts, a.random)));
            attempts := (attempts + 1) % WORD;
            last := last + 1;
            continue;
          }
          return info, HandlerFailed, last;
        }
        if a.commit.Committed? || a.commit.applied {
          state := a.effect(state);
          applied := applied + [last];
        }
        if !a.commit.Committed? {
          return info, CommitFailed, last;
        }
        return info, Success, last;
      }
    }
  }

  lemma Nothing<S>(world: World<S>, backoff: Backoff)
    ensures Signed(0) == 0 && TotalBackoff(Randoms(world), backoff, 0) == 0
  {
  }

  lemma NextTurn<S>(world: World<S>, backoff: Backoff, n: nat)
    requires n >= 1
    ensures Signed(Signed(n - 1) + 1) == Signed(n)
    ensures (n % WORD + 1) % WORD == (n + 1) % WORD
    ensures TotalBackoff(Randoms(world), backoff, n)
         == Signed(TotalBackoff(Randoms(world), backoff, n - 1) + backoff(n % WORD, world(n).random))
  {
    hide Signed;
    SignedNext(n - 1);
    WordNext(n);
  }

  /** The kept value differs by a multiple of 2^64. */
  lemma SignedCongruent(n: int)
    ensures (Signed(n) - n) % 0x1_0000_0000_0000_0000 == 0
  {
  }

  lemma SignedNext(n: nat)
    ensures Signed(Signed(n) + 1) == Signed(n + 1)
  {
  }

  lemma WordNext(n: nat)
    ensures (n % WORD + 1) % WORD == (n + 1) % WORD
  {
  }

  /**
    As long as it has not given up, a loop with a count below 2^64 - 2 has made at
    most one attempt more than the count.
   */
  lemma BoundHolds<S>(retries: nat, world: World<S>, n: nat)
    requires retries < WORD && n >= 1
    requires forall k :: 1 <= k < n ==> !EndsAt(retries, world, k)
    ensures retries < WORD - 2 ==> n <= retries + 2 && (GivesUp(retries, n) <==> n == retries + 2)
  {
    if retries < WORD - 2 && n > retries + 2 {
      assert EndsAt(retries, world, retries + 2);
    }
  }

  /** The bound is the one asked for, every attempt up to it and none after, exactly for counts below 2^64 - 2. */
  lemma BoundHoldsIff(retries: nat)
    requires retries < WORD
    ensures (forall n :: 1 <= n <= retries + 1 ==> !GivesUp(retries, n)) && GivesUp(retries, retries + 2)
            <==> retries < WORD - 2
  {
    if retries == WORD - 1 {
      NoAttempt();
    }
  }

  /** One below the largest count no attempt number exceeds the bound; only the world can end the loop. */
  lemma NeverGivesUp(n: nat)
    ensures !GivesUp(WORD - 2, n)
  {
  }

  /** At the largest count the bound wraps to none. */
  lemma NoAttempt()
    ensures GivesUp(WORD - 1, 1)
  {
  }

  /**
    The loop ends, for every count but one whatever happens, and for that one exactly
    if some attempt is not to be retried.
   */
  lemma EndsIff<S>(retries: nat, world: World<S>)
    requires retries < WORD
    ensures (exists n :: n >= 1 && EndsAt(retries, world, n)) <==>
      retries != WORD - 2 || exists n :: n >= 1 && !Retryable(world(n))
  {
    if retries < WORD - 2 {
      assert EndsAt(retries, world, retries + 2);
    } else if retries == WORD - 1 {
      NoAttempt();
      assert EndsAt(retries, world, 1);
    } else if exists n :: n >= 1 && !Retryable(world(n)) {
      var n :| n >= 1 && !Retryable(world(n));
      assert EndsAt(retries, world, n);
    }
  }

  // ----- exponential backoff

  const MILLISECOND: nat := 1_000_000

  /** Conversion of a floating-point number to a signed 64-bit integer; out of range, the machine decides. */
  type Conversion = real -> int

  ghost predicate Converts(convert: Conversion) {
    forall x :: -HALF <= convert(x) < HALF && (0.0 <= x < HALF as real ==> convert(x) == x.Floor)
  }

  /** A length of time spread evenly between a half and three halves of itself. */
  function Spread(length: real, random: real): real {
    length * (random + 0.5)
  }

  /** Nanoseconds of exponential backoff: 5 * 2^attempt milliseconds, spread and truncated. */
  function ExpBackoff(convert: Conversion, attempt: nat, random: real): int {
    Signed(MILLISECOND * convert(Spread((5 * Pow2(attempt)) as real, random)))
  }

  /** Between a half and three halves of 5 * 2^attempt milliseconds. */
  ghost predicate InSpread(convert: Conversion, attempt: nat, random: real) {
    MILLISECOND * 5 * Pow2(attempt) <= 2 * ExpBackoff(convert, attempt, random) < 3 * MILLISECOND * 5 * Pow2(attempt)
  }

  /**
    Up to attempt 40 the delay is 5 * 2^attempt milliseconds by the random number plus
    a half, in whole milliseconds.
   */
  lemma ExpBackoffIs(convert: Conversion, attempt: nat, random: real, length: int)
    requires attempt <= 40 && 0.0 <= random < 1.0 && Converts(convert) && length == 5 * Pow2(attempt)
    ensures ExpBackoff(convert, attempt, random) == 1_000_000 * (length as real * (random + 0.5)).Floor
  {
    hide *;
    SpreadIs(length, random);
    ExpBackoffOf(convert, attempt, random, Spread(length as real, random));
  }

  lemma ExpBackoffOf(convert: Conversion, attempt: nat, random: real, d: real)
    requires attempt <= 40 && 0.0 <= random < 1.0 && Converts(convert)
    requires d == Spread((5 * Pow2(attempt)) as real, random)
    ensures ExpBackoff(convert, attempt, random) == 1_000_000 * d.Floor
  {
    hide Pow2, Converts, Spread;
    var q := 5 * Pow2(attempt);
    Pow2Grows(attempt, 40);
    Pow2Values();
    SpreadBounds(q as real, random);
    Converted(convert, d, (3 * q + 1) / 2);
  }

  lemma SpreadIs(length: int, random: real)
    ensures Spread(length as real, random).Floor == (length as real * (random + 0.5)).Floor
  {
  }

  lemma Converted(convert: Conversion, d: real, hi: nat)
    requires Converts(convert) && 0.0 <= d < hi as real && hi <= HALF
    ensures convert(d) == d.Floor && 0 <= d.Floor < hi
  {
    FloorBetween(d, 0, hi);
  }

  /** And so it grows with the random number. */
  lemma ExpBackoffGrows(convert: Conversion, attempt: nat, random: real, random': real)
    requires attempt <= 40 && 0.0 <= random <= random' < 1.0 && Converts(convert)
    ensures ExpBackoff(convert, attempt, random) <= ExpBackoff(convert, attempt, random')
  {
    hide ExpBackoff, Converts, Pow2, Spread;
    var q := (5 * Pow2(attempt)) as real;
    ExpBackoffOf(convert, attempt, random, Spread(q, random));
    ExpBackoffOf(convert, attempt, random', Spread(q, random'));
    SpreadGrows(q, random, random');
    FloorGrows(Spread(q, random), Spread(q, random'));
  }

  lemma SpreadGrows(length: real, random: real, random': real)
    requires length >= 0.0 && random <= random'
    ensures Spread(length, random) <= Spread(length, random')
  {
    TimesGrows(length, random + 0.5, random' + 0.5);
  }

  lemma TimesGrows(q: real, a: real, b: real)
    requires q >= 0.0 && a <= b
    ensures q * a <= q * b
  {
    var d := b - a;
    assert q * d >= 0.0;
    assert q * (a + d) == q * a + q * d;
  }

  lemma FloorGrows(a: real, b: real)
    requires a <= b
    ensures a.Floor <= b.Floor
  {
  }

  /** A constant delay adds up to its multiple, in 64 bits. */
  lemma {:induction false} ConstBackoffTotal(randoms: nat -> real, delay: int, n: nat)
    ensures TotalBackoff(randoms, (attempt: nat, random: real) => delay, n) == Signed(n * delay)
  {
    if n > 0 {
      ConstBackoffTotal(randoms, delay, n - 1);
      SignedAdd((n - 1) * delay, delay);
      assert (n - 1) * delay + delay == n * delay;
    } else {
      assert 0 * delay == 0;
    }
  }

  lemma SignedAdd(a: int, b: int)
    ensures Signed(Signed(a) + b) == Signed(a + b)
  {
  }

  lemma {:induction false} Pow2Grows(a: nat, b: nat)
    requires a <= b
    ensures Pow2(a) <= Pow2(b)
  {
    if a < b {
      Pow2Grows(a, b - 1);
    }
  }

  lemma {:induction false} Pow2Add(a: nat, b: nat)
    ensures Pow2(a + b) == Pow2(a) * Pow2(b)
  {
    if b > 0 {
      Pow2Add(a, b - 1);
      assert Pow2(a + b) == 2 * Pow2(a + (b - 1));
    }
  }

  lemma Pow2Values()
    ensures Pow2(39) == 0x80_0000_0000 && Pow2(40) == 0x100_0000_0000
    ensures Pow2(41) == 0x200_0000_0000 && Pow2(42) == 0x400_0000_0000
  {
    assert Pow2(10) == 0x400;
    Pow2Add(10, 10);
    Pow2Add(20, 20);
  }

  /**
    The delay keeps its spread, whatever the random number, exactly up to attempt 40;
    later ones leave the range of a duration.
   */
  lemma ExpBackoffIff(convert: Conversion, attempt: nat)
    requires attempt >= 1 && Converts(convert)
    ensures (forall random :: 0.0 <= random < 1.0 ==> InSpread(convert, attempt, random)) <==> attempt <= 40
  {
    hide InSpread, Converts, Pow2;
    if attempt <= 40 {
      forall random | 0.0 <= random < 1.0 ensures InSpread(convert, attempt, random) {
        ExpBackoffBounds(convert, attempt, random);
      }
    } else if attempt == 41 {
      WrapsAt41(convert);
    } else {
      TooLong(convert, attempt, 0.0);
    }
  }

  lemma ExpBackoffBounds(convert: Conversion, attempt: nat, random: real)
    requires 1 <= attempt <= 40 && 0.0 <= random < 1.0 && Converts(convert)
    ensures InSpread(convert, attempt, random)
    ensures ExpBackoff(convert, attempt, random) <= MILLISECOND * (15 * Pow2(attempt - 1) - 1)
  {
    hide Spread;
    var p, d := Pow2(attempt - 1), Spread((5 * Pow2(attempt)) as real, random);
    assert 5 * Pow2(attempt) == 10 * p;
    SpreadBounds((10 * p) as real, random);
    FloorBetween(d, 5 * p, 15 * p);
    Pow2Grows(attempt, 40);
    Pow2Values();
    assert convert(d) == d.Floor;
  }

  lemma WrapsAt41(convert: Conversion)
    requires Converts(convert)
    ensures !InSpread(convert, 41, 0.75)
  {
    Pow2Values();
    var d := Spread((5 * Pow2(41)) as real, 0.75);
    assert d == (25 * 0x80_0000_0000) as real;
    assert convert(d) == 25 * 0x80_0000_0000;
  }

  lemma TooLong(convert: Conversion, attempt: nat, random: real)
    requires attempt >= 42
    ensures !InSpread(convert, attempt, random)
  {
    hide Spread, Pow2;
    Pow2Grows(42, attempt);
    Pow2Values();
  }

  lemma SpreadBounds(q: real, random: real)
    requires q > 0.0 && 0.0 <= random < 1.0
    ensures q * 0.5 <= Spread(q, random) < q * 1.5
  {
    assert Spread(q, random) == q * random + q * 0.5;
    assert 0.0 <= q * random;
    assert q * random < q by {
      assert 0.0 < q * (1.0 - random);
    }
  }

  lemma FloorBetween(d: real, lo: nat, hi: nat)
    requires lo as real <= d < hi as real
    ensures lo <= d.Floor < hi
  {
  }

  /** Random numbers as drawn. */
  ghost predicate Drawn(randoms: nat -> real) {
    forall k :: 0.0 <= randoms(k) < 1.0
  }

  function Exp(convert: Conversion): Backoff {
    (attempt: nat, random: real) => ExpBackoff(convert, attempt, random)
  }

  /**
    After n retries the accumulated backoff lies between 5 (2^n - 1) and 15 (2^n - 1)
    milliseconds, less one per retry.
   */
  ghost predicate TotalInSpread(randoms: nat -> real, convert: Conversion, n: nat) {
    MILLISECOND * 5 * (Pow2(n) - 1) <= TotalBackoff(randoms, Exp(convert), n) <= MILLISECOND * (15 * (Pow2(n) - 1) - n)
  }

  /** That holds, whatever the random numbers, exactly up to 39 retries; the standard count is 20. */
  lemma TotalBackoffIff(convert: Conversion, n: nat)
    requires Converts(convert)
    ensures (forall randoms :: Drawn(randoms) ==> TotalInSpread(randoms, convert, n)) <==> n <= 39
  {
    hide TotalInSpread, Converts, Pow2;
    if n <= 39 {
      forall randoms | Drawn(randoms) ensures TotalInSpread(randoms, convert, n) {
        TotalExpBackoff(randoms, convert, n);
      }
    } else {
      var halves := (k: nat) => 0.5;
      assert Drawn(halves);
      if n == 40 {
        TotalWrapsAt40(convert, halves);
      } else {
        TotalTooLong(halves, convert, n);
      }
    }
  }

  lemma {:induction false} TotalExpBackoff(randoms: nat -> real, convert: Conversion, n: nat)
    requires Drawn(randoms) && Converts(convert) && n <= 39
    ensures TotalInSpread(randoms, convert, n)
  {
    hide Converts, ExpBackoff, Signed, Pow2, TotalBackoff;
    TotalStep(randoms, convert, n);
    if n == 0 {
      Pow2Next(0);
    } else {
      TotalExpBackoff(randoms, convert, n - 1);
      ExpBackoffBounds(convert, n, randoms(n));
      Pow2Next(n - 1);
      Pow2Grows(n, 39);
      Pow2Values();
    }
  }

  lemma TotalStep(randoms: nat -> real, convert: Conversion, n: nat)
    requires n < WORD
    ensures TotalBackoff(randoms, Exp(convert), 0) == 0
    ensures n > 0 ==>
      var before := TotalBackoff(randoms, Exp(convert), n - 1);
      TotalBackoff(randoms, Exp(convert), n) == Signed(before + ExpBackoff(convert, n, randoms(n)))
  {
    hide ExpBackoff, Signed;
  }

  lemma Pow2Next(n: nat)
    ensures Pow2(0) == 1 && Pow2(n + 1) == 2 * Pow2(n)
  {
  }

  lemma {:induction false} TotalOfHalves(convert: Conversion, halves: nat -> real, n: nat)
    requires Converts(convert) && n <= 40 && forall k :: halves(k) == 0.5
    ensures TotalBackoff(halves, Exp(convert), n) == Signed(MILLISECOND * 10 * (Pow2(n) - 1))
  {
    hide Converts, ExpBackoff, Signed, Pow2, TotalBackoff;
    Pow2Next(n);
    TotalStep(halves, convert, n);
    if n > 0 {
      TotalOfHalves(convert, halves, n - 1);
      Pow2Next(n - 1);
      Pow2Grows(n - 1, 39);
      Pow2Values();
      HalfBackoff(convert, n);
    }
  }

  lemma HalfBackoff(convert: Conversion, attempt: nat)
    requires Converts(convert) && attempt <= 40
    ensures ExpBackoff(convert, attempt, 0.5) == MILLISECOND * 5 * Pow2(attempt)
  {
    Pow2Grows(attempt, 40);
    Pow2Values();
    var d := (5 * Pow2(attempt)) as real;
    assert Spread(d, 0.5) == d;
    assert convert(d) == 5 * Pow2(attempt);
  }

  lemma TotalWrapsAt40(convert: Conversion, halves: nat -> real)
    requires Converts(convert) && forall k :: halves(k) == 0.5
    ensures !TotalInSpread(halves, convert, 40)
  {
    hide Pow2, TotalBackoff, Converts;
    TotalOfHalves(convert, halves, 40);
    Pow2Values();
  }

  lemma TotalTooLong(randoms: nat -> real, convert: Conversion, n: nat)
    requires n >= 41
    ensures !TotalInSpread(randoms, convert, n)
  {
    hide Pow2;
    Pow2Grows(41, n);
    Pow2Values();
  }
}
