/**
 How long a nonce stays valid, in seconds rather than ticks.

 A nonce made at time `made` carries the tick of that moment; it is checked
 at time `now` against the tick of `now`. With a lifespan of `life` seconds
 a nonce is accepted for at least one lifespan, and in band 1 for the first
 half of it, whatever the hash. When the hash tells the scanned ticks apart
 it is also accepted for less than nine eighths of a lifespan only, band 1
 means it is less than five eighths of a lifespan old and band 2 that it is
 more than half a lifespan old. With the default day these are the 24 to
 27 hours, 0 to 15 hours and 12 to 27 hours of the plugin's documentation.
 */
module NonceLifetime {
  import opened Noncensible

  /** The age of a nonce in eighths of a lifespan lies within one tick of
      the number of ticks that have passed. */
  lemma AgeWithinOneTick(made: int, now: int, life: int)
    requires life > 0
    ensures var elapsed := Tick(now, life) - Tick(made, life);
      (elapsed - 1) * life < TicksPerNonceLife * (now - made) < (elapsed + 1) * life
  {
    var c, t := Tick(now, life), Tick(made, life);
    assert (c - t - 1) * life == (c - 1) * life - t * life;
    assert (c - t + 1) * life == c * life - (t - 1) * life;
  }

  /** The verdict on a nonce made at `made` and presented at `now`. */
  function Presented(hash: NonceHash, key: NonceKey, made: int, now: int, life: int): Verdict
    requires life > 0
  {
    ScanVerdict(hash, key, Expected(hash, key, Tick(made, life)), Tick(now, life))
  }

  /** The hash tells the ticks scanned at `now` apart from the tick of
      `made`. */
  predicate Separated(hash: NonceHash, key: NonceKey, made: int, now: int, life: int)
    requires life > 0
  {
    DistinguishesIssued(hash, key, Tick(made, life), Tick(now, life))
  }

  /** A nonce is accepted for the whole of its lifespan, whatever the hash. */
  lemma AcceptedForOneLifespan(hash: NonceHash, key: NonceKey, made: int, now: int, life: int)
    requires life > 0
    requires made <= now <= made + life
    ensures Presented(hash, key, made, now, life) != Invalid
  {
    var c, t := Tick(now, life), Tick(made, life);
    TickMonotone(made, now, life);
    AgeWithinOneTick(made, now, life);
    assert (c - t - 1) * life < 8 * life;
    if c - t - 1 >= 8 {
      MulMonotone(8, c - t - 1, life);
    }
    assert 0 <= c - t <= 8;
    WindowAccepts(hash, key, t, c);
  }

  /** A nonce is in band 1 for the first half of its lifespan, whatever the
      hash. */
  lemma FreshForHalfALifespan(hash: NonceHash, key: NonceKey, made: int, now: int, life: int)
    requires life > 0
    requires made <= now && 2 * (now - made) <= life
    ensures Presented(hash, key, made, now, life) == Valid(1)
  {
    var c, t := Tick(now, life), Tick(made, life);
    TickMonotone(made, now, life);
    AgeWithinOneTick(made, now, life);
    if c - t - 1 >= 4 {
      MulMonotone(4, c - t - 1, life);
    }
    WindowAccepts(hash, key, t, c);
  }

  /** An accepted nonce is less than nine eighths of a lifespan old. */
  lemma AcceptedUnderNineEighths(hash: NonceHash, key: NonceKey, made: int, now: int, life: int)
    requires life > 0 && Separated(hash, key, made, now, life)
    requires Presented(hash, key, made, now, life) != Invalid
    ensures TicksPerNonceLife * (now - made) < 9 * life
  {
    var c, t := Tick(now, life), Tick(made, life);
    AgeWithinOneTick(made, now, life);
    RoundTrip(hash, key, t, c);
    MulMonotone(c - t + 1, 9, life);
  }

  /** Band 1 means less than five eighths of a lifespan old. */
  lemma BandOneUnderFiveEighths(hash: NonceHash, key: NonceKey, made: int, now: int, life: int)
    requires life > 0 && Separated(hash, key, made, now, life)
    requires Presented(hash, key, made, now, life) == Valid(1)
    ensures TicksPerNonceLife * (now - made) < 5 * life
  {
    var c, t := Tick(now, life), Tick(made, life);
    AgeWithinOneTick(made, now, life);
    RoundTrip(hash, key, t, c);
    MulMonotone(c - t + 1, 5, life);
  }

  /** Band 2 means more than half a lifespan old. */
  lemma BandTwoOverHalfALifespan(hash: NonceHash, key: NonceKey, made: int, now: int, life: int)
    requires life > 0 && Separated(hash, key, made, now, life)
    requires Presented(hash, key, made, now, life) == Valid(2)
    ensures 2 * (now - made) > life
  {
    var c, t := Tick(now, life), Tick(made, life);
    AgeWithinOneTick(made, now, life);
    RoundTrip(hash, key, t, c);
    MulMonotone(4, c - t - 1, life);
  }

  /** The same bounds for the default lifespan of one day, in seconds:
      accepted for 24 hours whatever the hash; and, when the hash tells the
      scanned ticks apart, never after 27 hours, band 1 only under 15 hours
      and band 2 only over 12 hours. */
  lemma DefaultDayWindow(hash: NonceHash, key: NonceKey, made: int, now: int)
    ensures made <= now <= made + 86400 ==> Presented(hash, key, made, now, DayInSeconds) != Invalid
    ensures Separated(hash, key, made, now, DayInSeconds) ==>
      (Presented(hash, key, made, now, DayInSeconds) != Invalid ==> now - made < 97200)
    ensures Separated(hash, key, made, now, DayInSeconds) ==>
      (Presented(hash, key, made, now, DayInSeconds) == Valid(1) ==> now - made < 54000)
    ensures Separated(hash, key, made, now, DayInSeconds) ==>
      (Presented(hash, key, made, now, DayInSeconds) == Valid(2) ==> now - made > 43200)
  {
    var v := Presented(hash, key, made, now, DayInSeconds);
    if made <= now <= made + 86400 {
      AcceptedForOneLifespan(hash, key, made, now, DayInSeconds);
    }
    if Separated(hash, key, made, now, DayInSeconds) {
      if v != Invalid {
        AcceptedUnderNineEighths(hash, key, made, now, DayInSeconds);
      }
      if v == Valid(1) {
        BandOneUnderFiveEighths(hash, key, made, now, DayInSeconds);
      }
      if v == Valid(2) {
        BandTwoOverHalfALifespan(hash, key, made, now, DayInSeconds);
      }
    }
  }
}
