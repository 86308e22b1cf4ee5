/**
 The Noncensible replacements for WordPress's `wp_nonce_tick` and
 `wp_verify_nonce`.

 A nonce is the 10-character slice of `wp_hash("$tick|$action|$uid|$token",
 'nonce')`. The tick is the current time counted in buckets of
 one eighth of the nonce lifespan. Verification recomputes the slice for the
 current tick and the eight ticks before it, newest first, and reports band 1
 for a match in the five newest ticks, band 2 for a match in the four oldest,
 and false otherwise.

 Everything the PHP code reads from its surroundings (the clock, the current
 user, the session token, the two filters and `wp_hash`) is a field of
 `Host`, so every result here is a function of a `Host` value and the
 arguments.
 */
module Noncensible {
  import opened Php

  /** NONCENSIBLE_TICKS_PER_NONCE_LIFE */
  const TicksPerNonceLife: nat := 8

  /** WordPress's DAY_IN_SECONDS, the default nonce lifespan. */
  const DayInSeconds: int := 86400

  datatype Option<T> = None | Some(value: T)

  /** What wp_verify_nonce reads from WordPress. */
  datatype Host = Host(
    now: int,                                 // time()
    currentUserId: int,                       // (int) wp_get_current_user()->ID
    sessionToken: string,                     // wp_get_session_token()
    nonceLifeFilter: (int, string) -> int,    // apply_filters('nonce_life', $default, $action)
    loggedOutFilter: (int, string) -> int,    // apply_filters('nonce_user_logged_out', $uid, $action)
    nonceHash: NonceHash                      // wp_hash("$tick|$action|$uid|$token", 'nonce')
  )

  /** The two bands wp_verify_nonce reports: 1 for a recent nonce, 2 for an
      older one. */
  type Band = b: int | 1 <= b <= 2 witness 1

  /** The result of wp_verify_nonce: the integer 1 or 2, or false. */
  datatype Verdict = Valid(band: Band) | Invalid

  /** The arguments of `do_action('wp_verify_nonce_failed', ...)`; the user
      object is represented by its id. */
  datatype FailureEvent = FailureEvent(nonce: string, action: string, userId: int, token: string)

  /** The fields besides the tick that a nonce is bound to. */
  datatype NonceKey = NonceKey(action: string, uid: int, token: string)

  /** `wp_hash` applied to the nonce fields "$tick|$action|$uid|$token" under
      the 'nonce' scheme, as a function of the tick and the other fields. */
  type NonceHash = (int, NonceKey) -> Digest

  /** A `wp_hash` value. It is a hex HMAC; all the scan relies on is that it
      has at least 12 characters. */
  type Digest = s: string | |s| >= 12 witness "000000000000"

  // ---------------------------------------------------------------------
  // wp_nonce_tick

  /** The lifespan in seconds: DAY_IN_SECONDS passed through `nonce_life`. */
  function NonceLife(host: Host, action: string): int {
    host.nonceLifeFilter(DayInSeconds, action)
  }

  /** With nothing hooked onto `nonce_life` (a filter that hands its value
      back unchanged) the lifespan is one day, and the tick counts buckets
      of three hours. */
  lemma UnfilteredLifespanIsOneDay(host: Host, action: string)
    requires forall life: int, a: string :: host.nonceLifeFilter(life, a) == life
    ensures NonceLife(host, action) == DayInSeconds
    ensures WpNonceTick(host, action) * 10800 >= host.now > (WpNonceTick(host, action) - 1) * 10800
  {
  }

  /** ceil(now / (life / 8)) computed exactly: the least integer that is at
      least 8 * now / life, for either sign of the lifespan; never negative
      for a non-negative time and a positive lifespan. PHP computes it on
      floats; a zero lifespan is a division by zero there and is excluded
      here. */
  function Tick(now: int, life: int): (k: int)
    requires life != 0
    ensures life > 0 ==> k * life >= TicksPerNonceLife * now > (k - 1) * life
    ensures life < 0 ==> k * life <= TicksPerNonceLife * now < (k - 1) * life
    ensures now >= 0 && life > 0 ==> k >= 0
  {
    var n := TicksPerNonceLife * now;
    if life > 0 then
      var q := (n + life - 1) / life;
      assert q * life + (n + life - 1) % life == n + life - 1;
      q
    else
      var q := (-n - life - 1) / (-life);
      assert q * (-life) + (-n - life - 1) % (-life) == -n - life - 1;
      q
  }

  /** wp_nonce_tick($action) with the clock and the filter taken from `host`:
      the number of buckets of one eighth of the filtered lifespan, rounded
      up, that `time()` spans. */
  function WpNonceTick(host: Host, action: string): (t: int)
    requires NonceLife(host, action) != 0
    ensures var life := NonceLife(host, action);
      life > 0 ==> t * life >= TicksPerNonceLife * host.now > (t - 1) * life
    ensures var life := NonceLife(host, action);
      life < 0 ==> t * life <= TicksPerNonceLife * host.now < (t - 1) * life
  {
    Tick(host.now, NonceLife(host, action))
  }

  lemma MulMonotone(a: int, b: int, c: int)
    requires a <= b && c > 0
    ensures a * c <= b * c
  {
    assert b * c - a * c == (b - a) * c;
  }

  /** For every fixed positive lifespan the tick never goes backwards. */
  lemma TickMonotone(t1: int, t2: int, life: int)
    requires life > 0 && t1 <= t2
    ensures Tick(t1, life) <= Tick(t2, life)
  {
    var k1, k2 := Tick(t1, life), Tick(t2, life);
    if k1 > k2 {
      MulMonotone(k2, k1 - 1, life);
    }
  }

  /** When the lifespan is a whole number of buckets of `life / 8` seconds,
      the tick goes up by exactly one per bucket. */
  lemma TickAdvancesOnePerBucket(now: int, life: int)
    requires life > 0 && life % TicksPerNonceLife == 0
    ensures Tick(now + life / TicksPerNonceLife, life) == Tick(now, life) + 1
  {
    var k, k' := Tick(now, life), Tick(now + life / TicksPerNonceLife, life);
    assert TicksPerNonceLife * (now + life / TicksPerNonceLife) == TicksPerNonceLife * now + life;
    assert (k + 1) * life == k * life + life;
    assert (k' - 1) * life == k' * life - life;
    if k' > k + 1 {
      MulMonotone(k + 1, k' - 1, life);
    } else if k' < k + 1 {
      MulMonotone(k', k, life);
    }
  }

  /** With the default lifespan a bucket is 10,800 seconds (three hours):
      the tick is ceil(now / 10800). */
  lemma DefaultBucketIsThreeHours(now: int)
    ensures DayInSeconds / TicksPerNonceLife == 10800
    ensures Tick(now, DayInSeconds) * 10800 >= now > (Tick(now, DayInSeconds) - 1) * 10800
  {
  }

  // ---------------------------------------------------------------------
  // wp_verify_nonce, as a specification

  /** The user id the nonce is bound to: the current user's, or for a
      logged-out user (id 0) whatever `nonce_user_logged_out` makes of 0. */
  function ResolvedUid(host: Host, action: string): (uid: int)
    ensures host.currentUserId != 0 ==> uid == host.currentUserId
    ensures host.currentUserId == 0 ==> uid == host.loggedOutFilter(0, action)
  {
    if host.currentUserId == 0 then host.loggedOutFilter(0, action) else host.currentUserId
  }

  function KeyOf(host: Host, action: string): NonceKey {
    NonceKey(action, ResolvedUid(host, action), host.sessionToken)
  }

  /** The `nonce_user_logged_out` filter only matters for a logged-out user:
      a logged-in user's nonces are the same whatever is hooked onto it. */
  lemma LoggedOutFilterOnlyForGuests(host: Host, filter: (int, string) -> int, action: string)
    requires host.currentUserId != 0
    ensures KeyOf(host.(loggedOutFilter := filter), action) == KeyOf(host, action)
  {
  }

  /** substr(wp_hash("$tick|$action|$uid|$token", 'nonce'), -12, 10): the
      nonce that belongs to `tick`. */
  function Expected(hash: NonceHash, key: NonceKey, tick: int): (r: string)
    ensures |r| == 10
  {
    var h := hash(tick, key);
    h[|h| - 12 .. |h| - 2]
  }

  /** The presented nonce equals the one of candidate tick `current - i`. */
  predicate MatchesAt(hash: NonceHash, key: NonceKey, nonce: string, current: int, i: int) {
    HashEquals(Expected(hash, key, current - i), nonce)
  }

  /** The least offset `i` in `from..8` whose candidate tick `current - i`
      matches the nonce, if there is one. */
  function FirstMatch(hash: NonceHash, key: NonceKey, nonce: string, current: int, from: nat): (r: Option<nat>)
    requires from <= TicksPerNonceLife + 1
    ensures r.Some? ==> from <= r.value <= TicksPerNonceLife && MatchesAt(hash, key, nonce, current, r.value)
    ensures r.Some? ==> forall j :: from <= j < r.value ==> !MatchesAt(hash, key, nonce, current, j)
    ensures r.None? ==> forall j :: from <= j <= TicksPerNonceLife ==> !MatchesAt(hash, key, nonce, current, j)
    decreases TicksPerNonceLife + 1 - from
  {
    if from > TicksPerNonceLife then None
    else if MatchesAt(hash, key, nonce, current, from) then Some(from)
    else FirstMatch(hash, key, nonce, current, from + 1)
  }

  /** The first match is the least matching offset of the window, and there
      is none exactly when no candidate in the window matches. */
  lemma FirstMatchIsLeast(hash: NonceHash, key: NonceKey, nonce: string, current: int, i: nat)
    ensures FirstMatch(hash, key, nonce, current, 0) == Some(i) <==>
      i <= TicksPerNonceLife && MatchesAt(hash, key, nonce, current, i)
      && forall j :: 0 <= j < i ==> !MatchesAt(hash, key, nonce, current, j)
    ensures FirstMatch(hash, key, nonce, current, 0) == None <==>
      forall j :: 0 <= j <= TicksPerNonceLife ==> !MatchesAt(hash, key, nonce, current, j)
  {
    var m := FirstMatch(hash, key, nonce, current, 0);
    if m.Some? && m.value != i && i <= TicksPerNonceLife && MatchesAt(hash, key, nonce, current, i) {
      assert m.value < i;
    }
  }

  /** Band 1 for the first half of the offsets (0..4), band 2 for the rest,
      false when there is no match. */
  function Classify(m: Option<nat>): (v: Verdict)
    ensures v == Invalid <==> m.None?
    ensures m.Some? ==> (v == Valid(1) <==> m.value <= TicksPerNonceLife / 2)
  {
    match m
    case None => Invalid
    case Some(i) => if i <= TicksPerNonceLife / 2 then Valid(1) else Valid(2)
  }

  /** The outcome of scanning back from tick `current`: band 1 when one of
      the five newest candidates matches, band 2 when none of those but one
      of the four oldest does, false when none of the nine does. */
  function ScanVerdict(hash: NonceHash, key: NonceKey, nonce: string, current: int): (v: Verdict)
    ensures v == Valid(1) <==> exists i :: 0 <= i <= TicksPerNonceLife / 2 && MatchesAt(hash, key, nonce, current, i)
    ensures v == Valid(2)
      <==> ((forall i :: 0 <= i <= TicksPerNonceLife / 2 ==> !MatchesAt(hash, key, nonce, current, i))
            && exists i :: TicksPerNonceLife / 2 < i <= TicksPerNonceLife && MatchesAt(hash, key, nonce, current, i))
    ensures v == Invalid <==> forall i :: 0 <= i <= TicksPerNonceLife ==> !MatchesAt(hash, key, nonce, current, i)
  {
    Classify(FirstMatch(hash, key, nonce, current, 0))
  }

  /** The result of wp_verify_nonce($nonce, $action) against `host`: false
      for an empty nonce, and otherwise an acceptance exactly when the nonce
      is the expected value of the current tick or of one of the eight
      before it. */
  function VerifySpec(host: Host, nonce: string, action: string): (v: Verdict)
    requires !IsEmpty(nonce) ==> NonceLife(host, action) != 0
    ensures IsEmpty(nonce) ==> v == Invalid
    ensures !IsEmpty(nonce) ==>
      var current := WpNonceTick(host, action);
      (v != Invalid <==>
        exists t :: current - TicksPerNonceLife <= t <= current && nonce == Expected(host.nonceHash, KeyOf(host, action), t))
  {
    if IsEmpty(nonce) then Invalid
    else ScanVerdict(host.nonceHash, KeyOf(host, action), nonce, WpNonceTick(host, action))
  }

  // ---------------------------------------------------------------------
  // wp_verify_nonce, as the PHP code runs it

  /** The scan of wp_verify_nonce: hash the current tick and the eight
      before it, newest first, and stop at the first whose nonce is the
      presented one. Returns the band of that offset, or false, and the
      ticks hashed, in order. */
  method ScanTicks(hash: NonceHash, key: NonceKey, nonce: string, current: int)
    returns (result: Verdict, hashedTicks: seq<int>)
    ensures result == Classify(FirstMatch(hash, key, nonce, current, 0))
    ensures |hashedTicks| == ScanLength(FirstMatch(hash, key, nonce, current, 0))
    ensures forall k :: 0 <= k < |hashedTicks| ==> hashedTicks[k] == current - k
  {
    var tick := current;
    var i := 0;
    hashedTicks := [];
    while i <= TicksPerNonceLife
      invariant 0 <= i <= TicksPerNonceLife + 1
      invariant tick == current - i
      invariant |hashedTicks| == i
      invariant forall k :: 0 <= k < i ==> hashedTicks[k] == current - k
      invariant forall j :: 0 <= j < i ==> !MatchesAt(hash, key, nonce, current, j)
    {
      var expected := Expected(hash, key, tick);
      hashedTicks := hashedTicks + [tick];
      if HashEquals(expected, nonce) {
        FirstMatchIsLeast(hash, key, nonce, current, i);
        assert FirstMatch(hash, key, nonce, current, 0) == Some(i);
        if i <= TicksPerNonceLife / 2 {
          return Valid(1), hashedTicks;
        }
        return Valid(2), hashedTicks;
      }
      tick := tick - 1;
      i := i + 1;
    }
    FirstMatchIsLeast(hash, key, nonce, current, 0);
    assert FirstMatch(hash, key, nonce, current, 0) == None;
    result := Invalid;
  }

  /** How many ticks the scan hashes: up to and including the first match,
      or all nine. */
  function ScanLength(m: Option<nat>): nat {
    if m.Some? then m.value + 1 else TicksPerNonceLife + 1
  }

  /** wp_verify_nonce($nonce, $action). Besides the PHP result it returns
      whether the `nonce_user_logged_out` filter was applied, the ticks that
      were hashed, in order, and the `wp_verify_nonce_failed` action when it
      fired. */
  method VerifyNonce(host: Host, nonce: string, action: string)
    returns (result: Verdict, filterApplied: bool, hashedTicks: seq<int>, failure: Option<FailureEvent>)
    requires !IsEmpty(nonce) ==> NonceLife(host, action) != 0
    ensures result == VerifySpec(host, nonce, action)
    ensures filterApplied <==> host.currentUserId == 0
    ensures IsEmpty(nonce) ==> result == Invalid && hashedTicks == [] && failure == None
    ensures !IsEmpty(nonce) ==>
      var current := WpNonceTick(host, action);
      var m := FirstMatch(host.nonceHash, KeyOf(host, action), nonce, current, 0);
      && |hashedTicks| == ScanLength(m)
      && (forall k :: 0 <= k < |hashedTicks| ==> hashedTicks[k] == current - k)
      && (failure.Some? <==> m.None?)
    ensures failure.Some? ==>
      result == Invalid && failure.value == FailureEvent(nonce, action, host.currentUserId, host.sessionToken)
  {
    var uid := host.currentUserId;
    filterApplied := false;
    if uid == 0 {
      uid := host.loggedOutFilter(uid, action);
      filterApplied := true;
    }

    if IsEmpty(nonce) {
      return Invalid, filterApplied, [], None;
    }

    var token := host.sessionToken;
    var tick := WpNonceTick(host, action);
    var key := NonceKey(action, uid, token);
    assert key == KeyOf(host, action);
    result, hashedTicks := ScanTicks(host.nonceHash, key, nonce, tick);
    if result.Valid? {
      return result, filterApplied, hashedTicks, None;
    }

    FirstMatchIsLeast(host.nonceHash, key, nonce, tick, 0);
    failure := Some(FailureEvent(nonce, action, host.currentUserId, token));
  }

  // ---------------------------------------------------------------------
  // Properties of the specification

  /** The expected value is `substr($hash, -12, 10)`: the 10 characters
      that start 12 from the end of the hash. */
  lemma ExpectedIsSubstr(hash: NonceHash, key: NonceKey, tick: int)
    ensures Expected(hash, key, tick) == SubstrFromEnd(hash(tick, key), 12, 10)
  {
  }

  /** An expected nonce is never PHP-empty, so a real nonce always reaches
      the scan. */
  lemma ExpectedNotEmpty(hash: NonceHash, key: NonceKey, tick: int)
    ensures !IsEmpty(Expected(hash, key, tick))
  {
  }

  /** The hash tells the ticks scanned from `current` apart from `issued`:
      no other candidate has the same nonce as `issued`. */
  predicate DistinguishesIssued(hash: NonceHash, key: NonceKey, issued: int, current: int) {
    forall i :: 0 <= i <= TicksPerNonceLife && current - i != issued ==>
      !MatchesAt(hash, key, Expected(hash, key, issued), current, i)
  }

  /** Whatever the hash, a nonce made for one of the nine scanned ticks is
      accepted, in band 1 when it is at most four ticks old: the candidate
      of its own tick matches, so the scan stops there or earlier. */
  lemma WindowAccepts(hash: NonceHash, key: NonceKey, issued: int, current: int)
    requires 0 <= current - issued <= TicksPerNonceLife
    ensures ScanVerdict(hash, key, Expected(hash, key, issued), current) != Invalid
    ensures current - issued <= TicksPerNonceLife / 2 ==>
      ScanVerdict(hash, key, Expected(hash, key, issued), current) == Valid(1)
  {
    assert MatchesAt(hash, key, Expected(hash, key, issued), current, current - issued);
  }

  /** Round trip: a nonce made for tick `issued` with the same action, user
      and token is accepted in band 1 while the current tick is at most 4
      ahead, in band 2 while it is 5 to 8 ahead, and rejected otherwise. */
  lemma {:induction false} RoundTrip(hash: NonceHash, key: NonceKey, issued: int, current: int)
    requires DistinguishesIssued(hash, key, issued, current)
    ensures ScanVerdict(hash, key, Expected(hash, key, issued), current) ==
      if 0 <= current - issued <= TicksPerNonceLife / 2 then Valid(1)
      else if TicksPerNonceLife / 2 < current - issued <= TicksPerNonceLife then Valid(2)
      else Invalid
  {
    var nonce := Expected(hash, key, issued);
    var m := FirstMatch(hash, key, nonce, current, 0);
    if 0 <= current - issued <= TicksPerNonceLife {
      assert MatchesAt(hash, key, nonce, current, current - issued);
      assert m.Some? && m.value == current - issued;
    } else {
      assert m == None;
    }
  }

  /** The whole of wp_verify_nonce on a freshly made nonce: with the
      current user, token and action unchanged, the PHP result follows from
      how many ticks have passed since the nonce was made. */
  lemma VerifyIssuedNonce(host: Host, action: string, issued: int)
    requires NonceLife(host, action) != 0
    requires DistinguishesIssued(host.nonceHash, KeyOf(host, action), issued, WpNonceTick(host, action))
    ensures var age := WpNonceTick(host, action) - issued;
      VerifySpec(host, Expected(host.nonceHash, KeyOf(host, action), issued), action) ==
        if 0 <= age <= TicksPerNonceLife / 2 then Valid(1)
        else if TicksPerNonceLife / 2 < age <= TicksPerNonceLife then Valid(2)
        else Invalid
  {
    ExpectedNotEmpty(host.nonceHash, KeyOf(host, action), issued);
    RoundTrip(host.nonceHash, KeyOf(host, action), issued, WpNonceTick(host, action));
  }
}
