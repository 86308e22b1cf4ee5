# Noncensible in Dafny

Noncensible is a WordPress plugin. It replaces two core functions so that a
nonce (a short token bound to an action, a user and a session) stays valid
for a guaranteed time:

- `wp_nonce_tick` counts time in ticks of one eighth of the nonce lifespan.
  Core WordPress uses halves.
- `wp_verify_nonce` accepts a nonce made in the current tick or any of the
  eight ticks before it, nine ticks in all. A match in the five newest ticks
  returns 1. A match in the four oldest returns 2. No match returns false
  and fires the `wp_verify_nonce_failed` action.

The model has three modules:

- `Php` (`php.dfy`) covers the PHP built-ins the code relies on: `empty()` on
  a string, `substr()` with a negative offset and `hash_equals()`.
- `Noncensible` (`noncensible.dfy`) covers the tick and verification.
  - The tick is an exact integer ceiling.
  - Verification is stated twice. `VerifySpec` is a function built from
    `FirstMatch` and `Classify`. The method `ScanTicks` (the PHP loop) is
    proved equal to `Classify(FirstMatch(…, 0))`, which is `ScanVerdict`,
    the non-empty branch of `VerifySpec`. The method `VerifyNonce` (the
    whole function around the loop) is proved equal to `VerifySpec`.
    `VerifyNonce` also reports whether the logged-out filter ran, which
    ticks were hashed and the failure action.
- `NonceLifetime` (`lifetime.dfy`) turns the tick arithmetic into the
  lifetimes the plugin documents, in seconds. A nonce is accepted for at
  least one lifespan, and is in band 1 for the first half of it. When the
  hash tells the scanned ticks apart, it is accepted for less than 9/8 of a
  lifespan only, band 1 means it is less than 5/8 of a lifespan old and
  band 2 means it is more than 1/2 of a lifespan old. With the default day
  these are the documented 24 to 27 hours, 0 to 15 hours and 12 to 27
  hours.

Everything the PHP code reads from WordPress is a field of the `Host`
datatype:

- `time()`;
- the current user's id;
- the session token;
- the `nonce_life` and `nonce_user_logged_out` filters;
- `wp_hash` under the `'nonce'` scheme.

The filters and the hash are uninterpreted functions. The hash takes the
tick together with the action, the user id and the token.

The result type allows only the bands 1 and 2 (the `Band` subset type) or
false.

The lower bounds need nothing of the hash: a nonce made for one of the nine
scanned ticks is always accepted, because its own tick matches
(`WindowAccepts`). The other results need the hash to give different
nonces to different ticks, for two reasons:

- A colliding newer tick would stop the scan early. A band-2 nonce could
  then come out as band 1, so band 2 and the band-1 upper bound
  (`BandOneUnderFiveEighths`) need distinctness.
- A candidate inside the window could collide with a nonce made more than
  eight ticks ago. That nonce would then be accepted, so rejection and the
  upper bound on acceptance (`AcceptedUnderNineEighths`) need distinctness.

`DistinguishesIssued` states this assumption as a requires. It only covers
the candidate ticks the scan looks at.

## Model

| member | source | states |
|---|---|---|
| Noncensible.UnfilteredLifespanIsOneDay | noncensible.php:37 | `NonceLife` passes DAY_IN_SECONDS through `nonce_life`. With nothing hooked onto the filter, the lifespan is 86400 seconds and the tick counts three-hour buckets. |
| Noncensible.Tick | noncensible.php:39 | The tick is the least integer at least 8·now/life, i.e. ceil(now / (life/8)), for positive and for negative lifespans. It is non-negative for a non-negative time and a positive lifespan. |
| Noncensible.WpNonceTick | noncensible.php:30-40 | `wp_nonce_tick` on the host's clock and filtered lifespan: the same ceiling of 8·time()/lifespan, for either sign of the lifespan. |
| Noncensible.TickMonotone | noncensible.php:39 | For a fixed positive lifespan, a later time never has an earlier tick. |
| Noncensible.TickAdvancesOnePerBucket | noncensible.php:37-39 | When the lifespan is a multiple of 8, moving the time forward by life/8 seconds raises the tick by exactly one. |
| Noncensible.DefaultBucketIsThreeHours | noncensible.php:37-39 | With the default lifespan of 86400 seconds, a bucket is 10800 seconds and the tick is ceil(now/10800). |
| Noncensible.ResolvedUid | noncensible.php:56-66 | The nonce is bound to the current user's id when it is not 0. For a logged-out user (id 0) it is bound to what `nonce_user_logged_out` returns for 0 and the action. |
| Noncensible.LoggedOutFilterOnlyForGuests | noncensible.php:56-66 | For a logged-in user, replacing the `nonce_user_logged_out` filter by any other leaves the nonce fields unchanged. |
| Noncensible.Expected | noncensible.php:77 | The expected nonce, computed for one tick, has exactly 10 characters. |
| Noncensible.FirstMatch | noncensible.php:76-89 | The offset returned is within `from..8` and matches the nonce. No smaller offset in the window matches. None means no offset in `from..8` matches. |
| Noncensible.FirstMatchIsLeast | noncensible.php:76-89 | The scan from offset 0 returns `i` exactly when `i` is the least matching offset in 0..8. It returns None exactly when none of the nine offsets matches. |
| Noncensible.Classify | noncensible.php:79-85 | No match gives false. A match at offset `i` gives band 1 exactly when `i` is at most NONCENSIBLE_TICKS_PER_NONCE_LIFE / 2, and band 2 otherwise. |
| Noncensible.ScanVerdict | noncensible.php:76-89 | Band 1 holds iff one of offsets 0..4 matches. Band 2 holds iff none of 0..4 matches and one of 5..8 does. False holds iff none of 0..8 matches. |
| Noncensible.VerifySpec | noncensible.php:68-89 | An empty or "0" nonce is false. Otherwise the nonce is accepted iff it equals the expected value of one of the ticks tick-8 … tick. |
| Noncensible.ScanTicks | noncensible.php:74-89 | The loop returns the band of the first matching offset, or false when there is none. It hashes the ticks current, current-1, … in that order, up to and including the first match, or all nine when none matches. |
| Noncensible.VerifyNonce | noncensible.php:54-103 | The result equals `VerifySpec`, and the method reports three more things. The logged-out filter runs exactly when the user id is 0. An empty or "0" nonce returns false immediately, hashing nothing and firing nothing. Otherwise the hashed ticks are exactly the scanned prefix. The failure action fires exactly when no tick matched, with the nonce, action, user and token, and the result is then false. |
| Noncensible.ExpectedIsSubstr | noncensible.php:77 | The expected nonce is `substr($hash, -12, 10)` of the tick's hash. |
| Php.SubstrFromEnd | noncensible.php:77 | PHP `substr($s, -back, $length)` in each of its three cases: whether the string is shorter than `back`, and whether `length` fits. The result is never longer than `length`. |
| Php.IsEmpty | noncensible.php:68 | An empty string in PHP's sense has at most one character, and a one-character string is empty exactly when it is "0". |
| Php.HashEqualsCharwise | noncensible.php:78 | `HashEquals` (`hash_equals`) holds iff both strings have the same length and agree at every position. It is symmetric in its arguments. |
| Noncensible.ExpectedNotEmpty | noncensible.php:68-77 | An expected nonce is never empty in PHP's sense, so a genuine nonce always reaches the scan. |
| Noncensible.WindowAccepts | noncensible.php:76-86 | For every hash, a nonce made for a tick 0..8 ticks before the current one is accepted, and it is in band 1 when it is at most 4 ticks old. |
| Noncensible.RoundTrip | noncensible.php:76-89 | A nonce made for tick `issued`, checked at tick `current` with the same action, user and token, gets band 1 for an age of 0..4 ticks and band 2 for 5..8. It is rejected otherwise. |
| Noncensible.VerifyIssuedNonce | noncensible.php:54-89 | The same round trip through the whole of `wp_verify_nonce`, with the host's current tick. |
| NonceLifetime.AgeWithinOneTick | noncensible.php:39 | A nonce's age, in eighths of a lifespan, lies strictly within one of the number of ticks elapsed. |
| NonceLifetime.AcceptedForOneLifespan | noncensible.php:46 | For every hash, a nonce presented at most one lifespan after it was made is accepted. |
| NonceLifetime.FreshForHalfALifespan | noncensible.php:50 | For every hash, a nonce presented at most half a lifespan after it was made is in band 1. |
| NonceLifetime.AcceptedUnderNineEighths | noncensible.php:46 | An accepted nonce is less than 9/8 of a lifespan old. |
| NonceLifetime.BandOneUnderFiveEighths | noncensible.php:79-82 | A band-1 nonce is less than 5/8 of a lifespan old. |
| NonceLifetime.BandTwoOverHalfALifespan | noncensible.php:84-85 | A band-2 nonce is more than half a lifespan old. |
| NonceLifetime.DefaultDayWindow | noncensible.php:46-52 | With the default day, a nonce is accepted for 24 hours, for every hash. When the hash tells the scanned ticks apart, it is never accepted after 27 hours, band 1 is under 15 hours old and band 2 is over 12 hours old. |

## Left out

- `wp_hash` values are taken to have at least 12 characters (the `Digest` type). The default HMAC-MD5 is 32 hexadecimal digits. `Php.SubstrFromEnd` still models `substr` on shorter strings.
- `wp_hash` is uninterpreted. It is a function of the tick, action, user id and token, so the model assumes nothing about its cryptographic strength.
- The model hashes the tuple of fields, not the string `"$tick|$action|$uid|$token"`. Collisions between two tuples that format to the same string (an action containing `|`) are therefore not modelled.
- `hash_equals` is modelled as string equality. Its constant-time behaviour is a timing property and is not modelled.
- PHP computes the tick on floats. The model computes the exact integer ceiling, so float rounding is not modelled.
- A zero lifespan is a division by zero in PHP. The model excludes it by a requires on the tick.
- The `function_exists` guard and the plugin header (lines 1-21) only decide whether the functions are defined at all.
- The `(string)` cast of `$nonce` is not modelled: the nonce is already a string. Passing a non-string action (the default `-1`) is also not modelled: the action is a string.
- The failure action carries the user object in PHP. The model carries its id.
- Any side effects of the filter callbacks and of the failure action's listeners are not modelled. `time()`, the current user and the session token are read once, as fields of `Host`.
- `wp_create_nonce` is not part of this model. The round-trip lemmas build the issued nonce with the same formula the verifier uses (`Expected`).
- NonceLifetime lemmas are stated for positive lifespans only. With a negative lifespan the ceiling still holds (`Tick`), but the bounds in seconds do not apply.
