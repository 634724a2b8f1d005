# One-time-passcode service, modelled in Dafny

This project models `OtpServiceImpl`, the service that issues, checks, throttles and revokes
one-time passcodes (OTPs) for a subject id. Each code lives in an expiring key-value store
(Redis) under the key `"otp:" + id`, with a five-minute expiry. The service has four operations:

- `generateAndStoreOtp` builds a 10-character code from the 35-character alphabet
  `A`–`Z`, `1`–`9`. It stores the code, overwriting any earlier one, and returns it.
- `isOtpValid` compares the stored value with the candidate using `Objects.equals`.
- `canResendOtp` refuses a new code while more than `(5 - 1) * 60` = 240 seconds of the
  current code's life remain.
- `deleteOtp` removes the code.

Files:

- `wrappers.dfy`: `Option`, which stands for a Java reference that may be `null`.
- `decimal.dfy`: how `Long.toString` renders a Java `long`, and an inverse parser. The parser
  proves that distinct ids give distinct keys.
- `redis_store.dfy`: the store. It is reduced to the four commands the service issues: SET
  with expiry, GET, DEL and TTL. The specification functions `Read`, `RemainingTtl`, `Written`
  and `Removed` work over a map from key to `Entry(value, expiry)` and a clock in whole
  seconds. Class `Store` holds that map and clock as fields, and its methods are proved against
  those functions. A key is gone once the clock reaches its expiry second. TTL reports `-2` for
  a missing or expired key, `-1` for a key with no expiry, and otherwise the seconds that are
  left. `Store.Advance` lets time pass. The service itself never calls it; the client method
  `Otp.IssueWaitAndExpire` uses it to walk one code through its five minutes.
- `otp_service.dfy`: the service.
  - `GenerateOtp` is the generation loop, proved against the function `Spelled`.
  - `CacheKey` builds the store key, and `IdOfKey` is its inverse.
  - `ResendAllowed` is the resend decision. `OtpValid` is the validation predicate.
  - `PhaseOf` gives a code's phase: `Absent`, `Fresh`, `Stale` or `Persistent`.
  - The lifecycle lemmas relate these functions across calls.
  - Class `OtpService` holds its store and has the four operations as methods.

The random source is an oracle. `draws[i]` is the index that `SecureRandom.nextInt` returned
in the i-th loop iteration, and each draw must lie in `[0, |characters|)`. A `null` candidate
for `isOtpValid` is `None`. A `null` reply from `getExpire` is `None` in `ResendAllowed`.

Notes on behaviour:

- Resend is refused while the remaining TTL is above 240 s, which is the first 60 s after
  issue. `PhaseOf` is `Fresh` exactly then (`ResendWindowAfterIssue`).
- `isOtpValid` uses `Objects.equals`, so a `null` candidate counts as valid when no code is
  stored (`NullCandidateMatchesAbsence`). Also, a correct code is not consumed by validation.
  It keeps validating until it expires or is deleted (`IssuedCodeLifecycle`).
- `canResendOtp` also allows resend when the TTL is `-1`, meaning the key exists without an
  expiry. The service never writes such a key. The model still covers the case, because `Store`
  can start with whatever contents other clients left in it (phase `Persistent`).

## Model

| member | source | states |
|---|---|---|
| `Decimal.NatToString` | back-end/src/main/java/ma/inpt/cedoc/service/auth/OtpServiceImpl.java:29-31 | the decimal digits of a non-negative id: at least one character, all digits, no leading zero, one digit exactly when the value is below 10 |
| `Decimal.IntToString` | back-end/src/main/java/ma/inpt/cedoc/service/auth/OtpServiceImpl.java:29-31 | `%s` of a `long`: starts with '-' exactly for negative values, and is all digits after the sign |
| `Decimal.NatRoundTrip` | back-end/src/main/java/ma/inpt/cedoc/service/auth/OtpServiceImpl.java:29-31 | parsing the digits of n gives back n |
| `Decimal.NegativeRoundTrip` | back-end/src/main/java/ma/inpt/cedoc/service/auth/OtpServiceImpl.java:29-31 | parsing '-' followed by the digits of -n gives back a negative n |
| `Decimal.IntRoundTrip` | back-end/src/main/java/ma/inpt/cedoc/service/auth/OtpServiceImpl.java:29-31 | parsing the rendering of any integer gives it back |
| `Decimal.IntToStringInjective` | back-end/src/main/java/ma/inpt/cedoc/service/auth/OtpServiceImpl.java:29-31 | distinct integers have distinct renderings |
| `RedisStore.Read` | back-end/src/main/java/ma/inpt/cedoc/service/auth/OtpServiceImpl.java:51-52 | GET returns a value exactly when the key exists and has not expired, and then returns the stored value |
| `RedisStore.RemainingTtl` | back-end/src/main/java/ma/inpt/cedoc/service/auth/OtpServiceImpl.java:35 | TTL is -2 exactly when GET finds nothing, and -1 exactly for a live key without expiry; otherwise it is positive |
| `RedisStore.ReadAfterWrite` | back-end/src/main/java/ma/inpt/cedoc/service/auth/OtpServiceImpl.java:60-61 | after SET with expiry, the key reads back the value and the TTL counts down until expiry; afterwards the key is absent; other keys are unaffected |
| `RedisStore.ReadAfterRemove` | back-end/src/main/java/ma/inpt/cedoc/service/auth/OtpServiceImpl.java:69 | after DEL the key reads as absent with TTL -2; other keys are unaffected |
| `RedisStore.RemoveAbsentIsNoOp` | back-end/src/main/java/ma/inpt/cedoc/service/auth/OtpServiceImpl.java:69 | DEL of a missing or expired key changes nothing that any later GET or TTL observes, and leaves the map unchanged when the key is not in it |
| `RedisStore.Store.constructor` | back-end/src/main/java/ma/inpt/cedoc/service/auth/OtpServiceImpl.java:17 | the store starts with arbitrary contents and clock, as other clients left them |
| `RedisStore.Store.Set` | back-end/src/main/java/ma/inpt/cedoc/service/auth/OtpServiceImpl.java:60-61 | overwrites the key with the value and an expiry ttl seconds from now; the key then reads back the value, with the full ttl left |
| `RedisStore.Store.Get` | back-end/src/main/java/ma/inpt/cedoc/service/auth/OtpServiceImpl.java:52 | returns what `Read` gives for the current contents and clock |
| `RedisStore.Store.GetExpire` | back-end/src/main/java/ma/inpt/cedoc/service/auth/OtpServiceImpl.java:35 | returns `RemainingTtl`, which is -2, -1 or positive |
| `RedisStore.Store.Delete` | back-end/src/main/java/ma/inpt/cedoc/service/auth/OtpServiceImpl.java:69 | removes the key and reports whether a live key was there; the key then reads as absent |
| `Otp.Spelled` | back-end/src/main/java/ma/inpt/cedoc/service/auth/OtpServiceImpl.java:20-27 | the code has one character per random index, and the i-th character is `characters[draws[i]]` |
| `Otp.GenerateOtp` | back-end/src/main/java/ma/inpt/cedoc/service/auth/OtpServiceImpl.java:20-27 | the loop returns exactly `length` characters; the i-th is `characters[draws[i]]`, so every character belongs to `characters` |
| `Otp.IssuedCodeShape` | back-end/src/main/java/ma/inpt/cedoc/service/auth/OtpServiceImpl.java:57 | an issued code has 10 characters, each in A–Z or 1–9, and none is '0' |
| `Otp.CacheKey` | back-end/src/main/java/ma/inpt/cedoc/service/auth/OtpServiceImpl.java:29-31 | the key starts with "otp:" and has something after it |
| `Otp.CacheKeyRoundTrip` | back-end/src/main/java/ma/inpt/cedoc/service/auth/OtpServiceImpl.java:29-31 | the id can be read back from its key |
| `Otp.CacheKeyInjective` | back-end/src/main/java/ma/inpt/cedoc/service/auth/OtpServiceImpl.java:29-31 | distinct ids have distinct keys |
| `Otp.ResendAllowed` | back-end/src/main/java/ma/inpt/cedoc/service/auth/OtpServiceImpl.java:37-45 | resend is refused exactly when a TTL above 240 s is reported; a null reply, -2 and -1 all allow it |
| `Otp.ResendMatchesPhase` | back-end/src/main/java/ma/inpt/cedoc/service/auth/OtpServiceImpl.java:33-46 | resend is allowed in every phase except `Fresh` |
| `Otp.NullCandidateMatchesAbsence` | back-end/src/main/java/ma/inpt/cedoc/service/auth/OtpServiceImpl.java:49-53 | a null candidate validates exactly when no code is stored |
| `Otp.IssuedCodeLifecycle` | back-end/src/main/java/ma/inpt/cedoc/service/auth/OtpServiceImpl.java:56-63 | after issue at `now`, only the issued code validates, and only before `now + 300`; the TTL is `now + 300 - t` until then; the phase is Fresh for 60 s, then Stale, then Absent |
| `Otp.ResendWindowAfterIssue` | back-end/src/main/java/ma/inpt/cedoc/service/auth/OtpServiceImpl.java:41-42 | after issue, resend is refused exactly while less than 60 s have passed |
| `Otp.ReissueOverwrites` | back-end/src/main/java/ma/inpt/cedoc/service/auth/OtpServiceImpl.java:60-61 | two issues leave the store exactly as the second issue alone would; the first code validates only if it equals the second; the TTL restarts from the second issue |
| `Otp.DeletionRevokes` | back-end/src/main/java/ma/inpt/cedoc/service/auth/OtpServiceImpl.java:67-69 | after deletion no code validates, a null candidate does, the phase is Absent and resend is allowed |
| `Otp.ExpiryRevokes` | back-end/src/main/java/ma/inpt/cedoc/service/auth/OtpServiceImpl.java:60-61 | from the expiry second on, no code validates and resend is allowed |
| `Otp.OtherIdsUntouched` | back-end/src/main/java/ma/inpt/cedoc/service/auth/OtpServiceImpl.java:29-31 | issuing or deleting for one id does not change what validation or the phase report for any other id |
| `Otp.OtpService.constructor` | back-end/src/main/java/ma/inpt/cedoc/service/auth/OtpServiceImpl.java:15-17 | the service holds the store it is given, and no other state |
| `Otp.OtpService.CanResendOtp` | back-end/src/main/java/ma/inpt/cedoc/service/auth/OtpServiceImpl.java:33-46 | applies `ResendAllowed` to the key's TTL; the answer is false exactly in phase `Fresh` |
| `Otp.OtpService.IsOtpValid` | back-end/src/main/java/ma/inpt/cedoc/service/auth/OtpServiceImpl.java:48-53 | true exactly when the stored value equals the candidate (null included); for a non-null candidate, true exactly when a live code is stored and it equals the candidate; changes nothing |
| `Otp.OtpService.GenerateAndStoreOtp` | back-end/src/main/java/ma/inpt/cedoc/service/auth/OtpServiceImpl.java:55-64 | returns the code spelled by the first 10 draws over the alphabet and stores it under the id's key with expiry now + 300 s, overwriting any earlier code; the code then validates, and the phase is Fresh |
| `Otp.OtpService.DeleteOtp` | back-end/src/main/java/ma/inpt/cedoc/service/auth/OtpServiceImpl.java:66-70 | removes the id's key, whether or not it was present; the phase is then Absent |
| `Otp.IssueWaitAndExpire` | back-end/src/main/java/ma/inpt/cedoc/service/auth/OtpServiceImpl.java:33-64 | from the service's method contracts alone: a code issued at 0 s cannot be resent at 59 s, can be resent and still validates at 241 s, and no longer validates at 301 s, when resend is allowed |

## Left out

- The entropy and distribution of `SecureRandom` are not modelled. Its draws are an oracle whose
  only promise is the range, so uniqueness or collision probability of codes is not stated.
- The Spring `@Service` and Lombok wiring, and the `RedisTemplate` client with its connection,
  serialization and failures, are not modelled. Store errors propagate unchanged in the source,
  and the model has no error path for them.
- Wall-clock time and Redis's millisecond expiry and rounding of TTL replies are left out. The
  clock counts whole seconds.
- The check-then-act race between `canResendOtp` and `generateAndStoreOtp` under concurrent
  requests is left out. The model is sequential.
- `Otp.GenerateOtp` has `length` as a `nat`. The exceptions for a negative or null `length` are
  not modelled, because the only caller passes 10. Nor is the `IllegalArgumentException` that
  `nextInt` throws when `characters` is empty and `length > 0`: the draw-range precondition
  excludes that input, and the only caller passes the 35-character alphabet.
- `RedisStore.Store.GetExpire` always returns a number. The `null` reply, which only happens
  inside a pipeline or transaction, is covered only by `Otp.ResendAllowed`, which takes an
  optional TTL.
