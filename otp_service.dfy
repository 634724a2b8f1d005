/**
 * The one-time-passcode service: generation of a 10-character code, storage
 * under the key "otp:<id>" with a five-minute expiry, validation by equality
 * with the stored value, a resend throttle on the remaining expiry, and
 * revocation. All state lives in the store; the service keeps none of its own.
 */
module Otp {
  import opened Wrappers
  import opened RedisStore
  import Decimal

  /** Java's `long`. */
  type Long = x: int | -0x8000_0000_0000_0000 <= x <= 0x7fff_ffff_ffff_ffff

  const ALPHABET := "ABCDEFGHIJKLMNOPQRSTUVWXYZ123456789"
  const OTP_LENGTH := 10
  const EXPIRATION_IN_MINUTES := 5
  /** The expiry given to a new code, in seconds. */
  const TTL_SECONDS := EXPIRATION_IN_MINUTES * 60
  /** Resend is refused while more than this many seconds of the code's life remain. */
  const RESEND_BLOCKED_ABOVE := (EXPIRATION_IN_MINUTES - 1) * 60
  const KEY_PREFIX := "otp:"

  // ---------------------------------------------------------------- generation

  /** The code spelled by a sequence of random indices into `characters`, one character per index. */
  function Spelled(characters: string, draws: seq<int>): (code: string)
    requires forall i :: 0 <= i < |draws| ==> 0 <= draws[i] < |characters|
    ensures |code| == |draws|
    ensures forall i :: 0 <= i < |draws| ==> code[i] == characters[draws[i]]
    decreases |draws|
  {
    if draws == [] then []
    else Spelled(characters, draws[..|draws| - 1]) + [characters[draws[|draws| - 1]]]
  }

  /**
   * Appends `length` characters of `characters`, the i-th chosen by the i-th
   * random index `draws[i]` (what the secure random source returned for a
   * bound of `|characters|`).
   */
  method GenerateOtp(characters: string, length: nat, draws: seq<int>) returns (otp: string)
    requires length <= |draws|
    requires forall i :: 0 <= i < length ==> 0 <= draws[i] < |characters|
    ensures |otp| == length
    ensures forall i :: 0 <= i < |otp| ==>
      i < |draws| && 0 <= draws[i] < |characters| && otp[i] == characters[draws[i]]
    ensures forall i :: 0 <= i < |otp| ==> otp[i] in characters
  {
    otp := [];
    var i := 0;
    while i < length
      invariant i <= length
      invariant otp == Spelled(characters, draws[..i])
    {
      var index := draws[i];
      assert draws[..i + 1][..i] == draws[..i];
      otp := otp + [characters[index]];
      i := i + 1;
    }
  }

  /** Every code the service issues is ten characters from A-Z and 1-9; in particular it has no '0'. */
  lemma IssuedCodeShape(draws: seq<int>)
    requires |draws| == OTP_LENGTH
    requires forall i :: 0 <= i < |draws| ==> 0 <= draws[i] < |ALPHABET|
    ensures |Spelled(ALPHABET, draws)| == OTP_LENGTH
    ensures var code := Spelled(ALPHABET, draws);
      forall i :: 0 <= i < |code| ==> ('A' <= code[i] <= 'Z' || '1' <= code[i] <= '9') && code[i] != '0'
  {
    assert forall j :: 0 <= j < |ALPHABET| ==> 'A' <= ALPHABET[j] <= 'Z' || '1' <= ALPHABET[j] <= '9';
  }

  // ---------------------------------------------------------------- cache key

  /** "otp:" followed by the decimal rendering of the id. */
  function CacheKey(id: Long): (key: string)
    ensures |key| > |KEY_PREFIX| && key[..|KEY_PREFIX|] == KEY_PREFIX
  {
    KEY_PREFIX + Decimal.IntToString(id)
  }

  /** The id a key belongs to, if it is a key of this service. */
  function IdOfKey(key: string): Option<int> {
    if |key| >= |KEY_PREFIX| && key[..|KEY_PREFIX|] == KEY_PREFIX
    then Decimal.ParseInt(key[|KEY_PREFIX|..])
    else None
  }

  lemma {:induction false} CacheKeyRoundTrip(id: Long)
    ensures IdOfKey(CacheKey(id)) == Some(id)
  {
    var key := CacheKey(id);
    assert key[|KEY_PREFIX|..] == Decimal.IntToString(id);
    Decimal.IntRoundTrip(id);
  }

  /** Distinct ids have distinct keys, so no two subjects share an entry. */
  lemma {:induction false} CacheKeyInjective(a: Long, b: Long)
    requires a != b
    ensures CacheKey(a) != CacheKey(b)
  {
    CacheKeyRoundTrip(a);
    CacheKeyRoundTrip(b);
  }

  // ---------------------------------------------------------------- policy

  /**
   * The resend decision on the TTL the store reports (`None` for a null reply):
   * refused exactly when more than four minutes of the code's life remain.
   */
  function ResendAllowed(ttl: Option<int>): (allowed: bool)
    ensures !allowed <==> ttl.Some? && ttl.value > RESEND_BLOCKED_ABOVE
    ensures ttl == None || ttl == Some(NO_SUCH_KEY) || ttl == Some(NO_EXPIRY) ==> allowed
  {
    if ttl.None? || ttl.value == NO_SUCH_KEY then true
    else if ttl.value > 0 && ttl.value > RESEND_BLOCKED_ABOVE then false
    else true
  }

  /** `Objects.equals(stored, candidate)`: both absent, or both present and equal. */
  predicate OtpValid(entries: Entries, now: int, id: Long, candidate: Option<string>) {
    Read(entries, now, CacheKey(id)) == candidate
  }

  /** Where a subject's code is in its life, as seen through the store. */
  datatype Phase =
    | Absent      // never issued, deleted or expired
    | Fresh       // more than four minutes left: resend refused
    | Stale       // at most four minutes left: resend allowed, code still valid
    | Persistent  // a value stored without expiry by some other client

  function PhaseOf(entries: Entries, now: int, id: Long): Phase {
    var key := CacheKey(id);
    if !IsLive(entries, now, key) then Absent
    else match entries[key].expiry
      case None => Persistent
      case Some(expiry) => if expiry - now > RESEND_BLOCKED_ABOVE then Fresh else Stale
  }

  /** Resend is allowed in every phase but `Fresh`. */
  lemma ResendMatchesPhase(entries: Entries, now: int, id: Long)
    ensures ResendAllowed(Some(RemainingTtl(entries, now, CacheKey(id)))) <==>
      PhaseOf(entries, now, id) != Fresh
  {
  }

  /** A null candidate "matches" exactly when no code is stored. */
  lemma NullCandidateMatchesAbsence(entries: Entries, now: int, id: Long)
    ensures OtpValid(entries, now, id, None) <==> PhaseOf(entries, now, id) == Absent
  {
  }

  // ---------------------------------------------------------------- lifecycle

  /**
   * After a code is issued at `now`: it validates, and nothing else does, until
   * the expiry; the TTL counts down from 300 s; the phase is Fresh for one
   * minute, then Stale until the expiry, then Absent.
   */
  lemma IssuedCodeLifecycle(entries: Entries, now: int, id: Long, code: string, t: int, candidate: string)
    requires now <= t
    ensures var after := Written(entries, now, CacheKey(id), code, TTL_SECONDS);
      && (OtpValid(after, t, id, Some(candidate)) <==> candidate == code && t < now + TTL_SECONDS)
      && RemainingTtl(after, t, CacheKey(id)) == (if t < now + TTL_SECONDS then now + TTL_SECONDS - t else NO_SUCH_KEY)
      && PhaseOf(after, t, id) ==
           if t < now + (TTL_SECONDS - RESEND_BLOCKED_ABOVE) then Fresh
           else if t < now + TTL_SECONDS then Stale
           else Absent
  {
    ReadAfterWrite(entries, now, CacheKey(id), code, TTL_SECONDS, CacheKey(id), t);
  }

  /** Resend is refused exactly during the first minute after a code is issued. */
  lemma ResendWindowAfterIssue(entries: Entries, now: int, id: Long, code: string, t: int)
    requires now <= t
    ensures var after := Written(entries, now, CacheKey(id), code, TTL_SECONDS);
      ResendAllowed(Some(RemainingTtl(after, t, CacheKey(id)))) <==> t >= now + 60
  {
    IssuedCodeLifecycle(entries, now, id, code, t, code);
    ResendMatchesPhase(Written(entries, now, CacheKey(id), code, TTL_SECONDS), t, id);
  }

  /**
   * Issuing twice leaves only the second code: the store is what the second
   * issue alone would make it, the first code validates only if it equals the
   * second, and the expiry restarts from the second issue.
   */
  lemma ReissueOverwrites(entries: Entries, now1: int, now2: int, id: Long, first: string, second: string, t: int)
    requires now1 <= now2 <= t
    ensures var key := CacheKey(id);
      var after := Written(Written(entries, now1, key, first, TTL_SECONDS), now2, key, second, TTL_SECONDS);
      && after == Written(entries, now2, key, second, TTL_SECONDS)
      && (OtpValid(after, t, id, Some(first)) <==> first == second && t < now2 + TTL_SECONDS)
      && (t < now2 + TTL_SECONDS ==> RemainingTtl(after, t, key) == now2 + TTL_SECONDS - t)
  {
    var key := CacheKey(id);
    var once := Written(entries, now1, key, first, TTL_SECONDS);
    assert Written(once, now2, key, second, TTL_SECONDS) == Written(entries, now2, key, second, TTL_SECONDS);
    IssuedCodeLifecycle(entries, now2, id, second, t, first);
  }

  /**
   * After deletion no code validates, a null candidate does, and resend is
   * allowed, at any later time, until a new code is issued.
   */
  lemma DeletionRevokes(entries: Entries, id: Long, t: int, candidate: string)
    ensures var after := Removed(entries, CacheKey(id));
      && !OtpValid(after, t, id, Some(candidate))
      && OtpValid(after, t, id, None)
      && PhaseOf(after, t, id) == Absent
      && ResendAllowed(Some(RemainingTtl(after, t, CacheKey(id))))
  {
    ReadAfterRemove(entries, CacheKey(id), CacheKey(id), t);
  }

  /** Once the expiry has passed, the issued code and every other code are rejected and resend is allowed. */
  lemma ExpiryRevokes(entries: Entries, now: int, id: Long, code: string, t: int, candidate: string)
    requires t >= now + TTL_SECONDS
    ensures var after := Written(entries, now, CacheKey(id), code, TTL_SECONDS);
      && !OtpValid(after, t, id, Some(candidate))
      && ResendAllowed(Some(RemainingTtl(after, t, CacheKey(id))))
  {
    IssuedCodeLifecycle(entries, now, id, code, t, candidate);
  }

  /** Issuing or deleting a code for one id leaves what every other id observes unchanged. */
  lemma {:induction false} OtherIdsUntouched(entries: Entries, now: int, id: Long, other: Long, code: string, t: int, candidate: Option<string>)
    requires id != other && now <= t
    ensures OtpValid(Written(entries, now, CacheKey(id), code, TTL_SECONDS), t, other, candidate) ==
            OtpValid(entries, t, other, candidate)
    ensures PhaseOf(Written(entries, now, CacheKey(id), code, TTL_SECONDS), t, other) == PhaseOf(entries, t, other)
    ensures OtpValid(Removed(entries, CacheKey(id)), t, other, candidate) == OtpValid(entries, t, other, candidate)
    ensures PhaseOf(Removed(entries, CacheKey(id)), t, other) == PhaseOf(entries, t, other)
  {
    CacheKeyInjective(id, other);
  }

  // ---------------------------------------------------------------- service

  /** The service object: its only state is the store it is given. */
  class OtpService {
    const store: Store

    constructor (store: Store)
      ensures this.store == store
    {
      this.store := store;
    }

    /** Refuses a resend while the subject's code has more than four minutes left. */
    method CanResendOtp(id: Long) returns (allowed: bool)
      ensures allowed == ResendAllowed(Some(RemainingTtl(store.entries, store.now, CacheKey(id))))
      ensures allowed <==> PhaseOf(store.entries, store.now, id) != Fresh
    {
      var cacheKey := CacheKey(id);
      var ttl := store.GetExpire(cacheKey);
      if ttl == NO_SUCH_KEY {
        allowed := true;
      } else if ttl > 0 && ttl > RESEND_BLOCKED_ABOVE {
        allowed := false;
      } else {
        allowed := true;
      }
    }

    /** Compares the stored code with the candidate; the store is left as it was. */
    method IsOtpValid(id: Long, otp: Option<string>) returns (valid: bool)
      ensures valid <==> OtpValid(store.entries, store.now, id, otp)
      ensures otp.Some? ==> (valid <==> PhaseOf(store.entries, store.now, id) != Absent &&
                                        store.entries[CacheKey(id)].value == otp.value)
    {
      var cacheKey := CacheKey(id);
      var stored := store.Get(cacheKey);
      valid := stored == otp;
    }

    /** Generates a fresh code and stores it for `id` for five minutes, replacing any earlier one. */
    method GenerateAndStoreOtp(id: Long, draws: seq<int>) returns (otp: string)
      requires |draws| >= OTP_LENGTH
      requires forall i :: 0 <= i < OTP_LENGTH ==> 0 <= draws[i] < |ALPHABET|
      modifies store
      ensures otp == Spelled(ALPHABET, draws[..OTP_LENGTH])
      ensures |otp| == OTP_LENGTH && forall i :: 0 <= i < |otp| ==> otp[i] in ALPHABET
      ensures store.entries == Written(old(store.entries), old(store.now), CacheKey(id), otp, TTL_SECONDS)
      ensures store.now == old(store.now)
      ensures OtpValid(store.entries, store.now, id, Some(otp))
      ensures PhaseOf(store.entries, store.now, id) == Fresh
    {
      otp := GenerateOtp(ALPHABET, OTP_LENGTH, draws);
      assert otp == Spelled(ALPHABET, draws[..OTP_LENGTH]);
      var cacheKey := CacheKey(id);
      store.Set(cacheKey, otp, TTL_SECONDS);
    }

    /** Removes the subject's code, whether or not there is one. */
    method DeleteOtp(id: Long)
      modifies store
      ensures store.entries == Removed(old(store.entries), CacheKey(id))
      ensures store.now == old(store.now)
      ensures PhaseOf(store.entries, store.now, id) == Absent
    {
      var cacheKey := CacheKey(id);
      var _ := store.Delete(cacheKey);
    }
  }

  /**
   * A client of the service on an empty store: a code issued at second 0 is
   * refused a resend at 59 s, may be resent at 241 s, and at 301 s no longer
   * validates while resend stays allowed. Only the method contracts are used.
   */
  method IssueWaitAndExpire(id: Long, draws: seq<int>)
    returns (resendAt59: bool, resendAt241: bool, validAt241: bool, validAt301: bool, resendAt301: bool)
    requires |draws| >= OTP_LENGTH
    requires forall i :: 0 <= i < OTP_LENGTH ==> 0 <= draws[i] < |ALPHABET|
    ensures !resendAt59 && resendAt241 && validAt241
    ensures !validAt301 && resendAt301
  {
    var store := new Store(map[], 0);
    var service := new OtpService(store);
    var code := service.GenerateAndStoreOtp(id, draws);
    store.Advance(59);
    resendAt59 := service.CanResendOtp(id);
    store.Advance(182);
    resendAt241 := service.CanResendOtp(id);
    validAt241 := service.IsOtpValid(id, Some(code));
    store.Advance(60);
    validAt301 := service.IsOtpValid(id, Some(code));
    resendAt301 := service.CanResendOtp(id);
  }
}
