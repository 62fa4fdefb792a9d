/**
 * The one-time passwords of the current generation (`service/OtpService`): a code is drawn,
 * stored under the e-mail address for five minutes, and consumed by the first correct
 * verification.
 */
module Otp {
  import opened Wrappers
  import opened Errors
  import opened Strings
  import opened KeyValue

  /** The exclusive bound passed to `Random.nextInt`. */
  const OTP_BOUND: nat := 999999

  /**
   * `String.valueOf(new Random().nextInt(999999))`, the random draw taken as a parameter:
   * unpadded decimal text of a number in [0, 999998].
   */
  function OtpCode(draw: nat): string
  {
    DecimalString(draw % OTP_BOUND)
  }

  /** A code has one to six digits, no leading zero unless it is "0", and stays below the bound. */
  lemma OtpCodeShape(draw: nat)
    ensures 1 <= |OtpCode(draw)| <= 6
    ensures forall i :: 0 <= i < |OtpCode(draw)| ==> '0' <= OtpCode(draw)[i] <= '9'
    ensures DigitsValue(OtpCode(draw)) == draw % OTP_BOUND < OTP_BOUND
    ensures |OtpCode(draw)| > 1 ==> OtpCode(draw)[0] != '0'
  {
    var n := draw % OTP_BOUND;
    assert Pow10(6) == 1000000 by {
      assert Pow10(1) == 10;
      assert Pow10(2) == 100;
      assert Pow10(3) == 1000;
      assert Pow10(4) == 10000;
      assert Pow10(5) == 100000;
    }
    DecimalLengthAtMost(n, 6);
    DecimalRoundTrip(n);
  }

  /**
   * The answer of `verifyOtp` given what the store holds: expired when nothing is stored,
   * true on an exact match, invalid otherwise. It never answers false.
   */
  function OtpVerdict(stored: Option<string>, code: string): (r: Result<bool, ErrorCode>)
    ensures r.Success? <==> stored == Some(code)
    ensures r.Success? ==> r.value
    ensures r.Failure? ==> (r.error == VERIFICATION_CODE_EXPIRED <==> stored.None?)
    ensures r.Failure? ==> r.error in {VERIFICATION_CODE_EXPIRED, VERIFICATION_CODE_INVALID}
  {
    match stored
    case None => Failure(VERIFICATION_CODE_EXPIRED)
    case Some(s) => if code == s then Success(true) else Failure(VERIFICATION_CODE_INVALID)
  }

  class OtpService {
    const redis: KeyValueStore

    constructor (redis: KeyValueStore)
      ensures this.redis == redis
    {
      this.redis := redis;
    }

    /** `generateCode`: stores a fresh code under the address, replacing any earlier one. */
    method GenerateCode(email: string, draw: nat, now: int) returns (code: string)
      modifies redis
      ensures code == OtpCode(draw)
      ensures redis.entries == Saved(old(redis.entries), email, code, now)
    {
      code := DecimalString(draw % OTP_BOUND);
      redis.SaveValue(email, code, now);
    }

    /** `verifyOtp`: a match consumes the code; a miss or an expired code changes nothing. */
    method VerifyOtp(email: string, code: string, now: int) returns (r: Result<bool, ErrorCode>)
      modifies redis
      ensures r == OtpVerdict(Live(old(redis.entries), email, now), code)
      ensures r.Success? ==> redis.entries == old(redis.entries) - {email}
      ensures r.Failure? ==> redis.entries == old(redis.entries)
    {
      var storedCode := redis.GetValue(email, now);
      if storedCode.None? {
        return Failure(VERIFICATION_CODE_EXPIRED);
      }
      if code == storedCode.value {
        redis.DeleteValue(email);
        return Success(true);
      }
      return Failure(VERIFICATION_CODE_INVALID);
    }
  }

  /** A code verifies at most once: after a successful verification the next attempt finds nothing. */
  lemma VerifyConsumes(entries: map<string, Entry>, email: string, code: string, now: int, later: int)
    requires OtpVerdict(Live(entries, email, now), code).Success?
    ensures OtpVerdict(Live(entries - {email}, email, later), code) == Failure(VERIFICATION_CODE_EXPIRED)
  {
    DeleteThenGet(entries, email, email, later);
  }

  /** The code just generated verifies within five minutes, and a different one does not. */
  lemma GeneratedCodeVerifies(entries: map<string, Entry>, email: string, draw: nat, now: int, t: int, code: string)
    requires now <= t <= now + TTL_MS
    ensures OtpVerdict(Live(Saved(entries, email, OtpCode(draw), now), email, t), code).Success?
        <==> code == OtpCode(draw)
  {
    SaveThenGet(entries, email, OtpCode(draw), now, t);
  }
}
