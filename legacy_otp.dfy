/**
 * The one-time passwords of the legacy generation (`security/otp/OtpService`): same codes and
 * lifetime as the current service, but checking a code does not consume it; the caller clears
 * it separately.
 */
module LegacyOtp {
  import opened Wrappers
  import opened Errors
  import opened KeyValue
  import opened Otp

  /**
   * The answer of `verifyCode` given what the store holds: expired when nothing is stored,
   * otherwise whether the codes are equal.
   */
  function CodeCheck(stored: Option<string>, code: string): (r: Result<bool, ErrorCode>)
    ensures r.Failure? <==> stored.None?
    ensures r.Failure? ==> r.error == VERIFICATION_CODE_EXPIRED
    ensures r.Success? ==> (r.value <==> stored == Some(code))
  {
    match stored
    case None => Failure(VERIFICATION_CODE_EXPIRED)
    case Some(s) => Success(code == s)
  }

  class LegacyOtpService {
    const redis: KeyValueStore

    constructor (redis: KeyValueStore)
      ensures this.redis == redis
    {
      this.redis := redis;
    }

    /** `generateCode`: identical to the current generation's. */
    method GenerateCode(email: string, draw: nat, now: int) returns (code: string)
      modifies redis
      ensures code == OtpCode(draw)
      ensures redis.entries == Saved(old(redis.entries), email, code, now)
    {
      code := OtpCode(draw);
      redis.SaveValue(email, code, now);
    }

    /** `verifyCode`: reads the stored code and compares; the store is left as it was. */
    method VerifyCode(email: string, code: string, now: int) returns (r: Result<bool, ErrorCode>)
      ensures r.Failure? <==> Live(redis.entries, email, now).None?
      ensures r.Failure? ==> r.error == VERIFICATION_CODE_EXPIRED
      ensures r.Success? ==> (r.value <==> Live(redis.entries, email, now) == Some(code))
    {
      var storedCode := redis.GetValue(email, now);
      if storedCode.None? {
        return Failure(VERIFICATION_CODE_EXPIRED);
      }
      return Success(code == storedCode.value);
    }

    /** `clearCode`: removes the address's code. */
    method ClearCode(email: string)
      modifies redis
      ensures redis.entries == old(redis.entries) - {email}
    {
      redis.DeleteValue(email);
    }
  }

  /** Unlike the current service, a correct legacy check can be repeated until the code is cleared. */
  lemma CheckIsRepeatable(entries: map<string, Entry>, email: string, code: string, now: int)
    requires CodeCheck(Live(entries, email, now), code) == Success(true)
    ensures OtpVerdict(Live(entries, email, now), code) == Success(true)
    ensures CodeCheck(Live(entries - {email}, email, now), code) == Failure(VERIFICATION_CODE_EXPIRED)
  {
    DeleteThenGet(entries, email, email, now);
  }
}
