/**
 * CookieUtils.getCookieValue (two identical copies, one per code generation): the value of
 * the first cookie with the requested name; a request without cookies, or without one of
 * that name, is NOT_FOUND_IN_COOKIES. A cookie's value is kept abstract; the services
 * instantiate it with a possibly-null token.
 */
module Cookies {
  import opened Wrappers
  import opened Errors

  datatype Cookie<V> = Cookie(name: string, value: V)

  /** Position of the first cookie with this name, or |cookies| when there is none. */
  function IndexOfName<V>(cookies: seq<Cookie<V>>, name: string): (k: nat)
    ensures k <= |cookies|
    ensures k < |cookies| ==> cookies[k].name == name
    ensures forall j :: 0 <= j < k ==> cookies[j].name != name
  {
    if cookies == [] then 0
    else if cookies[0].name == name then 0
    else 1 + IndexOfName(cookies[1..], name)
  }

  /** The value the lookup yields for a request's cookie array (None stands for a null array). */
  function CookieValue<V>(cookies: Option<seq<Cookie<V>>>, name: string): Result<V, ErrorCode>
  {
    if cookies.None? then Failure(NOT_FOUND_IN_COOKIES)
    else
      var k := IndexOfName(cookies.value, name);
      if k < |cookies.value| then Success(cookies.value[k].value) else Failure(NOT_FOUND_IN_COOKIES)
  }

  /** `getCookieValue`: scans the array and returns on the first name match. */
  method GetCookieValue<V>(cookies: Option<seq<Cookie<V>>>, name: string) returns (r: Result<V, ErrorCode>)
    ensures r == CookieValue(cookies, name)
    ensures r.Failure? ==> r.error == NOT_FOUND_IN_COOKIES
    ensures r.Failure? <==> cookies.None? || forall i :: 0 <= i < |cookies.value| ==> cookies.value[i].name != name
    ensures r.Success? ==> exists i :: 0 <= i < |cookies.value| && cookies.value[i] == Cookie(name, r.value)
  {
    if cookies.Some? {
      var all := cookies.value;
      for i := 0 to |all|
        invariant forall j :: 0 <= j < i ==> all[j].name != name
      {
        if all[i].name == name {
          return Success(all[i].value);
        }
      }
    }
    return Failure(NOT_FOUND_IN_COOKIES);
  }

  /**
   * Only the first cookie of a name is ever seen: cookies appended after it, or other names
   * anywhere, do not change the answer.
   */
  lemma {:induction false} FirstMatchWins<V>(before: seq<Cookie<V>>, value: V, after: seq<Cookie<V>>, name: string)
    requires forall i :: 0 <= i < |before| ==> before[i].name != name
    ensures CookieValue(Some(before + [Cookie(name, value)] + after), name) == Success(value)
  {
    if before != [] {
      var all := before + [Cookie(name, value)] + after;
      assert all[1..] == before[1..] + [Cookie(name, value)] + after;
      FirstMatchWins(before[1..], value, after, name);
    }
  }
}
