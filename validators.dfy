/**
 * The two custom Bean Validation constraints: `@UsernameOrEmail` on a login identifier and
 * `@PasswordMatches` on a change-password request.
 */
module Validators {
  import opened Wrappers
  import opened Strings

  // ---------------------------------------------------------------- @UsernameOrEmail

  /** The violation template the validator emits; a valid value emits none. */
  datatype Violation = NOT_BLANK | USERNAME_OR_EMAIL_REGEX | USERNAME_SIZE | EMAIL_SIZE

  /** The annotation's bounds, set once by `initialize`. */
  datatype Bounds = Bounds(usernameMin: int, usernameMax: int, emailMax: int)

  /** The annotation's defaults: usernames of 3 to 30 characters, addresses up to 254. */
  const DEFAULT_BOUNDS := Bounds(3, 30, 254)

  predicate AsciiLetterOrDigit(c: char)
  {
    'A' <= c <= 'Z' || 'a' <= c <= 'z' || '0' <= c <= '9'
  }

  /** `[A-Za-z0-9+_.-]`, the local part of an address. */
  predicate LocalChar(c: char)
  {
    AsciiLetterOrDigit(c) || c == '+' || c == '_' || c == '.' || c == '-'
  }

  /** `[A-Za-z0-9.-]`, the domain of an address. */
  predicate DomainChar(c: char)
  {
    AsciiLetterOrDigit(c) || c == '.' || c == '-'
  }

  /** `[a-zA-Z0-9._-]`, a username character. */
  predicate UsernameChar(c: char)
  {
    AsciiLetterOrDigit(c) || c == '.' || c == '_' || c == '-'
  }

  /** The whole value matches `^[A-Za-z0-9+_.-]+@[A-Za-z0-9.-]+$`. */
  predicate IsEmailShape(s: string)
  {
    exists i :: 0 < i < |s| - 1 && s[i] == '@'
      && (forall j :: 0 <= j < i ==> LocalChar(s[j]))
      && (forall j :: i < j < |s| ==> DomainChar(s[j]))
  }

  /** The whole value matches `^[a-zA-Z0-9._-]+$`. */
  predicate IsUsernameShape(s: string)
  {
    |s| > 0 && forall i :: 0 <= i < |s| ==> UsernameChar(s[i])
  }

  /**
   * `isValid`: a null or blank value is NOT_BLANK; a value of neither shape is
   * USERNAME_OR_EMAIL_REGEX; a username-shaped value outside the username bounds is
   * USERNAME_SIZE; an address-shaped value over the address bound is EMAIL_SIZE.
   * At most one violation is emitted.
   */
  function Validate(value: Option<string>, b: Bounds): (r: Option<Violation>)
    ensures r == Some(NOT_BLANK) <==> value.None? || Trim(value.value) == []
    ensures r == Some(USERNAME_OR_EMAIL_REGEX) <==>
      value.Some? && Trim(value.value) != [] && !IsEmailShape(value.value) && !IsUsernameShape(value.value)
    ensures r == Some(USERNAME_SIZE) <==>
      value.Some? && Trim(value.value) != [] && IsUsernameShape(value.value)
      && (|value.value| < b.usernameMin || |value.value| > b.usernameMax)
    ensures r == Some(EMAIL_SIZE) <==>
      value.Some? && Trim(value.value) != [] && IsEmailShape(value.value) && |value.value| > b.emailMax
    ensures r.None? <==>
      value.Some? && Trim(value.value) != [] &&
      ((IsUsernameShape(value.value) && b.usernameMin <= |value.value| <= b.usernameMax)
       || (IsEmailShape(value.value) && |value.value| <= b.emailMax))
  {
    if value.None? || Trim(value.value) == [] then Some(NOT_BLANK)
    else
      var s := value.value;
      var isEmail := IsEmailShape(s);
      var isUsername := IsUsernameShape(s);
      ShapesDisjoint(s);
      if !isEmail && !isUsername then Some(USERNAME_OR_EMAIL_REGEX)
      else if isUsername && (|s| < b.usernameMin || |s| > b.usernameMax) then Some(USERNAME_SIZE)
      else if isEmail && |s| > b.emailMax then Some(EMAIL_SIZE)
      else None
  }

  /** An address has exactly one '@', with something on either side. */
  lemma EmailHasOneAt(s: string)
    requires IsEmailShape(s)
    ensures exists i :: 0 < i < |s| - 1 && s[i] == '@'
    ensures forall i, j :: 0 <= i < j < |s| && s[i] == '@' ==> s[j] != '@'
  {
    var k :| 0 < k < |s| - 1 && s[k] == '@'
      && (forall j :: 0 <= j < k ==> LocalChar(s[j]))
      && (forall j :: k < j < |s| ==> DomainChar(s[j]));
    assert !LocalChar('@') && !DomainChar('@');
    forall i | 0 <= i < |s| && s[i] == '@'
      ensures i == k
    {
    }
  }

  /** No value is both: a username never contains '@', an address always does. */
  lemma ShapesDisjoint(s: string)
    ensures !(IsEmailShape(s) && IsUsernameShape(s))
  {
    if IsEmailShape(s) {
      var k :| 0 < k < |s| - 1 && s[k] == '@';
      assert !UsernameChar(s[k]);
    }
  }

  /** A value of either shape is never blank: none of its characters is trimmed. */
  lemma ShapedValueNotBlank(s: string)
    requires IsUsernameShape(s) || IsEmailShape(s)
    ensures Trim(s) != []
  {
    TrimEmptyIff(s);
    if IsUsernameShape(s) {
      assert !IsTrimmable(s[0]);
    } else {
      var k :| 0 < k < |s| - 1 && s[k] == '@';
      assert !IsTrimmable(s[k]);
    }
  }

  /**
   * With the annotation's defaults a value is accepted exactly when it is a username of 3 to 30
   * characters or an address of at most 254.
   */
  lemma DefaultBoundsAccept(s: string)
    ensures Validate(Some(s), DEFAULT_BOUNDS).None? <==>
      (IsUsernameShape(s) && 3 <= |s| <= 30) || (IsEmailShape(s) && |s| <= 254)
  {
    if IsUsernameShape(s) || IsEmailShape(s) {
      ShapedValueNotBlank(s);
    }
  }

  // ---------------------------------------------------------------- @PasswordMatches

  /** `PasswordMatchesValidator.isValid`: both present and equal. */
  function PasswordsMatch(newPassword: Option<string>, confirmNewPassword: Option<string>): (r: bool)
    ensures newPassword.None? || confirmNewPassword.None? ==> !r
    ensures newPassword.Some? && confirmNewPassword.Some? ==> (r <==> newPassword.value == confirmNewPassword.value)
  {
    if newPassword.None? || confirmNewPassword.None? then false
    else newPassword.value == confirmNewPassword.value
  }

  /** Swapping the new password and its confirmation does not change the answer. */
  lemma PasswordsMatchSymmetric(a: Option<string>, b: Option<string>)
    ensures PasswordsMatch(a, b) == PasswordsMatch(b, a)
  {
  }
}
