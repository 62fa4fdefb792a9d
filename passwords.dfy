/**
 * The password encoder, as the core uses it. BCrypt itself is not modelled: `Encode` is a
 * deterministic, injective stand-in that produces text of BCrypt's shape (a `$2a$` version
 * prefix followed by characters that contain no line terminator). Salting and the cost
 * factor are left out.
 */
module Passwords {

  /** The characters Java's regex `.` does not match. */
  predicate IsLineTerminator(c: char)
  {
    c == '\n' || c == '\r' || c == '\U{85}' || c == '\U{2028}' || c == '\U{2029}'
  }

  /**
   * `password.matches("^\\$2[aby]\\$.*")`: the text `saveUser` takes for an already encoded
   * password. `matches` must consume the whole string, and `.*` stops at a line terminator.
   */
  predicate IsBcryptHash(p: string)
  {
    && |p| >= 4
    && p[0] == '$' && p[1] == '2' && (p[2] == 'a' || p[2] == 'b' || p[2] == 'y') && p[3] == '$'
    && forall i :: 4 <= i < |p| ==> !IsLineTerminator(p[i])
  }

  /** Two characters standing for one input character, never a line terminator. */
  function ArmorChar(c: char): (r: string)
    ensures |r| == 2 && !IsLineTerminator(r[0]) && !IsLineTerminator(r[1])
  {
    if c == '\n' then "!n"
    else if c == '\r' then "!r"
    else if c == '\U{85}' then "!x"
    else if c == '\U{2028}' then "!l"
    else if c == '\U{2029}' then "!p"
    else ['.', c]
  }

  /** The body of an encoded password: each character armoured in turn. */
  function Armor(p: string): (r: string)
    ensures |r| == 2 * |p|
  {
    if p == [] then [] else ArmorChar(p[0]) + Armor(p[1..])
  }

  /** `passwordEncoder.encode(raw)`. */
  function Encode(raw: string): string
  {
    "$2a$10$" + Armor(raw)
  }

  /** `passwordEncoder.matches(raw, encoded)`; a missing (null) encoded password never matches. */
  predicate Matches(raw: string, encoded: string)
  {
    encoded == Encode(raw)
  }

  /** The password `saveUser` stores: encoded unless it already looks like a BCrypt hash. */
  function StoredPassword(p: string): (r: string)
    ensures IsBcryptHash(p) ==> r == p
  {
    if IsBcryptHash(p) then p else Encode(p)
  }

  /** Armoured text never contains a line terminator. */
  lemma {:induction false} ArmorHasNoLineTerminator(p: string)
    ensures forall i :: 0 <= i < |Armor(p)| ==> !IsLineTerminator(Armor(p)[i])
  {
    if p != [] {
      ArmorHasNoLineTerminator(p[1..]);
      var h := ArmorChar(p[0]);
      forall i | 0 <= i < |Armor(p)| ensures !IsLineTerminator(Armor(p)[i]) {
        if i >= 2 {
          assert Armor(p)[i] == Armor(p[1..])[i - 2];
        }
      }
    }
  }

  /** Every encoded password has BCrypt's shape. */
  lemma EncodeIsBcryptHash(raw: string)
    ensures IsBcryptHash(Encode(raw))
  {
    ArmorHasNoLineTerminator(raw);
    var e := Encode(raw);
    forall i | 4 <= i < |e| ensures !IsLineTerminator(e[i]) {
      if i >= 7 {
        assert e[i] == Armor(raw)[i - 7];
      }
    }
  }

  /** Armouring loses nothing: different passwords armour differently. */
  lemma {:induction false} ArmorInjective(p: string, q: string)
    requires Armor(p) == Armor(q)
    ensures p == q
  {
    if p != [] {
      assert |q| == |p|;
      var a, b := Armor(p), Armor(q);
      assert a[..2] == ArmorChar(p[0]) && b[..2] == ArmorChar(q[0]);
      assert a[2..] == Armor(p[1..]) && b[2..] == Armor(q[1..]);
      assert p[0] == q[0];
      ArmorInjective(p[1..], q[1..]);
      assert p == [p[0]] + p[1..];
      assert q == [q[0]] + q[1..];
    }
  }

  /** A password matches the encoding of exactly itself. */
  lemma MatchesEncodeIff(raw: string, p: string)
    ensures Matches(raw, Encode(p)) <==> raw == p
  {
    if Matches(raw, Encode(p)) {
      assert Armor(raw) == Encode(p)[7..];
      ArmorInjective(raw, p);
    }
  }

  /** Saving a second time never re-encodes: the stored password is a fixed point. */
  lemma StoredPasswordIdempotent(p: string)
    ensures IsBcryptHash(StoredPassword(p))
    ensures StoredPassword(StoredPassword(p)) == StoredPassword(p)
  {
    if !IsBcryptHash(p) {
      EncodeIsBcryptHash(p);
    }
  }

  /**
   * A password an administrator may pick that already has BCrypt's prefix: `saveUser` takes
   * it for a hash, yet no password encodes to it.
   */
  lemma LookalikePassword(attempt: string)
    ensures IsBcryptHash("$2a$Secret1!")
    ensures !Matches(attempt, "$2a$Secret1!")
  {
    var p := "$2a$Secret1!";
    assert p[4] == 'S' && p[5] == 'e' && p[6] == 'c' && p[7] == 'r';
    assert p[8] == 'e' && p[9] == 't' && p[10] == '1' && p[11] == '!';
    assert Encode(attempt)[4] == '1';
  }
}
