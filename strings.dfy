/** The pieces of java.lang.String the core relies on, over `seq<char>`. */
module Strings {
  import opened Wrappers
  import opened Errors

  /** `String.trim` removes every character at or below U+0020 from both ends. */
  predicate IsTrimmable(c: char) { c <= ' ' }

  /** The suffix left after dropping the leading trimmable characters. */
  function TrimStart(s: string): (r: string)
    ensures |r| <= |s| && r == s[|s| - |r|..]
    ensures r != [] ==> !IsTrimmable(r[0])
    ensures forall i :: 0 <= i < |s| - |r| ==> IsTrimmable(s[i])
  {
    if s != [] && IsTrimmable(s[0]) then TrimStart(s[1..]) else s
  }

  /** The prefix left after dropping the trailing trimmable characters. */
  function TrimEnd(s: string): (r: string)
    ensures |r| <= |s| && r == s[..|r|]
    ensures r != [] ==> !IsTrimmable(r[|r| - 1])
    ensures forall i :: |r| <= i < |s| ==> IsTrimmable(s[i])
  {
    if s != [] && IsTrimmable(s[|s| - 1]) then TrimEnd(s[..|s| - 1]) else s
  }

  /** `s.trim()`. */
  function Trim(s: string): (r: string)
  {
    TrimEnd(TrimStart(s))
  }

  /** The result of trim has nothing trimmable at either end. */
  lemma TrimEnds(s: string)
    ensures Trim(s) != [] ==> !IsTrimmable(Trim(s)[0]) && !IsTrimmable(Trim(s)[|Trim(s)| - 1])
  {
    var a := TrimStart(s);
    var r := TrimEnd(a);
    if r != [] {
      assert r[0] == a[0];
    }
  }

  /** A string with nothing trimmable at either end is its own trim. */
  lemma TrimFixed(r: string)
    requires r != [] ==> !IsTrimmable(r[0]) && !IsTrimmable(r[|r| - 1])
    ensures Trim(r) == r
  {
  }

  /** A string made only of trimmable characters trims to nothing from the front. */
  lemma {:induction false} AllTrimmableStart(s: string)
    requires forall i :: 0 <= i < |s| ==> IsTrimmable(s[i])
    ensures TrimStart(s) == []
  {
    if s != [] {
      AllTrimmableStart(s[1..]);
    }
  }

  /** `s.trim().isEmpty()` holds exactly when every character of `s` is trimmable. */
  lemma TrimEmptyIff(s: string)
    ensures Trim(s) == [] <==> forall i :: 0 <= i < |s| ==> IsTrimmable(s[i])
  {
    if forall i :: 0 <= i < |s| ==> IsTrimmable(s[i]) {
      AllTrimmableStart(s);
    }
    var a := TrimStart(s);
    if Trim(s) == [] {
      assert a == [];
    }
  }

  /** Trimming twice is the same as trimming once. */
  lemma TrimIdempotent(s: string)
    ensures Trim(Trim(s)) == Trim(s)
  {
    TrimEnds(s);
    TrimFixed(Trim(s));
  }

  /** `s.startsWith(p)`. */
  predicate StartsWith(s: string, p: string)
  {
    |p| <= |s| && s[..|p|] == p
  }

  /** `t` occurs in `s` at position `i`. */
  predicate OccursAt(s: string, t: string, i: int)
  {
    0 <= i && i + |t| <= |s| && s[i..i + |t|] == t
  }

  /**
   * `s.replace(t, r)` for a non-empty literal target: every occurrence found scanning left to
   * right, not overlapping the previous one, is replaced.
   */
  function ReplaceAll(s: string, t: string, r: string): (res: string)
    requires |t| > 0
    decreases |s|
  {
    if |s| < |t| then s
    else if s[..|t|] == t then r + ReplaceAll(s[|t|..], t, r)
    else [s[0]] + ReplaceAll(s[1..], t, r)
  }

  /** A string with no occurrence of the target comes back unchanged. */
  lemma {:induction false} ReplaceAllAbsent(s: string, t: string, r: string)
    requires |t| > 0
    requires forall i :: !OccursAt(s, t, i)
    ensures ReplaceAll(s, t, r) == s
  {
    if |s| >= |t| {
      assert !OccursAt(s, t, 0);
      assert s[..|t|] != t;
      forall i ensures !OccursAt(s[1..], t, i) {
        if 0 <= i && i + |t| <= |s| - 1 {
          assert s[1..][i..i + |t|] == s[i + 1..i + 1 + |t|];
          assert !OccursAt(s, t, i + 1);
        }
      }
      ReplaceAllAbsent(s[1..], t, r);
    }
  }

  /**
   * For a placeholder that starts with `{`, text without `{` around a single placeholder is
   * kept and the placeholder becomes the replacement.
   */
  lemma {:induction false} ReplaceAllPlaceholder(p: string, t: string, q: string, r: string)
    requires |t| > 0 && t[0] == '{'
    requires '{' !in p && '{' !in q
    ensures ReplaceAll(p + t + q, t, r) == p + r + q
  {
    var s := p + t + q;
    if p == [] {
      assert s == t + q;
      assert s[..|t|] == t && s[|t|..] == q;
      calc {
        ReplaceAll(s, t, r);
        r + ReplaceAll(q, t, r);
        { NoBraceUnchanged(q, t, r); }
        r + q;
      }
    } else {
      assert s[0] == p[0] && p[0] != '{';
      assert s[..|t|][0] == s[0];
      assert s[1..] == p[1..] + t + q;
      calc {
        ReplaceAll(s, t, r);
        [s[0]] + ReplaceAll(s[1..], t, r);
        { ReplaceAllPlaceholder(p[1..], t, q, r); }
        [p[0]] + (p[1..] + r + q);
        p + r + q;
      }
    }
  }

  /** For a placeholder that starts with `{`, text without `{` is left unchanged. */
  lemma {:induction false} NoBraceUnchanged(s: string, t: string, r: string)
    requires |t| > 0 && t[0] == '{'
    requires '{' !in s
    ensures ReplaceAll(s, t, r) == s
  {
    if |s| >= |t| {
      assert s[0] != '{';
      assert s[..|t|] != t;
      NoBraceUnchanged(s[1..], t, r);
    }
  }

  /** Text without `{` in front of the rest passes through a `{`-placeholder replacement as it is. */
  lemma {:induction false} ReplaceAllBraceFreePrefix(p: string, s: string, t: string, r: string)
    requires |t| > 0 && t[0] == '{'
    requires '{' !in p
    ensures ReplaceAll(p + s, t, r) == p + ReplaceAll(s, t, r)
  {
    var w := p + s;
    if p == [] {
      assert w == s;
    } else if |w| < |t| {
      assert ReplaceAll(s, t, r) == s;
    } else {
      assert w[..|t|][0] == p[0];
      assert w[1..] == p[1..] + s;
      calc {
        ReplaceAll(w, t, r);
        [p[0]] + ReplaceAll(p[1..] + s, t, r);
        { ReplaceAllBraceFreePrefix(p[1..], s, t, r); }
        [p[0]] + (p[1..] + ReplaceAll(s, t, r));
        { assert p == [p[0]] + p[1..]; }
        p + ReplaceAll(s, t, r);
      }
    }
  }

  /** An occurrence of the target at the very start is replaced, and the scan resumes after it. */
  lemma ReplaceAllAtStart(t: string, s: string, r: string)
    requires |t| > 0
    ensures ReplaceAll(t + s, t, r) == r + ReplaceAll(s, t, r)
  {
    assert (t + s)[..|t|] == t;
    assert (t + s)[|t|..] == s;
  }

  /**
   * Another placeholder `u` at the start, differing from the target at position `d` and with
   * no further `{`, passes through the replacement as it is.
   */
  lemma ReplaceAllOtherAtStart(u: string, s: string, t: string, r: string, d: nat)
    requires |t| > 0 && t[0] == '{'
    requires d < |u| && d < |t| && u[d] != t[d]
    requires '{' !in u[1..]
    ensures ReplaceAll(u + s, t, r) == u + ReplaceAll(s, t, r)
  {
    var w := u + s;
    if |w| >= |t| {
      assert w[..|t|][d] == u[d];
      assert w[1..] == u[1..] + s;
      ReplaceAllBraceFreePrefix(u[1..], s, t, r);
      assert u == [u[0]] + u[1..];
    }
  }

  /** The decimal digit for 0..9. */
  function Digit(d: nat): (c: char)
    requires d < 10
    ensures '0' <= c <= '9'
  {
    ('0' as int + d) as char
  }

  /** `String.valueOf(n)` for a non-negative `int`: decimal, no sign, no padding. */
  function DecimalString(n: nat): (s: string)
    ensures |s| >= 1
    ensures forall i :: 0 <= i < |s| ==> '0' <= s[i] <= '9'
    ensures s[0] == '0' ==> n == 0
  {
    if n < 10 then [Digit(n)] else DecimalString(n / 10) + [Digit(n % 10)]
  }

  /** The number a string of decimal digits denotes. */
  function DigitsValue(s: string): nat
    requires forall i :: 0 <= i < |s| ==> '0' <= s[i] <= '9'
  {
    if s == [] then 0 else DigitsValue(s[..|s| - 1]) * 10 + (s[|s| - 1] as int - '0' as int)
  }

  /** Reading the decimal form back gives the number. */
  lemma {:induction false} DecimalRoundTrip(n: nat)
    ensures DigitsValue(DecimalString(n)) == n
  {
    if n >= 10 {
      var s := DecimalString(n);
      assert s[..|s| - 1] == DecimalString(n / 10);
      DecimalRoundTrip(n / 10);
    }
  }

  /** 10 to the power k. */
  function Pow10(k: nat): (p: nat)
    ensures p >= 1
  {
    if k == 0 then 1 else 10 * Pow10(k - 1)
  }

  /** A number below 10^k has at most k digits (k >= 1). */
  lemma {:induction false} DecimalLengthAtMost(n: nat, k: nat)
    requires k >= 1 && n < Pow10(k)
    ensures |DecimalString(n)| <= k
  {
    if n >= 10 {
      assert k >= 2;
      DecimalLengthAtMost(n / 10, k - 1);
    }
  }

  /** A number at or above 10^(k-1) has at least k digits. */
  lemma {:induction false} DecimalLengthAtLeast(n: nat, k: nat)
    requires k >= 1 && n >= Pow10(k - 1)
    ensures |DecimalString(n)| >= k
  {
    if k >= 2 {
      assert n >= 10;
      DecimalLengthAtLeast(n / 10, k - 1);
    }
  }

  /** Everything before the first occurrence of `c` (the whole string when there is none). */
  function PrefixBefore(s: string, c: char): (r: string)
    ensures |r| <= |s| && r == s[..|r|]
    ensures c !in r
    ensures |r| < |s| ==> s[|r|] == c
  {
    if s == [] || s[0] == c then [] else [s[0]] + PrefixBefore(s[1..], c)
  }

  /**
   * `s.split("@")[0]`. Java's split drops trailing empty pieces, so a non-empty string made only
   * of '@' splits into an empty array and index 0 is out of bounds.
   */
  function SplitFirstAt(s: string): (r: Result<string, Fault>)
    ensures r.Failure? <==> s != [] && forall i :: 0 <= i < |s| ==> s[i] == '@'
    ensures r.Failure? ==> r.error == IndexOutOfBounds
    ensures r.Success? ==> '@' !in r.value && StartsWith(s, r.value)
    ensures r.Success? && |r.value| < |s| ==> s[|r.value|] == '@'
  {
    if s != [] && forall i :: 0 <= i < |s| ==> s[i] == '@' then Failure(IndexOutOfBounds)
    else Success(PrefixBefore(s, '@'))
  }
}
