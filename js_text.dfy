/**
 * The JavaScript string operations the login page relies on:
 * `String.prototype.trim`, the anchored character-class test
 * `/^[a-zA-Z0-9]+$/.test` and `String.prototype.includes`.
 */
module JsText {

  /** The WhiteSpace and LineTerminator code points that `trim` strips (ECMAScript). */
  predicate IsTrimmable(c: char)
  {
    || c == '\t' || c == '\n' || c == '\U{000B}' || c == '\U{000C}' || c == '\r'
    || c == ' ' || c == '\U{00A0}' || c == '\U{1680}'
    || ('\U{2000}' <= c <= '\U{200A}')
    || c == '\U{2028}' || c == '\U{2029}' || c == '\U{202F}' || c == '\U{205F}'
    || c == '\U{3000}' || c == '\U{FEFF}'
  }

  predicate AllTrimmable(s: string)
  {
    forall i :: 0 <= i < |s| ==> IsTrimmable(s[i])
  }

  /** Neither end of `s` is a character `trim` would strip. */
  predicate IsTrimmed(s: string)
  {
    s == [] || (!IsTrimmable(s[0]) && !IsTrimmable(s[|s| - 1]))
  }

  /** `s` with its leading trimmable characters removed. */
  function TrimStart(s: string): string
  {
    if s != [] && IsTrimmable(s[0]) then TrimStart(s[1..]) else s
  }

  /** `TrimStart` keeps a suffix of `s`, removes only trimmable characters and stops at the first other one. */
  lemma {:induction false} TrimStartShape(s: string)
    ensures |TrimStart(s)| <= |s| && TrimStart(s) == s[|s| - |TrimStart(s)|..]
    ensures AllTrimmable(s[..|s| - |TrimStart(s)|])
    ensures TrimStart(s) != [] ==> !IsTrimmable(TrimStart(s)[0])
  {
    if s != [] && IsTrimmable(s[0]) {
      TrimStartShape(s[1..]);
      var k := |s| - |TrimStart(s)|;
      assert s[1..][..k - 1] == s[1..k];
      assert s[..k] == [s[0]] + s[1..k];
    }
  }

  /** `s` with its trailing trimmable characters removed. */
  function TrimEnd(s: string): string
  {
    if s != [] && IsTrimmable(s[|s| - 1]) then TrimEnd(s[..|s| - 1]) else s
  }

  /** `TrimEnd` keeps a prefix of `s`, removes only trimmable characters and stops at the last other one. */
  lemma {:induction false} TrimEndShape(s: string)
    ensures |TrimEnd(s)| <= |s| && TrimEnd(s) == s[..|TrimEnd(s)|]
    ensures AllTrimmable(s[|TrimEnd(s)|..])
    ensures TrimEnd(s) != [] ==> !IsTrimmable(TrimEnd(s)[|TrimEnd(s)| - 1])
  {
    if s != [] && IsTrimmable(s[|s| - 1]) {
      TrimEndShape(s[..|s| - 1]);
      var n := |TrimEnd(s)|;
      assert s[..|s| - 1][n..] == s[n..|s| - 1];
      assert s[n..] == s[n..|s| - 1] + [s[|s| - 1]];
    }
  }

  /** `r` is what remains of `s` once a trimmable prefix of length `lead` and a trimmable suffix are cut off. */
  predicate Surrounds(s: string, r: string, lead: nat)
  {
    && lead + |r| <= |s|
    && s[lead..lead + |r|] == r
    && AllTrimmable(s[..lead])
    && AllTrimmable(s[lead + |r|..])
  }

  /** `s.trim()`: the middle of `s` left after cutting trimmable characters from both ends. */
  function Trim(s: string): string
  {
    TrimEnd(TrimStart(s))
  }

  /** `trim` leaves a string with no trimmable character at either end, cut from `s` between a trimmable prefix and suffix. */
  lemma TrimShape(s: string)
    ensures IsTrimmed(Trim(s))
    ensures exists lead :: Surrounds(s, Trim(s), lead)
  {
    var t := TrimStart(s);
    var r := TrimEnd(t);
    TrimStartShape(s);
    TrimEndShape(t);
    assert Surrounds(s, r, |s| - |t|) by {
      assert s[|s| - |t|..][..|r|] == r;
      assert s[|s| - |t| + |r|..] == t[|r|..];
    }
  }

  /** Whatever trimmable characters surround a trimmed string, `trim` gives that string back. */
  lemma {:induction false} TrimDropsSurroundings(a: string, u: string, b: string)
    requires AllTrimmable(a) && AllTrimmable(b) && IsTrimmed(u)
    ensures Trim(a + u + b) == u
  {
    if u == [] {
      TrimOfTrimmable(a + u + b);
    } else {
      assert a + u + b == a + (u + b);
      TrimStartDropsPrefix(a, u + b);
      TrimEndDropsSuffix(u, b);
    }
  }

  lemma {:induction false} TrimOfTrimmable(s: string)
    requires AllTrimmable(s)
    ensures Trim(s) == []
    decreases |s|
  {
    if s != [] {
      TrimOfTrimmable(s[1..]);
    }
  }

  lemma {:induction false} TrimStartDropsPrefix(a: string, v: string)
    requires AllTrimmable(a)
    requires v == [] || !IsTrimmable(v[0])
    ensures TrimStart(a + v) == TrimStart(v)
    decreases |a|
  {
    if a != [] {
      assert (a + v)[1..] == a[1..] + v;
      TrimStartDropsPrefix(a[1..], v);
    }
  }

  lemma {:induction false} TrimEndDropsSuffix(u: string, b: string)
    requires AllTrimmable(b) && IsTrimmed(u)
    ensures TrimEnd(u + b) == u
    decreases |b|
  {
    if b == [] {
      assert u + b == u;
      if u != [] {
        assert !IsTrimmable(u[|u| - 1]);
      }
    } else {
      assert (u + b)[..|u + b| - 1] == u + b[..|b| - 1];
      TrimEndDropsSuffix(u, b[..|b| - 1]);
    }
  }

  /** The character class `[a-zA-Z0-9]`. */
  predicate IsAsciiAlphanumeric(c: char)
  {
    'a' <= c <= 'z' || 'A' <= c <= 'Z' || '0' <= c <= '9'
  }

  /** `/^[a-zA-Z0-9]+$/.test(s)`: one character of the class, then the rest of `s` matching again, up to the end. */
  function MatchesAlphanumeric(s: string): bool
  {
    && |s| > 0
    && IsAsciiAlphanumeric(s[0])
    && (|s| == 1 || MatchesAlphanumeric(s[1..]))
  }

  /** The pattern accepts exactly the non-empty strings made only of ASCII letters and digits. */
  lemma {:induction false} MatchesAlphanumericExactly(s: string)
    ensures MatchesAlphanumeric(s) <==> |s| > 0 && forall i :: 0 <= i < |s| ==> IsAsciiAlphanumeric(s[i])
  {
    if |s| > 1 {
      MatchesAlphanumericExactly(s[1..]);
      assert forall i :: 1 <= i < |s| ==> s[i] == s[1..][i - 1];
    }
  }

  /** A string the pattern accepts has nothing `trim` would strip at its ends. */
  lemma AlphanumericIsTrimmed(s: string)
    requires MatchesAlphanumeric(s)
    ensures IsTrimmed(s)
  {
    MatchesAlphanumericExactly(s);
    assert IsAsciiAlphanumeric(s[0]) && IsAsciiAlphanumeric(s[|s| - 1]);
  }

  /** `t` occurs in `s` starting at index `i`. */
  predicate OccursAt(s: string, t: string, i: nat)
  {
    i + |t| <= |s| && s[i..i + |t|] == t
  }

  /** `s.includes(t)`. */
  function Includes(s: string, t: string): (r: bool)
    ensures r <==> exists i: nat :: OccursAt(s, t, i)
    decreases |s|
  {
    if |t| <= |s| && s[..|t|] == t then
      assert OccursAt(s, t, 0);
      true
    else if s == [] then
      false
    else
      var r := Includes(s[1..], t);
      assert r ==> exists i: nat :: OccursAt(s, t, i) by {
        if r {
          var i: nat :| OccursAt(s[1..], t, i);
          assert s[1..][i..i + |t|] == s[i + 1..i + 1 + |t|];
          assert OccursAt(s, t, i + 1);
        }
      }
      assert (exists i: nat :: OccursAt(s, t, i)) ==> r by {
        if exists i: nat :: OccursAt(s, t, i) {
          var i: nat :| OccursAt(s, t, i);
          assert i != 0;
          assert s[1..][i - 1..i - 1 + |t|] == s[i..i + |t|];
          assert OccursAt(s[1..], t, i - 1);
        }
      }
      r
  }

  /** A string placed between two others occurs right after the first. */
  lemma OccursBetween(a: string, t: string, b: string)
    ensures OccursAt(a + t + b, t, |a|)
  {
    assert (a + t + b)[|a|..|a| + |t|] == t;
  }

  /**
   * When the second character of `t` appears in `s` only once, at `k`, and not
   * after the first character of `t`, then `s` does not include `t`.
   */
  lemma NoOccurrenceWithLoneSecond(s: string, t: string, k: nat)
    requires |t| >= 2
    requires k < |s| && s[k] == t[1] && (k == 0 || s[k - 1] != t[0])
    requires t[1] !in s[..k] && t[1] !in s[k + 1..]
    ensures !Includes(s, t)
  {
    forall i: nat
      ensures !OccursAt(s, t, i)
    {
      if i + |t| <= |s| {
        if i + 1 < k {
          assert s[..k][i + 1] != t[1];
          assert s[i..i + |t|][1] != t[1];
        } else if i + 1 > k {
          assert s[k + 1..][i - k] != t[1];
          assert s[i..i + |t|][1] != t[1];
        } else {
          assert s[i..i + |t|][0] != t[0];
        }
      }
    }
  }
}
