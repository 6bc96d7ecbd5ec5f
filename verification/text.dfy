/**
  The two string operations the web handlers rely on: `str.strip()` on the
  submitted name and `str(int)` inside the `f"{row},{col}"` cell key.
 */
module Text {

  /** Python's `str.isspace()`: the characters `strip()` removes. */
  predicate IsSpace(ch: char)
  {
    || ('\t' <= ch <= '\r')
    || ('\U{1c}' <= ch <= '\U{1f}')
    || ch == ' '
    || ch == '\U{85}'
    || ch == '\U{a0}'
    || ch == '\U{1680}'
    || ('\U{2000}' <= ch <= '\U{200a}')
    || ch == '\U{2028}'
    || ch == '\U{2029}'
    || ch == '\U{202f}'
    || ch == '\U{205f}'
    || ch == '\U{3000}'
  }

  predicate AllSpace(s: string)
  {
    forall i :: 0 <= i < |s| ==> IsSpace(s[i])
  }

  /** Neither end of `s` is whitespace. */
  predicate Trimmed(s: string)
  {
    s == [] || (!IsSpace(s[0]) && !IsSpace(s[|s| - 1]))
  }

  /**
    `r` is what is left of `s` once the whitespace around it is removed:
    `s` is some whitespace, then `r`, then some whitespace, and `r` itself
    starts and ends with a non-space character.
   */
  ghost predicate IsStripOf(r: string, s: string)
  {
    exists i, j :: 0 <= i <= j <= |s| && r == s[i..j] && AllSpace(s[..i]) && AllSpace(s[j..]) && Trimmed(r)
  }

  function StripLeading(s: string): (r: string)
    ensures |r| <= |s| && r == s[|s| - |r|..]
    ensures AllSpace(s[..|s| - |r|])
    ensures r == [] || !IsSpace(r[0])
  {
    if s != [] && IsSpace(s[0]) then
      var r := StripLeading(s[1..]);
      assert s[1..][..|s| - 1 - |r|] == s[1..|s| - |r|];
      r
    else s
  }

  function StripTrailing(s: string): (r: string)
    ensures |r| <= |s| && r == s[..|r|]
    ensures AllSpace(s[|r|..])
    ensures r == [] || !IsSpace(r[|r| - 1])
  {
    if s != [] && IsSpace(s[|s| - 1]) then
      var r := StripTrailing(s[..|s| - 1]);
      assert s[..|s| - 1][|r|..] + [s[|s| - 1]] == s[|r|..];
      r
    else s
  }

  /** Python's `s.strip()`. */
  function Strip(s: string): (r: string)
    ensures IsStripOf(r, s)
  {
    var l := StripLeading(s);
    var r := StripTrailing(l);
    StripOfParts(s, l, r);
    r
  }

  /** Leading whitespace cut from `s` leaves `l`, trailing whitespace cut from `l` leaves `r`. */
  lemma StripOfParts(s: string, l: string, r: string)
    requires |l| <= |s| && l == s[|s| - |l|..] && AllSpace(s[..|s| - |l|]) && (l == [] || !IsSpace(l[0]))
    requires |r| <= |l| && r == l[..|r|] && AllSpace(l[|r|..]) && (r == [] || !IsSpace(r[|r| - 1]))
    ensures IsStripOf(r, s)
  {
    var i := |s| - |l|;
    var j := i + |r|;
    assert s[i..j] == r;
    assert s[j..] == l[|r|..];
    assert Trimmed(r) by {
      if r != [] { assert r[0] == l[0]; }
    }
  }

  /** Where a non-space character of `s` sits relative to the bounds of a strip. */
  lemma NonSpaceInside(s: string, i: nat, j: nat, k: nat)
    requires i <= j <= |s| && AllSpace(s[..i]) && AllSpace(s[j..])
    requires k < |s| && !IsSpace(s[k])
    ensures i <= k < j
  {
    if k < i { assert false; }
    if j <= k { assert false; }
  }

  /** `s[i..j]` is a strip of `s`: only whitespace around it, none at its ends. */
  predicate StripBounds(s: string, i: nat, j: nat)
  {
    i <= j <= |s| && AllSpace(s[..i]) && AllSpace(s[j..]) && Trimmed(s[i..j])
  }

  lemma StripBoundsUnique(s: string, i1: nat, j1: nat, i2: nat, j2: nat)
    requires StripBounds(s, i1, j1) && StripBounds(s, i2, j2)
    ensures s[i1..j1] == s[i2..j2]
  {
    if i1 < j1 {
      // The first and last characters of `s[i1..j1]` are non-space, so they lie inside `s[i2..j2]`.
      assert s[i1..j1][0] == s[i1] && s[i1..j1][j1 - i1 - 1] == s[j1 - 1];
      NonSpaceInside(s, i2, j2, i1);
      NonSpaceInside(s, i2, j2, j1 - 1);
    }
    if i2 < j2 {
      assert s[i2..j2][0] == s[i2] && s[i2..j2][j2 - i2 - 1] == s[j2 - 1];
      NonSpaceInside(s, i1, j1, i2);
      NonSpaceInside(s, i1, j1, j2 - 1);
    }
  }

  /** At most one string is the stripped form of `s`. */
  lemma StripUnique(s: string, r1: string, r2: string)
    requires IsStripOf(r1, s) && IsStripOf(r2, s)
    ensures r1 == r2
  {
    var i1, j1 :| 0 <= i1 <= j1 <= |s| && r1 == s[i1..j1] && AllSpace(s[..i1]) && AllSpace(s[j1..]) && Trimmed(r1);
    var i2, j2 :| 0 <= i2 <= j2 <= |s| && r2 == s[i2..j2] && AllSpace(s[..i2]) && AllSpace(s[j2..]) && Trimmed(r2);
    assert StripBounds(s, i1, j1) && StripBounds(s, i2, j2);
    StripBoundsUnique(s, i1, j1, i2, j2);
  }

  /** Stripping twice is the same as stripping once. */
  lemma StripIdempotent(s: string)
    ensures Strip(Strip(s)) == Strip(s)
  {
    var r := Strip(s);
    StripTrimmed(s);
    TrimmedIsOwnStrip(r);
    StripUnique(r, Strip(r), r);
  }

  /** A string with no whitespace at either end is its own strip. */
  lemma TrimmedIsOwnStrip(r: string)
    requires Trimmed(r)
    ensures IsStripOf(r, r)
  {
    assert r[..0] == [] && r[|r|..] == [] && r[0..|r|] == r;
  }

  /** Neither end of a stripped string is whitespace. */
  lemma StripTrimmed(s: string)
    ensures Trimmed(Strip(s))
  {
    var r := Strip(s);
    var i, j :| 0 <= i <= j <= |s| && r == s[i..j] && AllSpace(s[..i]) && AllSpace(s[j..]) && Trimmed(r);
  }

  /** Stripping removes exactly the whitespace padded around a trimmed string. */
  lemma StripPadded(before: string, r: string, after: string)
    requires AllSpace(before) && AllSpace(after) && Trimmed(r)
    ensures Strip(before + r + after) == r
  {
    var s := before + r + after;
    var i, j := |before|, |before| + |r|;
    assert s[..i] == before && s[i..j] == r && s[j..] == after;
    assert IsStripOf(r, s);
    StripUnique(s, Strip(s), r);
  }

  function DigitChar(d: nat): (ch: char)
    requires d < 10
    ensures '0' <= ch <= '9'
  {
    ('0' as int + d) as char
  }

  /** Python's `str(n)` for a non-negative integer: decimal, no leading zeros. */
  function NatToString(n: nat): (s: string)
    ensures |s| >= 1
    ensures forall i :: 0 <= i < |s| ==> '0' <= s[i] <= '9'
    ensures |s| == 1 <==> n < 10
  {
    if n < 10 then [DigitChar(n)] else NatToString(n / 10) + [DigitChar(n % 10)]
  }

  /** Reads a string of decimal digits back as a number. */
  function ParseDigits(s: string): nat
    requires forall i :: 0 <= i < |s| ==> '0' <= s[i] <= '9'
  {
    if s == [] then 0
    else ParseDigits(s[..|s| - 1]) * 10 + (s[|s| - 1] as int - '0' as int)
  }

  /** Reading the decimal form of `n` gives `n` back. */
  lemma {:induction false} NatToStringRoundTrip(n: nat)
    ensures ParseDigits(NatToString(n)) == n
  {
    if n >= 10 {
      NatToStringRoundTrip(n / 10);
      var s := NatToString(n);
      assert s[..|s| - 1] == NatToString(n / 10);
    }
  }

  /** Python's `str(n)` for any integer. */
  function IntToString(n: int): (s: string)
    ensures ',' !in s
    ensures |s| == 1 <==> 0 <= n < 10
    ensures 0 <= n < 10 ==> s == [DigitChar(n)]
  {
    if n < 0 then "-" + NatToString(-n) else NatToString(n)
  }

  /** Different natural numbers are printed differently. */
  lemma NatToStringInjective(a: nat, b: nat)
    requires NatToString(a) == NatToString(b)
    ensures a == b
  {
    NatToStringRoundTrip(a);
    NatToStringRoundTrip(b);
  }

  /** Only the printed form of a negative integer starts with '-'. */
  lemma IntToStringSign(n: int)
    ensures IntToString(n)[0] == '-' <==> n < 0
  {
    if n >= 0 {
      assert '0' <= NatToString(n)[0];
    }
  }

  /** Different integers are printed differently. */
  lemma IntToStringInjective(a: int, b: int)
    requires IntToString(a) == IntToString(b)
    ensures a == b
  {
    IntToStringSign(a);
    IntToStringSign(b);
    if a < 0 {
      assert NatToString(-a) == IntToString(a)[1..];
      assert NatToString(-b) == IntToString(b)[1..];
      NatToStringInjective(-a, -b);
    } else {
      NatToStringInjective(a, b);
    }
  }

  /** Position of the first comma in `s`, or `|s|` when there is none. */
  function CommaIndex(s: string): (i: nat)
    ensures i <= |s|
  {
    if s == [] || s[0] == ',' then 0 else 1 + CommaIndex(s[1..])
  }

  lemma {:induction false} CommaIndexOfJoin(a: string, b: string)
    requires ',' !in a
    ensures CommaIndex(a + "," + b) == |a|
  {
    if a != [] {
      assert (a + "," + b)[1..] == a[1..] + "," + b;
      CommaIndexOfJoin(a[1..], b);
    }
  }

  /** Strings joined around a comma that occurs in neither can be split back apart. */
  lemma CommaJoinInjective(a: string, b: string, a': string, b': string)
    requires ',' !in a && ',' !in a'
    requires a + "," + b == a' + "," + b'
    ensures a == a' && b == b'
  {
    var s, s' := a + "," + b, a' + "," + b';
    CommaIndexOfJoin(a, b);
    CommaIndexOfJoin(a', b');
    assert a == s[..|a|] && a' == s'[..|a'|];
    assert b == s[|a| + 1..] && b' == s'[|a'| + 1..];
  }
}
