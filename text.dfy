/**
 * String helpers shared by the JavaScript, TypeScript and Python modules: the two languages'
 * notions of white space and trimming, ASCII case mapping, substring search, decimal
 * formatting and left padding. Strings are sequences of Unicode scalar values.
 */
module Text {

  /** White space as JavaScript's `String.prototype.trim` removes it (WhiteSpace and LineTerminator). */
  predicate JsSpace(c: char) {
    ('\t' <= c <= '\r') || c == ' ' || c == '\U{00A0}' || c == '\U{1680}' || ('\U{2000}' <= c <= '\U{200A}')
    || c == '\U{2028}' || c == '\U{2029}' || c == '\U{202F}' || c == '\U{205F}' || c == '\U{3000}' || c == '\U{FEFF}'
  }

  /** White space as Python's `str.isspace`, `str.strip()` and `str.split()` see it. */
  predicate PySpace(c: char) {
    ('\t' <= c <= '\r') || ('\U{001C}' <= c <= ' ') || c == '\U{0085}' || c == '\U{00A0}' || c == '\U{1680}'
    || ('\U{2000}' <= c <= '\U{200A}') || c == '\U{2028}' || c == '\U{2029}' || c == '\U{202F}' || c == '\U{205F}'
    || c == '\U{3000}'
  }

  /** Every character of s[lo..hi] is white space by `space`. */
  ghost predicate Spaces(s: string, lo: nat, hi: nat, space: char -> bool)
    requires lo <= hi <= |s|
  {
    forall k :: lo <= k < hi ==> space(s[k])
  }

  /** The number of leading white-space characters. */
  function Lead(s: string, space: char -> bool): (n: nat)
    ensures n <= |s| && Spaces(s, 0, n, space) && (n < |s| ==> !space(s[n]))
  {
    if |s| > 0 && space(s[0]) then
      var n := 1 + Lead(s[1..], space);
      assert forall k :: 1 <= k < n ==> s[k] == s[1..][k - 1];
      n
    else 0
  }

  /** The length of s without its trailing white space. */
  function Body(s: string, space: char -> bool): (n: nat)
    ensures n <= |s| && Spaces(s, n, |s|, space) && (n > 0 ==> !space(s[n - 1]))
  {
    if |s| > 0 && space(s[|s| - 1]) then
      var n := Body(s[..|s| - 1], space);
      assert forall k :: n <= k < |s| - 1 ==> s[k] == s[..|s| - 1][k];
      n
    else |s|
  }

  /**
   * `trim()` / `strip()`: keeps one contiguous piece of s, drops only white space on either
   * side, and leaves no white space at either end.
   */
  function Trim(s: string, space: char -> bool): (r: string)
    ensures exists i, j :: 0 <= i <= j <= |s| && r == s[i..j] && Spaces(s, 0, i, space) && Spaces(s, j, |s|, space)
    ensures |r| > 0 ==> !space(r[0]) && !space(r[|r| - 1])
  {
    var i := Lead(s, space);
    var n := Body(s[i..], space);
    assert Spaces(s, i + n, |s|, space) by {
      assert forall k :: i + n <= k < |s| ==> s[k] == s[i..][k - i];
    }
    assert n > 0 ==> s[i..][n - 1] == s[i + n - 1];
    s[i..i + n]
  }

  /** A string trims to nothing exactly when it is all white space. */
  lemma TrimEmpty(s: string, space: char -> bool)
    ensures Trim(s, space) == [] <==> Spaces(s, 0, |s|, space)
  {
    var i := Lead(s, space);
    if i < |s| {
      assert s[i..][0] == s[i];
    }
  }

  /** Trimming twice is trimming once. */
  lemma TrimIdempotent(s: string, space: char -> bool)
    ensures Trim(Trim(s, space), space) == Trim(s, space)
  {
    var r := Trim(s, space);
    assert Lead(r, space) == 0;
    assert r[0..] == r;
    assert Body(r, space) == |r|;
  }

  /** A string with no white space at either end trims to itself. */
  lemma TrimPlain(s: string, space: char -> bool)
    requires |s| > 0 ==> !space(s[0]) && !space(s[|s| - 1])
    ensures Trim(s, space) == s
  {
    assert s[0..] == s;
  }

  function LowerChar(c: char): char {
    if 'A' <= c <= 'Z' then (c as int + 32) as char else c
  }

  function UpperChar(c: char): char {
    if 'a' <= c <= 'z' then (c as int - 32) as char else c
  }

  /** `toLowerCase()` / `lower()` on the ASCII letters; every other character is kept. */
  function Lower(s: string): (r: string)
    ensures |r| == |s| && forall k :: 0 <= k < |s| ==> r[k] == LowerChar(s[k])
  {
    if |s| == 0 then [] else [LowerChar(s[0])] + Lower(s[1..])
  }

  /** Lower-casing turns no character into white space and no white space into anything else. */
  lemma LowerKeepsSpace(c: char)
    ensures PySpace(LowerChar(c)) <==> PySpace(c)
  {
  }

  /** Lower-casing is idempotent, and leaves no ASCII capital behind. */
  lemma LowerIdempotent(s: string)
    ensures Lower(Lower(s)) == Lower(s)
    ensures forall k :: 0 <= k < |s| ==> !('A' <= Lower(s)[k] <= 'Z')
  {
  }

  /** sub occurs in s at position i. */
  predicate At(s: string, sub: string, i: nat) {
    i + |sub| <= |s| && s[i..i + |sub|] == sub
  }

  /** `s.includes(sub)` / `sub in s`. */
  function Contains(s: string, sub: string): (b: bool)
    ensures b <==> exists i: nat :: At(s, sub, i)
  {
    if |sub| > |s| then false
    else if s[..|sub|] == sub then assert At(s, sub, 0); true
    else
      var b := Contains(s[1..], sub);
      ContainsShift(s, sub);
      b
  }

  lemma ContainsShift(s: string, sub: string)
    requires 1 <= |s| && !At(s, sub, 0)
    ensures (exists i: nat :: At(s[1..], sub, i)) <==> (exists i: nat :: At(s, sub, i))
  {
    if i: nat :| At(s[1..], sub, i) {
      assert s[i + 1..i + 1 + |sub|] == s[1..][i..i + |sub|];
      assert At(s, sub, i + 1);
    }
    if i: nat :| At(s, sub, i) {
      assert s[1..][i - 1..i - 1 + |sub|] == s[i..i + |sub|];
      assert At(s[1..], sub, i - 1);
    }
  }

  /** A string that contains a longer one contains every piece of it. */
  lemma ContainsPiece(s: string, sub: string, a: nat, b: nat)
    requires a <= b <= |sub| && Contains(s, sub)
    ensures Contains(s, sub[a..b])
  {
    var i: nat :| At(s, sub, i);
    assert s[i..i + |sub|] == sub;
    assert forall k :: 0 <= k < b - a ==> s[i + a..i + b][k] == sub[a..b][k];
    assert At(s, sub[a..b], i + a);
  }

  function DigitChar(d: nat): (c: char)
    requires d < 10
    ensures c as int == '0' as int + d
  {
    ('0' as int + d) as char
  }

  predicate IsDigit(c: char) {
    '0' as int <= c as int <= '9' as int
  }

  /** Every character a decimal digit. */
  predicate AllDigits(s: string) {
    forall k :: 0 <= k < |s| ==> IsDigit(s[k])
  }

  /** `String(n)` / `str(n)` for a natural number: its decimal digits, most significant first. */
  function NatToString(n: nat): (r: string)
    ensures |r| >= 1 && forall k :: 0 <= k < |r| ==> IsDigit(r[k])
    ensures |r| > 1 ==> r[0] != '0'
    decreases n
  {
    if n < 10 then [DigitChar(n)]
    else
      var r := NatToString(n / 10) + [DigitChar(n % 10)];
      assert r[0] == NatToString(n / 10)[0];
      r
  }

  /** The value of one decimal digit. */
  function DigitValue(c: char): (d: nat)
    requires IsDigit(c)
    ensures d < 10 && DigitChar(d) == c
  {
    var d := c as int - '0' as int;
    assert 0 <= d;
    d
  }

  /** The value of a string of decimal digits. */
  function DigitsValue(s: string): nat
    requires forall k :: 0 <= k < |s| ==> IsDigit(s[k])
  {
    if |s| == 0 then 0 else 10 * DigitsValue(s[..|s| - 1]) + DigitValue(s[|s| - 1])
  }

  /** The decimal rendering reads back as the number. */
  lemma {:induction false} NatToStringValue(n: nat)
    ensures DigitsValue(NatToString(n)) == n
    decreases n
  {
    var r := NatToString(n);
    if n >= 10 {
      NatToStringValue(n / 10);
      assert r[..|r| - 1] == NatToString(n / 10);
    }
  }

  /** Different numbers render differently. */
  lemma NatToStringInjective(m: nat, n: nat)
    requires NatToString(m) == NatToString(n)
    ensures m == n
  {
    NatToStringValue(m);
    NatToStringValue(n);
  }

  /** `s.padStart(width, c)`: c repeated in front up to the width, never truncating. */
  function PadStart(s: string, width: nat, c: char): (r: string)
    ensures |r| == if |s| >= width then |s| else width
    ensures r[|r| - |s|..] == s
    ensures forall k :: 0 <= k < |r| - |s| ==> r[k] == c
  {
    if |s| >= width then s else seq(width - |s|, _ => c) + s
  }

  /** The characters of s that satisfy p, in order (`filter` on a string). */
  function Keep(s: string, p: char -> bool): (r: string)
    ensures |r| <= |s|
    ensures forall k :: 0 <= k < |r| ==> p(r[k])
  {
    if s == [] then [] else (if p(s[0]) then [s[0]] else []) + Keep(s[1..], p)
  }

  lemma {:induction false} KeepAppend(a: string, b: string, p: char -> bool)
    ensures Keep(a + b, p) == Keep(a, p) + Keep(b, p)
  {
    if a == [] {
      assert a + b == b;
    } else {
      assert (a + b)[0] == a[0] && (a + b)[1..] == a[1..] + b;
      KeepAppend(a[1..], b, p);
    }
  }

  /** Keeping every character of s leaves s. */
  lemma {:induction false} KeepAll(s: string, p: char -> bool)
    requires forall k :: 0 <= k < |s| ==> p(s[k])
    ensures Keep(s, p) == s
  {
    if s != [] {
      KeepAll(s[1..], p);
    }
  }
}
