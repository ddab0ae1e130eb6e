/**
 * Characters and strings as the library's JavaScript runtime sees them:
 * character classes used by its regular expressions (`\d`, `\s`, `[A-F0-9]`),
 * `String.prototype.trim` and `toLowerCase`, and decimal / hexadecimal digit
 * strings with their numeric values.
 */
module Text {

  predicate IsDigit(c: char) { '0' <= c <= '9' }

  /** `[A-F0-9]` under the `i` flag. */
  predicate IsHexDigit(c: char) { IsDigit(c) || 'a' <= c <= 'f' || 'A' <= c <= 'F' }

  /** `[A-Z]` under the `i` flag. */
  predicate IsLetter(c: char) { 'a' <= c <= 'z' || 'A' <= c <= 'Z' }

  /** The ECMAScript WhiteSpace and LineTerminator characters: `\s` and what `trim` removes. */
  predicate IsSpace(c: char)
  {
    c == ' ' || '\t' <= c <= '\r' || ('\U{00A0}' <= c && IsWideSpace(c))
  }

  /** The white space characters from U+00A0 on. */
  predicate IsWideSpace(c: char)
  {
    c == '\U{00A0}' || c == '\U{1680}' || '\U{2000}' <= c <= '\U{200A}' || '\U{2028}' <= c <= '\U{2029}'
    || c == '\U{202F}' || c == '\U{205F}' || c == '\U{3000}' || c == '\U{FEFF}'
  }

  predicate AllDigits(s: string) { forall i | 0 <= i < |s| :: IsDigit(s[i]) }

  /** `\d+` */
  predicate IsDigits(s: string) { |s| > 0 && AllDigits(s) }

  predicate AllHex(s: string) { forall i | 0 <= i < |s| :: IsHexDigit(s[i]) }

  predicate AllSpaces(s: string) { forall i | 0 <= i < |s| :: IsSpace(s[i]) }

  /** `\s*` from `p`: the end of the run of white space. */
  function SkipSpaces(s: string, p: nat): (q: nat)
    requires p <= |s|
    ensures p <= q <= |s|
    ensures forall i | p <= i < q :: IsSpace(s[i])
    ensures q < |s| ==> !IsSpace(s[q])
    decreases |s| - p
  {
    if p == |s| || !IsSpace(s[p]) then p else SkipSpaces(s, p + 1)
  }

  lemma {:induction false} SkipSpacesOver(s: string, p: nat, q: nat)
    requires p <= q <= |s|
    requires forall i | p <= i < q :: IsSpace(s[i])
    requires q < |s| ==> !IsSpace(s[q])
    ensures SkipSpaces(s, p) == q
    decreases q - p
  {
    if p < q {
      SkipSpacesOver(s, p + 1, q);
    }
  }

  /** `t` occurs in `s` at position `i`. */
  predicate At(s: string, i: nat, t: string)
  {
    i + |t| <= |s| && s[i..i + |t|] == t
  }

  lemma AtChar(s: string, i: nat, t: string, j: nat)
    requires At(s, i, t) && j < |t|
    ensures s[i + j] == t[j]
  {
    assert s[i..i + |t|][j] == s[i + j];
  }

  lemma AtSplit(s: string, i: nat, a: string, b: string)
    requires At(s, i, a + b)
    ensures At(s, i, a) && At(s, i + |a|, b)
  {
    assert s[i..i + |a|] == (a + b)[..|a|];
    assert s[i + |a|..i + |a| + |b|] == (a + b)[|a|..];
  }

  /** Lower-casing of one character; only the ASCII letters change. */
  function Lower(c: char): (r: char)
    ensures IsLetter(c) ==> IsLetter(r) && 'a' <= r <= 'z'
    ensures !IsLetter(c) ==> r == c
  {
    if 'A' <= c <= 'Z' then (c as int + 32) as char else c
  }

  /** `String.prototype.toLowerCase` on the ASCII range. */
  function ToLower(s: string): (r: string)
    ensures |r| == |s|
    ensures forall i | 0 <= i < |s| :: r[i] == Lower(s[i])
  {
    seq(|s|, i requires 0 <= i < |s| => Lower(s[i]))
  }

  /** The number of leading white-space characters of `s`. */
  function LeadingSpaces(s: string): (n: nat)
    ensures n <= |s| && AllSpaces(s[..n])
    ensures n < |s| ==> !IsSpace(s[n])
  {
    if |s| == 0 || !IsSpace(s[0]) then 0
    else
      var n := 1 + LeadingSpaces(s[1..]);
      assert s[..n] == [s[0]] + s[1..][..n - 1];
      n
  }

  /** The number of trailing white-space characters of `s`. */
  function TrailingSpaces(s: string): (n: nat)
    ensures n <= |s| && AllSpaces(s[|s| - n..])
    ensures n < |s| ==> !IsSpace(s[|s| - n - 1])
  {
    if |s| == 0 || !IsSpace(s[|s| - 1]) then 0
    else
      var m := TrailingSpaces(s[..|s| - 1]);
      SpacesBefore(s, m);
      1 + m
  }

  /** One more white-space character at the end extends a trailing run of `m`. */
  lemma SpacesBefore(s: string, m: nat)
    requires 0 < |s| && m < |s| && IsSpace(s[|s| - 1])
    requires AllSpaces(s[..|s| - 1][|s| - 1 - m..])
    requires m < |s| - 1 ==> !IsSpace(s[..|s| - 1][|s| - 2 - m])
    ensures AllSpaces(s[|s| - m - 1..])
    ensures m + 1 < |s| ==> !IsSpace(s[|s| - m - 2])
  {
    var t := s[|s| - m - 1..];
    forall j | 0 <= j < m + 1 ensures IsSpace(t[j]) {
      if j < m {
        assert t[j] == s[..|s| - 1][|s| - 1 - m..][j];
      }
    }
    if m + 1 < |s| {
      assert s[|s| - m - 2] == s[..|s| - 1][|s| - 2 - m];
    }
  }

  /** `String.prototype.trim`: the slice of `s` between its leading and trailing white space. */
  function Trim(s: string): (r: string)
    ensures exists i, j :: 0 <= i <= j <= |s| && r == s[i..j] && AllSpaces(s[..i]) && AllSpaces(s[j..])
    ensures |r| > 0 ==> !IsSpace(r[0]) && !IsSpace(r[|r| - 1])
  {
    var i := LeadingSpaces(s);
    var t := s[i..];
    var k := TrailingSpaces(t);
    assert s[i..][..|t| - k] == s[i..i + |t| - k];
    assert AllSpaces(s[i + |t| - k..]) by { assert s[i + |t| - k..] == t[|t| - k..]; }
    t[..|t| - k]
  }

  /** White space around a string whose ends are not white space is exactly what `trim` removes. */
  lemma TrimAround(a: string, t: string, b: string)
    requires AllSpaces(a) && AllSpaces(b) && |t| > 0
    requires !IsSpace(t[0]) && !IsSpace(t[|t| - 1])
    ensures Trim(a + t + b) == t
  {
    var s := a + t + b;
    var i := LeadingSpaces(s);
    assert i == |a| by {
      assert forall j | 0 <= j < |a| :: s[j] == a[j];
      assert s[|a|] == t[0];
    }
    var u := s[i..];
    assert u == t + b;
    var k := TrailingSpaces(u);
    assert k == |b| by {
      assert forall j | 0 <= j < |b| :: u[|t| + j] == b[j];
      assert u[|t| - 1] == t[|t| - 1];
    }
    assert u[..|u| - k] == t;
  }

  function DigitValue(c: char): (d: nat)
    requires IsDigit(c)
    ensures d < 10
  {
    c as int - '0' as int
  }

  function DigitChar(d: nat): (c: char)
    requires d < 10
    ensures IsDigit(c) && DigitValue(c) == d
  {
    ('0' as int + d) as char
  }

  /** The value of a decimal digit string, most significant digit first (0 for ""). */
  function DigitsValue(s: string): nat
    requires AllDigits(s)
  {
    if |s| == 0 then 0 else DigitsValue(s[..|s| - 1]) * 10 + DigitValue(s[|s| - 1])
  }

  /** The shortest decimal text of `n`, as `Number.prototype.toString` prints a non-negative integer. */
  function NatText(n: nat): (s: string)
    ensures IsDigits(s)
  {
    if n < 10 then [DigitChar(n)] else NatText(n / 10) + [DigitChar(n % 10)]
  }

  lemma {:induction false} NatTextValue(n: nat)
    ensures DigitsValue(NatText(n)) == n
  {
    if n >= 10 {
      var p := NatText(n / 10);
      assert NatText(n)[..|NatText(n)| - 1] == p;
      NatTextValue(n / 10);
    }
  }

  /** The decimal text of an integer, with a leading `-` when it is negative. */
  function IntText(n: int): (s: string)
    ensures |s| > 0
  {
    if n < 0 then "-" + NatText(-n) else NatText(n)
  }

  function Pow(b: nat, k: nat): (p: nat)
    ensures b > 0 ==> p > 0
  {
    if k == 0 then 1 else b * Pow(b, k - 1)
  }

  function HexDigitValue(c: char): (d: nat)
    requires IsHexDigit(c)
    ensures d < 16
  {
    if IsDigit(c) then DigitValue(c)
    else if 'a' <= c <= 'f' then c as int - 'a' as int + 10
    else c as int - 'A' as int + 10
  }

  /** The lower-case hexadecimal digit of `d`, as `Number.prototype.toString(16)` prints it. */
  function HexChar(d: nat): (c: char)
    requires d < 16
    ensures IsHexDigit(c) && HexDigitValue(c) == d
    ensures !('A' <= c <= 'F')
  {
    if d < 10 then DigitChar(d) else ('a' as int + d - 10) as char
  }

  /** `Number.parseInt(s, 16)` on a string made of hexadecimal digits only. */
  function HexValue(s: string): (v: nat)
    requires AllHex(s)
    ensures v < Pow(16, |s|)
  {
    if |s| == 0 then 0 else HexValue(s[..|s| - 1]) * 16 + HexDigitValue(s[|s| - 1])
  }

  lemma {:induction false} HexValueAppend(a: string, b: string)
    requires AllHex(a) && AllHex(b)
    ensures AllHex(a + b)
    ensures HexValue(a + b) == HexValue(a) * Pow(16, |b|) + HexValue(b)
  {
    assert AllHex(a + b) by {
      forall i | 0 <= i < |a + b| ensures IsHexDigit((a + b)[i]) {
        if i < |a| { assert (a + b)[i] == a[i]; } else { assert (a + b)[i] == b[i - |a|]; }
      }
    }
    if |b| == 0 {
      assert a + b == a;
    } else {
      var b' := b[..|b| - 1];
      var c := b[|b| - 1];
      assert (a + b)[..|a + b| - 1] == a + b';
      assert (a + b)[|a + b| - 1] == c;
      assert AllHex(b');
      assert HexValue(a + b) == HexValue(a + b') * 16 + HexDigitValue(c);
      assert HexValue(b) == HexValue(b') * 16 + HexDigitValue(c);
      assert Pow(16, |b|) == 16 * Pow(16, |b'|);
      HexValueAppend(a, b');
      ShiftDigit(HexValue(a), Pow(16, |b'|), HexValue(b'), HexDigitValue(c), HexValue(a + b), Pow(16, |b|), HexValue(b));
    }
  }

  lemma ShiftDigit(x: int, p: int, y: int, d: int, whole: int, p16: int, y16: int)
    requires whole == (x * p + y) * 16 + d && p16 == 16 * p && y16 == y * 16 + d
    ensures whole == x * p16 + y16
  {
  }

  /**
   * `(b & 0xFF).toString(16).padStart(2, '0')` for a byte `b`: two lower-case
   * hexadecimal digits whose value is `b`.
   */
  function HexPair(b: nat): (s: string)
    requires b < 256
    ensures |s| == 2 && AllHex(s) && HexValue(s) == b
    ensures forall i | 0 <= i < 2 :: !('A' <= s[i] <= 'F')
  {
    var s := [HexChar(b / 16), HexChar(b % 16)];
    assert s[..1] == [HexChar(b / 16)];
    s
  }
}
