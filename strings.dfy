/**
  Character classes and small string utilities: the `\w` and `\d` classes of
  JavaScript regular expressions (without the `u` flag), decimal rendering of
  numbers, and `String.prototype.trim`.
 */
module Strings {

  /** `\d`: an ASCII decimal digit. */
  predicate IsDigit(c: char) {
    '0' <= c <= '9'
  }

  /** `\w`: `[A-Za-z0-9_]`. */
  predicate IsWordChar(c: char) {
    'A' <= c <= 'Z' || 'a' <= c <= 'z' || IsDigit(c) || c == '_'
  }

  predicate AllDigits(s: string) {
    forall i :: 0 <= i < |s| ==> IsDigit(s[i])
  }

  function DigitChar(d: nat): (c: char)
    requires d < 10
    ensures IsDigit(c)
    ensures DigitValue(c) == d
  {
    ('0' as int + d) as char
  }

  function DigitValue(c: char): nat
    requires IsDigit(c)
  {
    c as int - '0' as int
  }

  /** `String(n)` for a non-negative integer: its decimal digits, most significant first. */
  function NatToString(n: nat): (s: string)
    ensures |s| > 0 && AllDigits(s)
    ensures Canonical(s)
  {
    if n < 10 then [DigitChar(n)] else NatToString(n / 10) + [DigitChar(n % 10)]
  }

  /**
    A digit string in the canonical form JavaScript uses for array indices:
    no leading zero unless the number is zero itself.
   */
  predicate Canonical(s: string) {
    |s| > 0 && (s[0] == '0' ==> |s| == 1)
  }

  /** The value of a string of decimal digits. */
  function ParseDigits(s: string): nat
    requires AllDigits(s)
  {
    if s == [] then 0 else ParseDigits(s[..|s| - 1]) * 10 + DigitValue(s[|s| - 1])
  }

  /** Decimal rendering is inverted by parsing. */
  lemma {:induction false} ParseNatToString(n: nat)
    ensures ParseDigits(NatToString(n)) == n
  {
    var s := NatToString(n);
    if n >= 10 {
      assert s[..|s| - 1] == NatToString(n / 10);
      ParseNatToString(n / 10);
    }
  }

  /** A digit string that does not start with `0` names a positive number. */
  lemma {:induction false} LeadingNonzero(d: string)
    requires AllDigits(d) && d != [] && d[0] != '0'
    ensures ParseDigits(d) >= 1
  {
    if |d| > 1 {
      var p := d[..|d| - 1];
      assert p[0] == d[0];
      LeadingNonzero(p);
    }
  }

  /**
    The canonical digit strings are exactly the decimal renderings: a
    canonical string is `String(n)` of the number it spells.
   */
  lemma {:induction false} CanonicalIsString(d: string)
    requires AllDigits(d) && Canonical(d)
    ensures NatToString(ParseDigits(d)) == d
  {
    var v := DigitValue(d[|d| - 1]);
    var p := d[..|d| - 1];
    if |d| == 1 {
      assert p == [];
      assert [DigitChar(v)] == d;
    } else {
      assert p[0] == d[0] && d[0] != '0';
      LeadingNonzero(p);
      CanonicalIsString(p);
      var n := ParseDigits(d);
      assert n == ParseDigits(p) * 10 + v;
      assert n / 10 == ParseDigits(p) && n % 10 == v;
      assert DigitChar(v) == d[|d| - 1];
      assert p + [d[|d| - 1]] == d;
    }
  }

  /** Decimal rendering is injective: distinct numbers get distinct strings. */
  lemma NatToStringInjective(m: nat, n: nat)
    requires NatToString(m) == NatToString(n)
    ensures m == n
  {
    ParseNatToString(m);
    ParseNatToString(n);
  }

  /**
    The characters `String.prototype.trim` strips: the ECMAScript WhiteSpace
    code points (TAB, VT, FF, SPACE, NBSP, ZWNBSP and category Zs) and the
    LineTerminator code points (LF, CR, LS, PS).
   */
  predicate IsJsWhitespace(c: char) {
    || c == '\t' || c == '\U{000B}' || c == '\U{000C}' || c == ' ' || c == '\U{00A0}'
    || c == '\U{FEFF}' || c == '\U{1680}' || ('\U{2000}' <= c <= '\U{200A}')
    || c == '\U{202F}' || c == '\U{205F}' || c == '\U{3000}'
    || c == '\n' || c == '\r' || c == '\U{2028}' || c == '\U{2029}'
  }

  predicate AllWhitespace(s: string) {
    forall i :: 0 <= i < |s| ==> IsJsWhitespace(s[i])
  }

  function TrimStart(s: string): string {
    if s != [] && IsJsWhitespace(s[0]) then TrimStart(s[1..]) else s
  }

  function TrimEnd(s: string): string {
    if s != [] && IsJsWhitespace(s[|s| - 1]) then TrimEnd(s[..|s| - 1]) else s
  }

  /** `s.trim()`. */
  function Trim(s: string): string {
    TrimEnd(TrimStart(s))
  }

  lemma {:induction false} TrimStartSplit(s: string)
    ensures |TrimStart(s)| <= |s|
    ensures TrimStart(s) == s[|s| - |TrimStart(s)|..]
    ensures AllWhitespace(s[..|s| - |TrimStart(s)|])
    ensures TrimStart(s) != [] ==> !IsJsWhitespace(TrimStart(s)[0])
  {
    if s != [] && IsJsWhitespace(s[0]) {
      var s' := s[1..];
      TrimStartSplit(s');
      var t := TrimStart(s');
      assert TrimStart(s) == t;
      var i := |s'| - |t|;
      assert s'[i..] == s[i + 1..];
      var w := s[..i + 1];
      forall k | 0 <= k < i + 1 ensures IsJsWhitespace(w[k]) {
        if k > 0 {
          assert w[k] == s'[..i][k - 1];
        }
      }
    }
  }

  lemma {:induction false} TrimEndSplit(s: string)
    ensures |TrimEnd(s)| <= |s|
    ensures TrimEnd(s) == s[..|TrimEnd(s)|]
    ensures AllWhitespace(s[|TrimEnd(s)|..])
    ensures TrimEnd(s) != [] ==> !IsJsWhitespace(TrimEnd(s)[|TrimEnd(s)| - 1])
  {
    if s != [] && IsJsWhitespace(s[|s| - 1]) {
      var s' := s[..|s| - 1];
      TrimEndSplit(s');
      var j := |TrimEnd(s')|;
      assert s'[..j] == s[..j];
      forall k | j <= k < |s| ensures IsJsWhitespace(s[k]) {
        if k < |s| - 1 { assert s[k] == s'[j..][k - j]; }
      }
    }
  }

  lemma {:induction false} TrimEndKeepsStart(s: string)
    requires s != [] && !IsJsWhitespace(s[0])
    ensures TrimEnd(s) != [] && TrimEnd(s)[0] == s[0]
  {
    if IsJsWhitespace(s[|s| - 1]) {
      TrimEndKeepsStart(s[..|s| - 1]);
    }
  }

  /** The slice bounds of `Trim(s)` within `s`. */
  function TrimBounds(s: string): (b: (nat, nat))
    ensures b.0 <= b.1 <= |s|
  {
    TrimStartSplit(s);
    TrimEndSplit(TrimStart(s));
    var i := |s| - |TrimStart(s)|;
    (i, i + |Trim(s)|)
  }

  /**
    `trim` removes a whitespace prefix and a whitespace suffix, and nothing
    else: the result is a contiguous slice that neither starts nor ends with
    whitespace.
   */
  lemma TrimSpec(s: string)
    ensures var (i, j) := TrimBounds(s);
            && Trim(s) == s[i..j]
            && AllWhitespace(s[..i]) && AllWhitespace(s[j..])
    ensures Trim(s) != [] ==> !IsJsWhitespace(Trim(s)[0]) && !IsJsWhitespace(Trim(s)[|Trim(s)| - 1])
  {
    TrimStartSplit(s);
    var t := TrimStart(s);
    var i := |s| - |t|;
    TrimEndSplit(t);
    var j := |TrimEnd(t)|;
    assert t[..j] == s[i..i + j];
    forall k | i + j <= k < |s| ensures IsJsWhitespace(s[k]) {
      assert s[k] == t[j..][k - i - j];
    }
    if Trim(s) != [] {
      TrimEndKeepsStart(t);
    }
  }

  /** The trimmed text is empty exactly when the input is all whitespace. */
  lemma TrimEmptyIff(s: string)
    ensures Trim(s) == [] <==> AllWhitespace(s)
  {
    TrimSpec(s);
    var (i, j) := TrimBounds(s);
    if Trim(s) == [] {
      forall k | 0 <= k < |s| ensures IsJsWhitespace(s[k]) {
        if k < i { assert s[k] == s[..i][k]; } else { assert s[k] == s[j..][k - j]; }
      }
    }
  }
}
