/**
 * The JavaScript string built-ins the reconciler relies on: `trim`,
 * `toLowerCase`, `includes`, the default `sort` comparison and the decimal
 * text of a number in a template literal.
 */
module Strings {

  /** ECMAScript WhiteSpace and LineTerminator code points, the set `trim` removes. */
  predicate IsJsWhitespace(c: char)
  {
    || ('\U{9}' <= c <= '\U{D}')
    || c == '\U{20}' || c == '\U{A0}' || c == '\U{1680}'
    || ('\U{2000}' <= c <= '\U{200A}')
    || c == '\U{2028}' || c == '\U{2029}' || c == '\U{202F}' || c == '\U{205F}'
    || c == '\U{3000}' || c == '\U{FEFF}'
  }

  predicate AllWhitespace(s: string)
  {
    forall i :: 0 <= i < |s| ==> IsJsWhitespace(s[i])
  }

  function TrimStart(s: string): (r: string)
    ensures |r| <= |s| && r == s[|s| - |r|..]
    ensures AllWhitespace(s[..|s| - |r|])
    ensures r != "" ==> !IsJsWhitespace(r[0])
  {
    if |s| > 0 && IsJsWhitespace(s[0]) then TrimStart(s[1..]) else s
  }

  function TrimEnd(s: string): (r: string)
    ensures |r| <= |s| && r == s[..|r|]
    ensures AllWhitespace(s[|r|..])
    ensures r != "" ==> !IsJsWhitespace(r[|r| - 1])
  {
    if |s| > 0 && IsJsWhitespace(s[|s| - 1]) then TrimEnd(s[..|s| - 1]) else s
  }

  /**
   * String.prototype.trim: the input is white space, then the result, then
   * white space, and the result neither starts nor ends with white space.
   */
  function Trim(s: string): (r: string)
    ensures |r| <= |s|
    ensures exists p, q :: s == p + r + q && AllWhitespace(p) && AllWhitespace(q)
    ensures r != "" ==> !IsJsWhitespace(r[0]) && !IsJsWhitespace(r[|r| - 1])
  {
    TrimEnd(TrimStart(s))
  }

  lemma {:induction false} TrimStartAllWhitespace(s: string)
    ensures AllWhitespace(TrimStart(s)) <==> AllWhitespace(s)
  {
    if |s| > 0 && IsJsWhitespace(s[0]) {
      TrimStartAllWhitespace(s[1..]);
      assert AllWhitespace(s) <==> AllWhitespace(s[1..]) by {
        assert forall i :: 0 < i < |s| ==> s[i] == s[1..][i - 1];
      }
    }
  }

  lemma {:induction false} TrimEndEmpty(s: string)
    ensures TrimEnd(s) == "" <==> AllWhitespace(s)
  {
    if |s| > 0 && IsJsWhitespace(s[|s| - 1]) {
      TrimEndEmpty(s[..|s| - 1]);
      assert AllWhitespace(s) <==> AllWhitespace(s[..|s| - 1]) by {
        assert forall i :: 0 <= i < |s| - 1 ==> s[i] == s[..|s| - 1][i];
      }
    } else if |s| > 0 {
      assert !IsJsWhitespace(s[|s| - 1]);
    }
  }

  /** A name trims to the empty string exactly when every character of it is white space. */
  lemma TrimEmptyIffAllWhitespace(s: string)
    ensures Trim(s) == "" <==> AllWhitespace(s)
  {
    TrimStartAllWhitespace(s);
    TrimEndEmpty(TrimStart(s));
  }

  /**
   * String.prototype.toLowerCase on one character, for the Basic Latin and
   * Latin-1 upper-case letters (A-Z and U+00C0-U+00DE except the sign U+00D7).
   */
  function LowerChar(c: char): (r: char)
    ensures !('A' <= r <= 'Z')
    ensures 'a' <= c <= 'z' ==> r == c
  {
    if 'A' <= c <= 'Z' || ('\U{C0}' <= c <= '\U{DE}' && c != '\U{D7}') then
      (c as int + 32) as char
    else
      c
  }

  function ToLower(s: string): (r: string)
    ensures |r| == |s|
  {
    if s == [] then [] else [LowerChar(s[0])] + ToLower(s[1..])
  }

  /** String.prototype.startsWith */
  predicate StartsWith(s: string, part: string)
  {
    |part| <= |s| && s[..|part|] == part
  }

  /** String.prototype.includes: `part` occurs in `s` at some position. */
  predicate Includes(s: string, part: string)
  {
    StartsWith(s, part) || (|s| > 0 && Includes(s[1..], part))
  }

  lemma {:induction false} IncludesIsNoLonger(s: string, part: string)
    requires Includes(s, part)
    ensures |part| <= |s|
  {
    if !StartsWith(s, part) {
      IncludesIsNoLonger(s[1..], part);
    }
  }

  predicate IsDigit(c: char)
  {
    '0' <= c <= '9'
  }

  /** The character of one decimal digit. */
  function DigitChar(d: nat): (r: char)
    requires d < 10
    ensures IsDigit(r)
  {
    ('0' as int + d) as char
  }

  /** The decimal text JavaScript gives a non-negative integer in a template literal. */
  function NatToDecimal(n: nat): (r: string)
    ensures 1 <= |r|
    ensures n < 10 <==> |r| == 1
    ensures forall k :: 0 <= k < |r| ==> IsDigit(r[k])
  {
    if n < 10 then [DigitChar(n)] else NatToDecimal(n / 10) + [DigitChar(n % 10)]
  }

  /** Different numbers have different decimal texts. */
  lemma {:induction false} NatToDecimalInjective(a: nat, b: nat)
    requires NatToDecimal(a) == NatToDecimal(b)
    ensures a == b
  {
    if a >= 10 && b >= 10 {
      var ta, tb := NatToDecimal(a), NatToDecimal(b);
      assert ta[..|ta| - 1] == NatToDecimal(a / 10);
      assert tb[..|tb| - 1] == NatToDecimal(b / 10);
      NatToDecimalInjective(a / 10, b / 10);
      assert DigitChar(a % 10) == ta[|ta| - 1] == tb[|tb| - 1] == DigitChar(b % 10);
    }
  }

  /** The default comparison of Array.prototype.sort: lexicographic order on characters. */
  predicate LexLess(a: string, b: string)
  {
    if |a| == 0 then |b| > 0
    else if |b| == 0 then false
    else a[0] < b[0] || (a[0] == b[0] && LexLess(a[1..], b[1..]))
  }

  lemma {:induction false} LexLessIrreflexive(a: string)
    ensures !LexLess(a, a)
  {
    if |a| > 0 {
      LexLessIrreflexive(a[1..]);
    }
  }

  lemma {:induction false} LexLessTransitive(a: string, b: string, c: string)
    requires LexLess(a, b) && LexLess(b, c)
    ensures LexLess(a, c)
  {
    if |a| > 0 && a[0] == b[0] && b[0] == c[0] {
      LexLessTransitive(a[1..], b[1..], c[1..]);
    }
  }

  lemma {:induction false} LexLessTotal(a: string, b: string)
    requires a != b
    ensures LexLess(a, b) || LexLess(b, a)
  {
    if |a| > 0 && |b| > 0 && a[0] == b[0] {
      assert a == [a[0]] + a[1..] && b == [b[0]] + b[1..];
      LexLessTotal(a[1..], b[1..]);
    }
  }
}
