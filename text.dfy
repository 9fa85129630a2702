/**
 * The JavaScript string operations the calendar code relies on:
 * String.prototype.trim, String.prototype.includes, the first match of the
 * regular expression /\d{4}/ read back with parseInt, and the decimal
 * rendering Number.prototype.toString gives a day number.
 */
module Text {
  import opened Options

  /**
   * The code points trim() removes from both ends: the ECMAScript WhiteSpace
   * (tab, vertical tab, form feed, space, no-break space, zero width no-break
   * space and the Unicode space separators) and LineTerminator characters.
   */
  predicate IsWhiteSpace(c: char) {
    || c == '\t' || c == '\U{000B}' || c == '\U{000C}' || c == ' '
    || c == '\U{00A0}' || c == '\U{FEFF}' || c == '\U{1680}'
    || ('\U{2000}' <= c <= '\U{200A}') || c == '\U{202F}' || c == '\U{205F}' || c == '\U{3000}'
    || c == '\n' || c == '\r' || c == '\U{2028}' || c == '\U{2029}'
  }

  predicate IsDigit(c: char) {
    '0' <= c <= '9'
  }

  /** The text with its leading white space removed. */
  function TrimStart(s: string): (r: string)
    ensures |r| <= |s| && r == s[|s| - |r|..]
    ensures forall k :: 0 <= k < |s| - |r| ==> IsWhiteSpace(s[k])
    ensures |r| > 0 ==> !IsWhiteSpace(r[0])
  {
    if |s| > 0 && IsWhiteSpace(s[0]) then TrimStart(s[1..]) else s
  }

  /** The text with its trailing white space removed. */
  function TrimEnd(s: string): (r: string)
    ensures |r| <= |s| && r == s[..|r|]
    ensures forall k :: |r| <= k < |s| ==> IsWhiteSpace(s[k])
    ensures |r| > 0 ==> !IsWhiteSpace(r[|r| - 1])
  {
    if |s| > 0 && IsWhiteSpace(s[|s| - 1]) then TrimEnd(s[..|s| - 1]) else s
  }

  /**
   * s.trim(): the text without white space at either end. It is empty exactly
   * when the text is white space alone, and otherwise neither starts nor ends
   * with white space.
   */
  function Trim(s: string): (r: string)
    ensures |r| <= |s|
    ensures |r| > 0 ==> !IsWhiteSpace(r[0]) && !IsWhiteSpace(r[|r| - 1])
    ensures |r| == 0 <==> forall k :: 0 <= k < |s| ==> IsWhiteSpace(s[k])
  {
    var t := TrimStart(s);
    var r := TrimEnd(t);
    assert |r| > 0 ==> r[0] == t[0];
    r
  }

  /** TrimStart removes exactly the leading white space. */
  lemma {:induction false} TrimStartPadded(pre: string, u: string)
    requires forall k :: 0 <= k < |pre| ==> IsWhiteSpace(pre[k])
    requires |u| > 0 ==> !IsWhiteSpace(u[0])
    ensures TrimStart(pre + u) == u
  {
    if |pre| > 0 {
      assert (pre + u)[1..] == pre[1..] + u;
      TrimStartPadded(pre[1..], u);
    } else {
      assert pre + u == u;
    }
  }

  /** TrimEnd removes exactly the trailing white space. */
  lemma {:induction false} TrimEndPadded(u: string, post: string)
    requires forall k :: 0 <= k < |post| ==> IsWhiteSpace(post[k])
    requires |u| > 0 ==> !IsWhiteSpace(u[|u| - 1])
    ensures TrimEnd(u + post) == u
  {
    if |post| > 0 {
      assert (u + post)[..|u + post| - 1] == u + post[..|post| - 1];
      TrimEndPadded(u, post[..|post| - 1]);
    } else {
      assert u + post == u;
    }
  }

  /**
   * Trim removes exactly the white-space padding: text that neither starts
   * nor ends with white space comes back unchanged from any padding of it.
   */
  lemma TrimPadded(pre: string, t: string, post: string)
    requires forall k :: 0 <= k < |pre| ==> IsWhiteSpace(pre[k])
    requires forall k :: 0 <= k < |post| ==> IsWhiteSpace(post[k])
    requires |t| > 0 ==> !IsWhiteSpace(t[0]) && !IsWhiteSpace(t[|t| - 1])
    ensures Trim(pre + t + post) == t
  {
    if |t| > 0 {
      assert pre + t + post == pre + (t + post);
      assert (t + post)[0] == t[0];
      TrimStartPadded(pre, t + post);
      TrimEndPadded(t, post);
    } else {
      assert pre + t + post == pre + post;
      TrimStartPadded(pre, post[|post|..]);
      assert pre + post == (pre + post) + post[|post|..];
      assert forall k :: 0 <= k < |pre + post| ==> IsWhiteSpace((pre + post)[k]);
      AllWhiteSpaceTrimsToEmpty(pre + post);
    }
  }

  /** Text made of white space alone trims to the empty string. */
  lemma AllWhiteSpaceTrimsToEmpty(s: string)
    requires forall k :: 0 <= k < |s| ==> IsWhiteSpace(s[k])
    ensures Trim(s) == []
  {
    var r := TrimStart(s);
    if |r| > 0 {
      assert false;
    }
  }

  /** Trimming twice is trimming once. */
  lemma TrimIdempotent(s: string)
    ensures Trim(Trim(s)) == Trim(s)
  {
    var t := Trim(s);
    assert TrimStart(s)[0..|t|] == t;
    if |t| > 0 {
      assert t[0] == TrimStart(s)[0];
    }
    TrimPadded([], t, []);
    assert [] + t + [] == t;
  }

  /** sub occurs in s at position i. */
  predicate OccursAt(s: string, sub: string, i: int) {
    0 <= i && i + |sub| <= |s| && s[i..i + |sub|] == sub
  }

  /** s.includes(sub). */
  function Includes(s: string, sub: string): (b: bool)
    ensures b <==> exists i :: OccursAt(s, sub, i)
    decreases |s|
  {
    if |sub| > |s| then false
    else if s[..|sub|] == sub then
      assert OccursAt(s, sub, 0);
      true
    else
      var rest := Includes(s[1..], sub);
      if rest then
        var i :| OccursAt(s[1..], sub, i);
        assert s[i + 1..i + 1 + |sub|] == s[1..][i..i + |sub|];
        assert OccursAt(s, sub, i + 1);
        true
      else
        assert !OccursAt(s, sub, 0);
        forall i | 0 < i && OccursAt(s, sub, i) ensures OccursAt(s[1..], sub, i - 1) {
          assert s[1..][i - 1..i - 1 + |sub|] == s[i..i + |sub|];
        }
        false
  }

  /** Four decimal digits in a row start at position i: a match of /\d{4}/. */
  predicate FourDigitsAt(s: string, i: int) {
    0 <= i && i + 4 <= |s| && IsDigit(s[i]) && IsDigit(s[i + 1]) && IsDigit(s[i + 2]) && IsDigit(s[i + 3])
  }

  /** Where the leftmost match of /\d{4}/ at or after position from begins, if there is one. */
  function FirstFourDigitsFrom(s: string, from: nat): (r: Option<nat>)
    ensures r.Some? ==> from <= r.value && FourDigitsAt(s, r.value)
    ensures forall k :: from <= k && (r.None? || k < r.value) ==> !FourDigitsAt(s, k)
    decreases |s| - from
  {
    if from + 4 > |s| then None
    else if FourDigitsAt(s, from) then Some(from)
    else FirstFourDigitsFrom(s, from + 1)
  }

  function DigitValue(c: char): (v: int)
    requires IsDigit(c)
    ensures 0 <= v < 10
  {
    c as int - '0' as int
  }

  /** The number a string of decimal digits denotes, as parseInt reads it. */
  function DigitsValue(s: string): (v: int)
    requires forall k :: 0 <= k < |s| ==> IsDigit(s[k])
    ensures 0 <= v
  {
    if |s| == 0 then 0 else DigitsValue(s[..|s| - 1]) * 10 + DigitValue(s[|s| - 1])
  }

  /**
   * parseInt(text.match(/\d{4}/)?.[0] || fallback): the number written by the
   * first four digits in a row in the text, or the fallback when there are none.
   */
  function YearIn(text: string, fallback: int): (y: int)
    ensures FirstFourDigitsFrom(text, 0).None? ==> y == fallback
    ensures FirstFourDigitsFrom(text, 0).Some? ==>
      var i := FirstFourDigitsFrom(text, 0).value;
      y == DigitsValue(text[i..i + 4]) && 0 <= y <= 9999
  {
    match FirstFourDigitsFrom(text, 0)
    case None => fallback
    case Some(i) =>
      FourDigitsValue(text[i..i + 4]);
      DigitValue(text[i]) * 1000 + DigitValue(text[i + 1]) * 100 + DigitValue(text[i + 2]) * 10 + DigitValue(text[i + 3])
  }

  /** parseInt of four decimal digits: the thousands, hundreds, tens and units digits. */
  lemma FourDigitsValue(s: string)
    requires |s| == 4 && forall k :: 0 <= k < 4 ==> IsDigit(s[k])
    ensures DigitsValue(s) == DigitValue(s[0]) * 1000 + DigitValue(s[1]) * 100 + DigitValue(s[2]) * 10 + DigitValue(s[3])
  {
    assert s[..3][..2] == s[..2];
    assert s[..2][..1] == s[..1];
    assert s[..1][..0] == [];
    assert DigitsValue(s[..1]) == DigitValue(s[0]);
    assert DigitsValue(s[..2]) == DigitValue(s[0]) * 10 + DigitValue(s[1]);
    assert DigitsValue(s[..3]) == (DigitValue(s[0]) * 10 + DigitValue(s[1])) * 10 + DigitValue(s[2]);
  }

  function DigitChar(d: int): (c: char)
    requires 0 <= d < 10
    ensures IsDigit(c) && DigitValue(c) == d
  {
    ('0' as int + d) as char
  }

  /** n.toString() for a non-negative integer n: its decimal digits, without leading zeros. */
  function DecimalString(n: nat): (s: string)
    ensures |s| > 0 && forall k :: 0 <= k < |s| ==> IsDigit(s[k])
    ensures s[0] == '0' ==> n == 0
  {
    if n < 10 then [DigitChar(n)] else DecimalString(n / 10) + [DigitChar(n % 10)]
  }

  /** Reading back the decimal rendering of n gives n. */
  lemma {:induction false} DecimalStringValue(n: nat)
    ensures DigitsValue(DecimalString(n)) == n
  {
    var s := DecimalString(n);
    if n >= 10 {
      DecimalStringValue(n / 10);
      assert s[..|s| - 1] == DecimalString(n / 10);
    }
  }

  /** Distinct numbers have distinct decimal renderings. */
  lemma DecimalStringInjective(a: nat, b: nat)
    requires DecimalString(a) == DecimalString(b)
    ensures a == b
  {
    DecimalStringValue(a);
    DecimalStringValue(b);
  }

  /** A decimal rendering has no white space at its ends, so trim() leaves it as it is. */
  lemma DecimalStringTrimmed(n: nat)
    ensures var s := DecimalString(n); !IsWhiteSpace(s[0]) && !IsWhiteSpace(s[|s| - 1])
  {
  }
}
