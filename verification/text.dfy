/**
 * String helpers the routes rely on from JavaScript: trim, ASCII lower-casing,
 * substring search and decimal rendering of natural numbers.
 */
module Text {

  /** The code points String.prototype.trim removes: WhiteSpace and LineTerminator of ECMA-262. */
  const Whitespace: set<char> := {
    ' ', '\t', '\n', '\r', '\U{000B}', '\U{000C}', '\U{00A0}', '\U{1680}',
    '\U{2000}', '\U{2001}', '\U{2002}', '\U{2003}', '\U{2004}', '\U{2005}', '\U{2006}',
    '\U{2007}', '\U{2008}', '\U{2009}', '\U{200A}',
    '\U{2028}', '\U{2029}', '\U{202F}', '\U{205F}', '\U{3000}', '\U{FEFF}'
  }

  predicate IsWhitespace(c: char)
  {
    c in Whitespace
  }

  /** No whitespace at either end: the shape of a trimmed string. */
  predicate IsTrimmed(s: string)
  {
    |s| == 0 || (!IsWhitespace(s[0]) && !IsWhitespace(s[|s| - 1]))
  }

  /** The number of whitespace characters s starts with. */
  function LeadingWhitespace(s: string): (n: nat)
    ensures n <= |s|
    ensures forall i :: 0 <= i < n ==> IsWhitespace(s[i])
    ensures n < |s| ==> !IsWhitespace(s[n])
  {
    if |s| > 0 && IsWhitespace(s[0]) then
      var n := 1 + LeadingWhitespace(s[1..]);
      assert forall i :: 1 <= i < n ==> s[i] == s[1..][i - 1];
      n
    else 0
  }

  /** The number of whitespace characters s ends with. */
  function TrailingWhitespace(s: string): (n: nat)
    ensures n <= |s|
    ensures forall i :: |s| - n <= i < |s| ==> IsWhitespace(s[i])
    ensures n < |s| ==> !IsWhitespace(s[|s| - 1 - n])
  {
    if |s| > 0 && IsWhitespace(s[|s| - 1]) then
      var n := 1 + TrailingWhitespace(s[..|s| - 1]);
      assert forall i :: |s| - n <= i < |s| - 1 ==> s[i] == s[..|s| - 1][i];
      n
    else 0
  }

  /** r is s[k..k + |r|] and everything of s around it is whitespace. */
  predicate IsCoreOf(s: string, r: string, k: int)
  {
    && 0 <= k <= |s| - |r|
    && r == s[k..k + |r|]
    && (forall i :: 0 <= i < k ==> IsWhitespace(s[i]))
    && (forall i :: k + |r| <= i < |s| ==> IsWhitespace(s[i]))
  }

  /** String.prototype.trim: s with the whitespace removed from both ends. */
  function Trim(s: string): (r: string)
    ensures IsTrimmed(r)
    ensures exists k :: IsCoreOf(s, r, k)
  {
    var a := LeadingWhitespace(s);
    if a == |s| then
      assert IsCoreOf(s, [], a);
      []
    else
      var b := TrailingWhitespace(s);
      assert a < |s| - b;
      var r := s[a..|s| - b];
      assert IsCoreOf(s, r, a);
      r
  }

  /** A trimmed string is left alone by Trim. */
  lemma {:induction false} TrimIdempotent(s: string)
    requires IsTrimmed(s)
    ensures Trim(s) == s
  {
  }

  /** A non-empty trimmed core starts and ends on a non-whitespace character of s. */
  lemma CoreEdges(s: string, r: string, k: int)
    requires IsTrimmed(r) && IsCoreOf(s, r, k) && |r| > 0
    ensures !IsWhitespace(s[k]) && !IsWhitespace(s[k + |r| - 1])
  {
    assert s[k] == r[0] && s[k + |r| - 1] == r[|r| - 1];
  }

  /** A trimmed core of s is unique: whitespace on both sides pins down where it starts and ends. */
  lemma TrimmedCoreUnique(s: string, r1: string, k1: int, r2: string, k2: int)
    requires IsTrimmed(r1) && IsCoreOf(s, r1, k1)
    requires IsTrimmed(r2) && IsCoreOf(s, r2, k2)
    ensures r1 == r2
  {
    if |r1| > 0 {
      CoreEdges(s, r1, k1);
    }
    if |r2| > 0 {
      CoreEdges(s, r2, k2);
    }
  }

  /** Any trimmed core of s is what Trim returns. */
  lemma TrimOfCore(s: string, r: string, k: int)
    requires IsTrimmed(r) && IsCoreOf(s, r, k)
    ensures Trim(s) == r
  {
    var k' :| IsCoreOf(s, Trim(s), k');
    TrimmedCoreUnique(s, Trim(s), k', r, k);
  }

  /** Trim ignores whitespace added around its input. */
  lemma TrimSurrounded(w1: string, h: string, w2: string)
    requires forall i :: 0 <= i < |w1| ==> IsWhitespace(w1[i])
    requires forall i :: 0 <= i < |w2| ==> IsWhitespace(w2[i])
    ensures Trim(w1 + h + w2) == Trim(h)
  {
    var t := Trim(h);
    var k :| IsCoreOf(h, t, k);
    var s := w1 + h + w2;
    assert s[|w1| + k..|w1| + k + |t|] == h[k..k + |t|];
    assert forall i :: 0 <= i < |w1| + k ==> IsWhitespace(s[i]) by {
      forall i | 0 <= i < |w1| + k ensures IsWhitespace(s[i]) {
        if i >= |w1| { assert s[i] == h[i - |w1|]; }
      }
    }
    assert forall i :: |w1| + k + |t| <= i < |s| ==> IsWhitespace(s[i]) by {
      forall i | |w1| + k + |t| <= i < |s| ensures IsWhitespace(s[i]) {
        if i < |w1| + |h| { assert s[i] == h[i - |w1|]; } else { assert s[i] == w2[i - |w1| - |h|]; }
      }
    }
    assert IsCoreOf(s, t, |w1| + k);
    TrimOfCore(s, t, |w1| + k);
  }

  predicate IsUpper(c: char)
  {
    'A' <= c <= 'Z'
  }

  /** ASCII lower-casing of one character. */
  function LowerChar(c: char): (d: char)
    ensures !IsUpper(d)
    ensures IsUpper(c) ==> 'a' <= d <= 'z' && d as int - c as int == 32
    ensures !IsUpper(c) ==> d == c
    ensures IsWhitespace(d) <==> IsWhitespace(c)
  {
    if IsUpper(c) then (c as int + 32) as char else c
  }

  /** String.prototype.toLowerCase, restricted to the ASCII letters. */
  function Lower(s: string): (r: string)
    ensures |r| == |s|
    ensures forall i :: 0 <= i < |s| ==> r[i] == LowerChar(s[i])
    ensures forall i :: 0 <= i < |r| ==> !IsUpper(r[i])
  {
    seq(|s|, i requires 0 <= i < |s| => LowerChar(s[i]))
  }

  /** Lower-casing twice is lower-casing once. */
  lemma LowerIdempotent(s: string)
    ensures Lower(Lower(s)) == Lower(s)
  {
  }

  /** Lower-casing a string lower-cases its core in place. */
  lemma LowerKeepsCore(s: string, t: string, k: int)
    requires IsTrimmed(t) && IsCoreOf(s, t, k)
    ensures IsTrimmed(Lower(t)) && IsCoreOf(Lower(s), Lower(t), k)
  {
    var l := Lower(s);
    assert l[k..k + |t|] == Lower(t);
  }

  /** Lower-casing keeps whitespace where it is, so it commutes with Trim. */
  lemma LowerTrimCommute(s: string)
    ensures Lower(Trim(s)) == Trim(Lower(s))
  {
    var t := Trim(s);
    var k :| IsCoreOf(s, t, k);
    LowerKeepsCore(s, t, k);
    TrimOfCore(Lower(s), Lower(t), k);
  }

  /** True when needle occurs in hay starting at position i. */
  predicate OccursAt(hay: string, needle: string, i: int)
  {
    0 <= i && i + |needle| <= |hay| && hay[i..i + |needle|] == needle
  }

  /** Substring search: the empty needle occurs everywhere. */
  function Contains(hay: string, needle: string): (b: bool)
    ensures b <==> exists i :: 0 <= i <= |hay| && OccursAt(hay, needle, i)
  {
    if needle <= hay then
      assert OccursAt(hay, needle, 0);
      true
    else if |hay| == 0 then
      false
    else
      var rest := Contains(hay[1..], needle);
      if rest then
        var i :| 0 <= i <= |hay[1..]| && OccursAt(hay[1..], needle, i);
        assert OccursAt(hay, needle, i + 1);
        true
      else
        assert forall i :: 1 <= i <= |hay| && OccursAt(hay, needle, i) ==> OccursAt(hay[1..], needle, i - 1);
        false
  }

  /** Case-insensitive containment, as a database ILIKE '%needle%' on ASCII text. */
  function ContainsInsensitive(hay: string, needle: string): (b: bool)
    ensures b <==> exists i :: 0 <= i <= |hay| && OccursAt(Lower(hay), Lower(needle), i)
  {
    Contains(Lower(hay), Lower(needle))
  }

  predicate IsDigit(c: char)
  {
    '0' <= c <= '9'
  }

  function DigitValue(c: char): (d: nat)
    requires IsDigit(c)
    ensures d < 10
  {
    c as int - '0' as int
  }

  function DigitChar(d: nat): (c: char)
    requires d < 10
    ensures IsDigit(c) && DigitValue(c) == d
  {
    ('0' as int + d) as char
  }

  /** The canonical decimal form of n: digits only, no leading zero. */
  function NatToString(n: nat): (r: string)
    ensures |r| > 0
    ensures forall i :: 0 <= i < |r| ==> IsDigit(r[i])
    ensures r[0] == '0' ==> n == 0 && |r| == 1
    decreases n
  {
    if n < 10 then [DigitChar(n)] else NatToString(n / 10) + [DigitChar(n % 10)]
  }

  /** The value of a string of decimal digits. */
  function DigitsValue(s: string): nat
    requires forall i :: 0 <= i < |s| ==> IsDigit(s[i])
  {
    if |s| == 0 then 0 else 10 * DigitsValue(s[..|s| - 1]) + DigitValue(s[|s| - 1])
  }

  /** Decimal rendering loses nothing: reading the digits back gives the number. */
  lemma {:induction false} NatToStringRoundTrip(n: nat)
    ensures DigitsValue(NatToString(n)) == n
    decreases n
  {
    if n >= 10 {
      var r := NatToString(n);
      assert r[..|r| - 1] == NatToString(n / 10);
      NatToStringRoundTrip(n / 10);
    }
  }

  /** Two numbers with the same decimal form are equal. */
  lemma NatToStringInjective(m: nat, n: nat)
    requires NatToString(m) == NatToString(n)
    ensures m == n
  {
    NatToStringRoundTrip(m);
    NatToStringRoundTrip(n);
  }

  /** An occurrence in a prefix is an occurrence in the whole string. */
  lemma OccursInPrefix(a: string, b: string, needle: string, i: int)
    requires OccursAt(a, needle, i)
    ensures OccursAt(a + b, needle, i)
  {
    assert (a + b)[i..i + |needle|] == a[i..i + |needle|];
  }

  /** Array.prototype.join: parts separated by sep. */
  function Join(parts: seq<string>, sep: string): (r: string)
    ensures |parts| == 1 ==> r == parts[0]
    ensures |parts| == 0 ==> r == ""
    ensures forall k :: 0 <= k < |parts| ==> Contains(r, parts[k])
  {
    if |parts| == 0 then ""
    else if |parts| == 1 then
      assert OccursAt(parts[0], parts[0], 0);
      parts[0]
    else
      var init := parts[..|parts| - 1];
      var prev := Join(init, sep);
      var r := prev + sep + parts[|parts| - 1];
      assert OccursAt(r, parts[|parts| - 1], |prev + sep|);
      assert forall k :: 0 <= k < |parts| - 1 ==> Contains(r, parts[k]) by {
        forall k | 0 <= k < |parts| - 1 ensures Contains(r, parts[k]) {
          assert Contains(prev, init[k]);
          var i :| 0 <= i <= |prev| && OccursAt(prev, init[k], i);
          OccursInPrefix(prev, sep + parts[|parts| - 1], init[k], i);
          assert prev + (sep + parts[|parts| - 1]) == r;
        }
      }
      r
  }
}
