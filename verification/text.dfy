/**
  String helpers shared by the pages: ASCII lower-casing, substring search,
  `String.prototype.trim`, splitting at the first separator and decimal
  rendering of integers (template-literal interpolation of a number).
 */
module Text {

  predicate IsUpperAscii(c: char) {
    'A' <= c <= 'Z'
  }

  /** `toLowerCase` restricted to ASCII: only `A`..`Z` change. */
  function LowerChar(c: char): (r: char)
    ensures IsUpperAscii(c) ==> r as int == c as int + 32
    ensures !IsUpperAscii(c) ==> r == c
    ensures !IsUpperAscii(r)
  {
    if IsUpperAscii(c) then (c as int + 32) as char else c
  }

  function Lower(s: string): (r: string)
    ensures |r| == |s|
    ensures forall i :: 0 <= i < |s| ==> r[i] == LowerChar(s[i])
  {
    seq(|s|, i requires 0 <= i < |s| => LowerChar(s[i]))
  }

  /** Lower-casing twice is lower-casing once. */
  lemma LowerIdempotent(s: string)
    ensures Lower(Lower(s)) == Lower(s)
  {
    assert forall i :: 0 <= i < |s| ==> LowerChar(LowerChar(s[i])) == LowerChar(s[i]);
  }

  /** `p` occurs in `s` starting at index `i`. */
  predicate OccursAt(s: string, p: string, i: int) {
    0 <= i <= |s| - |p| && s[i..i + |p|] == p
  }

  /** `s.includes(p)`: `p` occurs somewhere in `s`. */
  function Contains(s: string, p: string): (r: bool)
    ensures r <==> exists i :: OccursAt(s, p, i)
  {
    if p <= s then
      assert OccursAt(s, p, 0);
      true
    else if |s| == 0 then
      assert forall i :: !OccursAt(s, p, i);
      false
    else
      var r := Contains(s[1..], p);
      assert r ==> exists i :: OccursAt(s, p, i) by {
        if r {
          var i :| OccursAt(s[1..], p, i);
          OccursShift(s, p, i);
        }
      }
      assert forall i :: OccursAt(s, p, i) ==> r by {
        forall i | OccursAt(s, p, i)
          ensures r
        {
          if i != 0 {
            OccursShift(s, p, i - 1);
          }
        }
      }
      r
  }

  /** An occurrence in the tail is an occurrence one place further on in the whole. */
  lemma OccursShift(s: string, p: string, i: int)
    requires |s| > 0 && i >= 0
    ensures OccursAt(s[1..], p, i) <==> OccursAt(s, p, i + 1)
  {
    if i <= |s| - 1 - |p| {
      assert s[1..][i..i + |p|] == s[i + 1..i + 1 + |p|];
    }
  }

  /** Every string contains the empty string. */
  lemma ContainsEmpty(s: string)
    ensures Contains(s, "")
  {
    assert OccursAt(s, "", 0);
  }

  /**
    The characters `String.prototype.trim` removes: the ECMAScript
    WhiteSpace set (tab, vertical tab, form feed, space, no-break space,
    byte order mark and the Unicode space separators) and the line
    terminators.
   */
  predicate IsWhiteSpace(c: char) {
    || c == '\t' || c == '\n' || c == '\U{B}' || c == '\U{C}' || c == '\r'
    || c == ' ' || c == '\U{A0}' || c == '\U{1680}'
    || ('\U{2000}' <= c <= '\U{200A}')
    || c == '\U{2028}' || c == '\U{2029}' || c == '\U{202F}' || c == '\U{205F}'
    || c == '\U{3000}' || c == '\U{FEFF}'
  }

  /** Every character of `s` satisfies `p`. */
  predicate All(s: string, p: char -> bool) {
    forall i :: 0 <= i < |s| ==> p(s[i])
  }

  predicate AllWhiteSpace(s: string) {
    All(s, IsWhiteSpace)
  }

  /** `s` without its longest prefix of characters satisfying `p`. */
  function DropWhile(s: string, p: char -> bool): (r: string)
    ensures |r| <= |s| && r == s[|s| - |r|..]
    ensures All(s[..|s| - |r|], p)
    ensures r == [] || !p(r[0])
  {
    if |s| > 0 && p(s[0]) then DropWhile(s[1..], p) else s
  }

  /** `s` without its longest suffix of characters satisfying `p`. */
  function DropLastWhile(s: string, p: char -> bool): (r: string)
    ensures |r| <= |s| && r == s[..|r|]
    ensures All(s[|r|..], p)
    ensures r == [] || !p(r[|r| - 1])
  {
    if |s| > 0 && p(s[|s| - 1]) then
      var r := DropLastWhile(s[..|s| - 1], p);
      assert s[|r|..] == s[..|s| - 1][|r|..] + [s[|s| - 1]];
      r
    else
      s
  }

  /** `r` is the part of `s` from index `a` on, with only `p` characters around it. */
  predicate Surrounds(s: string, r: string, a: int, p: char -> bool) {
    0 <= a <= |s| - |r| && r == s[a..a + |r|] && All(s[..a], p) && All(s[a + |r|..], p)
  }

  /** `s` stripped of characters satisfying `p` at both ends. */
  function Strip(s: string, p: char -> bool): (r: string)
    ensures exists a :: Surrounds(s, r, a, p)
    ensures r == [] || (!p(r[0]) && !p(r[|r| - 1]))
  {
    var t := DropWhile(s, p);
    var r := DropLastWhile(t, p);
    StripParts(s, t, r, p);
    r
  }

  /** A suffix `t` of `s` past stripped characters, cut down to a prefix `r` before stripped ones, surrounds `r` in `s`. */
  lemma StripParts(s: string, t: string, r: string, p: char -> bool)
    requires |t| <= |s| && t == s[|s| - |t|..] && All(s[..|s| - |t|], p)
    requires |r| <= |t| && r == t[..|r|] && All(t[|r|..], p)
    ensures Surrounds(s, r, |s| - |t|, p)
  {
    var a := |s| - |t|;
    assert s[a..a + |r|] == t[..|r|];
    assert s[a + |r|..] == t[|r|..];
  }

  /** Dropping a prefix leaves nothing exactly when every character satisfies `p`. */
  lemma DropWhileEmpty(s: string, p: char -> bool)
    ensures DropWhile(s, p) == [] <==> All(s, p)
  {
    var r := DropWhile(s, p);
    if r != [] {
      assert r[0] == s[|s| - |r|];
    } else {
      assert s[..|s|] == s;
    }
  }

  /** Dropping a suffix leaves nothing exactly when every character satisfies `p`. */
  lemma DropLastWhileEmpty(s: string, p: char -> bool)
    ensures DropLastWhile(s, p) == [] <==> All(s, p)
  {
    var r := DropLastWhile(s, p);
    if r != [] {
      assert r[|r| - 1] == s[|r| - 1];
    } else {
      assert s[0..] == s;
    }
  }

  /** Stripping leaves nothing exactly when every character is stripped. */
  lemma StripEmpty(s: string, p: char -> bool)
    ensures Strip(s, p) == [] <==> All(s, p)
  {
    var t := DropWhile(s, p);
    DropWhileEmpty(s, p);
    DropLastWhileEmpty(t, p);
    if t != [] {
      assert !p(t[0]);
    }
  }

  /** A string with nothing to strip at either end is its own strip. */
  lemma StripFixed(s: string, p: char -> bool)
    requires s == [] || (!p(s[0]) && !p(s[|s| - 1]))
    ensures Strip(s, p) == s
  {
    assert DropWhile(s, p) == s;
  }

  /** `s.trim()`: `s` is `r` surrounded by white space, and `r` has none at either end. */
  function Trim(s: string): (r: string)
    ensures exists a, b :: 0 <= a <= b <= |s| && r == s[a..b] && AllWhiteSpace(s[..a]) && AllWhiteSpace(s[b..])
    ensures r == [] || (!IsWhiteSpace(r[0]) && !IsWhiteSpace(r[|r| - 1]))
  {
    Strip(s, IsWhiteSpace)
  }

  /** A string trims to nothing exactly when it is all white space (`!s.trim()` in the pages). */
  lemma TrimBlank(s: string)
    ensures Trim(s) == [] <==> AllWhiteSpace(s)
  {
    StripEmpty(s, IsWhiteSpace);
  }

  /** A string with no white space at either end trims to itself. */
  lemma TrimKeepsTrimmed(s: string)
    requires s == [] || (!IsWhiteSpace(s[0]) && !IsWhiteSpace(s[|s| - 1]))
    ensures Trim(s) == s
  {
    StripFixed(s, IsWhiteSpace);
  }

  /** Trimming twice is trimming once. */
  lemma TrimIdempotent(s: string)
    ensures Trim(Trim(s)) == Trim(s)
  {
    StripFixed(Trim(s), IsWhiteSpace);
  }

  /** `s.split(sep)[0]`: the part of `s` before the first `sep`, or all of `s`. */
  function BeforeFirst(s: string, sep: char): (r: string)
    ensures r <= s
    ensures sep !in r
    ensures |r| < |s| ==> s[|r|] == sep
  {
    if |s| == 0 || s[0] == sep then [] else [s[0]] + BeforeFirst(s[1..], sep)
  }

  /** A string without `sep`, followed by `sep`, is what `split(sep)[0]` gives back. */
  lemma BeforeFirstUpTo(a: string, sep: char, rest: string)
    requires sep !in a
    ensures BeforeFirst(a + [sep] + rest, sep) == a
  {
    var s := a + [sep] + rest;
    var r := BeforeFirst(s, sep);
    assert s[|a|] == sep;
    assert r == s[..|r|];
  }

  /** A space-free word, a space, and a non-empty rest: the word is the first field and the rest ends the string. */
  lemma FirstWordAndLast(n: string, rest: string)
    requires ' ' !in n && |rest| > 0
    ensures BeforeFirst(n + " " + rest, ' ') == n
    ensures (n + " " + rest)[|n + " " + rest| - 1] == rest[|rest| - 1]
  {
    BeforeFirstUpTo(n, ' ', rest);
  }

  /** Regrouping a four-part concatenation. */
  lemma ConcatAssoc3(a: string, b: string, c: string, d: string)
    ensures a + b + (c + d) == a + b + c + d
  {
  }

  function DigitChar(d: nat): (c: char)
    requires d < 10
    ensures '0' <= c <= '9'
  {
    ('0' as int + d) as char
  }

  function DigitValue(c: char): int {
    c as int - '0' as int
  }

  /** Decimal rendering of a natural number, most significant digit first, no leading zeros. */
  function NatToString(n: nat): (r: string)
    ensures |r| >= 1
    ensures forall i :: 0 <= i < |r| ==> '0' <= r[i] <= '9'
    ensures |r| > 1 ==> r[0] != '0'
  {
    if n < 10 then [DigitChar(n)] else NatToString(n / 10) + [DigitChar(n % 10)]
  }

  /** The number a string of decimal digits denotes. */
  function DecimalValue(s: string): int {
    if |s| == 0 then 0 else 10 * DecimalValue(s[..|s| - 1]) + DigitValue(s[|s| - 1])
  }

  /** Reading back the rendered digits gives the number again. */
  lemma {:induction false} NatToStringRoundTrip(n: nat)
    ensures DecimalValue(NatToString(n)) == n
  {
    if n >= 10 {
      NatToStringRoundTrip(n / 10);
      var s := NatToString(n);
      assert s[..|s| - 1] == NatToString(n / 10);
    }
  }

  /** `${n}` for an integer `n`: a minus sign for negatives, then the digits of `|n|`. */
  function IntToString(n: int): (r: string)
    ensures n >= 0 ==> r == NatToString(n)
    ensures n < 0 ==> r == "-" + NatToString(-n)
  {
    if n < 0 then "-" + NatToString(-n) else NatToString(n)
  }

  /** A rendered integer holds no space. */
  lemma IntToStringNoSpace(n: int)
    ensures ' ' !in IntToString(n)
  {
  }

  /** The rendering starts with a minus sign exactly for negatives. */
  lemma IntToStringSign(n: int)
    ensures |IntToString(n)| >= 1
    ensures IntToString(n)[0] == '-' <==> n < 0
  {
  }

  /** Distinct naturals render differently. */
  lemma NatToStringInjective(a: nat, b: nat)
    requires NatToString(a) == NatToString(b)
    ensures a == b
  {
    NatToStringRoundTrip(a);
    NatToStringRoundTrip(b);
  }

  /** Distinct integers render differently. */
  lemma IntToStringInjective(m: int, n: int)
    requires IntToString(m) == IntToString(n)
    ensures m == n
  {
    IntToStringSign(m);
    IntToStringSign(n);
    if m >= 0 && n >= 0 {
      NatToStringInjective(m, n);
    } else if m < 0 && n < 0 {
      var a, b := NatToString(-m), NatToString(-n);
      assert ("-" + a)[1..] == a;
      assert ("-" + b)[1..] == b;
      NatToStringInjective(-m, -n);
    }
  }
}
