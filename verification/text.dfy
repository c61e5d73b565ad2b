/**
 * The string operations the controllers call: white-space tests and trimming,
 * case folding, substring search, ordinal ordering, UTF-16 length and the
 * decimal rendering of an integer. White space and case are ASCII: .NET's
 * Unicode white space, culture case mappings and database collations are not
 * modelled.
 */
module Text {

  /** The ASCII white-space characters (space, tab, line feed, vertical tab, form feed, carriage return). */
  predicate IsWhiteSpace(c: char) {
    c == ' ' || c == '\t' || c == '\n' || c == '\U{0B}' || c == '\U{0C}' || c == '\r'
  }

  /** `string.IsNullOrWhiteSpace`; null is modelled as the empty string. */
  predicate IsBlank(s: string) {
    forall i :: 0 <= i < |s| ==> IsWhiteSpace(s[i])
  }

  /** `TrimStart()`: the suffix left after dropping leading white space. */
  function TrimStart(s: string): (r: string)
    ensures |r| <= |s| && r == s[|s| - |r|..]
    ensures forall i :: 0 <= i < |s| - |r| ==> IsWhiteSpace(s[i])
    ensures r == [] || !IsWhiteSpace(r[0])
  {
    if |s| > 0 && IsWhiteSpace(s[0]) then TrimStart(s[1..]) else s
  }

  /** `TrimEnd()`: the prefix left after dropping trailing white space. */
  function TrimEnd(s: string): (r: string)
    ensures |r| <= |s| && r == s[..|r|]
    ensures forall i :: |r| <= i < |s| ==> IsWhiteSpace(s[i])
    ensures r == [] || !IsWhiteSpace(r[|r| - 1])
  {
    if |s| > 0 && IsWhiteSpace(s[|s| - 1]) then TrimEnd(s[..|s| - 1]) else s
  }

  /**
   * `Trim()`: the slice of `s` left once the white space before and after it
   * is dropped; it starts and ends with a non-blank character, and is empty
   * exactly when `s` is blank.
   */
  function Trim(s: string): (r: string)
    ensures Contains(s, r)
    ensures exists i :: PaddedAt(s, r, i)
    ensures r == [] <==> IsBlank(s)
    ensures r == [] || (!IsWhiteSpace(r[0]) && !IsWhiteSpace(r[|r| - 1]))
  {
    var a := TrimStart(s);
    var r := TrimEnd(a);
    TrimPadded(s, a, r);
    PaddedFacts(s, r, |s| - |a|);
    r
  }

  /** A suffix after white space, cut before white space, is padded by white space only. */
  lemma TrimPadded(s: string, a: string, r: string)
    requires |a| <= |s| && a == s[|s| - |a|..]
    requires forall k :: 0 <= k < |s| - |a| ==> IsWhiteSpace(s[k])
    requires |r| <= |a| && r == a[..|r|]
    requires forall k :: |r| <= k < |a| ==> IsWhiteSpace(a[k])
    ensures PaddedAt(s, r, |s| - |a|)
  {
    var i := |s| - |a|;
    assert OccursAt(s, r, i) by {
      assert r == a[..|r|];
      assert a == s[i..];
    }
    forall j | i + |r| <= j < |s|
      ensures IsWhiteSpace(s[j])
    {
      assert s[j] == a[j - i];
    }
  }

  /** Whatever is padded only by white space occurs in `s`, and is empty exactly when `s` is blank, if it starts with a non-blank. */
  lemma PaddedFacts(s: string, r: string, i: int)
    requires PaddedAt(s, r, i)
    requires r == [] || !IsWhiteSpace(r[0])
    ensures Contains(s, r)
    ensures r == [] <==> IsBlank(s)
  {
    if r != [] {
      assert s[i] == r[0];
    } else {
      forall j | 0 <= j < |s|
        ensures IsWhiteSpace(s[j])
      {
      }
    }
  }

  /** `r` occurs in `s` at index `i` with nothing but white space before and after it. */
  predicate PaddedAt(s: string, r: string, i: int) {
    && OccursAt(s, r, i)
    && (forall j | 0 <= j < i :: IsWhiteSpace(s[j]))
    && (forall j | i + |r| <= j < |s| :: IsWhiteSpace(s[j]))
  }

  /**
   * `string.Length`: the number of UTF-16 code units, one for a character of
   * the Basic Multilingual Plane and two (a surrogate pair) for any other.
   */
  function Utf16Length(s: string): (n: nat)
    ensures |s| <= n <= 2 * |s|
  {
    if |s| == 0 then 0
    else (if s[0] as int < 0x1_0000 then 1 else 2) + Utf16Length(s[1..])
  }

  /** Within the Basic Multilingual Plane, `string.Length` counts characters. */
  lemma {:induction false} BmpLength(s: string)
    requires forall i | 0 <= i < |s| :: s[i] as int < 0x1_0000
    ensures Utf16Length(s) == |s|
  {
    if |s| > 0 {
      assert forall i | 0 <= i < |s[1..]| :: s[1..][i] == s[i + 1];
      BmpLength(s[1..]);
    }
  }

  /** A character outside the Basic Multilingual Plane counts twice. */
  lemma SupplementaryCountsTwice()
    ensures |"\U{1F600}"| == 1 && Utf16Length("\U{1F600}") == 2
  {
  }

  /** `n` occurs in `s` starting at index `i`. */
  predicate OccursAt(s: string, n: string, i: int) {
    0 <= i <= |s| - |n| && s[i..i + |n|] == n
  }

  /** `s.Contains(n)`: ordinal substring search. */
  predicate Contains(s: string, n: string) {
    exists i | 0 <= i <= |s| - |n| :: OccursAt(s, n, i)
  }

  function ToLowerChar(c: char): char {
    if 'A' <= c <= 'Z' then (c as int + 32) as char else c
  }

  function ToUpperChar(c: char): char {
    if 'a' <= c <= 'z' then (c as int - 32) as char else c
  }

  /** `ToLower()`, ASCII letters only. */
  function ToLower(s: string): string {
    seq(|s|, i requires 0 <= i < |s| => ToLowerChar(s[i]))
  }

  /** `ToUpper()`, ASCII letters only. */
  function ToUpper(s: string): string {
    seq(|s|, i requires 0 <= i < |s| => ToUpperChar(s[i]))
  }

  lemma CharFoldsAgree(a: char, b: char)
    ensures ToLowerChar(a) == ToLowerChar(b) <==> ToUpperChar(a) == ToUpperChar(b)
  {
  }

  /**
   * Comparing lower-cased forms (the user lookups) and upper-cased forms (the
   * customer checks) decide the same case-insensitive equality.
   */
  lemma {:induction false} FoldsAgree(a: string, b: string)
    ensures ToLower(a) == ToLower(b) <==> ToUpper(a) == ToUpper(b)
  {
    if |a| == |b| {
      if ToLower(a) == ToLower(b) {
        forall i | 0 <= i < |a|
          ensures ToUpper(a)[i] == ToUpper(b)[i]
        {
          assert ToLower(a)[i] == ToLower(b)[i];
          CharFoldsAgree(a[i], b[i]);
        }
      }
      if ToUpper(a) == ToUpper(b) {
        forall i | 0 <= i < |a|
          ensures ToLower(a)[i] == ToLower(b)[i]
        {
          assert ToUpper(a)[i] == ToUpper(b)[i];
          CharFoldsAgree(a[i], b[i]);
        }
      }
    } else {
      assert |ToLower(a)| != |ToLower(b)|;
      assert |ToUpper(a)| != |ToUpper(b)|;
    }
  }

  /** Ordinal lexicographic order on strings: a prefix sorts first. */
  predicate StrLe(a: string, b: string) {
    |a| == 0 || (|b| > 0 && (a[0] < b[0] || (a[0] == b[0] && StrLe(a[1..], b[1..]))))
  }

  lemma {:induction false} StrLeTotal(a: string, b: string)
    ensures StrLe(a, b) || StrLe(b, a)
  {
    if |a| > 0 && |b| > 0 && a[0] == b[0] {
      StrLeTotal(a[1..], b[1..]);
    }
  }

  lemma {:induction false} StrLeTransitive(a: string, b: string, c: string)
    requires StrLe(a, b) && StrLe(b, c)
    ensures StrLe(a, c)
  {
    if |a| > 0 && a[0] == b[0] && b[0] == c[0] {
      StrLeTransitive(a[1..], b[1..], c[1..]);
    }
  }

  predicate IsDigit(c: char) {
    '0' <= c <= '9'
  }

  predicate AllDigits(s: string) {
    forall i :: 0 <= i < |s| ==> IsDigit(s[i])
  }

  function DigitChar(d: int): (c: char)
    requires 0 <= d < 10
    ensures IsDigit(c) && DigitValue(c) == d
  {
    ('0' as int + d) as char
  }

  function DigitValue(c: char): int
    requires IsDigit(c)
  {
    c as int - '0' as int
  }

  /** Decimal digits of `n`, most significant first, without leading zeros. */
  function NatToString(n: nat): (r: string)
    ensures |r| >= 1 && AllDigits(r)
    decreases n
  {
    if n < 10 then [DigitChar(n)] else NatToString(n / 10) + [DigitChar(n % 10)]
  }

  /** `int.ToString()` in the invariant culture. */
  function IntToString(n: int): (r: string)
    ensures IsNumeral(r)
  {
    if n < 0 then "-" + NatToString(-n) else NatToString(n)
  }

  /** An optional minus sign followed by at least one digit. */
  predicate IsNumeral(s: string) {
    (|s| > 0 && AllDigits(s)) || (|s| > 1 && s[0] == '-' && AllDigits(s[1..]))
  }

  function ParseNat(s: string): nat
    requires AllDigits(s)
  {
    if |s| == 0 then 0 else 10 * ParseNat(s[..|s| - 1]) + DigitValue(s[|s| - 1])
  }

  /** `int.Parse` of a numeral. */
  function ParseInt(s: string): int
    requires IsNumeral(s)
  {
    if AllDigits(s) then ParseNat(s) else -(ParseNat(s[1..]) as int)
  }

  lemma {:induction false} NatRoundTrip(n: nat)
    ensures ParseNat(NatToString(n)) == n
    decreases n
  {
    if n >= 10 {
      var s := NatToString(n);
      assert s[..|s| - 1] == NatToString(n / 10);
      NatRoundTrip(n / 10);
    }
  }

  /** Reading back the rendered id gives the id: the identifier claim determines the user's key. */
  lemma IntRoundTrip(n: int)
    ensures ParseInt(IntToString(n)) == n
  {
    var s := IntToString(n);
    if n < 0 {
      assert !IsDigit(s[0]);
      assert s[1..] == NatToString(-n);
      NatRoundTrip(-n);
    } else {
      NatRoundTrip(n);
    }
  }
}
