/** The C library text routines the firmware relies on, over `seq<char>`:
    NUL-terminated buffers, `strncpy`, `atoi`, `itoa` (base 10) and the
    case folding of Arduino's `String::equalsIgnoreCase`. */
module CText {

  const NUL: char := 0 as char

  /** The C string held in a buffer: everything before the first NUL. */
  function CStr(buf: seq<char>): (s: seq<char>)
    ensures |s| <= |buf|
    ensures s == buf[..|s|]
    ensures NUL !in s
    ensures |s| < |buf| ==> buf[|s|] == NUL
  {
    if |buf| == 0 || buf[0] == NUL then []
    else [buf[0]] + CStr(buf[1..])
  }

  /** `strncpy(dst, src, n)` into an `n`-byte buffer: the C string of `src`,
      cut at `n` bytes, with the rest of the buffer filled with NULs. */
  function StrNCpy(src: seq<char>, n: nat): (buf: seq<char>)
    ensures |buf| == n
    ensures forall k :: 0 <= k < n && k < |CStr(src)| ==> buf[k] == src[k]
    ensures forall k :: |CStr(src)| <= k < n ==> buf[k] == NUL
  {
    var s := CStr(src);
    if |s| >= n then s[..n] else s + seq(n - |s|, _ => NUL)
  }

  /** A buffer holds exactly one C string: any NUL-free prefix that is
      followed by a NUL (or by the end) is it. */
  lemma {:induction false} CStrUnique(buf: seq<char>, p: seq<char>)
    requires |p| <= |buf| && p == buf[..|p|] && NUL !in p
    requires |p| < |buf| ==> buf[|p|] == NUL
    ensures CStr(buf) == p
    decreases |p|
  {
    if |p| > 0 {
      assert buf[0] == p[0];
      assert p[1..] == buf[1..][..|p| - 1];
      CStrUnique(buf[1..], p[1..]);
      assert [p[0]] + p[1..] == p;
    }
  }

  /** Text without a NUL is its own C string. */
  lemma CStrOfNulFree(s: seq<char>)
    requires NUL !in s
    ensures CStr(s) == s
  {
    CStrUnique(s, s);
  }

  /** Copying a string that fits into a larger buffer keeps it. */
  lemma CStrOfStrNCpy(src: seq<char>, n: nat)
    ensures |CStr(src)| < n ==> CStr(StrNCpy(src, n)) == CStr(src)
  {
    if |CStr(src)| < n {
      var buf := StrNCpy(src, n);
      var p := CStr(src);
      assert p == buf[..|p|];
      CStrUnique(buf, p);
    }
  }

  predicate IsDigit(c: char) { '0' <= c <= '9' }

  /** `isspace` in the C locale. */
  predicate IsSpace(c: char) { c == ' ' || 9 <= c as int <= 13 }

  function DigitValue(c: char): (d: nat)
    requires IsDigit(c)
    ensures d < 10
  {
    c as int - '0' as int
  }

  function DigitChar(d: nat): (c: char)
    requires d < 10
    ensures IsDigit(c) && DigitValue(c) == d
  {
    ('0' as int + d) as char
  }

  predicate AllDigits(s: seq<char>) { forall k :: 0 <= k < |s| ==> IsDigit(s[k]) }

  /** The value of a run of decimal digits, most significant first. */
  function DigitsValue(s: seq<char>): nat
    requires AllDigits(s)
  {
    if |s| == 0 then 0 else DigitsValue(s[..|s| - 1]) * 10 + DigitValue(s[|s| - 1])
  }

  /** The longest prefix made of decimal digits. */
  function LeadingDigits(s: seq<char>): (d: seq<char>)
    ensures AllDigits(d)
    ensures |d| <= |s| && d == s[..|d|]
    ensures |d| < |s| ==> !IsDigit(s[|d|])
  {
    if |s| == 0 || !IsDigit(s[0]) then [] else [s[0]] + LeadingDigits(s[1..])
  }

  function SkipSpaces(s: seq<char>): (t: seq<char>)
    ensures |t| <= |s| && t == s[|s| - |t|..]
    ensures |t| > 0 ==> !IsSpace(t[0])
  {
    if |s| > 0 && IsSpace(s[0]) then SkipSpaces(s[1..]) else s
  }

  /** C `atoi`: leading white space, an optional sign, then as many decimal
      digits as follow; anything else ends the number, and no digits give 0. */
  function Atoi(s: seq<char>): int
  {
    var t := SkipSpaces(s);
    if |t| > 0 && t[0] == '-' then 0 - DigitsValue(LeadingDigits(t[1..]))
    else if |t| > 0 && t[0] == '+' then DigitsValue(LeadingDigits(t[1..]))
    else DigitsValue(LeadingDigits(t))
  }

  /** The shortest decimal text of a natural number. */
  function Digits(n: nat): (s: seq<char>)
    ensures 0 < |s| && AllDigits(s)
    decreases n
  {
    if n < 10 then [DigitChar(n)] else Digits(n / 10) + [DigitChar(n % 10)]
  }

  /** `itoa(v, buf, 10)`: a leading '-' for negative values, then the digits. */
  function Itoa(v: int): (s: seq<char>)
    ensures 0 < |s|
    ensures v < 0 <==> s[0] == '-'
  {
    if v < 0 then "-" + Digits(-v) else Digits(v)
  }

  lemma {:induction false} DigitsValueOfDigits(n: nat)
    ensures DigitsValue(Digits(n)) == n
    decreases n
  {
    if n >= 10 {
      var s := Digits(n);
      assert s[..|s| - 1] == Digits(n / 10);
      DigitsValueOfDigits(n / 10);
    }
  }

  lemma {:induction false} LeadingDigitsOfDigits(s: seq<char>)
    requires AllDigits(s)
    ensures LeadingDigits(s) == s
    decreases |s|
  {
    if |s| > 0 {
      LeadingDigitsOfDigits(s[1..]);
    }
  }

  /** The digit run of a text that starts with digits ends at the first
      non-digit. */
  lemma {:induction false} LeadingDigitsAppend(d: seq<char>, rest: seq<char>)
    requires AllDigits(d)
    requires |rest| == 0 || !IsDigit(rest[0])
    ensures LeadingDigits(d + rest) == d
    decreases |d|
  {
    if |d| == 0 {
      assert d + rest == rest;
    } else {
      assert (d + rest)[1..] == d[1..] + rest;
      LeadingDigitsAppend(d[1..], rest);
    }
  }

  /** `atoi` of a digit run followed by anything that is not a digit is the
      run's value. */
  lemma AtoiDigitsThen(d: seq<char>, rest: seq<char>)
    requires 0 < |d| && AllDigits(d)
    requires |rest| == 0 || !IsDigit(rest[0])
    ensures Atoi(d + rest) == DigitsValue(d)
  {
    assert (d + rest)[0] == d[0];
    assert SkipSpaces(d + rest) == d + rest;
    LeadingDigitsAppend(d, rest);
  }

  /** `atoi` reads back exactly the number `itoa` wrote. */
  lemma AtoiItoa(v: int)
    ensures Atoi(Itoa(v)) == v
  {
    var s := Itoa(v);
    assert SkipSpaces(s) == s;
    if v < 0 {
      assert s[1..] == Digits(-v);
      LeadingDigitsOfDigits(Digits(-v));
      DigitsValueOfDigits(-v);
    } else {
      LeadingDigitsOfDigits(Digits(v));
      DigitsValueOfDigits(v);
    }
  }

  /** ASCII `tolower`. */
  function ToLower(c: char): (l: char)
    ensures 'A' <= c <= 'Z' ==> 'a' <= l <= 'z' && l as int - c as int == 32
    ensures !('A' <= c <= 'Z') ==> l == c
  {
    if 'A' <= c <= 'Z' then (c as int + 32) as char else c
  }

  /** `String::equalsIgnoreCase`: same length and equal after `tolower`. */
  predicate EqualsIgnoreCase(a: seq<char>, b: seq<char>)
  {
    |a| == |b| && forall k :: 0 <= k < |a| ==> ToLower(a[k]) == ToLower(b[k])
  }

  function Lower(s: seq<char>): (l: seq<char>)
    ensures |l| == |s| && forall k :: 0 <= k < |s| ==> l[k] == ToLower(s[k])
  {
    seq(|s|, k requires 0 <= k < |s| => ToLower(s[k]))
  }

  /** Against a text without capitals, a case-insensitive match is an exact
      match of the folded text. */
  lemma EqualsIgnoreCaseLower(a: seq<char>, lowerWord: seq<char>)
    requires Lower(lowerWord) == lowerWord
    ensures EqualsIgnoreCase(a, lowerWord) <==> Lower(a) == lowerWord
  {
    if EqualsIgnoreCase(a, lowerWord) {
      forall k | 0 <= k < |a| ensures Lower(a)[k] == lowerWord[k] {
        assert ToLower(lowerWord[k]) == Lower(lowerWord)[k];
      }
    }
    if Lower(a) == lowerWord {
      forall k | 0 <= k < |a| ensures ToLower(a[k]) == ToLower(lowerWord[k]) {
        assert ToLower(lowerWord[k]) == Lower(lowerWord)[k];
      }
    }
  }
}
