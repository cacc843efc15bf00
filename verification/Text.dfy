/** Byte strings and the character classes of the C locale (`common/util.c`, `ctype.h`).
    A byte is represented by the character with that code. */
module Text {

  predicate IsSpace(c: char) { c == ' ' || '\t' <= c <= '\r' }

  predicate IsDigit(c: char) { '0' <= c <= '9' }

  predicate IsUpper(c: char) { 'A' <= c <= 'Z' }

  predicate IsLower(c: char) { 'a' <= c <= 'z' }

  predicate IsAlpha(c: char) { IsUpper(c) || IsLower(c) }

  function ToLower(c: char): char { if IsUpper(c) then c - 'A' + 'a' else c }

  function ToUpper(c: char): char { if IsLower(c) then c - 'a' + 'A' else c }

  const UPPER_CASE := "ABCDEFGHIJKLMNOPQRSTUVWXYZ"
  const LOWER_CASE := "abcdefghijklmnopqrstuvwxyz"

  /** White space and digits, byte by byte. */
  lemma SpacesAndDigits(c: char)
    ensures IsSpace(c) <==> c in {' ', '\t', '\n', '\U{0B}', '\U{0C}', '\r'}
    ensures IsDigit(c) <==> c in "0123456789"
  {
  }

  /** The letters, and each one's other case. */
  lemma Letters(i: nat)
    requires i < 26
    ensures IsUpper(UPPER_CASE[i]) && ToLower(UPPER_CASE[i]) == LOWER_CASE[i] && ToUpper(UPPER_CASE[i]) == UPPER_CASE[i]
    ensures IsLower(LOWER_CASE[i]) && ToUpper(LOWER_CASE[i]) == UPPER_CASE[i] && ToLower(LOWER_CASE[i]) == LOWER_CASE[i]
  {
  }

  /** Other bytes have no case. */
  lemma OtherBytes(c: char)
    ensures IsUpper(c) ==> c in UPPER_CASE
    ensures IsLower(c) ==> c in LOWER_CASE
    ensures (!IsUpper(c) ==> ToLower(c) == c) && (!IsLower(c) ==> ToUpper(c) == c)
  {
    if IsUpper(c) { assert UPPER_CASE[(c - 'A') as nat] == c; }
    if IsLower(c) { assert LOWER_CASE[(c - 'a') as nat] == c; }
  }

  /** `word` is `keyword` in any case: its letters, upper-cased one by one, spell it. */
  predicate Spelled(word: string, keyword: string) {
    |word| == |keyword| && forall i :: 0 <= i < |word| ==> ToUpper(word[i]) == keyword[i]
  }

  predicate Capitals(keyword: string) { forall i :: 0 <= i < |keyword| ==> IsUpper(keyword[i]) }

  /** For keywords in capitals, `strings_equal_ignore_case` means just this. */
  lemma SpelledIffEqual(word: string, keyword: string)
    requires Capitals(keyword)
    ensures EqualIgnoringCase(word, keyword) <==> Spelled(word, keyword)
  {
    if |word| == |keyword| {
      forall i | 0 <= i < |word| ensures ToLower(word[i]) == ToLower(keyword[i]) <==> ToUpper(word[i]) == keyword[i] {
        SameLetter(word[i], keyword[i]);
      }
    }
  }

  lemma SameLetter(c: char, k: char)
    requires IsUpper(k)
    ensures ToLower(c) == ToLower(k) <==> ToUpper(c) == k
    ensures ToUpper(c) == k ==> IsAlpha(c)
  {
  }

  /** The comparison may as well be made in upper case. */
  lemma EqualIffUpper(a: string, b: string)
    ensures EqualIgnoringCase(a, b) <==> |a| == |b| && forall i :: 0 <= i < |a| ==> ToUpper(a[i]) == ToUpper(b[i])
  {
    if |a| == |b| {
      forall i | 0 <= i < |a| ensures ToLower(a[i]) == ToLower(b[i]) <==> ToUpper(a[i]) == ToUpper(b[i]) {
        SameCase(a[i], b[i]);
      }
    }
  }

  lemma SameCase(c: char, d: char)
    ensures ToLower(c) == ToLower(d) <==> ToUpper(c) == ToUpper(d)
  {
  }

  lemma SpelledLetters(word: string, keyword: string)
    requires Capitals(keyword) && Spelled(word, keyword)
    ensures forall i :: 0 <= i < |word| ==> IsAlpha(word[i])
  {
    forall i | 0 <= i < |word| ensures IsAlpha(word[i]) { SameLetter(word[i], keyword[i]); }
  }

  /** `strings_equal_ignore_case` on strings without NUL. */
  predicate EqualIgnoringCase(a: string, b: string) {
    |a| == |b| && forall i :: 0 <= i < |a| ==> ToLower(a[i]) == ToLower(b[i])
  }

  function TrimLeft(s: string): (r: string)
    ensures |r| <= |s|
  {
    if s != "" && IsSpace(s[0]) then TrimLeft(s[1..]) else s
  }

  function TrimRight(s: string): string {
    if s != "" && IsSpace(s[|s| - 1]) then TrimRight(s[..|s| - 1]) else s
  }

  function Trim(s: string): string { TrimRight(TrimLeft(s)) }

  predicate AllSpace(s: string) { forall i :: 0 <= i < |s| ==> IsSpace(s[i]) }

  /** Text with no white space at either end. */
  predicate Tight(s: string) { s == "" || (!IsSpace(s[0]) && !IsSpace(s[|s| - 1])) }

  lemma {:induction false} TrimLeftSpace(a: string, s: string)
    requires AllSpace(a) && (s == "" || !IsSpace(s[0]))
    ensures TrimLeft(a + s) == s
    decreases |a|
  {
    if a == "" {
      assert a + s == s;
    } else {
      assert (a + s)[1..] == a[1..] + s;
      TrimLeftSpace(a[1..], s);
    }
  }

  lemma {:induction false} TrimRightSpace(s: string, b: string)
    requires AllSpace(b) && (s == "" || !IsSpace(s[|s| - 1]))
    ensures TrimRight(s + b) == s
    decreases |b|
  {
    if b == "" {
      assert s + b == s;
    } else {
      var n := |b| - 1;
      assert (s + b)[..|s| + n] == s + b[..n];
      TrimRightSpace(s, b[..n]);
    }
  }

  /** Trimming takes away the white space at both ends and nothing else. */
  lemma TrimMeans(a: string, s: string, b: string)
    requires AllSpace(a) && AllSpace(b) && Tight(s)
    ensures Trim(a + s + b) == s
  {
    hide TrimLeft, TrimRight;
    if s == "" {
      TrimLeftSpace(a + b, "");
      assert a + s + b == a + b + "";
      TrimRightSpace("", "");
      assert "" + "" == "";
    } else {
      assert a + s + b == a + (s + b);
      assert (s + b)[0] == s[0];
      TrimLeftSpace(a, s + b);
      TrimRightSpace(s, b);
    }
  }

  predicate IsLineEnd(c: char) { c == '\n' || c == '\r' }

  function StripLineEndings(s: string): string {
    if s != "" && IsLineEnd(s[|s| - 1]) then StripLineEndings(s[..|s| - 1]) else s
  }

  /** What a C function sees of a buffer: the bytes before the first NUL. */
  function CString(s: string): string {
    if s == "" || s[0] == '\0' then "" else [s[0]] + CString(s[1..])
  }

  lemma {:induction false} CStringWhole(s: string)
    requires '\0' !in s
    ensures CString(s) == s
  {
    if s != "" {
      CStringWhole(s[1..]);
    }
  }

  lemma {:induction false} CStringStops(s: string, rest: string)
    requires '\0' !in s
    ensures CString(s + ("\0" + rest)) == s
    decreases |s|
  {
    var all := s + ("\0" + rest);
    if s == "" {
      assert all == "\0" + rest;
    } else {
      assert all[1..] == s[1..] + ("\0" + rest) && s[0] in s;
      CStringStops(s[1..], rest);
    }
  }

  /** Appending a byte after a NUL does not change the C string. */
  lemma {:induction false} CStringAppend(s: string, c: char)
    requires c != '\0'
    ensures CString(s + [c]) == if '\0' in s then CString(s) else s + [c]
  {
    if s == "" {
      assert s + [c] == [c];
      assert CString([c]) == [c] + CString([c][1..]);
    } else {
      assert (s + [c])[1..] == s[1..] + [c];
      CStringAppend(s[1..], c);
    }
  }

  // ----- decimal numbers ----------------------------------------------------------------

  predicate AllDigits(s: string) { forall i :: 0 <= i < |s| ==> IsDigit(s[i]) }

  function DigitChar(d: nat): char
    requires d < 10
  {
    d as char + '0'
  }

  function DigitValue(c: char): nat
    requires IsDigit(c)
  {
    (c - '0') as nat
  }

  lemma DigitRoundTrip(d: nat)
    requires d < 10
    ensures IsDigit(DigitChar(d)) && DigitValue(DigitChar(d)) == d
  {
  }

  function DigitsValue(s: string): nat
    requires AllDigits(s)
  {
    if s == "" then 0 else DigitsValue(s[..|s| - 1]) * 10 + DigitValue(s[|s| - 1])
  }

  function Decimal(n: nat): string {
    (if n < 10 then "" else Decimal(n / 10)) + [DigitChar(n % 10)]
  }

  lemma {:induction false} DecimalDigits(n: nat)
    ensures AllDigits(Decimal(n)) && Decimal(n) != "" && DigitsValue(Decimal(n)) == n
  {
    hide DigitChar, DigitValue, IsDigit;
    DigitRoundTrip(n % 10);
    if n >= 10 {
      DecimalDigits(n / 10);
      DigitAdded(Decimal(n / 10), DigitChar(n % 10));
    } else {
      DigitAdded("", DigitChar(n));
    }
  }

  lemma DigitAdded(s: string, c: char)
    requires AllDigits(s) && IsDigit(c)
    ensures AllDigits(s + [c]) && DigitsValue(s + [c]) == DigitsValue(s) * 10 + DigitValue(c)
  {
    hide DigitValue, IsDigit;
    assert (s + [c])[..|s|] == s;
  }
}
