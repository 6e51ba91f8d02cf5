/** Character-level string helpers: PHP's `strtoupper`, JavaScript's
    `toLowerCase` (on the letters the pages use), and decimal numerals. */
module Text {
  import opened Wrappers

  /** `strtoupper` on one character: ASCII a-z to A-Z, anything else kept. */
  function UpperChar(ch: char): char {
    if 'a' <= ch <= 'z' then (ch as int - 32) as char else ch
  }

  predicate IsLowerAscii(ch: char) {
    'a' <= ch <= 'z'
  }

  /** `strtoupper`: ASCII letters upper-cased, every other character kept. */
  function ToUpper(s: string): (r: string)
    ensures |r| == |s|
    ensures forall i :: 0 <= i < |s| ==> !IsLowerAscii(r[i])
    ensures forall i :: 0 <= i < |s| ==> (r[i] == s[i] || (IsLowerAscii(s[i]) && r[i] as int == s[i] as int - 32))
  {
    seq(|s|, i requires 0 <= i < |s| => UpperChar(s[i]))
  }

  /** Upper-casing twice is upper-casing once; a string without lower-case
      ASCII letters is its own upper case. */
  lemma {:induction false} ToUpperIdempotent(s: string)
    ensures ToUpper(ToUpper(s)) == ToUpper(s)
    ensures (forall i :: 0 <= i < |s| ==> !IsLowerAscii(s[i])) ==> ToUpper(s) == s
  {
  }

  /** An upper-case letter: ASCII A-Z or Latin-1 À-Þ other than ×. */
  predicate IsUpperLetter(ch: char) {
    ('A' <= ch <= 'Z') || ('À' <= ch <= 'Þ' && ch != '×')
  }

  /** `toLowerCase` on one character, for ASCII and Latin-1 letters. */
  function LowerChar(ch: char): char {
    if IsUpperLetter(ch) then (ch as int + 32) as char else ch
  }

  function ToLower(s: string): (r: string)
    ensures |r| == |s|
    ensures forall i :: 0 <= i < |s| ==> !IsUpperLetter(r[i])
    ensures forall i :: 0 <= i < |s| ==> (r[i] == s[i] || (IsUpperLetter(s[i]) && r[i] as int == s[i] as int + 32))
  {
    seq(|s|, i requires 0 <= i < |s| => LowerChar(s[i]))
  }

  /** Lower-casing twice is lower-casing once, and text without an
      upper-case letter is left as it is. */
  lemma {:induction false} ToLowerIdempotent(s: string)
    ensures ToLower(ToLower(s)) == ToLower(s)
    ensures (forall i :: 0 <= i < |s| ==> !IsUpperLetter(s[i])) ==> ToLower(s) == s
  {
  }

  // ---------------------------------------------------------------------
  // Decimal numerals

  predicate IsDigitChar(ch: char) {
    '0' <= ch <= '9'
  }

  predicate AllDigits(s: string) {
    forall i :: 0 <= i < |s| ==> IsDigitChar(s[i])
  }

  function DigitChar(d: int): (ch: char)
    requires 0 <= d < 10
    ensures IsDigitChar(ch) && ch as int - '0' as int == d
  {
    ('0' as int + d) as char
  }

  /** The value of a numeral, reading its digits left to right. */
  function ParseDigits(s: string): nat
    requires AllDigits(s)
  {
    if |s| == 0 then 0
    else ParseDigits(s[..|s| - 1]) * 10 + (s[|s| - 1] as int - '0' as int)
  }

  /** The decimal numeral of `n`, without leading zeros, as JavaScript's
      template strings print a non-negative integer. */
  function NatToString(n: nat): (s: string)
    ensures AllDigits(s) && |s| >= 1
    ensures ParseDigits(s) == n
    ensures n < 10 ==> |s| == 1
    ensures 10 <= n < 100 ==> |s| == 2
    decreases n
  {
    if n < 10 then [DigitChar(n)]
    else
      var s := NatToString(n / 10) + [DigitChar(n % 10)];
      assert s[..|s| - 1] == NatToString(n / 10);
      s
  }

  // ---------------------------------------------------------------------
  // Truthiness

  /** PHP's truth value of a string: only "" and "0" are false. */
  predicate PhpTruthy(s: string) {
    s != "" && s != "0"
  }

  // ---------------------------------------------------------------------
  // trim

  /** A character PHP's `trim` strips by default: space, tab, line feed,
      carriage return, NUL and vertical tab. */
  predicate IsTrimChar(ch: char) {
    ch == ' ' || ch == '\t' || ch == '\n' || ch == '\r' || ch == '\0' || ch as int == 11
  }

  /** Every character is one `trim` strips (true of ""). */
  predicate AllTrimChars(s: string) {
    forall i :: 0 <= i < |s| ==> IsTrimChar(s[i])
  }

  /** Drops the leading strippable characters. */
  function TrimLeft(s: string): (r: string)
    ensures |r| <= |s| && r == s[|s| - |r|..]
    ensures forall i :: 0 <= i < |s| - |r| ==> IsTrimChar(s[i])
    ensures |r| > 0 ==> !IsTrimChar(r[0])
  {
    if |s| == 0 || !IsTrimChar(s[0]) then s else TrimLeft(s[1..])
  }

  /** Drops the trailing strippable characters. */
  function TrimRight(s: string): (r: string)
    ensures |r| <= |s| && r == s[..|r|]
    ensures forall i :: |r| <= i < |s| ==> IsTrimChar(s[i])
    ensures |r| > 0 ==> !IsTrimChar(r[|r| - 1])
  {
    if |s| == 0 || !IsTrimChar(s[|s| - 1]) then s else TrimRight(s[..|s| - 1])
  }

  /** PHP's `trim($s)`. */
  function Trim(s: string): string {
    TrimRight(TrimLeft(s))
  }

  /** `trim($s) === ''` exactly when every character of `s` is one `trim`
      strips. */
  lemma {:induction false} TrimEmptyIff(s: string)
    ensures Trim(s) == "" <==> AllTrimChars(s)
  {
    var l := TrimLeft(s);
    if |l| > 0 {
      assert !IsTrimChar(l[0]) && l[0] == s[|s| - |l|];
    }
  }

  /** PHP's `$x ?: $default` on an optional string. */
  function PhpElvis(x: Option<string>, default: string): (r: string)
    ensures x.Some? && PhpTruthy(x.value) ==> r == x.value
    ensures x.None? || !PhpTruthy(x.value) ==> r == default
  {
    if x.Some? && PhpTruthy(x.value) then x.value else default
  }
}
