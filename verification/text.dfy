/** String operations the routes and the User schema rely on: JavaScript's `trim`, an ASCII
    `toLowerCase`, and decimal digit strings. */
module Text {

  /** The characters JavaScript's String.prototype.trim removes: WhiteSpace and LineTerminator. */
  predicate IsWhitespace(c: char)
  {
    || c == ' ' || c == '\t' || c == '\n' || c == '\r' || c == '\U{B}' || c == '\U{C}'
    || c == '\U{A0}' || c == '\U{1680}' || ('\U{2000}' <= c <= '\U{200A}')
    || c == '\U{2028}' || c == '\U{2029}' || c == '\U{202F}' || c == '\U{205F}'
    || c == '\U{3000}' || c == '\U{FEFF}'
  }

  predicate IsAsciiLetter(c: char)
  {
    'a' <= c <= 'z' || 'A' <= c <= 'Z'
  }

  predicate IsAsciiUpper(c: char)
  {
    'A' <= c <= 'Z'
  }

  predicate IsDigit(c: char)
  {
    '0' <= c <= '9'
  }

  predicate AllLetters(s: string)
  {
    forall i :: 0 <= i < |s| ==> IsAsciiLetter(s[i])
  }

  predicate AllDigits(s: string)
  {
    forall i :: 0 <= i < |s| ==> IsDigit(s[i])
  }

  /** Drops the leading whitespace. */
  function TrimStart(s: string): string
  {
    if s != [] && IsWhitespace(s[0]) then TrimStart(s[1..]) else s
  }

  /** TrimStart gives a suffix of `s` that does not start with whitespace, and everything it cuts
      off is whitespace. */
  lemma {:induction false} TrimStartShape(s: string)
    ensures var r := TrimStart(s);
      && |r| <= |s| && r == s[|s| - |r|..]
      && (r == [] || !IsWhitespace(r[0]))
      && forall i :: 0 <= i < |s| - |r| ==> IsWhitespace(s[i])
  {
    if s != [] && IsWhitespace(s[0]) {
      TrimStartShape(s[1..]);
      forall i | 1 <= i < |s| - |TrimStart(s)| ensures IsWhitespace(s[i]) {
        assert s[i] == s[1..][i - 1];
      }
    }
  }

  /** Drops the trailing whitespace. */
  function TrimEnd(s: string): string
  {
    if s != [] && IsWhitespace(s[|s| - 1]) then TrimEnd(s[..|s| - 1]) else s
  }

  /** TrimEnd gives a prefix of `s` that does not end with whitespace, and everything it cuts off
      is whitespace. */
  lemma {:induction false} TrimEndShape(s: string)
    ensures var r := TrimEnd(s);
      && |r| <= |s| && r == s[..|r|]
      && (r == [] || !IsWhitespace(r[|r| - 1]))
      && forall i :: |r| <= i < |s| ==> IsWhitespace(s[i])
  {
    if s != [] && IsWhitespace(s[|s| - 1]) {
      TrimEndShape(s[..|s| - 1]);
    }
  }

  /** String.prototype.trim, as applied by the validators' `trim()` sanitizer and by `trim: true` in a
      schema. */
  function Trim(s: string): string
  {
    TrimEnd(TrimStart(s))
  }

  /** The trim is no longer than `s` and neither starts nor ends with whitespace. */
  lemma TrimShape(s: string)
    ensures var r := Trim(s);
      |r| <= |s| && (r == [] || (!IsWhitespace(r[0]) && !IsWhitespace(r[|r| - 1])))
  {
    var t := TrimStart(s);
    TrimStartShape(s);
    TrimEndShape(t);
    var r := TrimEnd(t);
    if r != [] {
      assert r[0] == t[0];
    }
  }

  /** The trim is empty exactly when `s` is all whitespace, which is what `trim().notEmpty()` tests. */
  lemma TrimBlank(s: string)
    ensures Trim(s) == [] <==> forall i :: 0 <= i < |s| ==> IsWhitespace(s[i])
  {
    var t := TrimStart(s);
    TrimStartShape(s);
    TrimEndShape(t);
    if Trim(s) == [] {
      assert t == [];
    }
  }

  /** Each string of a list trimmed, as `trim: true` does to the elements of an array of strings. */
  function TrimEach(ss: seq<string>): (r: seq<string>)
    ensures |r| == |ss| && forall i :: 0 <= i < |ss| ==> r[i] == Trim(ss[i])
  {
    seq(|ss|, i requires 0 <= i < |ss| => Trim(ss[i]))
  }

  /** Trimming the elements of a list twice trims them once: stored tags are saved back unchanged. */
  lemma TrimEachIdempotent(ss: seq<string>)
    ensures TrimEach(TrimEach(ss)) == TrimEach(ss)
  {
    forall i | 0 <= i < |ss| ensures TrimEach(TrimEach(ss))[i] == TrimEach(ss)[i] {
      TrimIdempotent(ss[i]);
    }
  }

  /** A string that neither starts nor ends with whitespace is its own trim. */
  lemma TrimOfTrimmed(s: string)
    requires s == [] || (!IsWhitespace(s[0]) && !IsWhitespace(s[|s| - 1]))
    ensures Trim(s) == s
  {
  }

  /** Trimming twice is trimming once. */
  lemma TrimIdempotent(s: string)
    ensures Trim(Trim(s)) == Trim(s)
  {
    TrimShape(s);
    TrimOfTrimmed(Trim(s));
  }

  /** U+212A KELVIN SIGN: the one character outside ASCII whose lower case is an ASCII letter, 'k'. */
  const KelvinSign: char := '\U{212A}'

  /** A character that lower-casing turns into an ASCII letter other than itself. */
  predicate LowersToAscii(c: char)
  {
    IsAsciiUpper(c) || c == KelvinSign
  }

  /** `toLowerCase` of one character, on the characters whose lower case is ASCII: 'A'..'Z' and
      the Kelvin sign. Every other character is left as it is. */
  function LowerChar(c: char): (d: char)
    ensures IsWhitespace(d) <==> IsWhitespace(c)
    ensures !LowersToAscii(d)
    ensures LowersToAscii(c) ==> IsAsciiLetter(d) && d != c
    ensures !LowersToAscii(c) ==> d == c
  {
    if IsAsciiUpper(c) then (c as int + 32) as char
    else if c == KelvinSign then 'k'
    else c
  }

  /** `toLowerCase`, on the characters whose lower case is ASCII. */
  function ToLower(s: string): (r: string)
    ensures |r| == |s|
  {
    if s == [] then [] else [LowerChar(s[0])] + ToLower(s[1..])
  }

  /** ToLower maps every character by LowerChar, so no character that lower-cases to ASCII is left. */
  lemma {:induction false} ToLowerChars(s: string)
    ensures forall i :: 0 <= i < |s| ==> ToLower(s)[i] == LowerChar(s[i])
    ensures forall i :: 0 <= i < |s| ==> !LowersToAscii(ToLower(s)[i])
  {
    if s != [] {
      ToLowerChars(s[1..]);
      forall i | 1 <= i < |s| ensures ToLower(s)[i] == LowerChar(s[i]) {
        assert ToLower(s)[i] == ToLower(s[1..])[i - 1];
      }
    }
  }

  /** Lower-casing a string without characters that lower-case to ASCII changes nothing. */
  lemma ToLowerOfLower(s: string)
    requires forall i :: 0 <= i < |s| ==> !LowersToAscii(s[i])
    ensures ToLower(s) == s
  {
    ToLowerChars(s);
  }

  /** The character for a decimal digit. */
  function DigitChar(d: nat): (c: char)
    requires d < 10
    ensures IsDigit(c) && c as int - '0' as int == d
  {
    ('0' as int + d) as char
  }

  /** `Number.prototype.toString()` of a natural number: its decimal digits, most significant first,
      without leading zeros. */
  function DecimalString(n: nat): (s: string)
    ensures |s| >= 1 && AllDigits(s)
    ensures n >= 10 ==> s[0] != '0'
  {
    if n < 10 then [DigitChar(n)] else DecimalString(n / 10) + [DigitChar(n % 10)]
  }

  /** The number a string of decimal digits denotes. */
  function DecimalValue(s: string): nat
    requires AllDigits(s)
  {
    if s == [] then 0 else DecimalValue(s[..|s| - 1]) * 10 + (s[|s| - 1] as int - '0' as int)
  }

  /** Reading back a printed number gives the number. */
  lemma {:induction false} DecimalRoundTrip(n: nat)
    ensures DecimalValue(DecimalString(n)) == n
  {
    var s := DecimalString(n);
    if n >= 10 {
      DecimalRoundTrip(n / 10);
      assert s[..|s| - 1] == DecimalString(n / 10);
    }
  }

  /** A positive number with k digits, 10^(k-1) <= n < 10^k, prints as k characters. */
  lemma {:induction false} DecimalLength(n: nat, k: nat)
    requires Pow10(k) <= n * 10 < Pow10(k + 1)
    ensures |DecimalString(n)| == k
  {
    if n >= 10 {
      DecimalLength(n / 10, k - 1);
    }
  }

  function Pow10(k: nat): (p: nat)
    ensures p >= 1
  {
    if k == 0 then 1 else 10 * Pow10(k - 1)
  }
}
