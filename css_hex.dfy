/**
 * Hexadecimal text as the plugin writes it and as a stylesheet reads it:
 * `Number.prototype.toString(16)` on a non-negative integer, its inverse,
 * and the escape rule of section 4.3.7 of CSS Syntax Module Level 3
 * ("consume an escaped code point"), which is how a browser reads the
 * `"\<hex>"` of a generated rule.
 */
module CssHex {
  import opened Base

  predicate IsHexDigit(c: char) {
    '0' <= c <= '9' || 'a' <= c <= 'f' || 'A' <= c <= 'F'
  }

  predicate IsLowerHex(s: string) {
    forall i :: 0 <= i < |s| ==> '0' <= s[i] <= '9' || 'a' <= s[i] <= 'f'
  }

  predicate AllHexDigits(s: string) {
    forall i :: 0 <= i < |s| ==> IsHexDigit(s[i])
  }

  function DigitValue(c: char): (v: nat)
    requires IsHexDigit(c)
    ensures v < 16
  {
    if '0' <= c <= '9' then c as int - '0' as int
    else if 'a' <= c <= 'f' then c as int - 'a' as int + 10
    else c as int - 'A' as int + 10
  }

  /** The lowercase digit for a value below 16. */
  function DigitChar(d: nat): (c: char)
    requires d < 16
    ensures IsHexDigit(c) && DigitValue(c) == d
    ensures '0' <= c <= '9' || 'a' <= c <= 'f'
    ensures c == '0' <==> d == 0
  {
    if d < 10 then ('0' as int + d) as char else ('a' as int + d - 10) as char
  }

  /** `n.toString(16)`: lowercase digits, most significant first, no padding. */
  function ToHex(n: nat): (s: string)
    ensures |s| >= 1 && IsLowerHex(s)
    ensures s[0] == '0' <==> n == 0
    decreases n
  {
    if n < 16 then [DigitChar(n)] else ToHex(n / 16) + [DigitChar(n % 16)]
  }

  /** The number a string of hexadecimal digits denotes (either case). */
  function HexValue(s: string): nat
    requires AllHexDigits(s)
  {
    if s == [] then 0 else HexValue(s[..|s| - 1]) * 16 + DigitValue(s[|s| - 1])
  }

  /** Reads a whole string as a hexadecimal number; fails on an empty string or a non-digit. */
  function ParseHex(s: string): Option<nat> {
    if s != [] && AllHexDigits(s) then Some(HexValue(s)) else None
  }

  /** Formatting then reading back gives the same number. */
  lemma {:induction false} HexRoundTrip(n: nat)
    ensures AllHexDigits(ToHex(n)) && HexValue(ToHex(n)) == n
    ensures ParseHex(ToHex(n)) == Some(n)
    decreases n
  {
    if n >= 16 {
      HexRoundTrip(n / 16);
      var s := ToHex(n);
      assert s[..|s| - 1] == ToHex(n / 16);
    }
  }

  /** A 16-bit code unit takes at most four digits, and at least one. */
  lemma {:induction false} HexOfCodeUnitIsShort(n: nat)
    requires n < 0x1_0000
    ensures 1 <= |ToHex(n)| <= 4
  {
    if n >= 16 {
      HexOfCodeUnitIsShortRec(n / 16, 3);
    }
  }

  lemma {:induction false} HexOfCodeUnitIsShortRec(n: nat, k: nat)
    requires 0 < k && n < Pow16(k)
    ensures |ToHex(n)| <= k
    decreases n
  {
    if n >= 16 {
      assert k > 1;
      HexOfCodeUnitIsShortRec(n / 16, k - 1);
    }
  }

  function Pow16(k: nat): (p: nat)
    ensures p >= 1
  {
    if k == 0 then 1 else 16 * Pow16(k - 1)
  }

  /** Whitespace after preprocessing (section 3.3 turns every newline form into '\n'). */
  predicate IsCssWhitespace(c: char) {
    c == '\n' || c == '\t' || c == ' '
  }

  /** Length of the run of hexadecimal digits at the start of `s`, capped at `max`. */
  function HexRunLength(s: string, max: nat): (k: nat)
    ensures k <= max && k <= |s|
    ensures AllHexDigits(s[..k])
    ensures k < max && k < |s| ==> !IsHexDigit(s[k])
  {
    if max == 0 || s == [] || !IsHexDigit(s[0]) then 0
    else
      var k := 1 + HexRunLength(s[1..], max - 1);
      assert s[..k] == [s[0]] + s[1..][..k - 1];
      k
  }

  /** The code point an escape yields and the text left after it. */
  datatype Escaped = Escaped(codePoint: nat, rest: string)

  /** The replacement character U+FFFD. */
  const Replacement: nat := 0xFFFD

  /**
   * Consume an escaped code point, starting just after the backslash:
   * up to six hex digits and one following whitespace; zero, a surrogate
   * or a value above U+10FFFF becomes U+FFFD; end of input gives U+FFFD;
   * any other character stands for itself.
   */
  function ConsumeEscape(s: string): Escaped {
    if s == [] then Escaped(Replacement, [])
    else if IsHexDigit(s[0]) then
      var k := HexRunLength(s, 6);
      var v := HexValue(s[..k]);
      var rest := s[k..];
      Escaped(if v == 0 || 0xD800 <= v <= 0xDFFF || v > 0x10FFFF then Replacement else v,
              if rest != [] && IsCssWhitespace(rest[0]) then rest[1..] else rest)
    else Escaped(s[0] as nat, s[1..])
  }

  lemma {:induction false} HexRunStopsAt(digits: string, tail: string, max: nat)
    requires AllHexDigits(digits) && |digits| <= max
    requires tail != [] && !IsHexDigit(tail[0])
    ensures HexRunLength(digits + tail, max) == |digits|
  {
    if digits != [] {
      assert (digits + tail)[1..] == digits[1..] + tail;
      HexRunStopsAt(digits[1..], tail, max - 1);
    }
  }

  /**
   * An escape written as `n.toString(16)` for a 16-bit value and closed by a
   * character that is neither a digit nor whitespace reads back as `n`,
   * except that 0 and the surrogates U+D800..U+DFFF read as U+FFFD.
   */
  lemma EscapeOfCodeUnit(n: nat, tail: string)
    requires n < 0x1_0000
    requires tail != [] && !IsHexDigit(tail[0]) && !IsCssWhitespace(tail[0])
    ensures ConsumeEscape(ToHex(n) + tail)
         == Escaped(if n == 0 || 0xD800 <= n <= 0xDFFF then Replacement else n, tail)
  {
    var h := ToHex(n);
    HexRoundTrip(n);
    HexOfCodeUnitIsShort(n);
    HexRunStopsAt(h, tail, 6);
    assert (h + tail)[..|h|] == h;
    assert (h + tail)[|h|..] == tail;
    assert (h + tail)[0] == h[0];
  }
}
