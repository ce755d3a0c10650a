/** PHP's `rawurldecode`, which `parse` applies to a route declaration before splitting it.
    PHP strings are byte strings; here each character stands for one byte. */
module Url {

  /** `isxdigit`: an ASCII hexadecimal digit. */
  predicate IsHexDigit(ch: char)
  {
    '0' <= ch <= '9' || 'a' <= ch <= 'f' || 'A' <= ch <= 'F'
  }

  function HexValue(ch: char): (r: nat)
    requires IsHexDigit(ch)
    ensures r < 16
  {
    if '0' <= ch <= '9' then ch as nat - '0' as nat
    else if 'a' <= ch <= 'f' then ch as nat - 'a' as nat + 10
    else ch as nat - 'A' as nat + 10
  }

  /** A `%` followed by two hexadecimal digits stands for the byte they spell; every other
      character, a `%` without two digits after it included, is kept as it is. */
  function RawUrlDecode(s: string): (r: string)
    ensures |r| <= |s|
    decreases |s|
  {
    if |s| == 0 then ""
    else if s[0] == '%' && |s| >= 3 && IsHexDigit(s[1]) && IsHexDigit(s[2]) then
      [(HexValue(s[1]) * 16 + HexValue(s[2])) as char] + RawUrlDecode(s[3..])
    else
      [s[0]] + RawUrlDecode(s[1..])
  }

  /** A string without `%` decodes to itself. */
  lemma {:induction false} DecodeWithoutPercent(s: string)
    requires '%' !in s
    ensures RawUrlDecode(s) == s
    decreases |s|
  {
    if |s| > 0 {
      assert s[0] != '%';
      DecodeWithoutPercent(s[1..]);
      assert [s[0]] + s[1..] == s;
    }
  }

  /** Appending a character that is not a hexadecimal digit never completes an escape, so it
      passes through unchanged and the rest decodes as before. */
  lemma {:induction false} DecodeAppend(s: string, ch: char)
    requires !IsHexDigit(ch)
    ensures RawUrlDecode(s + [ch]) == RawUrlDecode(s) + [ch]
    decreases |s|
  {
    var t := s + [ch];
    if |s| == 0 {
      assert t == [ch];
      assert t[1..] == "";
    } else if s[0] == '%' && |s| >= 3 && IsHexDigit(s[1]) && IsHexDigit(s[2]) {
      assert t[..3] == s[..3];
      assert t[3..] == s[3..] + [ch];
      DecodeAppend(s[3..], ch);
    } else {
      assert t[0] == s[0];
      assert !(t[0] == '%' && |t| >= 3 && IsHexDigit(t[1]) && IsHexDigit(t[2])) by {
        if |s| < 3 && t[0] == '%' && |t| >= 3 {
          assert |s| == 2 && t[2] == ch;
        }
      }
      assert t[1..] == s[1..] + [ch];
      DecodeAppend(s[1..], ch);
    }
  }
}
