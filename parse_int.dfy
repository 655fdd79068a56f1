/** `parseInt(string, 16)` as ECMA-262 defines it: leading white space is skipped, one
    sign is taken, a "0x" or "0X" prefix is dropped, and the longest run of hexadecimal
    digits that follows is read; with no digit the result is NaN. */
module JsParseInt {
  import opened JsValues

  predicate IsHexDigit(c: char) {
    ('0' <= c <= '9') || ('a' <= c <= 'f') || ('A' <= c <= 'F')
  }

  predicate AllHex(s: string) {
    forall i :: 0 <= i < |s| ==> IsHexDigit(s[i])
  }

  function HexDigitValue(c: char): (d: nat)
    requires IsHexDigit(c)
    ensures d < 16
  {
    if '0' <= c <= '9' then (c as int) - ('0' as int)
    else if 'a' <= c <= 'f' then (c as int) - ('a' as int) + 10
    else (c as int) - ('A' as int) + 10
  }

  /** The upper-case digit for d, as CSS colours are written. */
  function HexChar(d: nat): (c: char)
    requires d < 16
    ensures IsHexDigit(c) && HexDigitValue(c) == d
  {
    "0123456789ABCDEF"[d]
  }

  function Pow16(k: nat): (p: nat)
    ensures p >= 1
  {
    if k == 0 then 1 else 16 * Pow16(k - 1)
  }

  /** The value of a string of hexadecimal digits, most significant first. */
  function ParseHex(s: string): (n: nat)
    requires AllHex(s)
    ensures n < Pow16(|s|)
  {
    if s == [] then 0
    else
      var front := ParseHex(s[..|s| - 1]);
      var last := HexDigitValue(s[|s| - 1]);
      assert front * 16 + last < Pow16(|s|) by {
        assert front + 1 <= Pow16(|s| - 1);
        assert (front + 1) * 16 <= Pow16(|s| - 1) * 16;
      }
      front * 16 + last
  }

  /** The w hexadecimal digits of n, most significant first. */
  function ToHex(n: nat, w: nat): (s: string)
    ensures |s| == w && AllHex(s)
  {
    if w == 0 then [] else ToHex(n / 16, w - 1) + [HexChar(n % 16)]
  }

  /** Reading back w digits written for a number below 16^w gives the number. */
  lemma {:induction false} ParseHexToHex(n: nat, w: nat)
    requires n < Pow16(w)
    ensures ParseHex(ToHex(n, w)) == n
  {
    if w > 0 {
      var s := ToHex(n, w);
      assert s[..w - 1] == ToHex(n / 16, w - 1);
      ParseHexToHex(n / 16, w - 1);
    }
  }

  /** The value of a concatenation of digit strings. */
  lemma {:induction false} ParseHexAppend(a: string, b: string)
    requires AllHex(a) && AllHex(b)
    ensures AllHex(a + b)
    ensures ParseHex(a + b) == ParseHex(a) * Pow16(|b|) + ParseHex(b)
    decreases |b|
  {
    assert AllHex(a + b) by {
      forall i | 0 <= i < |a + b| ensures IsHexDigit((a + b)[i]) {
        if i < |a| { assert (a + b)[i] == a[i]; } else { assert (a + b)[i] == b[i - |a|]; }
      }
    }
    if b != [] {
      var b' := b[..|b| - 1];
      var c := b[|b| - 1];
      assert (a + b)[..|a + b| - 1] == a + b';
      assert AllHex(b');
      ParseHexAppend(a, b');
      assert ParseHex(a + b) == ParseHex(a + b') * 16 + HexDigitValue(c);
      assert ParseHex(b) == ParseHex(b') * 16 + HexDigitValue(c);
      assert Pow16(|b|) == Pow16(|b'|) * 16;
      ShiftDigit(ParseHex(a), Pow16(|b'|), ParseHex(b'), HexDigitValue(c));
    } else {
      assert a + b == a;
    }
  }

  lemma ShiftDigit(x: int, p: int, y: int, d: int)
    ensures (x * p + y) * 16 + d == x * (p * 16) + (y * 16 + d)
  {
  }

  /** WhiteSpace and LineTerminator code points of ECMA-262: tab, vertical tab, form
      feed, the byte order mark, every space separator of Unicode (category Zs), line
      feed, carriage return, and the line and paragraph separators. */
  predicate IsJsWhitespace(c: char) {
    var u := c as int;
    u == 0x09 || u == 0x0B || u == 0x0C || u == 0xFEFF
    || u == 0x20 || u == 0xA0 || u == 0x1680 || (0x2000 <= u <= 0x200A)
    || u == 0x202F || u == 0x205F || u == 0x3000
    || u == 0x0A || u == 0x0D || u == 0x2028 || u == 0x2029
  }

  /** TrimString(s, start): the suffix of s after its leading white space. */
  function TrimStart(s: string): (r: string)
    ensures |r| <= |s| && r == s[|s| - |r|..]
    ensures forall i :: 0 <= i < |s| - |r| ==> IsJsWhitespace(s[i])
    ensures r == [] || !IsJsWhitespace(r[0])
  {
    if s != [] && IsJsWhitespace(s[0]) then
      var r := TrimStart(s[1..]);
      assert forall i :: 1 <= i < |s| - |r| ==> s[i] == s[1..][i - 1];
      r
    else s
  }

  /** The longest prefix of s made of hexadecimal digits. */
  function HexPrefix(s: string): (p: string)
    ensures p <= s && AllHex(p)
    ensures |p| == |s| || !IsHexDigit(s[|p|])
  {
    if s != [] && IsHexDigit(s[0]) then [s[0]] + HexPrefix(s[1..]) else []
  }

  /** The sign step of parseInt: whether the text starts with "-", and the text after
      one leading "-" or "+". */
  function StripSign(s: string): (signed: (bool, string))
    ensures signed.0 <==> s != [] && s[0] == '-'
    ensures var dropped := if s != [] && (s[0] == '-' || s[0] == '+') then 1 else 0;
      |signed.1| == |s| - dropped && signed.1 == s[dropped..]
  {
    if s != [] && (s[0] == '-' || s[0] == '+') then (s[0] == '-', s[1..]) else (false, s)
  }

  /** The radix-prefix step of parseInt with radix 16: a leading "0x" or "0X" is
      dropped. */
  function StripRadixPrefix(s: string): (r: string)
    ensures var dropped := if |s| >= 2 && s[..2] in ["0x", "0X"] then 2 else 0;
      |r| == |s| - dropped && r == s[dropped..]
  {
    if |s| >= 2 && s[0] == '0' && (s[1] == 'x' || s[1] == 'X') then
      assert s[..2] == "0x" || s[..2] == "0X";
      s[2..]
    else
      assert |s| >= 2 ==> s[..2] == [s[0], s[1]];
      s
  }

  /** The digit step of parseInt: the longest run of hexadecimal digits, NaN when
      there is none. */
  function ReadDigits(negative: bool, s: string): (x: Number)
    ensures x.NaN? <==> s == [] || !IsHexDigit(s[0])
  {
    var z := HexPrefix(s);
    if z == [] then NaN
    else Finite(if negative then -(ParseHex(z) as int) else ParseHex(z), 0)
  }

  /** parseInt(str, 16). */
  function ParseIntHex(str: string): (x: Number)
    ensures x.NaN? || (x.Finite? && x.e == 0)
  {
    var signed := StripSign(TrimStart(str));
    ReadDigits(signed.0, StripRadixPrefix(signed.1))
  }

  /** Text that starts with a digit and not with "0x" is read up to its first
      character that is not a hexadecimal digit. */
  lemma ParseIntHexUnprefixed(t: string)
    requires t != [] && IsHexDigit(t[0])
    requires |t| >= 2 && t[0] == '0' ==> t[1] != 'x' && t[1] != 'X'
    ensures ParseIntHex(t) == Finite(ParseHex(HexPrefix(t)), 0)
  {
    NotWhitespace(t);
    NoSign(t);
    NoRadixPrefix(t);
  }

  lemma NoSign(t: string)
    requires t != [] && IsHexDigit(t[0])
    ensures StripSign(t) == (false, t)
  {
    assert t[0] != '-' && t[0] != '+';
  }

  lemma NoRadixPrefix(t: string)
    requires t != [] && IsHexDigit(t[0])
    requires |t| >= 2 && t[0] == '0' ==> t[1] != 'x' && t[1] != 'X'
    ensures StripRadixPrefix(t) == t
  {
  }

  /** Text that starts with a hexadecimal digit has no leading white space. */
  lemma NotWhitespace(t: string)
    requires t != [] && IsHexDigit(t[0])
    ensures TrimStart(t) == t
  {
  }

  /** A string made only of hexadecimal digits is read whole. */
  lemma ParseIntHexDigits(s: string)
    requires s != [] && AllHex(s)
    ensures ParseIntHex(s) == Finite(ParseHex(s), 0)
  {
    assert |s| >= 2 ==> IsHexDigit(s[1]);
    ParseIntHexUnprefixed(s);
    HexPrefixAll(s);
  }

  /** Reading stops at the first character that is not a hexadecimal digit, unless a
      lone "0" before an "x" makes a "0x" prefix. */
  lemma ParseIntHexStops(s: string, rest: string)
    requires s != [] && AllHex(s)
    requires rest == [] || !IsHexDigit(rest[0])
    requires s == "0" ==> rest == [] || (rest[0] != 'x' && rest[0] != 'X')
    ensures ParseIntHex(s + rest) == Finite(ParseHex(s), 0)
  {
    var t := s + rest;
    assert t[0] == s[0];
    if |t| >= 2 && t[0] == '0' {
      if |s| >= 2 {
        assert t[1] == s[1];
      } else {
        assert s == "0" && t[1] == rest[0];
      }
    }
    ParseIntHexUnprefixed(t);
    HexPrefixOf(s, rest);
  }

  /** A "0x" or "0X" prefix is dropped before the digits are read. */
  lemma ParseIntHexZeroX(x: char, s: string)
    requires x == 'x' || x == 'X'
    requires s != [] && AllHex(s)
    ensures ParseIntHex(['0', x] + s) == Finite(ParseHex(s), 0)
  {
    var t := ['0', x] + s;
    assert t[0] == '0' && t[1] == x && t[2..] == s;
    assert TrimStart(t) == t;
    assert StripSign(t) == (false, t);
    assert StripRadixPrefix(t) == s;
    HexPrefixAll(s);
  }

  /** A leading minus sign negates the value read. */
  lemma ParseIntHexNegative(s: string)
    requires s != [] && AllHex(s)
    ensures ParseIntHex("-" + s) == Finite(-(ParseHex(s) as int), 0)
  {
    var t := "-" + s;
    assert t[0] == '-' && t[1..] == s;
    assert TrimStart(t) == t;
    assert StripSign(t) == (true, s);
    assert |s| >= 2 ==> IsHexDigit(s[1]);
    assert StripRadixPrefix(s) == s;
    HexPrefixAll(s);
  }

  lemma {:induction false} HexPrefixAll(s: string)
    requires AllHex(s)
    ensures HexPrefix(s) == s
  {
    if s != [] {
      HexPrefixAll(s[1..]);
    }
  }

  lemma {:induction false} HexPrefixOf(s: string, rest: string)
    requires AllHex(s)
    requires rest == [] || !IsHexDigit(rest[0])
    ensures HexPrefix(s + rest) == s
  {
    if s != [] {
      assert (s + rest)[1..] == s[1..] + rest;
      HexPrefixOf(s[1..], rest);
    } else {
      assert s + rest == rest;
    }
  }

  /** Text without a single hexadecimal digit, such as the empty string, reads as NaN. */
  lemma ParseIntHexNoDigit(t: string)
    requires forall i :: 0 <= i < |t| ==> !IsHexDigit(t[i])
    ensures ParseIntHex(t).NaN?
  {
    var w := StripSign(TrimStart(t)).1;
    assert w == t[|t| - |w|..];
    if w != [] {
      assert w[0] == t[|t| - |w|];
      assert StripRadixPrefix(w) == w;
    }
  }
}
