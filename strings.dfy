/**
  The parts of Rust's string library that the coordinate parser relies on:
  `char::is_whitespace` and `str::trim`, the UTF-8 length `str::len`, and
  `str::parse::<u32>`. Characters are Unicode scalar values.
*/
module Strings {

  datatype Option<T> = None | Some(value: T)

  const U32_MAX: nat := 0xFFFF_FFFF

  /** `char::is_whitespace`: the characters with the Unicode White_Space property. */
  predicate IsWhitespace(c: char) {
    var n := c as int;
    (0x09 <= n <= 0x0D) || n == 0x20 || n == 0x85 || n == 0xA0 || n == 0x1680
    || (0x2000 <= n <= 0x200A) || n == 0x2028 || n == 0x2029 || n == 0x202F
    || n == 0x205F || n == 0x3000
  }

  /** `str::trim_start`: drops the leading whitespace. */
  function TrimStart(s: string): (r: string)
    ensures |r| <= |s| && r == s[|s| - |r|..]
    ensures forall k :: 0 <= k < |s| - |r| ==> IsWhitespace(s[k])
    ensures r != [] ==> !IsWhitespace(r[0])
  {
    if s != [] && IsWhitespace(s[0]) then TrimStart(s[1..]) else s
  }

  /** `str::trim_end`: drops the trailing whitespace. */
  function TrimEnd(s: string): (r: string)
    ensures |r| <= |s| && r == s[..|r|]
    ensures forall k :: |r| <= k < |s| ==> IsWhitespace(s[k])
    ensures r != [] ==> !IsWhitespace(r[|r| - 1])
  {
    if s != [] && IsWhitespace(s[|s| - 1]) then TrimEnd(s[..|s| - 1]) else s
  }

  /** `str::trim`: drops the whitespace at both ends. */
  function Trim(s: string): (r: string)
  {
    TrimEnd(TrimStart(s))
  }

  predicate AllWhitespace(s: string) {
    forall k :: 0 <= k < |s| ==> IsWhitespace(s[k])
  }

  predicate Unpadded(s: string) {
    s != [] ==> !IsWhitespace(s[0]) && !IsWhitespace(s[|s| - 1])
  }

  lemma {:induction false} TrimStartPadded(pre: string, rest: string)
    requires AllWhitespace(pre)
    requires rest != [] ==> !IsWhitespace(rest[0])
    ensures TrimStart(pre + rest) == rest
    decreases |pre|
  {
    if pre == [] {
      assert pre + rest == rest;
    } else {
      assert (pre + rest)[1..] == pre[1..] + rest;
      TrimStartPadded(pre[1..], rest);
    }
  }

  lemma {:induction false} TrimEndPadded(core: string, post: string)
    requires AllWhitespace(post)
    requires core != [] ==> !IsWhitespace(core[|core| - 1])
    ensures TrimEnd(core + post) == core
    decreases |post|
  {
    if post == [] {
      assert core + post == core;
    } else {
      assert (core + post)[..|core + post| - 1] == core + post[..|post| - 1];
      TrimEndPadded(core, post[..|post| - 1]);
    }
  }

  /**
    `Trim` removes exactly the surrounding whitespace: a string with no
    whitespace at its ends, padded with whitespace on both sides, trims back
    to itself.
  */
  lemma TrimPadded(pre: string, core: string, post: string)
    requires AllWhitespace(pre) && AllWhitespace(post) && Unpadded(core)
    ensures Trim(pre + core + post) == core
  {
    if core == [] {
      var all := pre + core + post;
      assert all + [] == all;
      assert AllWhitespace(all) by {
        forall k | 0 <= k < |all| ensures IsWhitespace(all[k]) {
          if k < |pre| { assert all[k] == pre[k]; } else { assert all[k] == post[k - |pre|]; }
        }
      }
      TrimStartPadded(all, []);
    } else {
      assert pre + core + post == pre + (core + post);
      TrimStartPadded(pre, core + post);
      TrimEndPadded(core, post);
    }
  }

  /** The result of `Trim` has no whitespace at its ends, and trimming it again changes nothing. */
  lemma TrimIdempotent(s: string)
    ensures Unpadded(Trim(s))
    ensures Trim(Trim(s)) == Trim(s)
  {
    var t := TrimStart(s);
    var r := TrimEnd(t);
    assert Unpadded(r) by {
      if r != [] {
        assert r == t[..|r|] && r[0] == t[0];
      }
    }
    assert TrimStart(r) == r;
    assert TrimEnd(r) == r;
  }

  /** Number of bytes of a character in UTF-8. */
  function Utf8Width(c: char): (w: nat)
    ensures 1 <= w <= 4
    ensures (c as int < 0x80) <==> w == 1
  {
    if c as int < 0x80 then 1
    else if c as int < 0x800 then 2
    else if c as int < 0x10000 then 3
    else 4
  }

  /** `str::len`: the length of the string in UTF-8 bytes. */
  function Utf8Len(s: string): (n: nat)
    ensures |s| <= n <= 4 * |s|
    ensures (forall k :: 0 <= k < |s| ==> s[k] as int < 0x80) ==> n == |s|
  {
    if s == [] then 0 else Utf8Width(s[0]) + Utf8Len(s[1..])
  }

  predicate IsDigit(c: char) {
    '0' <= c <= '9'
  }

  predicate AllDigits(s: string) {
    forall k :: 0 <= k < |s| ==> IsDigit(s[k])
  }

  /** Value of a string of decimal digits, most significant first. */
  function DigitsValue(s: string): nat
    requires AllDigits(s)
  {
    if s == [] then 0
    else DigitsValue(s[..|s| - 1]) * 10 + (s[|s| - 1] as int - '0' as int)
  }

  /**
    The value of a prefix never exceeds the value of the whole string, so a
    value that overflows after some digit still overflows at the end.
  */
  lemma {:induction false} PrefixValue(s: string, k: nat)
    requires AllDigits(s) && k <= |s|
    ensures AllDigits(s[..k]) && DigitsValue(s[..k]) <= DigitsValue(s)
    decreases |s|
  {
    if k < |s| {
      var front := s[..|s| - 1];
      assert s[..k] == front[..k];
      PrefixValue(front, k);
    } else {
      assert s[..k] == s;
    }
  }

  /**
    `str::parse::<u32>`: an optional `+`, then one or more ASCII digits whose
    value is at most `u32::MAX`. Leading zeros are allowed; `-` is refused.
    The library checks for overflow after every digit; by `PrefixValue`,
    checking the final value once gives the same answer.
  */
  function ParseU32(s: string): (r: Option<nat>)
    ensures r.Some? ==> r.value <= U32_MAX
  {
    if s == [] then None
    else
      var digits := if s[0] == '+' then s[1..] else s;
      if digits == [] || !AllDigits(digits) then None
      else if DigitsValue(digits) > U32_MAX then None
      else Some(DigitsValue(digits))
  }

  /**
    Decimal rendering of a natural number, as `{}` formats it: no padding.
    The board display pads row numbers to two columns (`{:2}`); this is the
    unpadded form that a player types.
  */
  function Decimal(n: nat): (r: string)
    ensures r != [] && AllDigits(r) && DigitsValue(r) == n
    ensures r[0] != '0' || n == 0
  {
    var last := [('0' as int + n % 10) as char];
    if n < 10 then last
    else
      var front := Decimal(n / 10);
      assert (front + last)[..|front + last| - 1] == front;
      front + last
  }

  /** Parsing the decimal rendering gives the number back, with or without a leading `+`. */
  lemma ParseDecimal(n: nat)
    requires n <= U32_MAX
    ensures ParseU32(Decimal(n)) == Some(n)
    ensures ParseU32(['+'] + Decimal(n)) == Some(n)
  {
    var d := Decimal(n);
    assert d[0] != '+';
    assert (['+'] + d)[1..] == d;
  }

  /** Leading zeros do not change the parsed value. */
  lemma {:induction false} LeadingZeros(s: string)
    requires AllDigits(s)
    ensures AllDigits(['0'] + s) && DigitsValue(['0'] + s) == DigitsValue(s)
    decreases |s|
  {
    if s != [] {
      var z := ['0'] + s;
      assert z[..|z| - 1] == ['0'] + s[..|s| - 1];
      LeadingZeros(s[..|s| - 1]);
    }
  }

  /** A value above `u32::MAX` is refused, with or without a leading `+`. */
  lemma ParseU32Overflow(d: string)
    requires d != [] && AllDigits(d) && DigitsValue(d) > U32_MAX
    ensures ParseU32(d) == None
    ensures ParseU32(['+'] + d) == None
  {
    assert d[0] != '+';
    assert (['+'] + d)[1..] == d;
  }

  predicate AllZeros(s: string) {
    forall k :: 0 <= k < |s| ==> s[k] == '0'
  }

  /** A digit string without a redundant leading zero is the decimal rendering of its value. */
  lemma {:induction false} DecimalOfCanonical(d: string)
    requires d != [] && AllDigits(d) && (d[0] != '0' || |d| == 1)
    ensures d == Decimal(DigitsValue(d))
    decreases |d|
  {
    var v := DigitsValue(d);
    if |d| > 1 {
      var front := d[..|d| - 1];
      var last := d[|d| - 1] as int - '0' as int;
      DecimalOfCanonical(front);
      var f := DigitsValue(front);
      assert front[0] == d[0];
      assert f != 0;
      assert v == f * 10 + last && 0 <= last < 10;
      assert v / 10 == f && v % 10 == last;
      assert d == front + [d[|d| - 1]];
    }
  }

  /** Any digit string is some leading zeros followed by a digit string without a redundant leading zero, of the same value. */
  lemma {:induction false} StripZeros(d: string) returns (zeros: string, core: string)
    requires d != [] && AllDigits(d)
    ensures AllZeros(zeros) && d == zeros + core
    ensures core != [] && AllDigits(core) && (core[0] != '0' || |core| == 1)
    ensures DigitsValue(core) == DigitsValue(d)
    decreases |d|
  {
    if d[0] == '0' && |d| > 1 {
      var rest := d[1..];
      assert AllDigits(rest) by {
        forall k | 0 <= k < |rest| ensures IsDigit(rest[k]) { assert rest[k] == d[k + 1]; }
      }
      var z;
      z, core := StripZeros(rest);
      zeros := ['0'] + z;
      assert AllZeros(zeros) by {
        forall k | 0 < k < |zeros| ensures zeros[k] == '0' { assert zeros[k] == z[k - 1]; }
      }
      assert d == ['0'] + rest;
      assert zeros + core == ['0'] + (z + core);
      LeadingZeros(rest);
    } else {
      zeros, core := [], d;
    }
  }

  /** An accepted string is an optional `+` followed by the digits whose value it parses to. */
  lemma ParseU32Sign(s: string) returns (sign: string, digits: string)
    requires ParseU32(s).Some?
    ensures sign == [] || sign == "+"
    ensures s == sign + digits && digits != [] && AllDigits(digits)
    ensures ParseU32(s) == Some(DigitsValue(digits))
  {
    digits := if s[0] == '+' then s[1..] else s;
    sign := if s[0] == '+' then "+" else [];
  }

  /**
    Every string `str::parse::<u32>` accepts is an optional `+`, then zeros,
    then the decimal rendering of the value it parses to: the converse of
    `ParseDecimal`.
  */
  lemma ParseU32Form(s: string) returns (sign: string, zeros: string)
    requires ParseU32(s).Some?
    ensures sign == [] || sign == "+"
    ensures AllZeros(zeros)
    ensures s == sign + zeros + Decimal(ParseU32(s).value)
  {
    var digits, core;
    sign, digits := ParseU32Sign(s);
    zeros, core := StripZeros(digits);
    DecimalOfCanonical(core);
    assert sign + zeros + core == sign + (zeros + core);
  }

  /** What `str::parse::<u32>` refuses: the empty string, a lone sign, a `-`, and any non-digit after the sign. */
  lemma ParseU32Refuses(s: string)
    ensures s == [] || s == "+" ==> ParseU32(s) == None
    ensures s != [] && s[0] == '-' ==> ParseU32(s) == None
    ensures (exists k :: 0 < k < |s| && !IsDigit(s[k])) ==> ParseU32(s) == None
  {
    if s != [] && exists k :: 0 < k < |s| && !IsDigit(s[k]) {
      var k :| 0 < k < |s| && !IsDigit(s[k]);
      if s[0] == '+' {
        assert s[1..][k - 1] == s[k];
      }
    }
  }
}
